/** The NAT2.5 bridge database (core/rtw_br_ext.c) on values: what a bucket chain holds
    and what each operation does to it. */
module Nat25Db {
  import opened ByteSeqs

  type Mac = s: seq<Byte> | |s| == 6 witness [0, 0, 0, 0, 0, 0]

  type Ip = s: seq<Byte> | |s| == 4 witness [0, 0, 0, 0]

  const ZERO_MAC: Mac := [0, 0, 0, 0, 0, 0]
  const ZERO_IP: Ip := [0, 0, 0, 0]

  const HASH_SIZE := 16
  const AGEING_TIME := 300
  const MAX_NETWORK_ADDR_LEN := 17

  /** A network address record: one type byte and sixteen address bytes. */
  type Key = s: seq<Byte> | |s| == MAX_NETWORK_ADDR_LEN
    witness [0, 0, 0, 0, 0, 0, 0, 0, 0, 0, 0, 0, 0, 0, 0, 0, 0]

  /** What the build decides. `equalIsZero` is the polarity of the comparison routine that
      the database code negates: true when it returns zero on equal bytes, as the database
      code expects, false when it returns true on equal bytes, as os_dep/ defines it. */
  datatype Env = Env(equalIsZero: bool, hz: nat)

  /** The outcome of the negated comparison `!memcmp(a, b)` under either polarity. */
  predicate Matches(env: Env, a: Key, b: Key) {
    if env.equalIsZero then a == b else a != b
  }

  // ---------------------------------------------------------------- network addresses

  const ZEROS16: seq<Byte> := [0, 0, 0, 0, 0, 0, 0, 0, 0, 0, 0, 0, 0, 0, 0, 0]

  function Ipv4Key(ip: seq<Byte>): (k: Key)
    requires |ip| == 4
  {
    [1] + ZEROS16[..6] + ip + ZEROS16[..6]
  }

  function Ipv6Key(ip: seq<Byte>): (k: Key)
    requires |ip| == 16
  {
    [2] + ip
  }

  function PppoeKey(acMac: seq<Byte>, sid: seq<Byte>): (k: Key)
    requires |acMac| == 6 && |sid| == 2
  {
    [5] + sid + acMac + ZEROS16[..8]
  }

  /** No two clients share a record: addresses of one family map to one record only when
      they are the same address, and the two families never meet. */
  lemma KeysAreInjective(ip: seq<Byte>, ip': seq<Byte>, ac: seq<Byte>, ac': seq<Byte>, sid: seq<Byte>, sid': seq<Byte>)
    requires |ip| == |ip'| == 4 && |ac| == |ac'| == 6 && |sid| == |sid'| == 2
    ensures Ipv4Key(ip) == Ipv4Key(ip') <==> ip == ip'
    ensures PppoeKey(ac, sid) == PppoeKey(ac', sid') <==> ac == ac' && sid == sid'
    ensures Ipv4Key(ip) != PppoeKey(ac, sid)
  {
    var k, k' := Ipv4Key(ip), Ipv4Key(ip');
    assert k[7..11] == ip && k'[7..11] == ip';
    var p, p' := PppoeKey(ac, sid), PppoeKey(ac', sid');
    assert p[1..3] == sid && p'[1..3] == sid';
    assert p[3..9] == ac && p'[3..9] == ac';
    assert k[0] == 1 && p[0] == 5;
  }

  /** Bitwise exclusive or. */
  function Xor(a: nat, b: nat): nat
    decreases a + b
  {
    if a == 0 && b == 0 then 0 else (a % 2 + b % 2) % 2 + 2 * Xor(a / 2, b / 2)
  }

  function XorAll(s: seq<Byte>): nat {
    if s == [] then 0 else Xor(XorAll(s[..|s| - 1]), s[|s| - 1])
  }

  /** The bucket of a network address: the exclusive or of the bytes its family uses. */
  function Hash(key: Key): (h: nat)
    ensures h < HASH_SIZE
  {
    var used :=
      if key[0] == 1 then key[7..11]
      else if key[0] == 3 then key[1..11]
      else if key[0] == 4 then key[1..4]
      else if key[0] == 5 then key[0..9]
      else if key[0] == 2 then key[1..17]
      else key;
    XorAll(used) % HASH_SIZE
  }

  lemma Ipv6Apart(ip: seq<Byte>, ip': seq<Byte>, ip4: seq<Byte>, ac: seq<Byte>, sid: seq<Byte>)
    requires |ip| == |ip'| == 16 && |ip4| == 4 && |ac| == 6 && |sid| == 2
    ensures Ipv6Key(ip) == Ipv6Key(ip') <==> ip == ip'
    ensures Ipv6Key(ip) != Ipv4Key(ip4) && Ipv6Key(ip) != PppoeKey(ac, sid)
  {
    assert Ipv6Key(ip)[1..] == ip && Ipv6Key(ip')[1..] == ip';
    assert Ipv6Key(ip)[0] == 2 && Ipv4Key(ip4)[0] == 1 && PppoeKey(ac, sid)[0] == 5;
  }

  /** Two numbers agree in their low `k` bits. */
  predicate SameLow(a: nat, b: nat, k: nat) {
    k == 0 || (a % 2 == b % 2 && SameLow(a / 2, b / 2, k - 1))
  }

  lemma FourBits(a: nat)
    ensures a % 16 == a % 2 + 2 * (a / 2 % 2) + 4 * (a / 2 / 2 % 2) + 8 * (a / 2 / 2 / 2 % 2)
  {
    var a1, a2, a3 := a / 2, a / 2 / 2, a / 2 / 2 / 2;
    assert a == 2 * a1 + a % 2 && a1 == 2 * a2 + a1 % 2 && a2 == 2 * a3 + a2 % 2 && a3 == 2 * (a3 / 2) + a3 % 2;
    Digits(a, a3 / 2, a % 2 + 2 * (a1 % 2) + 4 * (a2 % 2) + 8 * (a3 % 2));
  }

  lemma Digits(a: nat, q: nat, r: nat)
    requires a == 16 * q + r && r < 16
    ensures a % 16 == r
  {
  }

  lemma SameLowFour(a: nat, b: nat)
    ensures SameLow(a, b, 4) <==> a % 16 == b % 16
  {
    FourBits(a);
    FourBits(b);
    var a1, a2, a3, b1, b2, b3 := a / 2, a / 2 / 2, a / 2 / 2 / 2, b / 2, b / 2 / 2, b / 2 / 2 / 2;
    SameLowStep(a, b, 4);
    SameLowStep(a1, b1, 3);
    SameLowStep(a2, b2, 2);
    SameLowStep(a3, b3, 1);
    SameDigits(a % 2, a1 % 2, a2 % 2, a3 % 2, b % 2, b1 % 2, b2 % 2, b3 % 2);
  }

  lemma SameLowStep(a: nat, b: nat, k: nat)
    requires k > 0
    ensures SameLow(a, b, k) <==> a % 2 == b % 2 && SameLow(a / 2, b / 2, k - 1)
  {
  }

  lemma SameDigits(a0: nat, a1: nat, a2: nat, a3: nat, b0: nat, b1: nat, b2: nat, b3: nat)
    requires a0 < 2 && a1 < 2 && a2 < 2 && a3 < 2 && b0 < 2 && b1 < 2 && b2 < 2 && b3 < 2
    ensures a0 + 2 * a1 + 4 * a2 + 8 * a3 == b0 + 2 * b1 + 4 * b2 + 8 * b3 <==> a0 == b0 && a1 == b1 && a2 == b2 && a3 == b3
  {
  }

  lemma {:induction false} XorCommutes(a: nat, b: nat)
    ensures Xor(a, b) == Xor(b, a)
    decreases a + b
  {
    if a + b > 0 {
      XorCommutes(a / 2, b / 2);
    }
  }

  /** The low bits of an exclusive or follow either operand. */
  lemma {:induction false} XorMoves(a: nat, b: nat, c: nat, k: nat)
    ensures SameLow(Xor(a, c), Xor(b, c), k) <==> SameLow(a, b, k)
  {
    if k > 0 {
      XorMoves(a / 2, b / 2, c / 2, k - 1);
      XorBits(a, c);
      XorBits(b, c);
      BitMoves(a % 2, b % 2, c % 2);
      SameLowStep(Xor(a, c), Xor(b, c), k);
      SameLowStep(a, b, k);
    }
  }

  lemma BitMoves(a: nat, b: nat, c: nat)
    requires a < 2 && b < 2 && c < 2
    ensures (a + c) % 2 == (b + c) % 2 <==> a == b
  {
  }

  lemma XorBits(a: nat, b: nat)
    ensures Xor(a, b) % 2 == (a % 2 + b % 2) % 2 && Xor(a, b) / 2 == Xor(a / 2, b / 2)
  {
  }

  lemma {:induction false} XorAllMoves(s: seq<Byte>, i: nat, b: Byte)
    requires i < |s|
    ensures SameLow(XorAll(s[i := b]), XorAll(s), 4) <==> SameLow(b, s[i], 4)
  {
    var n := |s| - 1;
    var s' := s[i := b];
    if i == n {
      assert s'[..n] == s[..n];
      XorCommutes(XorAll(s[..n]), s[n]);
      XorCommutes(XorAll(s[..n]), b);
      XorMoves(b, s[n], XorAll(s[..n]), 4);
    } else {
      assert s'[..n] == s[..n][i := b];
      XorAllMoves(s[..n], i, b);
      XorMoves(XorAll(s'[..n]), XorAll(s[..n]), s[n], 4);
    }
  }

  /** The bucket depends on every byte of an address: two IPv4 addresses, or two sessions of one
      concentrator, that differ in one byte share a bucket exactly when the difference lies above
      its low four bits. */
  lemma HashSpreads(ip: seq<Byte>, i: nat, ac: seq<Byte>, sid: seq<Byte>, j: nat, b: Byte)
    requires |ip| == 4 && i < 4 && |ac| == 6 && |sid| == 2 && j < 2
    ensures Hash(Ipv4Key(ip[i := b])) == Hash(Ipv4Key(ip)) <==> b % 16 == ip[i] % 16
    ensures Hash(PppoeKey(ac, sid[j := b])) == Hash(PppoeKey(ac, sid)) <==> b % 16 == sid[j] % 16
  {
    assert Ipv4Key(ip[i := b])[7..11] == ip[i := b] && Ipv4Key(ip)[7..11] == ip;
    XorAllMoves(ip, i, b);
    SameLowFour(XorAll(ip[i := b]), XorAll(ip));
    SameLowFour(b, ip[i]);
    SameLowFour(b, sid[j]);
    var k, k' := PppoeKey(ac, sid), PppoeKey(ac, sid[j := b]);
    assert k'[0..9] == k[0..9][1 + j := b] && k[0..9][1 + j] == sid[j];
    XorAllMoves(k[0..9], 1 + j, b);
    SameLowFour(XorAll(k'[0..9]), XorAll(k[0..9]));
  }

  // ---------------------------------------------------------------- time

  /** `unsigned long` wraps at this value on a 64-bit kernel. */
  const ULONG_RANGE := 0x1_0000_0000_0000_0000

  /** `time_before_eq(stamp, jiffies - AGEING_TIME * HZ)`: a signed comparison of the wrapped
      difference. Times are tick counts since boot; only their residues matter here. */
  predicate HasExpired(env: Env, stamp: int, now: int) {
    (now - AGEING_TIME * env.hz - stamp) % ULONG_RANGE < ULONG_RANGE / 2
  }

  /** How long a stamp can be compared with the clock before the wrapped difference lies. */
  predicate InWindow(env: Env, stamp: int, now: int) {
    -(ULONG_RANGE / 2) <= now - AGEING_TIME * env.hz - stamp < ULONG_RANGE / 2
  }

  /** Inside the window, expiry is reaching the age limit. */
  lemma ExpiryIsAge(env: Env, stamp: int, now: int)
    requires InWindow(env, stamp, now)
    ensures HasExpired(env, stamp, now) <==> now - stamp >= 300 * env.hz
  {
    var d := now - AGEING_TIME * env.hz - stamp;
    if d >= 0 {
      assert d % ULONG_RANGE == d;
    } else {
      assert (d + ULONG_RANGE) % ULONG_RANGE == d + ULONG_RANGE;
      ModShift(d);
    }
  }

  lemma ModShift(d: int)
    ensures (d + ULONG_RANGE) % ULONG_RANGE == d % ULONG_RANGE
  {
  }

  // ---------------------------------------------------------------- chains

  /** One linked entry, as a value. */
  datatype Rec = Rec(key: Key, mac: Mac, stamp: int, uses: int)

  type Chain = seq<Rec>

  /** One chain per bucket. */
  type Db = s: seq<Chain> | |s| == HASH_SIZE
    witness [[], [], [], [], [], [], [], [], [], [], [], [], [], [], [], []]

  const EMPTY_DB: Db := [[], [], [], [], [], [], [], [], [], [], [], [], [], [], [], []]

  /** The position at which the walk along a chain stops. */
  function FindIndex(env: Env, c: Chain, key: Key): (i: nat)
    ensures i <= |c|
    ensures i < |c| ==> Matches(env, c[i].key, key)
    ensures forall j :: 0 <= j < i ==> !Matches(env, c[j].key, key)
  {
    if c == [] then 0
    else if Matches(env, c[0].key, key) then 0
    else 1 + FindIndex(env, c[1..], key)
  }

  function InsertChain(env: Env, c: Chain, key: Key, mac: Mac, now: int, alloc: bool): Chain {
    var i := FindIndex(env, c, key);
    if i < |c| then c[i := c[i].(mac := mac, stamp := now)]
    else if alloc then [Rec(key, mac, now, 1)] + c
    else c
  }

  function LookupChain(env: Env, c: Chain, key: Key, now: int): Chain {
    var i := FindIndex(env, c, key);
    if i < |c| && !HasExpired(env, c[i].stamp, now) then c[i := c[i].(uses := c[i].uses + 1)] else c
  }

  function TouchChain(env: Env, c: Chain, key: Key, now: int): Chain {
    var i := FindIndex(env, c, key);
    if i < |c| then c[i := c[i].(stamp := now)] else c
  }

  /** One step of the ageing walk: an expired entry loses a use and goes at zero. */
  function SweepRec(env: Env, r: Rec, now: int): Chain {
    if !HasExpired(env, r.stamp, now) then [r]
    else if r.uses - 1 == 0 then []
    else [r.(uses := r.uses - 1)]
  }

  function SweepChain(env: Env, c: Chain, now: int): Chain {
    if c == [] then [] else SweepChain(env, c[..|c| - 1], now) + SweepRec(env, c[|c| - 1], now)
  }

  /** A sweep removes a record of that address. */
  ghost predicate Lost(env: Env, c: Chain, key: Key, now: int) {
    exists r :: r in c && r.key == key && SweepRec(env, r, now) == []
  }

  lemma SweepChainStep(env: Env, c: Chain, k: nat, now: int)
    requires k < |c|
    ensures SweepChain(env, c[..k + 1], now) == SweepChain(env, c[..k], now) + SweepRec(env, c[k], now)
    ensures c[k..] == [c[k]] + c[k + 1..]
  {
    assert c[..k + 1][..k] == c[..k];
  }

  // ---------------------------------------------------------------- operations and runs

  datatype Event =
    | Insert(key: Key, mac: Mac, now: int, alloc: bool)
    | Lookup(key: Key, now: int)
    | Touch(key: Key, now: int)
    | Sweep(now: int)
    | Cleanup

  function Apply(env: Env, db: Db, ev: Event): Db {
    match ev
    case Insert(key, mac, now, alloc) => db[Hash(key) := InsertChain(env, db[Hash(key)], key, mac, now, alloc)]
    case Lookup(key, now) => db[Hash(key) := LookupChain(env, db[Hash(key)], key, now)]
    case Touch(key, now) => db[Hash(key) := TouchChain(env, db[Hash(key)], key, now)]
    case Sweep(now) => seq(HASH_SIZE, i requires 0 <= i < HASH_SIZE => SweepChain(env, db[i], now))
    case Cleanup => EMPTY_DB
  }

  function Run(env: Env, db: Db, evs: seq<Event>): Db {
    if evs == [] then db else Apply(env, Run(env, db, evs[..|evs| - 1]), evs[|evs| - 1])
  }

  /** What a lookup tells its caller: nothing linked, linked but stale, or the client's MAC. */
  datatype Answer = Missing | Stale | Client(mac: Mac)

  function AskChain(env: Env, c: Chain, key: Key, now: int): Answer {
    var i := FindIndex(env, c, key);
    if i == |c| then Missing
    else if HasExpired(env, c[i].stamp, now) then Stale
    else Client(c[i].mac)
  }

  function Ask(env: Env, db: Db, key: Key, now: int): Answer {
    AskChain(env, db[Hash(key)], key, now)
  }
}
