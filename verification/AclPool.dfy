/**
 * The access control list (core/rtw_ap.c): a fixed pool of sixteen nodes, the
 * used ones on a queue.  It is a set of at most sixteen addresses.
 */
module AclPool {
  import opened Lists

  const NUM_ACL: nat := 16
  const BROADCAST: nat := 0xFFFF_FFFF_FFFF

  datatype Node = Node(addr: nat, valid: bool)

  datatype Mode = Disabled | AcceptUnlessListed | DenyUnlessListed

  // ------------------------------------------------------------------
  // What the list of addresses goes through
  // ------------------------------------------------------------------

  datatype Op = Add(addr: nat) | Remove(addr: nat) | Clear

  function Apply(xs: seq<nat>, op: Op): seq<nat> {
    match op
    case Add(a) => if a in xs || |xs| >= NUM_ACL then xs else xs + [a]
    case Remove(a) => if a == BROADCAST then [] else Without(xs, a)
    case Clear => []
  }

  function Run(xs: seq<nat>, ops: seq<Op>): seq<nat> {
    if ops == [] then xs else Apply(Run(xs, ops[..|ops| - 1]), ops[|ops| - 1])
  }

  // The same on a plain set with a capacity.
  function ApplySet(s: set<nat>, op: Op): set<nat> {
    match op
    case Add(a) => if |s| >= NUM_ACL then s else s + {a}
    case Remove(a) => if a == BROADCAST then {} else s - {a}
    case Clear => {}
  }

  function RunSet(s: set<nat>, ops: seq<Op>): set<nat> {
    if ops == [] then s else ApplySet(RunSet(s, ops[..|ops| - 1]), ops[|ops| - 1])
  }

  function Members(xs: seq<nat>): set<nat> {
    set x | x in xs
  }

  lemma {:induction false} MembersSize(xs: seq<nat>)
    requires Distinct(xs)
    ensures |Members(xs)| == |xs|
  {
    if xs != [] {
      var front, last := xs[..|xs| - 1], xs[|xs| - 1];
      MembersSize(front);
      assert Members(xs) == Members(front) + {last};
      assert last !in Members(front);
    }
  }

  lemma StepRefinesSet(xs: seq<nat>, op: Op)
    requires Distinct(xs) && |xs| <= NUM_ACL
    ensures var ys := Apply(xs, op);
            Distinct(ys) && |ys| <= NUM_ACL && Members(ys) == ApplySet(Members(xs), op)
  {
    MembersSize(xs);
    match op
    case Add(a) =>
      if a in xs {
        assert Members(xs) + {a} == Members(xs);
      } else {
        assert Members(xs + [a]) == Members(xs) + {a};
      }
    case Remove(a) =>
      WithoutMembers(xs, a);
      WithoutDistinct(xs, a);
    case Clear =>
  }

  // Over every sequence of operations the list is the capacity-bounded set.
  lemma {:induction false} RunRefinesSet(xs: seq<nat>, ops: seq<Op>)
    requires Distinct(xs) && |xs| <= NUM_ACL
    ensures var ys := Run(xs, ops);
            Distinct(ys) && |ys| <= NUM_ACL && Members(ys) == RunSet(Members(xs), ops)
  {
    if ops != [] {
      RunRefinesSet(xs, ops[..|ops| - 1]);
      StepRefinesSet(Run(xs, ops[..|ops| - 1]), ops[|ops| - 1]);
    }
  }

  // The list keeps the order of arrival: an addition goes to the end, and a
  // removal closes up, wherever the address stood.
  lemma OrderKept(xs: seq<nat>, ys: seq<nat>, a: nat)
    requires Distinct(xs + [a] + ys)
    ensures a != BROADCAST ==> Apply(xs + [a] + ys, Remove(a)) == xs + ys
    ensures |xs| < 16 && a !in xs ==> Apply(xs, Add(a)) == xs + [a]
    ensures |xs| >= 16 ==> Apply(xs, Add(a)) == xs
    ensures Apply(xs + [a] + ys, Add(a)) == xs + [a] + ys
  {
    Between(xs, a, ys);
    assert (xs + [a] + ys)[|xs|] == a;
    assert xs + ([a] + ys) == xs + [a] + ys;
    WithoutMiddle(xs, a, ys);
  }

  // ------------------------------------------------------------------
  // The pool
  // ------------------------------------------------------------------

  ghost predicate InPool(node: seq<Node>, queue: seq<nat>) {
    |node| == NUM_ACL && forall i | 0 <= i < |queue| :: queue[i] < NUM_ACL
  }

  ghost function AddrsOf(node: seq<Node>, queue: seq<nat>): (r: seq<nat>)
    requires InPool(node, queue)
    ensures |r| == |queue|
  {
    if queue == [] then []
    else AddrsOf(node, queue[..|queue| - 1]) + [node[queue[|queue| - 1]].addr]
  }

  lemma {:induction false} AddrAt(node: seq<Node>, queue: seq<nat>, i: nat)
    requires InPool(node, queue) && i < |queue|
    ensures AddrsOf(node, queue)[i] == node[queue[i]].addr
  {
    if i < |queue| - 1 {
      AddrAt(node, queue[..|queue| - 1], i);
    }
  }

  // The addresses do not depend on nodes off the queue, nor on the flags.
  lemma {:induction false} AddrsFrame(node: seq<Node>, other: seq<Node>, queue: seq<nat>)
    requires InPool(node, queue) && |other| == NUM_ACL
    requires forall i | 0 <= i < |queue| :: other[queue[i]].addr == node[queue[i]].addr
    ensures AddrsOf(other, queue) == AddrsOf(node, queue)
  {
    if queue != [] {
      AddrsFrame(node, other, queue[..|queue| - 1]);
    }
  }

  lemma Appended(node: seq<Node>, queue: seq<nat>, i: nat, addr: nat)
    requires InPool(node, queue) && i < NUM_ACL && i !in queue
    ensures InPool(node[i := Node(addr, true)], queue + [i])
    ensures AddrsOf(node[i := Node(addr, true)], queue + [i]) == AddrsOf(node, queue) + [addr]
  {
    var other := node[i := Node(addr, true)];
    assert forall k | 0 <= k < |queue| :: queue[k] in queue;
    AddrsFrame(node, other, queue);
    assert (queue + [i])[..|queue|] == queue;
  }

  // The addresses kept of the first i on the queue.
  ghost function KeptAddrs(node: seq<Node>, queue: seq<nat>, i: nat, addr: nat): seq<nat>
    requires InPool(node, queue) && i <= |queue|
  {
    if addr == BROADCAST then [] else Without(AddrsOf(node, queue[..i]), addr)
  }

  lemma KeptNext(node: seq<Node>, keep: seq<nat>, queue: seq<nat>, i: nat, addr: nat)
    requires InPool(node, queue) && InPool(node, keep) && i < |queue|
    requires AddrsOf(node, keep) == KeptAddrs(node, queue, i, addr)
    ensures if addr == BROADCAST || node[queue[i]].addr == addr
            then KeptAddrs(node, queue, i + 1, addr) == AddrsOf(node, keep)
            else KeptAddrs(node, queue, i + 1, addr) == AddrsOf(node, keep + [queue[i]])
  {
    assert queue[..i + 1][..i] == queue[..i];
    assert (keep + [queue[i]])[..|keep|] == keep;
    var xs, a := AddrsOf(node, queue[..i]), node[queue[i]].addr;
    assert (xs + [a])[..|xs|] == xs;
  }

  class Pool {
    const node: array<Node>
    var queue: seq<nat>
    var num: int
    var mode: Mode

    // The queue holds exactly the valid nodes, and `num` counts them.
    ghost predicate Linked()
      reads this, node
    {
      && node.Length == NUM_ACL && num == |queue| && Distinct(queue)
      && InPool(node[..], queue)
      && (forall i | 0 <= i < NUM_ACL :: node[i].valid <==> i in queue)
    }

    // And no two of them have one address.
    ghost predicate Valid()
      reads this, node
    {
      Linked() && Distinct(AddrsOf(node[..], queue))
    }

    ghost function Addrs(): seq<nat>
      requires Valid()
      reads this, node
    {
      AddrsOf(node[..], queue)
    }

    constructor ()
      ensures Valid() && Addrs() == [] && mode == Disabled && fresh(node)
    {
      node := new Node[NUM_ACL](_ => Node(0, false));
      queue, num, mode := [], 0, Disabled;
    }

    method Search(addr: nat) returns (existed: bool)
      requires Valid()
      ensures existed <==> addr in Addrs()
    {
      existed := false;
      var i := 0;
      while i < |queue|
        invariant 0 <= i <= |queue| && !existed
        invariant forall j | 0 <= j < i :: Addrs()[j] != addr
      {
        AddrAt(node[..], queue, i);
        if node[queue[i]].addr == addr && node[queue[i]].valid {
          return true;
        }
        i := i + 1;
      }
    }

    // The first free node; there is one whenever the count is below sixteen.
    method FindFree() returns (i: nat)
      requires Valid() && num < NUM_ACL
      ensures i < NUM_ACL && !node[i].valid
    {
      i := 0;
      while i < NUM_ACL
        invariant i <= NUM_ACL && forall j | 0 <= j < i :: node[j].valid
      {
        if !node[i].valid {
          return;
        }
        i := i + 1;
      }
      AllUsed(queue, NUM_ACL);
      assert false;
    }

    /**
     * The result is -1 exactly when the address is absent and the pool full.
     */
    method AddSta(addr: nat) returns (ret: int)
      requires Valid()
      modifies this, node
      ensures Valid() && Addrs() == Apply(old(Addrs()), Add(addr)) && mode == old(mode)
      ensures ret == if addr !in old(Addrs()) && |old(Addrs())| == NUM_ACL then -1 else 0
    {
      DistinctBelow(queue, NUM_ACL);
      var existed := Search(addr);
      if existed {
        return 0;
      }
      if num >= NUM_ACL {
        return -1;
      }
      var i := FindFree();
      Use(i, addr);
      ret := 0;
    }

    method Use(i: nat, addr: nat)
      requires Valid() && i < NUM_ACL && !node[i].valid && addr !in Addrs()
      modifies this`queue, this`num, node
      ensures Valid() && Addrs() == old(Addrs()) + [addr]
    {
      ghost var before, q := node[..], queue;
      node[i] := Node(addr, true);
      queue := queue + [i];
      num := num + 1;
      assert node[..] == before[i := Node(addr, true)];
      Appended(before, q, i, addr);
    }

    ghost predicate SameAddrs(before: seq<Node>)
      reads node
    {
      |before| == node.Length && forall i | 0 <= i < node.Length :: node[i].addr == before[i].addr
    }

    method Unlink(id: nat, ghost xs: seq<nat>, ghost ys: seq<nat>, ghost before: seq<Node>)
      requires Linked() && SameAddrs(before) && queue == xs + ([id] + ys)
      modifies this`queue, this`num, node
      ensures Linked() && SameAddrs(before) && queue == xs + ys
    {
      assert queue[|xs|] == id && queue == xs + [id] + ys;
      Between(xs, id, ys);
      node[id] := node[id].(valid := false);
      WithoutMiddle(xs, id, ys);
      WithoutMembers(queue, id);
      WithoutDistinct(queue, id);
      ghost var q := queue;
      queue := Without(queue, id);
      num := num - 1;
      assert forall k | 0 <= k < |queue| :: queue[k] in queue && queue[k] in q;
    }

    // A node met on the queue is valid, so it goes.
    method UnlinkMet(q: seq<nat>, i: nat, ghost keep: seq<nat>, ghost before: seq<Node>)
      requires Linked() && SameAddrs(before) && i < |q| && queue == keep + q[i..]
      modifies this`queue, this`num, node
      ensures Linked() && SameAddrs(before) && queue == keep + q[i + 1..]
    {
      var id := q[i];
      assert queue[|keep|] == id;
      if node[id].valid {
        assert q[i..] == [id] + q[i + 1..];
        Unlink(id, keep, q[i + 1..], before);
      }
    }

    // One round of the removal loop, with `keep` before and q[i..] from here on.
    method RemoveOne(addr: nat, q: seq<nat>, i: nat, ghost keep: seq<nat>, ghost before: seq<Node>)
      returns (ghost more: seq<nat>)
      requires Linked() && SameAddrs(before) && InPool(before, q) && i < |q|
      requires queue == keep + q[i..] && InPool(before, keep) && AddrsOf(before, keep) == KeptAddrs(before, q, i, addr)
      modifies this`queue, this`num, node
      ensures Linked() && SameAddrs(before) && queue == more + q[i + 1..] && InPool(before, more)
      ensures AddrsOf(before, more) == KeptAddrs(before, q, i + 1, addr)
    {
      KeptNext(before, keep, q, i, addr);
      if addr == BROADCAST || node[q[i]].addr == addr {
        UnlinkMet(q, i, keep, before);
        more := keep;
      } else {
        more := keep + [q[i]];
        assert more + q[i + 1..] == keep + q[i..];
      }
    }

    // Removing the broadcast address empties the list.
    method RemoveSta(addr: nat)
      requires Valid()
      modifies this`queue, this`num, node
      ensures Valid() && Addrs() == Apply(old(Addrs()), Remove(addr))
    {
      var q, i := queue, 0;
      ghost var before, keep := node[..], [];
      while i < |q|
        invariant 0 <= i <= |q| && Linked() && SameAddrs(before)
        invariant queue == keep + q[i..] && InPool(before, keep)
        invariant AddrsOf(before, keep) == KeptAddrs(before, q, i, addr)
      {
        keep := RemoveOne(addr, q, i, keep, before);
        i := i + 1;
      }
      assert q[..i] == q && queue == keep;
      WithoutDistinct(old(Addrs()), addr);
      AddrsFrame(before, node[..], queue);
    }

    method ClearAll()
      requires Valid()
      modifies this, node
      ensures Valid() && Addrs() == Apply(old(Addrs()), Clear) && num == 0 && mode == Disabled
    {
      var q, i := queue, 0;
      ghost var before := node[..];
      while i < |q|
        invariant 0 <= i <= |q| && Linked() && SameAddrs(before) && queue == [] + q[i..]
      {
        UnlinkMet(q, i, [], before);
        i := i + 1;
      }
      mode := Disabled;
    }
  }

  lemma Between(xs: seq<nat>, id: nat, ys: seq<nat>)
    requires Distinct(xs + [id] + ys)
    ensures id !in xs && id !in ys
  {
    var q := xs + [id] + ys;
    assert forall i | 0 <= i < |xs| :: q[i] == xs[i];
    assert forall i | 0 <= i < |ys| :: q[|xs| + 1 + i] == ys[i];
    assert q[|xs|] == id;
  }

  // If all of 0..n are on the queue it is at least n long.
  lemma {:induction false} AllUsed(queue: seq<nat>, n: nat)
    requires forall i | 0 <= i < n :: i in queue
    ensures |queue| >= n
    decreases n
  {
    if n > 0 {
      assert n - 1 in queue;
      var k :| 0 <= k < |queue| && queue[k] == n - 1;
      var rest := queue[..k] + queue[k + 1..];
      forall i | 0 <= i < n - 1 ensures i in rest {
        assert i in queue;
        var j :| 0 <= j < |queue| && queue[j] == i;
        assert rest[if j < k then j else j - 1] == i;
      }
      AllUsed(rest, n - 1);
    }
  }
}
