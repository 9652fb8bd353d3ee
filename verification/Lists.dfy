// Lists of station offsets, pool slots and addresses.
module Lists {

  // The members of xs that are in `keep`, in order.
  ghost function Select(xs: seq<nat>, keep: set<nat>): seq<nat> {
    if xs == [] then []
    else
      var front := Select(xs[..|xs| - 1], keep);
      if xs[|xs| - 1] in keep then front + [xs[|xs| - 1]] else front
  }

  ghost predicate Distinct(xs: seq<nat>) {
    forall i, j | 0 <= i < j < |xs| :: xs[i] != xs[j]
  }

  lemma {:induction false} SelectMembers(xs: seq<nat>, keep: set<nat>)
    ensures forall x :: x in Select(xs, keep) <==> x in xs && x in keep
    ensures |Select(xs, keep)| <= |xs|
  {
    if xs != [] {
      SelectMembers(xs[..|xs| - 1], keep);
      assert xs == xs[..|xs| - 1] + [xs[|xs| - 1]];
    }
  }

  lemma {:induction false} SelectDistinct(xs: seq<nat>, keep: set<nat>)
    requires Distinct(xs)
    ensures Distinct(Select(xs, keep))
  {
    if xs != [] {
      SelectDistinct(xs[..|xs| - 1], keep);
      SelectMembers(xs[..|xs| - 1], keep);
    }
  }

  lemma {:induction false} SelectTwice(xs: seq<nat>, a: set<nat>, b: set<nat>)
    ensures Select(Select(xs, a), b) == Select(xs, a * b)
  {
    if xs != [] {
      var front, last := Select(xs[..|xs| - 1], a), xs[|xs| - 1];
      SelectTwice(xs[..|xs| - 1], a, b);
      assert (front + [last])[..|front|] == front;
    }
  }

  lemma {:induction false} DistinctBelow(xs: seq<nat>, n: nat)
    requires Distinct(xs) && forall i | 0 <= i < |xs| :: xs[i] < n
    ensures |xs| <= n
    decreases n
  {
    assert |xs| == 0 || xs[0] < n;
    if n > 0 {
      if k :| 0 <= k < |xs| && xs[k] == n - 1 {
        DistinctBelow(xs[..k] + xs[k + 1..], n - 1);
      } else {
        DistinctBelow(xs, n - 1);
      }
    }
  }

  ghost function Elems(xs: seq<nat>): set<nat> {
    set x | x in xs
  }

  // A list without some of its members.
  function Without(xs: seq<nat>, id: nat): seq<nat> {
    if xs == [] then []
    else
      var front := Without(xs[..|xs| - 1], id);
      if xs[|xs| - 1] == id then front else front + [xs[|xs| - 1]]
  }

  lemma {:induction false} WithoutMembers(xs: seq<nat>, id: nat)
    ensures forall x :: x in Without(xs, id) <==> x in xs && x != id
    ensures |Without(xs, id)| <= |xs|
  {
    if xs != [] {
      WithoutMembers(xs[..|xs| - 1], id);
      assert xs == xs[..|xs| - 1] + [xs[|xs| - 1]];
    }
  }

  lemma {:induction false} WithoutDistinct(xs: seq<nat>, id: nat)
    requires Distinct(xs)
    ensures Distinct(Without(xs, id))
  {
    if xs != [] {
      WithoutDistinct(xs[..|xs| - 1], id);
      WithoutMembers(xs[..|xs| - 1], id);
      var front := Without(xs[..|xs| - 1], id);
      assert forall i | 0 <= i < |front| :: front[i] in front;
    }
  }

  lemma {:induction false} WithoutAbsent(xs: seq<nat>, id: nat)
    requires id !in xs
    ensures Without(xs, id) == xs
  {
    if xs != [] {
      WithoutAbsent(xs[..|xs| - 1], id);
    }
  }

  lemma {:induction false} WithoutMiddle(xs: seq<nat>, id: nat, ys: seq<nat>)
    requires id !in xs && id !in ys
    ensures Without(xs + [id] + ys, id) == xs + ys
  {
    if ys == [] {
      WithoutAbsent(xs, id);
      assert (xs + [id] + ys)[..|xs|] == xs && xs + ys == xs;
    } else {
      var front := ys[..|ys| - 1];
      assert (xs + [id] + ys)[..|xs| + |ys|] == xs + [id] + front;
      WithoutMiddle(xs, id, front);
    }
  }

  ghost function Off(xs: seq<nat>, gone: set<nat>): seq<nat> {
    if xs == [] then []
    else
      var front := Off(xs[..|xs| - 1], gone);
      if xs[|xs| - 1] in gone then front else front + [xs[|xs| - 1]]
  }

  lemma {:induction false} OffNone(xs: seq<nat>)
    ensures Off(xs, {}) == xs
  {
    if xs != [] {
      OffNone(xs[..|xs| - 1]);
    }
  }

  lemma {:induction false} OffMore(xs: seq<nat>, gone: set<nat>, id: nat)
    ensures Without(Off(xs, gone), id) == Off(xs, gone + {id})
  {
    if xs != [] {
      var front, last := Off(xs[..|xs| - 1], gone), xs[|xs| - 1];
      OffMore(xs[..|xs| - 1], gone, id);
      assert (front + [last])[..|front|] == front;
    }
  }

  lemma {:induction false} OffMembers(xs: seq<nat>, gone: set<nat>)
    ensures forall x :: x in Off(xs, gone) <==> x in xs && x !in gone
    ensures Distinct(xs) ==> Distinct(Off(xs, gone))
  {
    if xs != [] {
      OffMembers(xs[..|xs| - 1], gone);
      assert xs == xs[..|xs| - 1] + [xs[|xs| - 1]];
    }
  }
}
