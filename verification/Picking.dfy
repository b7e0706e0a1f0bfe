/** The positions that a pass over a list picks, in order. */
module Picking {

  /** `at` lists the positions below `n` that `chosen` picks, lowest first. */
  ghost predicate Picks(at: seq<nat>, n: nat, chosen: nat -> bool) {
    && (forall i, j :: 0 <= i < j < |at| ==> at[i] < at[j])
    && (forall p: nat :: p in at <==> p < n && chosen(p))
  }

  /** There is such a list. */
  ghost function Picked(n: nat, chosen: nat -> bool): seq<nat> {
    if n == 0 then [] else Picked(n - 1, chosen) + if chosen(n - 1) then [n - 1] else []
  }

  lemma {:induction false} PickedIsIt(n: nat, chosen: nat -> bool)
    ensures Picks(Picked(n, chosen), n, chosen)
  {
    if n == 0 {
    } else {
      PickedIsIt(n - 1, chosen);
      var before := Picked(n - 1, chosen);
      assert forall i :: 0 <= i < |before| ==> before[i] in before;
      assert forall p: nat :: p in Picked(n, chosen) <==> p in before || (p == n - 1 && chosen(p));
    }
  }

  lemma {:induction false} PickedAlike(n: nat, chosen: nat -> bool, other: nat -> bool)
    requires forall p: nat :: p < n ==> chosen(p) == other(p)
    ensures Picked(n, chosen) == Picked(n, other)
  {
    if n == 0 {
    } else {
      PickedAlike(n - 1, chosen, other);
    }
  }

  function Shifted(at: seq<nat>, base: nat): (r: seq<nat>)
    ensures |r| == |at| && forall m :: 0 <= m < |r| ==> r[m] == base + at[m]
  {
    seq(|at|, m requires 0 <= m < |at| => base + at[m])
  }
}
