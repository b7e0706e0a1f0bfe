/**
 Dynamic excludes: lists of values by type, and what they are for, a set of pairs (keydb/keydb.go,
 dynamic_excludes.go).
 */
module Excludes {

  type Lists = map<string, seq<string>>

  datatype Update = Update(kind: string, value: string, add: bool)

  function Values(m: Lists, kind: string): seq<string> { if kind in m then m[kind] else [] }

  predicate Changes(m: Lists, u: Update) { u.add != (u.value in Values(m, u.kind)) }

  function WithoutFirst(values: seq<string>, value: string): seq<string> {
    if values == [] then []
    else if values[0] == value then values[1..]
    else [values[0]] + WithoutFirst(values[1..], value)
  }

  function Updated(m: Lists, u: Update): Lists {
    var values := Values(m, u.kind);
    if !Changes(m, u) then m
    else if u.add then m[u.kind := values + [u.value]]
    else
      var rest := WithoutFirst(values, u.value);
      if rest == [] then m - {u.kind} else m[u.kind := rest]
  }

  lemma {:induction false} WithoutFirstAt(values: seq<string>, value: string, index: nat)
    requires index < |values| && values[index] == value && forall i :: 0 <= i < index ==> values[i] != value
    ensures WithoutFirst(values, value) == values[..index] + values[index + 1..]
  {
    if index > 0 {
      WithoutFirstAt(values[1..], value, index - 1);
      assert values[..index] == [values[0]] + values[1..][..index - 1];
    }
  }

  /** The body of the KeyDB transaction, from the decoded current value to the value it would store. */
  method Compute(current: Lists, u: Update) returns (updated: Lists, changed: bool)
    ensures updated == Updated(current, u) && changed == Changes(current, u)
  {
    updated, changed := current, false;
    var values := if u.kind in updated then updated[u.kind] else [];
    var index := -1;
    for i := 0 to |values|
      invariant index == -1 && forall k :: 0 <= k < i ==> values[k] != u.value
    {
      if values[i] == u.value {
        index := i;
        break;
      }
    }
    if u.add && index < 0 {
      updated := updated[u.kind := values + [u.value]];
      changed := true;
    } else if !u.add && index >= 0 {
      WithoutFirstAt(values, u.value, index);
      updated := updated[u.kind := values[..index] + values[index + 1..]];
      if |updated[u.kind]| == 0 {
        updated := updated - {u.kind};
        assert updated == current - {u.kind};
      }
      changed := true;
    }
  }

  // ----- lists refine a set of pairs

  ghost function Pairs(m: Lists): set<(string, string)> {
    set k, v | k in m && v in m[k] :: (k, v)
  }

  ghost predicate Distinct(values: seq<string>) {
    forall i, j :: 0 <= i < j < |values| ==> values[i] != values[j]
  }

  /** No empty list, and no value twice in one list. */
  ghost predicate Tidy(m: Lists) {
    forall k :: k in m ==> m[k] != [] && Distinct(m[k])
  }

  lemma {:induction false} WithoutFirstKeeps(values: seq<string>, value: string)
    requires value in values
    ensures multiset(WithoutFirst(values, value)) == multiset(values) - multiset{value}
  {
    assert values == [values[0]] + values[1..];
    if values[0] != value {
      WithoutFirstKeeps(values[1..], value);
    }
  }

  lemma {:induction false} DistinctMultiset(values: seq<string>)
    ensures Distinct(values) <==> forall v :: multiset(values)[v] <= 1
  {
    if values == [] {
    } else {
      var last, rest := values[|values| - 1], values[..|values| - 1];
      assert values == rest + [last];
      assert multiset(values) == multiset(rest) + multiset{last};
      DistinctMultiset(rest);
      if !Distinct(rest) {
        var i, j :| 0 <= i < j < |rest| && rest[i] == rest[j];
        assert values[i] == values[j];
        var v :| multiset(rest)[v] > 1;
        assert multiset(values)[v] > 1;
      } else if last in rest {
        var i :| 0 <= i < |rest| && rest[i] == last;
        assert values[i] == values[|rest|];
        assert last in multiset(rest) && multiset(values)[last] > 1;
      } else {
        assert last !in multiset(rest);
      }
    }
  }

  /** A removal leaves no copy of the value exactly when there was at most one; duplicates survive it. */
  lemma RemovalRemoves(m: Lists, kind: string, value: string)
    ensures (kind, value) !in Pairs(Updated(m, Update(kind, value, false)))
            <==> multiset(Values(m, kind))[value] <= 1
  {
    var u := Update(kind, value, false);
    var values := Values(m, kind);
    if Changes(m, u) {
      WithoutFirstKeeps(values, value);
      var rest := WithoutFirst(values, value);
      assert value in rest <==> value in multiset(rest);
      assert (kind, value) in Pairs(Updated(m, u)) <==> value in rest;
    } else {
      assert value !in values && value !in multiset(values);
    }
  }

  /**
   One list on its own: the value is in or out afterwards, the others are where they were, and nothing is there twice.
   */
  lemma ListUpdated(m: Lists, u: Update)
    requires Tidy(m)
    ensures var after := Values(Updated(m, u), u.kind);
            && Distinct(after)
            && forall v :: v in after <==> if v == u.value then u.add else v in Values(m, u.kind)
  {
    var values := Values(m, u.kind);
    if Changes(m, u) && !u.add {
      var rest := WithoutFirst(values, u.value);
      WithoutFirstKeeps(values, u.value);
      DistinctMultiset(values);
      DistinctMultiset(rest);
      forall v ensures v in rest <==> v in values && v != u.value {
        assert v in rest <==> v in multiset(rest);
        assert v in values <==> v in multiset(values);
      }
    }
  }

  lemma PairsAreValues(m: Lists)
    ensures forall k, v :: (k, v) in Pairs(m) <==> v in Values(m, k)
  {
  }

  /**
   On tidy lists an update keeps them tidy, is an insertion into or a removal from the set, and `changed` says which.
   */
  lemma UpdateRefinesSet(m: Lists, u: Update)
    requires Tidy(m)
    ensures Tidy(Updated(m, u))
    ensures Pairs(Updated(m, u)) == if u.add then Pairs(m) + {(u.kind, u.value)} else Pairs(m) - {(u.kind, u.value)}
    ensures Changes(m, u) <==> Pairs(Updated(m, u)) != Pairs(m)
  {
    var n := Updated(m, u);
    ListUpdated(m, u);
    assert forall k :: k != u.kind ==> Values(n, k) == Values(m, k);
    PairsAreValues(m);
    PairsAreValues(n);
    assert Changes(m, u) ==> ((u.kind, u.value) in Pairs(n)) != ((u.kind, u.value) in Pairs(m));
  }

  function After(m: Lists, updates: seq<Update>): Lists {
    if updates == [] then m else Updated(After(m, updates[..|updates| - 1]), updates[|updates| - 1])
  }

  /** The last update of a pair in a run, or how it started, decides whether the pair is excluded at the end. */
  ghost predicate Excluded(m: Lists, updates: seq<Update>, kind: string, value: string) {
    if updates == [] then (kind, value) in Pairs(m)
    else
      var u := updates[|updates| - 1];
      if u.kind == kind && u.value == value then u.add
      else Excluded(m, updates[..|updates| - 1], kind, value)
  }

  lemma {:induction false} RunsRefineTheSet(m: Lists, updates: seq<Update>)
    requires Tidy(m)
    ensures Tidy(After(m, updates))
    ensures forall k, v :: (k, v) in Pairs(After(m, updates)) <==> Excluded(m, updates, k, v)
  {
    if updates == [] {
    } else {
      RunsRefineTheSet(m, updates[..|updates| - 1]);
      UpdateRefinesSet(After(m, updates[..|updates| - 1]), updates[|updates| - 1]);
    }
  }

  // ----- the order of a list

  /** The number of the update that put the pair where it is: the last one that added it while it was not excluded. */
  ghost function AddedBy(updates: seq<Update>, kind: string, value: string): nat {
    if updates == [] then 0
    else
      var before, u := updates[..|updates| - 1], updates[|updates| - 1];
      if u == Update(kind, value, true) && !Excluded(map[], before, kind, value) then |updates|
      else AddedBy(before, kind, value)
  }

  lemma {:induction false} AddedByEarlier(updates: seq<Update>, kind: string, value: string)
    ensures AddedBy(updates, kind, value) <= |updates|
  {
    if updates == [] {
    } else {
      AddedByEarlier(updates[..|updates| - 1], kind, value);
    }
  }

  ghost predicate InOrder(values: seq<string>, updates: seq<Update>, kind: string) {
    forall i, j :: 0 <= i < j < |values| ==>
      AddedBy(updates, kind, values[i]) < AddedBy(updates, kind, values[j])
  }

  lemma {:induction false} WithoutFirstInOrder(values: seq<string>, value: string, updates: seq<Update>, kind: string)
    requires InOrder(values, updates, kind)
    ensures InOrder(WithoutFirst(values, value), updates, kind)
    ensures forall v :: v in WithoutFirst(values, value) ==> v in values
  {
    if values == [] || values[0] == value {
    } else {
      assert forall i :: 0 <= i < |values[1..]| ==> values[1..][i] == values[i + 1];
      WithoutFirstInOrder(values[1..], value, updates, kind);
      var rest := WithoutFirst(values[1..], value);
      forall j | 0 <= j < |rest| ensures AddedBy(updates, kind, values[0]) < AddedBy(updates, kind, rest[j]) {
        assert rest[j] in values[1..];
      }
    }
  }

  /** A value that is in the list stays where it is. */
  lemma StaysWhereItIs(before: seq<Update>, u: Update, kind: string, value: string)
    requires value in Values(After(map[], before), kind)
    ensures AddedBy(before + [u], kind, value) == AddedBy(before, kind, value) <= |before|
  {
    RunsRefineTheSet(map[], before);
    PairsAreValues(After(map[], before));
    AddedByEarlier(before, kind, value);
    assert (before + [u])[..|before|] == before;
    assert Excluded(map[], before, kind, value);
  }

  lemma OrderCarriesOver(values: seq<string>, before: seq<Update>, u: Update, kind: string)
    requires InOrder(values, before, kind) && forall v :: v in values ==> v in Values(After(map[], before), kind)
    ensures InOrder(values, before + [u], kind)
  {
    forall i, j | 0 <= i < j < |values|
      ensures AddedBy(before + [u], kind, values[i]) < AddedBy(before + [u], kind, values[j])
    {
      StaysWhereItIs(before, u, kind, values[i]);
      StaysWhereItIs(before, u, kind, values[j]);
    }
  }

  lemma NewestComesLast(before: seq<Update>, u: Update)
    requires u.add && u.value !in Values(After(map[], before), u.kind)
    requires InOrder(Values(After(map[], before), u.kind), before + [u], u.kind)
    ensures InOrder(Values(After(map[], before), u.kind) + [u.value], before + [u], u.kind)
  {
    var values := Values(After(map[], before), u.kind);
    RunsRefineTheSet(map[], before);
    PairsAreValues(After(map[], before));
    assert (before + [u])[..|before|] == before;
    assert !Excluded(map[], before, u.kind, u.value);
    forall i | 0 <= i < |values|
      ensures AddedBy(before + [u], u.kind, values[i]) < AddedBy(before + [u], u.kind, u.value)
    {
      StaysWhereItIs(before, u, u.kind, values[i]);
    }
  }

  lemma OneMoreUpdate(before: seq<Update>, u: Update, kind: string)
    requires InOrder(Values(After(map[], before), kind), before, kind)
    ensures InOrder(Values(Updated(After(map[], before), u), kind), before + [u], kind)
  {
    var m := After(map[], before);
    var values := Values(m, kind);
    OrderCarriesOver(values, before, u, kind);
    if u.kind == kind && Changes(m, u) {
      if u.add {
        NewestComesLast(before, u);
      } else {
        WithoutFirstInOrder(values, u.value, before, kind);
        OrderCarriesOver(WithoutFirst(values, u.value), before, u, kind);
      }
    }
  }

  /** After any run of updates from nothing, every list holds its values in the order in which they were added. */
  lemma {:induction false} ListsAreInOrder(updates: seq<Update>, kind: string)
    ensures InOrder(Values(After(map[], updates), kind), updates, kind)
  {
    if updates == [] {
    } else {
      ListsAreInOrder(updates[..|updates| - 1], kind);
      OneMoreUpdate(updates[..|updates| - 1], updates[|updates| - 1], kind);
      assert updates[..|updates| - 1] + [updates[|updates| - 1]] == updates;
    }
  }
}
