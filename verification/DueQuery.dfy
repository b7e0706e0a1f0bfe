/**
 The index query behind a sweep (keydb/keydb.go): the members of a sorted set up to a score, lowest first, at most so
 many. Members with equal scores come in the order of their names.
 */
module DueQuery {

  /** The order of names, character by character. */
  predicate Less(a: string, b: string) {
    b != [] && (a == [] || a[0] < b[0] || (a[0] == b[0] && Less(a[1..], b[1..])))
  }

  /** Up to `k` the two are the same, and there `a` ends or has the lower character. */
  ghost predicate Decides(a: string, b: string, k: nat) {
    k <= |a| && k < |b| && a[..k] == b[..k] && (k == |a| || a[k] < b[k])
  }

  /** The first place where two names differ decides. */
  lemma {:induction false} FirstDifferenceDecides(a: string, b: string)
    ensures Less(a, b) <==> exists k :: Decides(a, b, k)
  {
    if a != [] && b != [] && a[0] == b[0] {
      FirstDifferenceDecides(a[1..], b[1..]);
      assert a == [a[0]] + a[1..] && b == [b[0]] + b[1..];
      if k: nat :| Decides(a[1..], b[1..], k) {
        assert a[..k + 1] == [a[0]] + a[1..][..k] && b[..k + 1] == [b[0]] + b[1..][..k];
        assert Decides(a, b, k + 1);
      }
      if k: nat :| Decides(a, b, k) {
        assert a[1..][..k - 1] == a[..k][1..] && b[1..][..k - 1] == b[..k][1..];
        assert Decides(a[1..], b[1..], k - 1);
      }
    } else if a != [] && b != [] {
      assert forall k :: 0 < k <= |a| && k < |b| ==> a[..k][0] == a[0] && b[..k][0] == b[0];
      assert a[0] < b[0] ==> Decides(a, b, 0);
    } else if b != [] {
      assert Decides(a, b, 0);
    }
  }

  lemma {:induction false} LessIsStrict(a: string, b: string)
    ensures Less(a, b) ==> a != b && !Less(b, a)
  {
    if a != [] && b != [] {
      LessIsStrict(a[1..], b[1..]);
    }
  }

  lemma {:induction false} LessIsTotal(a: string, b: string)
    ensures a == b || Less(a, b) || Less(b, a)
  {
    if a != [] && b != [] && a[0] == b[0] {
      LessIsTotal(a[1..], b[1..]);
      assert a == [a[0]] + a[1..] && b == [b[0]] + b[1..];
    }
  }

  lemma {:induction false} LessIsTransitive(a: string, b: string, c: string)
    requires Less(a, b) && Less(b, c)
    ensures Less(a, c)
  {
    if a != [] && a[0] == b[0] == c[0] {
      LessIsTransitive(a[1..], b[1..], c[1..]);
    }
  }

  /** `m` comes before `n` in the sorted set. */
  predicate Ahead(active: map<string, int>, m: string, n: string) {
    m in active && n in active && (active[m] < active[n] || (active[m] == active[n] && Less(m, n)))
  }

  lemma AheadIsStrict(active: map<string, int>, m: string, n: string)
    ensures Ahead(active, m, n) ==> m != n && !Ahead(active, n, m)
  {
    LessIsStrict(m, n);
  }

  lemma AheadIsTotal(active: map<string, int>, m: string, n: string)
    requires m in active && n in active
    ensures m == n || Ahead(active, m, n) || Ahead(active, n, m)
  {
    LessIsTotal(m, n);
  }

  lemma AheadIsTransitive(active: map<string, int>, k: string, m: string, n: string)
    requires Ahead(active, k, m) && Ahead(active, m, n)
    ensures Ahead(active, k, n)
  {
    if active[k] == active[m] == active[n] {
      LessIsTransitive(k, m, n);
    }
  }

  /** `names` is the first `max` members with score at most `cutoff`, in order. */
  ghost predicate IsDue(active: map<string, int>, cutoff: int, max: nat, names: seq<string>) {
    && (forall i :: 0 <= i < |names| ==> names[i] in active && active[names[i]] <= cutoff)
    && (forall i, j :: 0 <= i < j < |names| ==> Ahead(active, names[i], names[j]))
    && |names| <= max
    && (forall n :: n in active && active[n] <= cutoff && n !in names ==>
          |names| == max && forall i :: 0 <= i < |names| ==> Ahead(active, names[i], n))
  }

  /** The member itself and all that come before it. */
  ghost function UpTo(active: map<string, int>, n: string): set<string> {
    set k | k in active && (k == n || Ahead(active, k, n))
  }

  lemma Distinct(active: map<string, int>, cutoff: int, max: nat, names: seq<string>)
    requires IsDue(active, cutoff, max, names)
    ensures forall i, j :: 0 <= i < j < |names| ==> names[i] != names[j]
  {
    forall i, j | 0 <= i < j < |names| ensures names[i] != names[j] {
      AheadIsStrict(active, names[i], names[j]);
    }
  }

  lemma {:induction false} DistinctNamesFit(names: seq<string>, all: set<string>)
    requires forall i :: 0 <= i < |names| ==> names[i] in all
    requires forall i, j :: 0 <= i < j < |names| ==> names[i] != names[j]
    ensures |names| <= |all|
  {
    if names == [] {
    } else {
      var last := names[|names| - 1];
      DistinctNamesFit(names[..|names| - 1], all - {last});
    }
  }

  lemma {:induction false} NamesCover(names: seq<string>, all: set<string>)
    requires forall n :: n in all ==> n in names
    ensures |all| <= |names|
  {
    if names == [] {
    } else {
      var last := names[|names| - 1];
      forall n | n in all - {last} ensures n in names[..|names| - 1] {
        assert n in names;
      }
      NamesCover(names[..|names| - 1], all - {last});
    }
  }

  /** The members come in the order of their scores, and those with one score in the order of their names. */
  lemma DueMembersInOrder(active: map<string, int>, cutoff: int, max: nat, names: seq<string>, i: nat, j: nat)
    requires IsDue(active, cutoff, max, names) && i < j < |names|
    ensures names[i] in active && names[j] in active && active[names[i]] <= active[names[j]] <= cutoff
    ensures active[names[i]] == active[names[j]] ==> exists k :: Decides(names[i], names[j], k)
  {
    assert Ahead(active, names[i], names[j]);
    FirstDifferenceDecides(names[i], names[j]);
  }

  /** A due member is returned if and only if no more than `max` members, itself among them, come up to it. */
  lemma ReturnedExactlyWhenItFits(active: map<string, int>, cutoff: int, max: nat, names: seq<string>, n: string)
    requires IsDue(active, cutoff, max, names) && n in active && active[n] <= cutoff
    ensures n in names <==> |UpTo(active, n)| <= max
  {
    if n in names {
      forall k | k in UpTo(active, n) ensures k in names {
        AheadIsStrict(active, k, n);
      }
      NamesCover(names, UpTo(active, n));
    } else {
      Distinct(active, cutoff, max, names);
      DistinctNamesFit(names, UpTo(active, n) - {n});
    }
  }

  lemma {:induction false} FirstOf(active: map<string, int>, names: set<string>) returns (n: string)
    requires names != {} && names <= active.Keys
    ensures n in names && forall k :: k in names && k != n ==> Ahead(active, n, k)
    decreases |names|
  {
    var any :| any in names;
    if names == {any} {
      n := any;
    } else {
      var first := FirstOf(active, names - {any});
      AheadIsTotal(active, any, first);
      n := if Ahead(active, any, first) then any else first;
      forall k | k in names && k != n ensures Ahead(active, n, k) {
        if n == any && k != first {
          AheadIsTransitive(active, any, first, k);
        }
      }
    }
  }

  /** Whatever is in the index, there is an answer to the query. */
  lemma {:induction false} SomeAnswer(
    active: map<string, int>, rest: set<string>, max: nat) returns (names: seq<string>)
    requires rest <= active.Keys
    ensures |names| <= max && forall i :: 0 <= i < |names| ==> names[i] in rest
    ensures forall i, j :: 0 <= i < j < |names| ==> Ahead(active, names[i], names[j])
    ensures forall n :: n in rest && n !in names ==>
              |names| == max && forall i :: 0 <= i < |names| ==> Ahead(active, names[i], n)
    decreases max
  {
    names := [];
    if rest != {} && max > 0 {
      var first := FirstOf(active, rest);
      var more := SomeAnswer(active, rest - {first}, max - 1);
      names := [first] + more;
      assert forall n :: n in names <==> n == first || n in more;
    }
  }
}
