/**
 The in-memory excludes on the slices they live in (dynamic_excludes.go): adding may write into spare capacity and
 removing shifts values in place, so what is shared with whom decides whether a snapshot is safe.
 */
module ExcludesStore {
  import opened Excludes

  /** A slice: the first `length` elements of a backing array, which may have capacity to spare. */
  datatype Slice = Slice(data: array<string>, length: nat)

  type Slices = map<string, Slice>

  ghost function Arrays(m: Slices): set<array<string>> {
    set k | k in m :: m[k].data
  }

  ghost predicate InBounds(m: Slices) {
    forall k :: k in m ==> m[k].length <= m[k].data.Length
  }

  /** Every list has a backing array of its own. */
  ghost predicate Separate(m: Slices) {
    forall j, k :: j in m && k in m && j != k ==> m[j].data != m[k].data
  }

  ghost function Contents(m: Slices): Lists
    requires InBounds(m)
    reads Arrays(m)
  {
    map k | k in m :: m[k].data[..m[k].length]
  }

  /** append([]string(nil), values...): a new backing array of some sufficient capacity. */
  method CloneSlice(values: Slice) returns (r: Slice)
    requires values.length <= values.data.Length
    ensures fresh(r.data) && r.length == values.length <= r.data.Length
    ensures r.data[..r.length] == values.data[..values.length]
  {
    var capacity: nat :| capacity >= values.length;
    var data := new string[capacity];
    forall i | 0 <= i < values.length {
      data[i] := values.data[i];
    }
    r := Slice(data, values.length);
  }

  ghost predicate Holds(m: Slices, value: Lists)
    reads Arrays(m)
  {
    && InBounds(m) && m.Keys == value.Keys
    && forall k :: k in m ==> m[k].data[..m[k].length] == value[k]
  }

  method CloneDynamicExcludes(src: Slices) returns (dst: Slices)
    requires InBounds(src)
    ensures Holds(dst, Contents(src)) && Separate(dst) && fresh(Arrays(dst))
  {
    ghost var value := Contents(src);
    dst := map[];
    var keys := src.Keys;
    while keys != {}
      invariant keys <= src.Keys && dst.Keys == src.Keys - keys
      invariant InBounds(dst) && Separate(dst) && fresh(Arrays(dst))
      invariant forall k :: k in dst ==> dst[k].data[..dst[k].length] == value[k]
      decreases |keys|
    {
      var key :| key in keys;
      var copy := CloneSlice(src[key]);
      ghost var arrays := Arrays(dst);
      dst := dst[key := copy];
      assert Arrays(dst) <= arrays + {copy.data};
      keys := keys - {key};
    }
  }

  /** append(slice, value): in place while there is capacity, else into a new backing array. */
  method Append(s: Slice, value: string) returns (r: Slice)
    requires s.length <= s.data.Length
    modifies s.data
    ensures r.length == s.length + 1 <= r.data.Length && (r.data == s.data || fresh(r.data))
    ensures r.data[..r.length] == old(s.data[..s.length]) + [value]
    ensures s.data[..s.length] == old(s.data[..s.length])
  {
    if s.length < s.data.Length {
      s.data[s.length] := value;
      r := Slice(s.data, s.length + 1);
    } else {
      var capacity: nat :| capacity > s.length;
      var data := new string[capacity];
      forall i | 0 <= i < s.length {
        data[i] := s.data[i];
      }
      data[s.length] := value;
      r := Slice(data, s.length + 1);
    }
  }

  /** append(slice[:index], slice[index+1:]...): the values behind move up in place. */
  method RemoveAt(s: Slice, index: nat) returns (r: Slice)
    requires index < s.length <= s.data.Length
    modifies s.data
    ensures r == Slice(s.data, s.length - 1)
    ensures r.data[..r.length] == old(s.data[..index] + s.data[index + 1..s.length])
  {
    var j := index;
    while j + 1 < s.length
      invariant index <= j < s.length
      invariant forall k :: 0 <= k < index || j <= k < s.length ==> s.data[k] == old(s.data[k])
      invariant forall k :: index <= k < j ==> s.data[k] == old(s.data[k + 1])
    {
      s.data[j] := s.data[j + 1];
      j := j + 1;
    }
    r := Slice(s.data, s.length - 1);
  }

  /** The index of a value in a slice, or -1. */
  method Find(s: Slice, value: string) returns (index: int)
    requires s.length <= s.data.Length
    ensures -1 <= index < s.length
    ensures index >= 0 ==> s.data[index] == value && forall i :: 0 <= i < index ==> s.data[i] != value
    ensures index == -1 <==> value !in s.data[..s.length]
  {
    for i := 0 to s.length
      invariant forall j :: 0 <= j < i ==> s.data[j] != value
    {
      if s.data[i] == value {
        assert s.data[..s.length][i] == value;
        return i;
      }
    }
    return -1;
  }

  lemma PutKeepsApart(m: Slices, kind: string, r: Slice)
    requires Separate(m) && InBounds(m) && r.length <= r.data.Length
    requires forall k :: k in m && k != kind ==> m[k].data != r.data
    ensures Separate(m[kind := r]) && InBounds(m[kind := r]) && Arrays(m[kind := r]) <= Arrays(m) + {r.data}
  {
  }

  lemma DropKeepsApart(m: Slices, kind: string)
    requires Separate(m) && InBounds(m)
    ensures Separate(m - {kind}) && InBounds(m - {kind}) && Arrays(m - {kind}) <= Arrays(m)
  {
  }

  class DynamicExcludesStore {
    var excludes: Slices
    ghost var value: Lists

    ghost predicate Valid()
      reads this, Arrays(excludes)
    {
      Holds(excludes, value) && Separate(excludes)
    }

    constructor (initial: Slices)
      requires InBounds(initial)
      ensures Valid() && value == Contents(initial) && fresh(Arrays(excludes))
    {
      ghost var given := Contents(initial);
      var copy := CloneDynamicExcludes(initial);
      excludes, value := copy, given;
    }

    method Snapshot() returns (snapshot: Slices)
      requires Valid()
      ensures Holds(snapshot, value) && fresh(Arrays(snapshot))
    {
      snapshot := CloneDynamicExcludes(excludes);
      assert Contents(excludes) == value;
    }

    method Replace(replacement: Slices)
      requires InBounds(replacement)
      modifies this
      ensures Valid() && fresh(Arrays(excludes)) && value == old(Contents(replacement))
    {
      value := Contents(replacement);
      var copy := CloneDynamicExcludes(replacement);
      excludes := copy;
    }

    method Mute(kind: string, text: string) returns (changed: bool)
      requires Valid()
      modifies this, Arrays(excludes)
      ensures Valid() && fresh(Arrays(excludes) - old(Arrays(excludes)))
      ensures changed == Changes(old(value), Update(kind, text, true))
      ensures value == Updated(old(value), Update(kind, text, true))
    {
      var current := Lookup(kind);
      var index := Find(current, text);
      if index >= 0 {
        return false;
      }
      AddTo(kind, current, text);
      return true;
    }

    /** excludes[kind], which is an empty slice when there is none. */
    method Lookup(kind: string) returns (r: Slice)
      requires Valid()
      ensures r.length <= r.data.Length && r.data[..r.length] == Values(value, kind)
      ensures if kind in excludes then r == excludes[kind] else fresh(r.data)
    {
      if kind in excludes {
        return excludes[kind];
      }
      var none := new string[0];
      return Slice(none, 0);
    }

    /** current[kind] = append(current, text) */
    method AddTo(kind: string, current: Slice, text: string)
      requires Valid() && current.length <= current.data.Length
      requires current.data[..current.length] == Values(value, kind)
      requires forall k :: k in excludes && k != kind ==> excludes[k].data != current.data
      modifies this, current.data
      ensures Valid() && value == old(value)[kind := Values(old(value), kind) + [text]]
      ensures fresh(Arrays(excludes) - old(Arrays(excludes)) - {current.data})
    {
      var longer := Append(current, text);
      PutKeepsApart(excludes, kind, longer);
      value := value[kind := Values(value, kind) + [text]];
      excludes := excludes[kind := longer];
    }

    method Unmute(kind: string, text: string) returns (changed: bool)
      requires Valid()
      modifies this, Arrays(excludes)
      ensures Valid() && Arrays(excludes) <= old(Arrays(excludes))
      ensures changed == Changes(old(value), Update(kind, text, false))
      ensures value == Updated(old(value), Update(kind, text, false))
    {
      if kind !in excludes {
        return false;
      }
      var index := Find(excludes[kind], text);
      if index < 0 {
        return false;
      }
      WithoutFirstAt(value[kind], text, index);
      RemoveFrom(kind, index);
      return true;
    }

    /** current[kind] = append(current[:index], current[index+1:]...), and no empty list stays. */
    method RemoveFrom(kind: string, index: nat)
      requires Valid() && kind in excludes && index < excludes[kind].length
      modifies this, excludes[kind].data
      ensures Valid() && Arrays(excludes) <= old(Arrays(excludes))
      ensures var rest := old(value)[kind][..index] + old(value)[kind][index + 1..];
              value == if rest == [] then old(value) - {kind} else old(value)[kind := rest]
    {
      ghost var rest := value[kind][..index] + value[kind][index + 1..];
      var shorter := RemoveAt(excludes[kind], index);
      assert shorter.data[..shorter.length] == rest;
      if shorter.length == 0 {
        DropKeepsApart(excludes, kind);
        value, excludes := value - {kind}, excludes - {kind};
      } else {
        PutKeepsApart(excludes, kind, shorter);
        value, excludes := value[kind := rest], excludes[kind := shorter];
      }
    }
  }

  // ----- snapshots

  datatype Operation = Apply(update: Update) | Load(replacement: Slices)

  /** One later operation writes only arrays of the store, so a list elsewhere keeps its contents. */
  method Perform(store: DynamicExcludesStore, operation: Operation, snapshot: Slices, ghost taken: Lists)
    requires store.Valid() && Holds(snapshot, taken) && Arrays(snapshot) !! Arrays(store.excludes)
    requires operation.Load? ==> InBounds(operation.replacement)
    modifies store, Arrays(store.excludes)
    ensures store.Valid() && fresh(Arrays(store.excludes) - old(Arrays(store.excludes)))
    ensures Holds(snapshot, taken)
  {
    match operation
    case Apply(u) =>
      if u.add {
        var _ := store.Mute(u.kind, u.value);
      } else {
        var _ := store.Unmute(u.kind, u.value);
      }
    case Load(replacement) => store.Replace(replacement);
  }

  /**
   Whatever is muted, unmuted or loaded after a snapshot was taken, in whatever order, the snapshot stays as it was.
   */
  method SnapshotSurvives(store: DynamicExcludesStore, operations: seq<Operation>) returns (snapshot: Slices)
    requires store.Valid()
    requires forall i :: 0 <= i < |operations| && operations[i].Load? ==> InBounds(operations[i].replacement)
    modifies store, Arrays(store.excludes)
    ensures store.Valid() && fresh(Arrays(snapshot)) && Holds(snapshot, old(store.value))
  {
    snapshot := store.Snapshot();
    for i := 0 to |operations|
      invariant store.Valid() && fresh(Arrays(store.excludes) - old(Arrays(store.excludes)))
      invariant fresh(Arrays(snapshot)) && Arrays(snapshot) !! Arrays(store.excludes)
      invariant Holds(snapshot, old(store.value))
    {
      Perform(store, operations[i], snapshot, old(store.value));
    }
  }
}
