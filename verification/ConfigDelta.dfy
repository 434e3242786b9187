/** Exporting the settings that differ from a baseline, and importing them. */
module ConfigDelta {
  import opened JsonValues
  import opened HexKeys
  import opened Fields

  const VERSION := 2
  const BLANK_BASELINE_VERSION := 2

  datatype Field<C> = Field(key: UInt32, value: Value<C>)

  type Object = map<string, Json>

  /** Two states of the same registry: the same fields in the same order. */
  ghost predicate SameFields<C>(a: seq<Field<C>>, b: seq<Field<C>>) {
    |a| == |b| && forall i :: 0 <= i < |a| ==> a[i].key == b[i].key && SameKind(a[i].value, b[i].value)
  }

  ghost predicate DistinctKeys<C>(fields: seq<Field<C>>) {
    forall i, j :: 0 <= i < j < |fields| ==> fields[i].key != fields[j].key
  }

  function Written<C>(codec: Codec<C>, f: Field<C>): Json {
    FieldJson(codec, f.value)
  }

  // ----- Exporting -----

  /** Every field under its name; of fields with one key the last one counts. */
  function Snapshot<C>(codec: Codec<C>, fields: seq<Field<C>>): Object {
    if fields == [] then map[]
    else
      var f := fields[|fields| - 1];
      Snapshot(codec, fields[..|fields| - 1])[Hex8(f.key) := Written(codec, f)]
  }

  predicate IsDefault<C>(codec: Codec<C>, f: Field<C>, defaults: Object) {
    Hex8(f.key) in defaults && defaults[Hex8(f.key)] == Written(codec, f)
  }

  /** Takes one more field into a delta, unless it is as the defaults have it. */
  function Plus<C>(codec: Codec<C>, before: Object, f: Field<C>, defaults: Object): Object {
    if IsDefault(codec, f, defaults) then before else before[Hex8(f.key) := Written(codec, f)]
  }

  function Delta<C>(codec: Codec<C>, fields: seq<Field<C>>, defaults: Object): Object {
    if fields == [] then map[]
    else
      var f := fields[|fields| - 1];
      Plus(codec, Delta(codec, fields[..|fields| - 1], defaults), f, defaults)
  }

  lemma SameName(a: UInt32, b: UInt32)
    requires Hex8(a) == Hex8(b)
    ensures a == b
  {
    KeyRoundTrip(a);
    KeyRoundTrip(b);
  }

  ghost predicate HasKey<C>(fields: seq<Field<C>>, name: string) {
    exists i :: 0 <= i < |fields| && Hex8(fields[i].key) == name
  }

  /** The delta has an entry for the field exactly when it differs from the defaults, with what it writes. */
  ghost predicate HoldsField<C>(codec: Codec<C>, f: Field<C>, defaults: Object, delta: Object) {
    if IsDefault(codec, f, defaults) then Hex8(f.key) !in delta
    else Hex8(f.key) in delta && delta[Hex8(f.key)] == Written(codec, f)
  }

  lemma HasMore<C>(front: seq<Field<C>>, f: Field<C>, name: string)
    requires HasKey(front, name) || name == Hex8(f.key)
    ensures HasKey(front + [f], name)
  {
    var s := front + [f];
    if HasKey(front, name) {
      var i :| 0 <= i < |front| && Hex8(front[i].key) == name;
      assert s[i] == front[i];
    } else {
      assert s[|front|] == f;
    }
  }

  lemma LastHeld<C>(codec: Codec<C>, before: Object, f: Field<C>, defaults: Object)
    requires Hex8(f.key) !in before
    ensures HoldsField(codec, f, defaults, Plus(codec, before, f, defaults))
  {
  }

  lemma StillHeld<C>(codec: Codec<C>, g: Field<C>, f: Field<C>, defaults: Object, before: Object)
    requires g.key != f.key && HoldsField(codec, g, defaults, before)
    ensures HoldsField(codec, g, defaults, Plus(codec, before, f, defaults))
  {
    hide Written, IsDefault;
    if Hex8(g.key) == Hex8(f.key) { SameName(g.key, f.key); }
  }

  /** A delta holds exactly the fields that differ from the defaults, and nothing else. */
  lemma {:induction false} DeltaHolds<C>(codec: Codec<C>, fields: seq<Field<C>>, defaults: Object)
    requires DistinctKeys(fields)
    ensures forall name :: name in Delta(codec, fields, defaults) ==> HasKey(fields, name)
    ensures forall i :: 0 <= i < |fields| ==> HoldsField(codec, fields[i], defaults, Delta(codec, fields, defaults))
  {
    hide Hex8, Strtoul, IsDefault, Written, HoldsField;
    if fields != [] {
      var n := |fields| - 1;
      var front, f := fields[..n], fields[n];
      DeltaHolds(codec, front, defaults);
      var before, delta := Delta(codec, front, defaults), Delta(codec, fields, defaults);
      forall name | name in delta ensures HasKey(fields, name) {
        HasMore(front, f, name);
        assert fields == front + [f];
      }
      assert Hex8(f.key) !in before by {
        if Hex8(f.key) in before {
          var i :| 0 <= i < n && Hex8(front[i].key) == Hex8(f.key);
          SameName(front[i].key, f.key);
        }
      }
      LastHeld(codec, before, f, defaults);
      forall i | 0 <= i < n ensures HoldsField(codec, fields[i], defaults, delta) {
        assert fields[i] == front[i] && HoldsField(codec, front[i], defaults, before);
        StillHeld(codec, fields[i], f, defaults, before);
      }
    }
  }

  /** A snapshot holds every field under its name, of several with one key the last, and nothing else. */
  lemma {:induction false} SnapshotIs<C>(codec: Codec<C>, fields: seq<Field<C>>, name: string)
    ensures name in Snapshot(codec, fields) <==> HasKey(fields, name)
    ensures forall i :: 0 <= i < |fields| && Hex8(fields[i].key) == name
                        && (forall j :: i < j < |fields| ==> fields[j].key != fields[i].key) ==>
              name in Snapshot(codec, fields) && Snapshot(codec, fields)[name] == FieldJson(codec, fields[i].value)
  {
    hide Hex8, Strtoul;
    if fields != [] {
      var n := |fields| - 1;
      var front, f := fields[..n], fields[n];
      SnapshotIs(codec, front, name);
      assert fields == front + [f];
      if HasKey(front, name) || name == Hex8(f.key) { HasMore(front, f, name); }
      forall i | 0 <= i < n && Hex8(fields[i].key) == name
                 && forall j :: i < j < |fields| ==> fields[j].key != fields[i].key
        ensures Hex8(f.key) != name && front[i] == fields[i] && forall j :: i < j < n ==> front[j].key != front[i].key
      {
        if Hex8(f.key) == name { SameName(f.key, fields[i].key); }
      }
    }
  }

  // ----- Importing -----

  predicate Names(name: string, key: UInt32) {
    Strtoul(name) == key
  }

  /** The fields that an import can reach: of several with one key, the last. */
  ghost predicate Reached<C>(fields: seq<Field<C>>, i: nat) {
    i < |fields| && forall j :: i < j < |fields| ==> fields[j].key != fields[i].key
  }

  ghost predicate OnlyName(entries: Object, name: string, key: UInt32) {
    name in entries && Names(name, key) && forall other :: other in entries && Names(other, key) ==> other == name
  }

  ghost predicate AppliedAt<C>(codec: Codec<C>, before: seq<Field<C>>, entries: Object, after: seq<Field<C>>, i: nat)
    requires i < |before| == |after|
  {
    var f := before[i];
    && after[i].key == f.key
    && (!Reached(before, i) || (forall name :: name in entries ==> !Names(name, f.key)) ==> after[i] == f)
    && forall name :: Reached(before, i) && OnlyName(entries, name, f.key) ==>
         after[i].value == ReadField(codec, f.value, entries[name])
  }

  /** What applying the entries of an object, in whatever order they come, makes of the fields. A field that no
      entry names keeps its value; one that a single entry names is read from it. */
  ghost predicate Applied<C>(codec: Codec<C>, before: seq<Field<C>>, entries: Object, after: seq<Field<C>>) {
    && |after| == |before|
    && forall i :: 0 <= i < |before| ==> AppliedAt(codec, before, entries, after, i)
  }

  lemma NothingApplied<C>(codec: Codec<C>, fields: seq<Field<C>>)
    ensures Applied(codec, fields, map[], fields)
  {
  }

  lemma NotNamed(done: Object, name: string, j: Json, key: UInt32)
    requires !Names(name, key) && name !in done
    ensures forall other :: OnlyName(done[name := j], other, key) <==> OnlyName(done, other, key)
    ensures (forall other :: other in done[name := j] ==> !Names(other, key)) <==>
              (forall other :: other in done ==> !Names(other, key))
  {
    hide Strtoul;
    var more := done[name := j];
    assert forall other :: other in more <==> other in done || other == name;
  }

  /** An entry that names no field changes nothing. */
  lemma AppliedNone<C>(codec: Codec<C>, before: seq<Field<C>>, done: Object, now: seq<Field<C>>, name: string, j: Json)
    requires Applied(codec, before, done, now) && name !in done
    requires forall i :: 0 <= i < |before| ==> before[i].key != Strtoul(name)
    ensures Applied(codec, before, done[name := j], now)
  {
    hide Strtoul, ReadField;
    var more := done[name := j];
    forall i | 0 <= i < |before| ensures AppliedAt(codec, before, more, now, i) {
      assert AppliedAt(codec, before, done, now, i);
      NotNamed(done, name, j, before[i].key);
    }
  }

  lemma AppliedElsewhere<C>(codec: Codec<C>, before: seq<Field<C>>, done: Object, now: seq<Field<C>>,
                            after: seq<Field<C>>, name: string, j: Json, k: nat)
    requires |before| == |now| == |after| && k < |before| && name !in done && !Names(name, before[k].key)
    requires AppliedAt(codec, before, done, now, k) && after[k] == now[k]
    ensures AppliedAt(codec, before, done[name := j], after, k)
  {
    hide Names, ReadField, Reached;
    NotNamed(done, name, j, before[k].key);
  }

  lemma AppliedSameKey<C>(codec: Codec<C>, before: seq<Field<C>>, done: Object, now: seq<Field<C>>, name: string,
                          j: Json, i: nat, k: nat)
    requires |now| == |before| && k < |before| && name !in done && AppliedAt(codec, before, done, now, k)
    requires Reached(before, i) && Names(name, before[i].key) && before[k].key == before[i].key
    ensures AppliedAt(codec, before, done[name := j], now[i := now[i].(value := ReadField(codec, now[i].value, j))], k)
  {
    hide Strtoul, ReadField;
    var more, after := done[name := j], now[i := now[i].(value := ReadField(codec, now[i].value, j))];
    assert name in more && Names(name, before[k].key);
    if Reached(before, k) {
      assert k == i;
      forall other | OnlyName(more, other, before[k].key)
        ensures after[k].value == ReadField(codec, before[k].value, more[other])
      {
        assert other == name;
        forall entry | entry in done ensures !Names(entry, before[k].key) {
          assert entry in more;
        }
      }
    }
  }

  /** An entry is read into the last field with its key. */
  lemma AppliedOne<C>(codec: Codec<C>, before: seq<Field<C>>, done: Object, now: seq<Field<C>>, name: string, j: Json,
                      i: nat)
    requires Applied(codec, before, done, now) && name !in done
    requires Reached(before, i) && Names(name, before[i].key)
    ensures Applied(codec, before, done[name := j], now[i := now[i].(value := ReadField(codec, now[i].value, j))])
  {
    hide ReadField, AppliedAt;
    var more, after := done[name := j], now[i := now[i].(value := ReadField(codec, now[i].value, j))];
    forall k | 0 <= k < |before| ensures AppliedAt(codec, before, more, after, k) {
      assert AppliedAt(codec, before, done, now, k);
      if before[k].key == before[i].key {
        AppliedSameKey(codec, before, done, now, name, j, i, k);
      } else {
        AppliedElsewhere(codec, before, done, now, after, name, j, k);
      }
    }
  }

  /** A field that the baseline has an entry for is first read from that. */
  function Based<C>(codec: Codec<C>, f: Field<C>, baseline: Object): Field<C> {
    if Hex8(f.key) in baseline then f.(value := ReadField(codec, f.value, baseline[Hex8(f.key)])) else f
  }

  function AllBased<C>(codec: Codec<C>, fields: seq<Field<C>>, baseline: Object): (s: seq<Field<C>>)
    ensures |s| == |fields|
  {
    seq(|fields|, i requires 0 <= i < |fields| => Based(codec, fields[i], baseline))
  }

  lemma BasedKeepsKind<C>(codec: Codec<C>, was: Field<C>, baseline: Object, f: Field<C>)
    requires SameKind(was.value, f.value)
    ensures SameKind(Based(codec, was, baseline).value, f.value)
  {
    hide Hex8, ReadField;
    if Hex8(was.key) in baseline {
      ReadingKeepsKind(codec, was.value, baseline[Hex8(was.key)]);
    }
  }

  lemma FieldRoundTrip<C(!new)>(codec: Codec<C>, fields: seq<Field<C>>, was: seq<Field<C>>, defaults: Object,
                                now: seq<Field<C>>, i: nat)
    requires Lawful(codec) && SameFields(was, fields) && DistinctKeys(fields) && i < |fields|
    requires Applied(codec, AllBased(codec, was, defaults), Delta(codec, fields, defaults), now)
    ensures now[i].key == fields[i].key && Written(codec, now[i]) == Written(codec, fields[i])
  {
    hide Hex8, Strtoul, Delta, ReadField, FieldJson, Lawful, SameKind;
    DeltaHolds(codec, fields, defaults);
    var delta, based := Delta(codec, fields, defaults), AllBased(codec, was, defaults);
    var f, name := fields[i], Hex8(fields[i].key);
    assert AppliedAt(codec, based, delta, now, i);
    assert Reached(based, i);
    KeyRoundTrip(f.key);
    BasedKeepsKind(codec, was[i], defaults, f);
    forall other | other in delta && Names(other, f.key) ensures other == name {
      var j :| 0 <= j < |fields| && Hex8(fields[j].key) == other;
      KeyRoundTrip(fields[j].key);
      assert fields[j].key == f.key;
    }
    if name in delta {
      assert OnlyName(delta, name, f.key);
      ReadsBack(codec, based[i].value, f.value);
    } else {
      ReadsBack(codec, was[i].value, f.value);
    }
  }

  /** Importing an exported delta into any state of the registry with the same defaults gives every field back
      what it wrote when it was exported. */
  lemma DeltaRoundTrip<C(!new)>(codec: Codec<C>, fields: seq<Field<C>>, was: seq<Field<C>>, defaults: Object,
                         now: seq<Field<C>>)
    requires Lawful(codec) && SameFields(was, fields) && DistinctKeys(fields)
    requires Applied(codec, AllBased(codec, was, defaults), Delta(codec, fields, defaults), now)
    ensures |now| == |fields|
    ensures forall i :: 0 <= i < |fields| ==>
              now[i].key == fields[i].key && Written(codec, now[i]) == Written(codec, fields[i])
  {
    DeltaHolds(codec, fields, defaults);
    var delta, based := Delta(codec, fields, defaults), AllBased(codec, was, defaults);
    forall i | 0 <= i < |fields|
      ensures now[i].key == fields[i].key && Written(codec, now[i]) == Written(codec, fields[i])
    {
      FieldRoundTrip(codec, fields, was, defaults, now, i);
    }
  }

  /** Exporting again after importing gives the same delta. */
  lemma {:induction false} SameDelta<C>(codec: Codec<C>, a: seq<Field<C>>, b: seq<Field<C>>, defaults: Object)
    requires |a| == |b|
    requires forall i :: 0 <= i < |a| ==> a[i].key == b[i].key && Written(codec, a[i]) == Written(codec, b[i])
    ensures Delta(codec, a, defaults) == Delta(codec, b, defaults)
  {
    if a != [] {
      SameDelta(codec, a[..|a| - 1], b[..|b| - 1], defaults);
    }
  }
}
