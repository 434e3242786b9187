/** The settings registry: the methods that walk over its fields, in place. */
module Registry {
  import opened Basics
  import opened JsonValues
  import opened HexKeys
  import opened Fields
  import opened ConfigDelta

  // ----- One field -----

  method BoolsToJson(flags: seq<bool>) returns (items: seq<Json>)
    ensures items == Each(flags, b => Bool(b))
  {
    items := [];
    for i := 0 to |flags|
      invariant |items| == i && forall k :: 0 <= k < i ==> items[k] == Bool(flags[k])
    {
      items := items + [Bool(flags[i])];
    }
  }

  lemma {:induction false} ReadEachStops<T>(was: seq<T>, js: seq<Json>, conv: Json -> Option<T>, i: nat, now: seq<T>)
    requires i <= |was| && i <= |js| && |now| == |was| && now[i..] == was[i..]
    requires forall k :: 0 <= k < i ==> conv(js[k]) == Some(now[k])
    requires i == |was| || i == |js| || conv(js[i]).None?
    ensures now == ReadEach(was, js, conv)
  {
    if i > 0 {
      ReadEachStops(was[1..], js[1..], conv, i - 1, now[1..]);
      assert now == [now[0]] + now[1..];
    } else {
      assert now == now[0..] && was == was[0..];
    }
  }

  /** Reads the elements of a flag array, a colour or a vector one after the other; the first that cannot be
      converted ends it, as an exception would. */
  method ReadItems<T>(was: seq<T>, js: seq<Json>, conv: Json -> Option<T>) returns (now: seq<T>)
    ensures now == ReadEach(was, js, conv)
  {
    now := was;
    var n := if |js| < |was| then |js| else |was|;
    var i := 0;
    while i < n
      invariant 0 <= i <= n && |now| == |was| && now[i..] == was[i..]
      invariant forall k :: 0 <= k < i ==> conv(js[k]) == Some(now[k])
    {
      var x := conv(js[i]);
      if x.None? {
        break;
      }
      now := now[i := x.value];
      i := i + 1;
    }
    ReadEachStops(was, js, conv, i, now);
  }

  method BindToJson(b: Bind) returns (j: Json)
    ensures j == BindJson(b)
  {
    if b.key == 0 {
      return Null;
    }
    j := Obj(map["k" := Int(b.key), "m" := Int(ModeNumber(b.mode))]);
  }

  /** Reads a bind; `done` is false when a conversion throws, which leaves it as far as it has been read. */
  method JsonToBind(was: Bind, j: Json) returns (b: Bind, done: bool)
    ensures (b, done) == ReadBind(was, j)
  {
    b := was;
    if j.Null? {
      b := b.(key := 0, mode := Toggle);
      return b, true;
    }
    if !j.Obj? {
      return b, false;
    }
    var key := IntEntry(j.entries, "k");
    if key.None? {
      return b, false;
    }
    b := b.(key := key.value);
    var mode := IntEntry(j.entries, "m");
    if mode.None? {
      return b, false;
    }
    b := b.(mode := if 0 <= mode.value <= ModeNumber(HoldOff) then ModeOf(mode.value) else Toggle);
    return b, true;
  }

  method JsonToSetting(on: bool, bind: Bind, j: Json) returns (on': bool, bind': Bind)
    ensures (on', bind') == ReadSetting(on, bind, j)
  {
    on', bind' := on, bind;
    if j.Obj? && "v" in j.entries {
      var v := AsBool(j.entries["v"]);
      if v.None? {
        return;
      }
      on' := v.value;
    }
    if j.Obj? && "b" in j.entries {
      var done: bool;
      bind', done := JsonToBind(bind', j.entries["b"]);
      if !done {
        return;
      }
    }
    if bind'.key != 0 && bind'.mode == Toggle {
      bind' := bind'.(active := on');
    }
  }

  method FieldToJson<C>(codec: Codec<C>, v: Value<C>) returns (j: Json)
    ensures j == FieldJson(codec, v)
  {
    match v {
      case Setting(on, bind) =>
        var b := BindToJson(bind);
        j := Obj(map["v" := Bool(on), "b" := b]);
      case BoolVal(b) => j := Bool(b);
      case IntVal(i) => j := Int(i);
      case ByteVal(u) => j := Int(u);
      case FloatVal(f) => j := Num(f);
      case Color(c) => j := Arr([Int(c[0]), Int(c[1]), Int(c[2]), Int(c[3])]);
      case Float3(v) => j := Arr([Num(v[0]), Num(v[1]), Num(v[2])]);
      case Bools(flags) =>
        var items := BoolsToJson(flags);
        j := Arr(items);
      case Text(s) => j := Str(s);
      case Custom(c) => j := codec.ser(c);
    }
  }

  method JsonToField<C>(codec: Codec<C>, was: Value<C>, j: Json) returns (now: Value<C>)
    ensures now == ReadField(codec, was, j)
  {
    now := was;
    match was {
      case Setting(on, bind) =>
        var on', bind' := JsonToSetting(on, bind, j);
        now := Setting(on', bind');
      case BoolVal(_) =>
        var b := AsBool(j);
        if b.Some? { now := BoolVal(b.value); }
      case IntVal(_) =>
        var i := AsInt(j);
        if i.Some? { now := IntVal(i.value); }
      case ByteVal(_) =>
        var u := AsByte(j);
        if u.Some? { now := ByteVal(u.value); }
      case FloatVal(_) =>
        var f := AsReal(j);
        if f.Some? { now := FloatVal(f.value); }
      case Color(c) =>
        if j.Arr? && |j.items| >= 4 {
          var c' := ReadItems(c, j.items, AsByte);
          now := Color(c');
        }
      case Float3(v) =>
        if j.Arr? && |j.items| >= 3 {
          var v' := ReadItems(v, j.items, AsReal);
          now := Float3(v');
        }
      case Bools(flags) =>
        if j.Arr? {
          var flags' := ReadItems(flags, j.items, AsBool);
          now := Bools(flags');
        }
      case Text(_) =>
        if j.Str? { now := Text(j.s); }
      case Custom(c) => now := Custom(codec.de(c, j));
    }
  }

  /** What a field of the blank profile holds: off, unbound, zero; numbers, colours and texts stay. */
  function BlankValue<C>(codec: Codec<C>, v: Value<C>): Value<C> {
    match v
    case Setting(_, _) => Setting(false, Bind(0, Toggle, false))
    case BoolVal(_) => BoolVal(false)
    case ByteVal(_) => ByteVal(0)
    case Bools(flags) => Bools(seq(|flags|, i => false))
    case Custom(c) => Custom(codec.de(c, Obj(map[])))
    case _ => v
  }

  function Blanked<C>(codec: Codec<C>, fields: seq<Field<C>>): (s: seq<Field<C>>)
    ensures |s| == |fields|
  {
    seq(|fields|, i requires 0 <= i < |fields| => fields[i].(value := BlankValue(codec, fields[i].value)))
  }

  /** What a field of the blank profile writes. */
  lemma BlankWrites<C>(codec: Codec<C>, v: Value<C>)
    ensures var j := FieldJson(codec, BlankValue(codec, v));
            match v
            case Setting(_, _) => j == Obj(map["v" := Bool(false), "b" := Null])
            case BoolVal(_) => j == Bool(false)
            case ByteVal(_) => j == Int(0)
            case Bools(flags) => j == Arr(seq(|flags|, i => Bool(false)))
            case Custom(c) => j == codec.ser(codec.de(c, Obj(map[])))
            case _ => j == FieldJson(codec, v)
    ensures SameKind(v, BlankValue(codec, v))
    ensures v.Setting? ==> !BlankValue(codec, v).on && !BlankValue(codec, v).bind.active
  {
    if v.Bools? {
      assert Each(BlankValue(codec, v).flags, b => Bool(b)) == seq(|v.flags|, i => Bool(false));
    }
  }

  // ----- Snapshots -----

  lemma {:induction false} SnapshotHolds<C>(codec: Codec<C>, fields: seq<Field<C>>, i: nat)
    requires DistinctKeys(fields) && i < |fields|
    ensures IsDefault(codec, fields[i], Snapshot(codec, fields))
  {
    hide Hex8, Strtoul, Written;
    var n := |fields| - 1;
    if i < n {
      SnapshotHolds(codec, fields[..n], i);
      if Hex8(fields[i].key) == Hex8(fields[n].key) { SameName(fields[i].key, fields[n].key); }
    }
  }

  lemma DefaultNotHeld<C>(codec: Codec<C>, f: Field<C>, defaults: Object, delta: Object)
    requires HoldsField(codec, f, defaults, delta) && IsDefault(codec, f, defaults)
    ensures Hex8(f.key) !in delta
  {
  }

  /** A registry whose fields are all as they were when the defaults were taken exports nothing. */
  lemma UntouchedDeltaIsEmpty<C>(codec: Codec<C>, fields: seq<Field<C>>)
    requires DistinctKeys(fields)
    ensures Delta(codec, fields, Snapshot(codec, fields)) == map[]
  {
    hide Hex8, Strtoul, Written, IsDefault, Snapshot, Delta;
    var defaults := Snapshot(codec, fields);
    var delta := Delta(codec, fields, defaults);
    DeltaHolds(codec, fields, defaults);
    forall name ensures name !in delta {
      if HasKey(fields, name) {
        var i :| 0 <= i < |fields| && Hex8(fields[i].key) == name;
        SnapshotHolds(codec, fields, i);
        DefaultNotHeld(codec, fields[i], defaults, delta);
      }
    }
  }

  // ----- The registry -----

  /** An entry of the list of settings that can be bound to keys. */
  datatype Bound = Bound(category: string, name: string, on: bool, bind: Bind)

  /** The fields that the list asks for: those of the entries that are there and have a category and a name. */
  function Settings<C>(bound: seq<Option<Bound>>, makeKey: (string, string) -> UInt32): seq<Field<C>> {
    if bound == [] then []
    else
      var n := |bound| - 1;
      Settings<C>(bound[..n], makeKey) +
        match bound[n]
        case None => []
        case Some(b) =>
          if b.category == "" || b.name == "" then [] else [Field(makeKey(b.category, b.name), Setting(b.on, b.bind))]
  }

  /** An entry of the list is registered exactly when it is there and has both a category and a name. */
  lemma {:induction false} SettingsAre<C>(bound: seq<Option<Bound>>, makeKey: (string, string) -> UInt32, f: Field<C>)
    ensures f in Settings<C>(bound, makeKey) <==>
            exists i :: 0 <= i < |bound| && bound[i].Some? && bound[i].value.category != "" && bound[i].value.name != ""
                        && f == var b := bound[i].value; Field(makeKey(b.category, b.name), Setting(b.on, b.bind))
  {
    if bound != [] {
      var n := |bound| - 1;
      SettingsAre<C>(bound[..n], makeKey, f);
      assert forall i :: 0 <= i < n ==> bound[..n][i] == bound[i];
    }
  }

  datatype Outcome = Imported | Refused | Threw

  /** The entries and the version of a delta; a delta without a version counts as the first one. */
  function Version(entries: Object): Option<Int32> {
    if "v" in entries then AsInt(entries["v"]) else Some(1)
  }

  predicate IsDelta(root: Json) {
    root.Obj? && "f" in root.entries && root.entries["f"].Obj?
  }

  predicate IsFull(root: Json) {
    root.Obj? && "version" in root.entries && "fields" in root.entries && root.entries["fields"].Obj?
  }

  class Registry<!C(!new)> {
    const codec: Codec<C>

    var fields: seq<Field<C>>
    var defaults: Object
    var factory: Object

    constructor (codec: Codec<C>, fields: seq<Field<C>>)
      ensures this.codec == codec && this.fields == fields && defaults == map[] && factory == map[]
    {
      this.codec := codec;
      this.fields := fields;
      defaults := map[];
      factory := map[];
    }

    method TakeSnapshot() returns (entries: Object)
      ensures entries == Snapshot(codec, fields)
    {
      entries := map[];
      for i := 0 to |fields|
        invariant entries == Snapshot(codec, fields[..i])
      {
        var j := FieldToJson(codec, fields[i].value);
        assert fields[..i + 1][..i] == fields[..i];
        entries := entries[Hex8(fields[i].key) := j];
      }
      assert fields[..|fields|] == fields;
    }

    method ApplyBlankProfile()
      modifies this`fields
      ensures fields == Blanked(codec, old(fields))
    {
      for i := 0 to |fields|
        invariant |fields| == |old(fields)|
        invariant fields[..i] == Blanked(codec, old(fields))[..i] && fields[i..] == old(fields)[i..]
      {
        assert fields[i..][0] == old(fields)[i..][0];
        fields := fields[i := fields[i].(value := BlankValue(codec, fields[i].value))];
      }
    }

    /** Registers the named settings, and takes the two baselines: the values compiled in, and the blank profile. */
    method Initialize(bound: seq<Option<Bound>>, makeKey: (string, string) -> UInt32)
      modifies this
      ensures fields == Blanked(codec, old(fields) + Settings(bound, makeKey))
      ensures factory == Snapshot(codec, old(fields) + Settings(bound, makeKey))
      ensures defaults == Snapshot(codec, fields)
    {
      for i := 0 to |bound|
        invariant fields == old(fields) + Settings(bound[..i], makeKey)
      {
        assert bound[..i + 1][..i] == bound[..i];
        if bound[i].None? || bound[i].value.category == "" || bound[i].value.name == "" {
          continue;
        }
        var b := bound[i].value;
        fields := fields + [Field(makeKey(b.category, b.name), Setting(b.on, b.bind))];
      }
      assert bound[..|bound|] == bound;
      factory := TakeSnapshot();
      ApplyBlankProfile();
      defaults := TakeSnapshot();
    }

    method ToJsonDelta() returns (root: Json)
      ensures root == Obj(map["v" := Int(VERSION), "f" := Obj(Delta(codec, fields, defaults))])
    {
      var entries: Object := map[];
      for i := 0 to |fields|
        invariant entries == Delta(codec, fields[..i], defaults)
      {
        var current := FieldToJson(codec, fields[i].value);
        var name := Hex8(fields[i].key);
        assert fields[..i + 1][..i] == fields[..i];
        if name in defaults && defaults[name] == current {
          continue;
        }
        entries := entries[name := current];
      }
      assert fields[..|fields|] == fields;
      root := Obj(map["v" := Int(VERSION), "f" := Obj(entries)]);
    }

    method ToJson() returns (root: Json)
      ensures root == Obj(map["version" := Int(VERSION), "fields" := Obj(Snapshot(codec, fields))])
    {
      var entries := TakeSnapshot();
      root := Obj(map["version" := Int(VERSION), "fields" := Obj(entries)]);
    }

    // ----- Importing -----

    /** The index of the last field with each key. */
    method LookUp() returns (lookup: map<UInt32, nat>)
      ensures forall key :: key in lookup ==>
                lookup[key] < |fields| && fields[lookup[key]].key == key && Reached(fields, lookup[key])
      ensures forall i :: 0 <= i < |fields| ==> fields[i].key in lookup
    {
      lookup := map[];
      for i := 0 to |fields|
        invariant forall key :: key in lookup ==> lookup[key] < i && fields[lookup[key]].key == key
        invariant forall key, j :: key in lookup && lookup[key] < j < i ==> fields[j].key != key
        invariant forall j :: 0 <= j < i ==> fields[j].key in lookup
      {
        lookup := lookup[fields[i].key := i];
      }
    }

    /** Reads the entries of an object into the fields they name, in any order. */
    method ApplyEntries(entries: Object)
      modifies this`fields
      ensures Applied(codec, old(fields), entries, fields)
    {
      ghost var before := fields;
      var lookup := LookUp();
      var rest := entries;
      ghost var done: Object := map[];
      NothingApplied(codec, fields);
      while rest != map[]
        invariant forall name :: name in entries <==> name in done || name in rest
        invariant forall name :: name in done ==> name !in rest && done[name] == entries[name]
        invariant forall name :: name in rest ==> rest[name] == entries[name]
        invariant Applied(codec, before, done, fields)
        decreases |rest|
      {
        var name :| name in rest;
        var key := Strtoul(name);
        if key in lookup {
          var i := lookup[key];
          var v := JsonToField(codec, fields[i].value, rest[name]);
          AppliedOne(codec, before, done, fields, name, rest[name], i);
          fields := fields[i := fields[i].(value := v)];
        } else {
          AppliedNone(codec, before, done, fields, name, rest[name]);
        }
        done := done[name := rest[name]];
        rest := rest - {name};
      }
      assert done == entries;
    }

    method ApplyBaseline(baseline: Object)
      modifies this`fields
      ensures fields == AllBased(codec, old(fields), baseline)
    {
      for i := 0 to |fields|
        invariant |fields| == |old(fields)|
        invariant fields[..i] == AllBased(codec, old(fields), baseline)[..i] && fields[i..] == old(fields)[i..]
      {
        assert fields[i..][0] == old(fields)[i..][0];
        var name := Hex8(fields[i].key);
        if name in baseline {
          var v := JsonToField(codec, fields[i].value, baseline[name]);
          fields := fields[i := fields[i].(value := v)];
        }
      }
    }

    /** Imports a delta: first the baseline for its version, then its entries. */
    method FromJsonDelta(root: Json) returns (outcome: Outcome)
      modifies this`fields
      ensures !IsDelta(root) ==> outcome == Refused && fields == old(fields)
      ensures IsDelta(root) && Version(root.entries).None? ==> outcome == Threw && fields == old(fields)
      ensures IsDelta(root) && Version(root.entries).Some? ==>
                && outcome == Imported
                && var version := Version(root.entries).value;
                   var baseline := if version < BLANK_BASELINE_VERSION && factory != map[] then factory else defaults;
                   Applied(codec, AllBased(codec, old(fields), baseline), root.entries["f"].entries, fields)
      ensures root.Obj? && "f" in root.entries && root.entries["f"].Obj? && "v" !in root.entries ==>
                && outcome == Imported
                && Applied(codec, AllBased(codec, old(fields), if factory != map[] then factory else defaults),
                     root.entries["f"].entries, fields)
      ensures root.Obj? && "f" in root.entries && root.entries["f"].Obj? && "v" in root.entries
              && root.entries["v"].Int? && -0x8000_0000 <= root.entries["v"].i < 0x8000_0000 ==>
                && outcome == Imported
                && var early := root.entries["v"].i < 2 && factory != map[];
                   Applied(codec, AllBased(codec, old(fields), if early then factory else defaults),
                     root.entries["f"].entries, fields)
      ensures !(root.Obj? && "f" in root.entries && root.entries["f"].Obj?) ==> outcome == Refused
    {
      if !(root.Obj? && "f" in root.entries) {
        return Refused;
      }
      if !root.entries["f"].Obj? {
        return Refused;
      }
      var version := Version(root.entries);
      if version.None? {
        return Threw;
      }
      var baseline := defaults;
      if version.value < BLANK_BASELINE_VERSION && factory != map[] {
        baseline := factory;
      }
      ApplyBaseline(baseline);
      ApplyEntries(root.entries["f"].entries);
      return Imported;
    }

    /** Imports a full export; fields it has no entry for keep their values. */
    method FromJson(root: Json) returns (outcome: Outcome)
      modifies this`fields
      ensures !IsFull(root) ==> outcome == Refused && fields == old(fields)
      ensures IsFull(root) ==>
                outcome == Imported && Applied(codec, old(fields), root.entries["fields"].entries, fields)
    {
      if !(root.Obj? && "version" in root.entries && "fields" in root.entries) {
        return Refused;
      }
      if !root.entries["fields"].Obj? {
        return Refused;
      }
      ApplyEntries(root.entries["fields"].entries);
      return Imported;
    }
  }
}
