/** Settings fields and their JSON form. */
module Fields {
  import opened Basics
  import opened JsonValues

  datatype Mode = Toggle | HoldOn | HoldOff

  function ModeNumber(m: Mode): int {
    match m case Toggle => 0 case HoldOn => 1 case HoldOff => 2
  }

  /** A number that is no mode stands for toggling. */
  function ModeOf(n: int): Mode {
    if n == 1 then HoldOn else if n == 2 then HoldOff else Toggle
  }

  datatype Bind = Bind(key: Int32, mode: Mode, active: bool)

  /** Red, green, blue and alpha. */
  type Channels = c: seq<Byte> | |c| == 4 witness [0, 0, 0, 0]

  type Triple = v: seq<real> | |v| == 3 witness [0.0, 0.0, 0.0]

  /** The value that a registered field points to. A custom field brings its own conversions. */
  datatype Value<C> =
    | Setting(on: bool, bind: Bind)
    | BoolVal(b: bool)
    | IntVal(i: Int32)
    | ByteVal(u: Byte)
    | FloatVal(f: real)
    | Color(channels: Channels)
    | Float3(xyz: Triple)
    | Bools(flags: seq<bool>)
    | Text(s: string)
    | Custom(c: C)

  datatype Codec<!C> = Codec(ser: C -> Json, de: (C, Json) -> C)

  /** A custom field is lawful when reading what it wrote makes it write the same again, whatever it held before. */
  ghost predicate Lawful<C(!new)>(codec: Codec<C>) {
    forall c: C, was: C :: codec.ser(codec.de(was, codec.ser(c))) == codec.ser(c)
  }

  /** Values that the same registered field can hold. */
  predicate SameKind<C>(v: Value<C>, w: Value<C>) {
    match v
    case Setting(_, _) => w.Setting?
    case BoolVal(_) => w.BoolVal?
    case IntVal(_) => w.IntVal?
    case ByteVal(_) => w.ByteVal?
    case FloatVal(_) => w.FloatVal?
    case Color(_) => w.Color?
    case Float3(_) => w.Float3?
    case Bools(flags) => w.Bools? && |w.flags| == |flags|
    case Text(_) => w.Text?
    case Custom(_) => w.Custom?
  }

  // ----- Writing -----

  function BindJson(b: Bind): Json {
    if b.key == 0 then Null else Obj(map["k" := Int(b.key), "m" := Int(ModeNumber(b.mode))])
  }

  function Each<T>(items: seq<T>, f: T -> Json): (js: seq<Json>)
    ensures |js| == |items|
  {
    seq(|items|, i requires 0 <= i < |items| => f(items[i]))
  }

  function FieldJson<C>(codec: Codec<C>, v: Value<C>): Json {
    match v
    case Setting(on, bind) => Obj(map["v" := Bool(on), "b" := BindJson(bind)])
    case BoolVal(b) => Bool(b)
    case IntVal(i) => Int(i)
    case ByteVal(u) => Int(u)
    case FloatVal(f) => Num(f)
    case Color(channels) => Arr(Each(channels, u => Int(u)))
    case Float3(xyz) => Arr(Each(xyz, f => Num(f)))
    case Bools(flags) => Arr(Each(flags, b => Bool(b)))
    case Text(s) => Str(s)
    case Custom(c) => codec.ser(c)
  }

  // ----- Reading -----

  /** An entry of an object, or a default where there is none; None where the conversion throws. */
  function IntEntry(entries: map<string, Json>, name: string): Option<Int32> {
    if name in entries then AsInt(entries[name]) else Some(0)
  }

  /** What reading a bind leaves in it, and whether it got to the end without throwing. */
  function ReadBind(was: Bind, j: Json): (Bind, bool) {
    match j
    case Null => (Bind(0, Toggle, was.active), true)
    case Obj(entries) =>
      (match IntEntry(entries, "k")
       case None => (was, false)
       case Some(key) =>
         match IntEntry(entries, "m")
         case None => (was.(key := key), false)
         case Some(mode) => (Bind(key, ModeOf(mode), was.active), true))
    case _ => (was, false)
  }

  /** The last step: a bind that toggles takes over the setting's value. */
  function Activated(on: bool, bind: Bind): Bind {
    if bind.key != 0 && bind.mode == Toggle then bind.(active := on) else bind
  }

  function ReadSetting(on: bool, bind: Bind, j: Json): (bool, Bind) {
    match j
    case Obj(entries) =>
      var v := if "v" in entries then AsBool(entries["v"]) else Some(on);
      if v.None? then (on, bind)
      else
        var (bind', done) := if "b" in entries then ReadBind(bind, entries["b"]) else (bind, true);
        (v.value, if done then Activated(v.value, bind') else bind')
    case _ => (on, Activated(on, bind))
  }

  /** Elements are read one after the other, up to the first that cannot be converted. */
  function ReadEach<T>(was: seq<T>, js: seq<Json>, conv: Json -> Option<T>): (now: seq<T>)
    ensures |now| == |was|
  {
    if was == [] || js == [] then was
    else
      match conv(js[0])
      case None => was
      case Some(x) => [x] + ReadEach(was[1..], js[1..], conv)
  }

  /** What reading `j` makes of the value that the field held before. */
  function ReadField<C>(codec: Codec<C>, was: Value<C>, j: Json): Value<C> {
    match was
    case Setting(on, bind) => var (on', bind') := ReadSetting(on, bind, j); Setting(on', bind')
    case BoolVal(b) => (match AsBool(j) case Some(x) => BoolVal(x) case None => was)
    case IntVal(i) => (match AsInt(j) case Some(x) => IntVal(x) case None => was)
    case ByteVal(u) => (match AsByte(j) case Some(x) => ByteVal(x) case None => was)
    case FloatVal(f) => (match AsReal(j) case Some(x) => FloatVal(x) case None => was)
    case Color(channels) => if j.Arr? && 4 <= |j.items| then Color(ReadEach(channels, j.items, AsByte)) else was
    case Float3(xyz) => if j.Arr? && 3 <= |j.items| then Float3(ReadEach(xyz, j.items, AsReal)) else was
    case Bools(flags) => if j.Arr? then Bools(ReadEach(flags, j.items, AsBool)) else was
    case Text(s) => if j.Str? then Text(j.s) else was
    case Custom(c) => Custom(codec.de(c, j))
  }

  // ----- Round trips -----

  lemma {:induction false} ReadsBackEach<T>(was: seq<T>, items: seq<T>, f: T -> Json, conv: Json -> Option<T>)
    requires |was| == |items| && forall i :: 0 <= i < |items| ==> conv(f(items[i])) == Some(items[i])
    ensures ReadEach(was, Each(items, f), conv) == items
  {
    if was != [] {
      ReadsBackEach(was[1..], items[1..], f, conv);
      assert Each(items, f)[1..] == Each(items[1..], f);
    }
  }

  lemma ReadsBackSetting(on0: bool, bind0: Bind, on: bool, bind: Bind)
    ensures var j := Obj(map["v" := Bool(on), "b" := BindJson(bind)]);
            var b := if bind.key == 0 then Bind(0, Toggle, bind0.active) else Bind(bind.key, bind.mode, bind0.active);
            ReadSetting(on0, bind0, j) == (on, Activated(on, b))
  {
  }

  /** Whatever a field held before, after reading the JSON of a value it writes that JSON again. */
  lemma ReadsBack<C(!new)>(codec: Codec<C>, was: Value<C>, v: Value<C>)
    requires SameKind(was, v) && Lawful(codec)
    ensures FieldJson(codec, ReadField(codec, was, FieldJson(codec, v))) == FieldJson(codec, v)
  {
    match v
    case Setting(on, bind) => ReadsBackSetting(was.on, was.bind, on, bind);
    case Color(channels) => ReadsBackEach(was.channels, channels, u => Int(u), AsByte);
    case Float3(xyz) => ReadsBackEach(was.xyz, xyz, f => Num(f), AsReal);
    case Bools(flags) => ReadsBackEach(was.flags, flags, b => Bool(b), AsBool);
    case Custom(c) => assert codec.ser(codec.de(was.c, codec.ser(c))) == codec.ser(c);
    case _ =>
  }

  /** Reading keeps the kind of a field. */
  lemma ReadingKeepsKind<C>(codec: Codec<C>, was: Value<C>, j: Json)
    ensures SameKind(was, ReadField(codec, was, j))
  {
  }

  /** Which settings come back entirely, whatever was there before: those with a key bound to toggling that is
      active exactly when the setting is on. The JSON does not hold the active flag, nor the mode of a bind
      without a key. */
  lemma SettingRestoredIff(on: bool, bind: Bind)
    ensures (forall on0: bool, bind0: Bind ::
              ReadSetting(on0, bind0, Obj(map["v" := Bool(on), "b" := BindJson(bind)])) == (on, bind))
            <==> bind.key != 0 && bind.mode == Toggle && bind.active == on
  {
    var j := Obj(map["v" := Bool(on), "b" := BindJson(bind)]);
    forall on0: bool, bind0: Bind
      ensures ReadSetting(on0, bind0, j) == (on, bind) ==>
                bind == Activated(on, if bind.key == 0 then Bind(0, Toggle, bind0.active)
                  else bind.(active := bind0.active))
      ensures bind == Activated(on, bind.(active := bind0.active)) && bind.key != 0 ==>
                ReadSetting(on0, bind0, j) == (on, bind)
    {
      ReadsBackSetting(on0, bind0, on, bind);
    }
    var other := Bind(0, Toggle, !bind.active);
    ReadsBackSetting(on, other, on, bind);
  }

  /** What JSON that was written by hand does to a setting: entries that are missing leave their part alone, a bind of
      null is no bind, a missing key or mode is zero, and a mode that there is not is taken for toggling. */
  lemma SettingReads(on: bool, bind: Bind, value: bool, key: Int32, mode: Int32)
    ensures ReadSetting(on, bind, Obj(map["b" := Null])) == (on, Bind(0, Toggle, bind.active))
    ensures ReadSetting(on, bind, Obj(map["v" := Bool(value)])) ==
            (value, if bind.key != 0 && bind.mode == Toggle then bind.(active := value) else bind)
    ensures ReadSetting(on, bind, Obj(map["b" := Obj(map[])])) == (on, Bind(0, Toggle, bind.active))
    ensures var m := if mode == 1 then HoldOn else if mode == 2 then HoldOff else Toggle;
            ReadSetting(on, bind, Obj(map["v" := Bool(value), "b" := Obj(map["k" := Int(key), "m" := Int(mode)])])) ==
            (value, Bind(key, m, if key != 0 && m == Toggle then value else bind.active))
  {
    ConversionsKeep(key, 0);
    ConversionsKeep(mode, 0);
    hide AsInt;
  }

  /** What every kind of field writes. */
  lemma FieldWrites<C>(codec: Codec<C>, on: bool, bind: Bind, c: Channels, v: Triple, flags: seq<bool>, i: nat)
    ensures FieldJson(codec, Setting(on, bind)) ==
            Obj(map["v" := Bool(on),
                    "b" := if bind.key == 0 then Null
                           else
                             var mode := if bind.mode == Toggle then 0 else if bind.mode == HoldOn then 1 else 2;
                             Obj(map["k" := Int(bind.key), "m" := Int(mode)])])
    ensures FieldJson(codec, Color(c)) == Arr([Int(c[0]), Int(c[1]), Int(c[2]), Int(c[3])])
    ensures FieldJson(codec, Float3(v)) == Arr([Num(v[0]), Num(v[1]), Num(v[2])])
    ensures var j := FieldJson(codec, Bools(flags));
            j.Arr? && |j.items| == |flags| && (i < |flags| ==> j.items[i] == Bool(flags[i]))
  {
  }

  /** What reading elements one by one leaves: the new ones up to the first that cannot be converted, the old ones from
      there on. */
  lemma {:induction false} ReadEachAt<T>(was: seq<T>, js: seq<Json>, conv: Json -> Option<T>, i: nat)
    requires i < |was|
    ensures ReadEach(was, js, conv)[i] ==
            if i < |js| && forall k :: 0 <= k <= i ==> conv(js[k]).Some? then conv(js[i]).value else was[i]
  {
    if js != [] && conv(js[0]).Some? && i > 0 {
      ReadEachAt(was[1..], js[1..], conv, i - 1);
      assert forall k :: 0 <= k < |js| - 1 ==> js[1..][k] == js[k + 1];
      if i < |js| && forall k :: 0 <= k <= i - 1 ==> conv(js[1..][k]).Some? {
        forall k | 0 <= k <= i ensures conv(js[k]).Some? {
          if k > 0 { assert conv(js[1..][k - 1]).Some?; }
        }
      }
    }
  }

  /** What cannot be read leaves a field alone, and fewer elements than a color or a vector has cannot. */
  lemma FieldReads<C>(codec: Codec<C>, was: Value<C>, j: Json)
    ensures !was.Custom? && !was.Setting? && (j.Null? || j.Obj?) ==> ReadField(codec, was, j) == was
    ensures was.Color? && j.Arr? && |j.items| < 4 ==> ReadField(codec, was, j) == was
    ensures was.Float3? && j.Arr? && |j.items| < 3 ==> ReadField(codec, was, j) == was
    ensures was.Text? ==> ReadField(codec, was, j) == if j.Str? then Text(j.s) else was
    ensures was.BoolVal? ==> ReadField(codec, was, j) == if j.Bool? then BoolVal(j.b) else was
    ensures was.FloatVal? && j.Int? ==> ReadField(codec, was, j) == FloatVal(j.i as real)
    ensures was.IntVal? && j.Bool? ==> ReadField(codec, was, j) == IntVal(if j.b then 1 else 0)
  {
  }
}
