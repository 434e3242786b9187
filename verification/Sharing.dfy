/** Sharing settings from one registry to another: what differs from the defaults goes through JSON text,
compression and base 64, and comes back from whatever was pasted. */
module Sharing {
  import opened Base64
  import opened Basics
  import opened JsonValues
  import opened Fields
  import opened ConfigDelta
  import R = Registry
  import S = ShareCode

  /** JSON as compressed text, which is empty when compression fails, and back. */
  datatype Pipe = Pipe(write: Json -> seq<Byte>, read: seq<Byte> -> Option<Json>)

  ghost predicate LawfulPipe(pipe: Pipe) {
    forall j: Json :: pipe.write(j) != [] ==> pipe.read(pipe.write(j)) == Some(j)
  }

  // ----- Exporting -----

  function Named(root: map<string, Json>, name: string): Json {
    Obj(if name == "" then root else root["n" := Str(name)])
  }

  /** The share code of a registry's fields. */
  function CodeOf<C>(codec: Codec<C>, fields: seq<Field<C>>, defaults: Object, pipe: Pipe, name: string): string {
    S.Exported(pipe.write(Named(map["v" := Int(VERSION), "f" := Obj(Delta(codec, fields, defaults))], name)))
  }

  method ExportShare<C(!new)>(reg: R.Registry<C>, pipe: Pipe, name: string) returns (code: string)
    ensures code == CodeOf(reg.codec, reg.fields, reg.defaults, pipe, name)
  {
    var delta := reg.ToJsonDelta();
    if name != "" {
      delta := Obj(delta.entries["n" := Str(name)]);
    }
    var compressed := pipe.write(delta);
    if compressed == [] {
      return "";
    }
    code := Encode(S.MAGIC + [S.VERSION] + compressed);
  }

  // ----- Importing -----

  predicate Contains(j: Json, name: string) {
    j.Obj? && name in j.entries
  }

  function NameIn(j: Json): string {
    if Contains(j, "n") && j.entries["n"].Str? then j.entries["n"].s else ""
  }

  /** The version that a delta names decides which defaults it was taken against. */
  function Baseline(version: Int32, defaults: Object, factory: Object): Object {
    if version < BLANK_BASELINE_VERSION && factory != map[] then factory else defaults
  }

  /** What an import reports, and what it does to the fields: nothing, unless there is JSON in what was received,
      and that is a delta or a full export. */
  ghost predicate Received<C>(codec: Codec<C>, was: seq<Field<C>>, defaults: Object, factory: Object,
                              root: Option<Json>, now: seq<Field<C>>, ok: bool, name: string) {
    match root
    case None => !ok && name == "" && now == was
    case Some(j) =>
      if Contains(j, "f") then
        if !R.IsDelta(j) then !ok && name == NameIn(j) && now == was
        else
          match R.Version(j.entries)
          case None => !ok && name == "" && now == was
          case Some(version) =>
            ok && name == NameIn(j)
            && Applied(codec, AllBased(codec, was, Baseline(version, defaults, factory)), j.entries["f"].entries, now)
      else if R.IsFull(j) then
        ok && name == NameIn(j) && Applied(codec, was, j.entries["fields"].entries, now)
      else
        !ok && name == NameIn(j) && now == was
  }

  /** Spelled out: a delta is imported onto the factory settings when it says no version or one before 2, and there are
      such settings, and onto the defaults otherwise; a full export onto what is there; anything else is refused. The
      name is that of the entry "n", if it is text. */
  lemma ReceivedIs<C>(codec: Codec<C>, was: seq<Field<C>>, defaults: Object, factory: Object, entries: Object,
                      now: seq<Field<C>>, ok: bool, name: string)
    requires Received(codec, was, defaults, factory, Some(Obj(entries)), now, ok, name)
    ensures "f" in entries && entries["f"].Obj? && "v" !in entries ==>
              ok && Applied(codec, AllBased(codec, was, if factory != map[] then factory else defaults),
                entries["f"].entries, now)
    ensures "f" in entries && entries["f"].Obj? && "v" in entries && entries["v"].Int?
            && -0x8000_0000 <= entries["v"].i < 0x8000_0000 ==>
              ok && Applied(codec,
                AllBased(codec, was, if entries["v"].i < 2 && factory != map[] then factory else defaults),
                entries["f"].entries, now)
    ensures "f" !in entries && "version" in entries && "fields" in entries && entries["fields"].Obj? ==>
              ok && Applied(codec, was, entries["fields"].entries, now)
    ensures "f" in entries && !entries["f"].Obj? ==> !ok && now == was
    ensures "f" !in entries && !("version" in entries && "fields" in entries && entries["fields"].Obj?) ==>
              !ok && now == was
    ensures ok ==> name == if "n" in entries && entries["n"].Str? then entries["n"].s else ""
  {
    hide Applied, AllBased;
    if "v" in entries && entries["v"].Int? && -0x8000_0000 <= entries["v"].i < 0x8000_0000 {
      ConversionsKeep(entries["v"].i, 0);
    }
  }

  function Unpacked(pipe: Pipe, compressed: Option<seq<Byte>>): Option<Json> {
    match compressed
    case None => None
    case Some(c) => pipe.read(c)
  }

  method ImportJson<C(!new)>(reg: R.Registry<C>, j: Json) returns (ok: bool, name: string)
    modifies reg`fields
    ensures Received(reg.codec, old(reg.fields), reg.defaults, reg.factory, Some(j), reg.fields, ok, name)
  {
    hide Applied, AllBased;
    name := "";
    if Contains(j, "n") && j.entries["n"].Str? {
      name := j.entries["n"].s;
    }
    var outcome: R.Outcome;
    if Contains(j, "f") {
      outcome := reg.FromJsonDelta(j);
    } else {
      outcome := reg.FromJson(j);
    }
    if outcome == R.Threw {
      return false, "";
    }
    ok := outcome == R.Imported;
  }

  method ImportPayload<C(!new)>(reg: R.Registry<C>, pipe: Pipe, compressed: Option<seq<Byte>>)
    returns (ok: bool, name: string)
    modifies reg`fields
    ensures Received(reg.codec, old(reg.fields), reg.defaults, reg.factory, Unpacked(pipe, compressed), reg.fields, ok,
            name)
  {
    if compressed.None? {
      return false, "";
    }
    var j := pipe.read(compressed.value);
    if j.None? {
      return false, "";
    }
    ok, name := ImportJson(reg, j.value);
  }

  method ImportShare<C(!new)>(reg: R.Registry<C>, pipe: Pipe, text: string) returns (ok: bool, name: string)
    modifies reg`fields
    ensures Received(reg.codec, old(reg.fields), reg.defaults, reg.factory, Unpacked(pipe, S.Imported(text)),
            reg.fields, ok, name)
  {
    var compressed := S.Import(text);
    ok, name := ImportPayload(reg, pipe, compressed);
  }

  // ----- Pasted text -----

  predicate Trims(c: char) {
    c == ' ' || c == '\n' || c == '\r'
  }

  function TrimmedFront(s: string): string {
    if s != "" && Trims(s[0]) then TrimmedFront(s[1..]) else s
  }

  function TrimmedBack(s: string): string {
    if s != "" && Trims(s[|s| - 1]) then TrimmedBack(s[..|s| - 1]) else s
  }

  function Trimmed(s: string): string {
    TrimmedBack(TrimmedFront(s))
  }

  lemma {:induction false} FrontTaken(s: string) returns (front: string)
    ensures s == front + TrimmedFront(s)
    ensures forall i :: 0 <= i < |front| ==> front[i] == ' ' || front[i] == '\n' || front[i] == '\r'
    ensures var t := TrimmedFront(s); t != "" ==> t[0] != ' ' && t[0] != '\n' && t[0] != '\r'
  {
    front := "";
    if s != "" && Trims(s[0]) {
      front := FrontTaken(s[1..]);
      front := [s[0]] + front;
    }
  }

  lemma {:induction false} BackTaken(s: string) returns (back: string)
    ensures s == TrimmedBack(s) + back && (TrimmedBack(s) != "" ==> TrimmedBack(s)[0] == s[0])
    ensures forall i :: 0 <= i < |back| ==> back[i] == ' ' || back[i] == '\n' || back[i] == '\r'
    ensures var t := TrimmedBack(s);
            t != "" ==> var b := t[|t| - 1]; b != ' ' && b != '\n' && b != '\r'
  {
    back := "";
    if s != "" && Trims(s[|s| - 1]) {
      back := BackTaken(s[..|s| - 1]);
      back := back + [s[|s| - 1]];
    }
  }

  /** Trimming takes spaces, line feeds and carriage returns off both ends, and all that there are. */
  lemma TrimmedIs(s: string) returns (front: string, back: string)
    ensures s == front + Trimmed(s) + back
    ensures forall i :: 0 <= i < |front| ==> front[i] == ' ' || front[i] == '\n' || front[i] == '\r'
    ensures forall i :: 0 <= i < |back| ==> back[i] == ' ' || back[i] == '\n' || back[i] == '\r'
    ensures var t := Trimmed(s);
            t != "" ==> var a, b := t[0], t[|t| - 1];
              a != ' ' && a != '\n' && a != '\r' && b != ' ' && b != '\n' && b != '\r'
  {
    front := FrontTaken(s);
    back := BackTaken(TrimmedFront(s));
    assert s == front + (Trimmed(s) + back);
  }

  method Trim(text: string) returns (t: string)
    ensures t == Trimmed(text)
  {
    t := text;
    while t != "" && Trims(t[0])
      invariant TrimmedFront(t) == TrimmedFront(text)
      decreases |t|
    {
      t := t[1..];
    }
    while t != "" && Trims(t[|t| - 1])
      invariant TrimmedBack(t) == Trimmed(text)
      decreases |t|
    {
      t := t[..|t| - 1];
    }
  }

  lemma {:induction false} FrontIsLikewise(s: string)
    ensures S.Stripped(TrimmedFront(s)) == S.Stripped(s) && ('|' in TrimmedFront(s) <==> '|' in s)
  {
    if s != "" && Trims(s[0]) {
      FrontIsLikewise(s[1..]);
      assert s == [s[0]] + s[1..];
    }
  }

  lemma {:induction false} StrippedEnd(s: string)
    requires s != "" && Trims(s[|s| - 1])
    ensures S.Stripped(s[..|s| - 1]) == S.Stripped(s)
  {
    if |s| > 1 {
      StrippedEnd(s[1..]);
      assert s[..|s| - 1][1..] == s[1..][..|s| - 2];
    }
  }

  lemma {:induction false} BackIsLikewise(s: string)
    ensures S.Stripped(TrimmedBack(s)) == S.Stripped(s) && ('|' in TrimmedBack(s) <==> '|' in s)
  {
    if s != "" && Trims(s[|s| - 1]) {
      BackIsLikewise(s[..|s| - 1]);
      StrippedEnd(s);
      assert s == s[..|s| - 1] + [s[|s| - 1]];
    }
  }

  /** Trimming does not change what stripping leaves, nor whether there is a bar. */
  lemma TrimmedIsLikewise(s: string)
    ensures S.Stripped(Trimmed(s)) == S.Stripped(s) && ('|' in Trimmed(s) <==> '|' in s)
  {
    FrontIsLikewise(s);
    BackIsLikewise(TrimmedFront(s));
  }

  /** Where pasted text with a bar in it is a code of words, which `words` reads, and other text a share code. */
  function FromText(words: string -> Option<seq<Byte>>, text: string): Option<seq<Byte>> {
    if '|' in text then
      match words(Trimmed(text))
      case None => None
      case Some(payload) => S.Unwrapped(payload)
    else S.Imported(text)
  }

  lemma {:induction false} FrontTrimmed(front: string, s: string)
    requires forall i :: 0 <= i < |front| ==> Trims(front[i])
    requires s != "" && !Trims(s[0])
    ensures TrimmedFront(front + s) == s
  {
    if front == "" {
      assert front + s == s;
    } else {
      FrontTrimmed(front[1..], s);
      assert (front + s)[1..] == front[1..] + s;
    }
  }

  lemma {:induction false} BackTrimmed(s: string, back: string)
    requires forall i :: 0 <= i < |back| ==> Trims(back[i])
    requires s != "" && !Trims(s[|s| - 1])
    ensures TrimmedBack(s + back) == s
  {
    if back == "" {
      assert s + back == s;
    } else {
      var n := |back| - 1;
      BackTrimmed(s, back[..n]);
      assert (s + back)[..|s + back| - 1] == s + back[..n];
    }
  }

  lemma BarsStay(front: string, code: string, back: string)
    requires '|' in code
    ensures '|' in front + code + back
  {
    var i :| 0 <= i < |code| && code[i] == '|';
    assert (front + code + back)[|front| + i] == '|';
  }

  /** A code of words arrives without what is around it: the words say a payload, which must be marked and hold
      something behind its header of three bytes. */
  lemma WordsArrive(words: string -> Option<seq<Byte>>, front: string, code: string, back: string)
    requires forall i :: 0 <= i < |front| ==> front[i] == ' ' || front[i] == '\n' || front[i] == '\r'
    requires forall i :: 0 <= i < |back| ==> back[i] == ' ' || back[i] == '\n' || back[i] == '\r'
    requires '|' in code && code[0] !in " \n\r" && code[|code| - 1] !in " \n\r"
    ensures FromText(words, front + code + back) ==
            match words(code)
            case None => None
            case Some(d) => if 4 <= |d| && d[0] == 65 && d[1] == 67 then Some(d[3..]) else None
  {
    BarsStay(front, code, back);
    FrontTrimmed(front, code + back);
    BackTrimmed(code, back);
    assert front + code + back == front + (code + back);
    assert Trimmed(front + code + back) == code;
    if words(code).Some? {
      var d := words(code).value;
      if 4 <= |d| { assert d[..2] == [d[0], d[1]]; }
    }
  }

  lemma NothingReceived<C>(codec: Codec<C>, was: seq<Field<C>>, defaults: Object, factory: Object, pipe: Pipe,
                           text: string)
    requires S.Stripped(text) == ""
    ensures Received(codec, was, defaults, factory, Unpacked(pipe, S.Imported(text)), was, false, "")
  {
  }

  method ImportAuto<C(!new)>(reg: R.Registry<C>, pipe: Pipe, words: string -> Option<seq<Byte>>, text: string)
    returns (ok: bool, name: string)
    modifies reg`fields
    ensures Received(reg.codec, old(reg.fields), reg.defaults, reg.factory, Unpacked(pipe, FromText(words, text)),
                     reg.fields, ok, name)
  {
    hide Received, Decoded;
    TrimmedIsLikewise(text);
    var t := Trim(text);
    if t == "" {
      NothingReceived(reg.codec, reg.fields, reg.defaults, reg.factory, pipe, text);
      return false, "";
    }
    if '|' in t {
      var payload := words(t);
      ok, name := ImportPayload(reg, pipe, match payload case None => None case Some(d) => S.Unwrapped(d));
    } else {
      ok, name := ImportShare(reg, pipe, t);
    }
  }

  // ----- From one registry to another -----

  /** No share code, however spaced, is taken for a code of words. */
  lemma {:induction false} NoBar(text: string, code: string)
    requires S.Spaced(text, code) && Known(code)
    ensures '|' !in text
  {
    if text != "" {
      if code != "" && text[0] == code[0] && S.Spaced(text[1..], code[1..]) {
        NoBar(text[1..], code[1..]);
      } else {
        NoBar(text[1..], code);
      }
      assert text == [text[0]] + text[1..];
    }
  }

  lemma NothingReceivedKeeps<C>(codec: Codec<C>, was: seq<Field<C>>, defaults: Object, factory: Object,
                                now: seq<Field<C>>, ok: bool, name: string)
    requires Received(codec, was, defaults, factory, None, now, ok, name)
    ensures !ok && now == was
  {
  }

  lemma ReceivedDelta<C>(codec: Codec<C>, was: seq<Field<C>>, defaults: Object, factory: Object, delta: Object,
                         name: string, now: seq<Field<C>>, ok: bool, received: string)
    requires Received(codec, was, defaults, factory, Some(Named(map["v" := Int(VERSION), "f" := Obj(delta)], name)),
                      now, ok, received)
    ensures ok && received == name && Applied(codec, AllBased(codec, was, defaults), delta, now)
  {
    hide Applied, AllBased;
    assert R.Version(Named(map["v" := Int(VERSION), "f" := Obj(delta)], name).entries) == Some(VERSION);
  }

  lemma EmptyDecodes()
    ensures Decoded("") == Some([])
  {
  }

  /** There is a code exactly when there is something to encode, and it is of the letters of base 64. */
  lemma CodeIsKnown(compressed: seq<Byte>)
    ensures Known(S.Exported(compressed)) && (S.Exported(compressed) == "" <==> compressed == [])
  {
    var payload := S.MAGIC + [S.VERSION] + compressed;
    hide Base64.Value, Encoded;
    EncodedIsCanonical(payload);
    S.CanonicalIsKnown(Encoded(payload));
    DecodesBack(payload);
    EmptyDecodes();
  }

  /** Settings that are exported from one registry and pasted into another with the same fields and defaults
      arrive, with the name they were given: every field writes what it wrote there, so the second registry has the
      same share code. When compression fails there is no code, and nothing arrives. */
  lemma SharedSettingsArrive<C(!new)>(codec: Codec<C>, pipe: Pipe, words: string -> Option<seq<Byte>>, name: string,
                                      sent: seq<Field<C>>, was: seq<Field<C>>, defaults: Object, factory: Object,
                                      text: string, now: seq<Field<C>>, ok: bool, received: string)
    requires Lawful(codec) && LawfulPipe(pipe) && SameFields(was, sent) && DistinctKeys(sent)
    requires S.Spaced(text, CodeOf(codec, sent, defaults, pipe, name))
    requires Received(codec, was, defaults, factory, Unpacked(pipe, FromText(words, text)), now, ok, received)
    ensures ok <==> CodeOf(codec, sent, defaults, pipe, name) != ""
    ensures !ok ==> now == was
    ensures ok ==>
              && received == name && |now| == |sent|
              && (forall i :: 0 <= i < |sent| ==>
                now[i].key == sent[i].key && Written(codec, now[i]) == Written(codec, sent[i]))
              && CodeOf(codec, now, defaults, pipe, name) == CodeOf(codec, sent, defaults, pipe, name)
  {
    hide S.Exported, S.Imported, S.Spaced, Delta, Received, Lawful, SameFields, DistinctKeys, Written, S.Unwrapped;
    var root := Named(map["v" := Int(VERSION), "f" := Obj(Delta(codec, sent, defaults))], name);
    var compressed := pipe.write(root);
    CodeIsKnown(compressed);
    NoBar(text, S.Exported(compressed));
    S.ShareRoundTrip(compressed, text);
    if compressed != [] {
      assert pipe.read(compressed) == Some(root);
      ReceivedDelta(codec, was, defaults, factory, Delta(codec, sent, defaults), name, now, ok, received);
      DeltaRoundTrip(codec, sent, was, defaults, now);
      SameDelta(codec, now, sent, defaults);
    } else {
      NothingReceivedKeeps(codec, was, defaults, factory, now, ok, received);
    }
  }
}
