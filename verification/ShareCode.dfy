/** Share codes: a marked payload in base 64, and importing one from text that may have white space in it. */
module ShareCode {
  import opened Base64
  import opened Basics

  const MAGIC: seq<Byte> := ['A' as int, 'C' as int]
  const VERSION: Byte := 2

  /** The text for compressed settings; none when there is nothing to share. */
  function Exported(compressed: seq<Byte>): string {
    if compressed == [] then "" else Encoded(MAGIC + [VERSION] + compressed)
  }

  predicate White(c: char) {
    c == ' ' || c == '\n' || c == '\r' || c == '\t'
  }

  function Stripped(s: string): string {
    if s == "" then "" else if White(s[0]) then Stripped(s[1..]) else [s[0]] + Stripped(s[1..])
  }

  /** The compressed settings in a payload: it must be marked and hold at least one byte more than the header. */
  function Unwrapped(payload: seq<Byte>): Option<seq<Byte>> {
    if 4 <= |payload| && payload[..2] == MAGIC then Some(payload[3..]) else None
  }

  function Imported(text: string): Option<seq<Byte>> {
    match Decoded(Stripped(text))
    case None => None
    case Some(payload) => Unwrapped(payload)
  }

  /** Stripping takes away spaces, line feeds, carriage returns and tabs, and leaves every other character. */
  lemma StrippedOne(c: char)
    ensures Stripped([c]) == if c == ' ' || c == '\n' || c == '\r' || c == '\t' then "" else [c]
  {
    assert [c][1..] == "";
  }

  /** And it goes character by character. */
  lemma {:induction false} StrippedConcat(s: string, t: string)
    ensures Stripped(s + t) == Stripped(s) + Stripped(t)
  {
    hide White;
    if s == "" {
      assert s + t == t;
    } else {
      StrippedConcat(s[1..], t);
      assert (s + t)[1..] == s[1..] + t;
    }
  }

  method Strip(s: string) returns (cleaned: string)
    ensures cleaned == Stripped(s)
  {
    cleaned := "";
    var i := 0;
    while i < |s|
      invariant 0 <= i <= |s| && cleaned + Stripped(s[i..]) == Stripped(s)
    {
      var c := s[i];
      assert s[i..][1..] == s[i + 1..];
      if c != ' ' && c != '\n' && c != '\r' && c != '\t' {
        cleaned := cleaned + [c];
      }
      i := i + 1;
    }
  }

  method Import(text: string) returns (r: Option<seq<Byte>>)
    ensures r == Imported(text)
  {
    var cleaned := Strip(text);
    var decoded := Decode(cleaned);
    if decoded.None? {
      return None;
    }
    var d := decoded.value;
    if |d| < 4 {
      return None;
    }
    if d[0] != MAGIC[0] || d[1] != MAGIC[1] {
      assert d[..2][0] == d[0] && d[..2][1] == d[1];
      return None;
    }
    assert d[..2] == [d[0], d[1]];
    return Some(d[3..]);
  }

  /** `s` is `t` with white space put in anywhere. */
  ghost predicate Spaced(s: string, t: string) {
    if s == "" then t == ""
    else (t != "" && s[0] == t[0] && Spaced(s[1..], t[1..])) || (White(s[0]) && Spaced(s[1..], t))
  }

  /** Text without white space comes out of stripping exactly when what went in is that text, spaced out. */
  lemma {:induction false} StrippedIffSpaced(s: string, t: string)
    requires forall i :: 0 <= i < |t| ==> !White(t[i])
    ensures Stripped(s) == t <==> Spaced(s, t)
  {
    if s != "" {
      if White(s[0]) {
        StrippedIffSpaced(s[1..], t);
      } else if t != "" {
        StrippedIffSpaced(s[1..], t[1..]);
        assert t == [t[0]] + t[1..];
      }
    }
  }

  lemma CanonicalIsKnown(s: string)
    requires Canonical(s)
    ensures Known(s)
  {
    hide Value, LastGroup;
  }

  lemma WhiteIsUnknown(c: char)
    requires White(c)
    ensures Value(c) == INVALID
  {
  }

  lemma NoWhiteInCodes(d: seq<Byte>)
    ensures forall i :: 0 <= i < |Encoded(d)| ==> !White(Encoded(d)[i])
  {
    hide Encoded, Value, White;
    EncodedIsCanonical(d);
    CanonicalIsKnown(Encoded(d));
    forall i | 0 <= i < |Encoded(d)| ensures !White(Encoded(d)[i]) {
      if White(Encoded(d)[i]) { WhiteIsUnknown(Encoded(d)[i]); }
    }
  }

  /** Whatever white space a share code picks up on its way, importing it gives back what was exported. */
  lemma ShareRoundTrip(compressed: seq<Byte>, text: string)
    requires Spaced(text, Exported(compressed))
    ensures Imported(text) == if compressed == [] then None else Some(compressed)
  {
    var payload := MAGIC + [VERSION] + compressed;
    if compressed == [] {
      StrippedIffSpaced(text, "");
    } else {
      NoWhiteInCodes(payload);
      StrippedIffSpaced(text, Encoded(payload));
      DecodesBack(payload);
      assert payload[..2] == MAGIC && payload[3..] == compressed;
    }
  }

  lemma {:induction false} SpacedSelf(s: string)
    ensures Spaced(s, s)
  {
    if s != "" { SpacedSelf(s[1..]); }
  }

  /** Which texts are accepted: those that, stripped, decode to a marked payload. The version byte is not looked at. */
  lemma VersionIsIgnored(version: Byte, compressed: seq<Byte>)
    requires compressed != []
    ensures Imported(Encoded(MAGIC + [version] + compressed)) == Some(compressed)
  {
    var payload := MAGIC + [version] + compressed;
    var s := Encoded(payload);
    NoWhiteInCodes(payload);
    SpacedSelf(s);
    StrippedIffSpaced(s, s);
    DecodesBack(payload);
    assert payload[..2] == MAGIC && payload[3..] == compressed;
  }

  lemma HeaderLetters()
    ensures Group(65, 67, 2, 3) == "QUMC"
  {
    assert First(65) == 16 && Second(65, 67) == 20 && Third(67, 2) == 12 && Fourth(2) == 2;
    hide First, Second, Third, Fourth;
  }

  /** Every share code starts with the letters that its header of three bytes makes up. */
  lemma CodesStart(compressed: seq<Byte>)
    requires compressed != []
    ensures var s := Exported(compressed); 4 < |s| && s[..4] == "QUMC" && s[4..] == Encoded(compressed)
  {
    hide Group;
    var payload := MAGIC + [VERSION] + compressed;
    OneMore(payload);
    SameGroup(65, 67, 2, |payload|, 3);
    HeaderLetters();
    assert payload[3..] == compressed;
    PaddingIs(compressed);
  }

  /** Which texts are accepted, and what is in them: what comes behind an 'A', a 'C' and some other byte. */
  lemma ImportedIff(text: string, compressed: seq<Byte>)
    ensures Imported(text) == Some(compressed) <==>
            compressed != [] && exists version: Byte :: Decoded(Stripped(text)) == Some([65, 67, version] + compressed)
  {
    hide Decoded, Stripped;
    var d := Decoded(Stripped(text));
    if Imported(text) == Some(compressed) {
      assert d.value == [65, 67, d.value[2]] + compressed by {
        assert d.value[..2] == [65, 67];
      }
    }
    if version: Byte :| d == Some([65, 67, version] + compressed) && compressed != [] {
      assert d.value[..2] == MAGIC && d.value[3..] == compressed;
    }
  }
}
