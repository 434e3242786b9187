/** The base 64 codec of share codes: encoding, lenient decoding, and codes with white space in them. */
module Base64 {
  import opened Basics

  // ----- The alphabet -----

  /** The character for a six-bit value (Table 1 in section 4 of RFC 4648). */
  function Letter(v: int): char
    requires 0 <= v < 64
  {
    if v < 26 then ('A' as int + v) as char
    else if v < 52 then ('a' as int + (v - 26)) as char
    else if v < 62 then ('0' as int + (v - 52)) as char
    else if v == 62 then '+' else '/'
  }

  lemma UpperCase(v: int)
    requires 0 <= v < 26
    ensures Letter(v) == "ABCDEFGHIJKLMNOPQRSTUVWXYZ"[v]
  {
  }

  lemma LowerCase(v: int)
    requires 0 <= v < 26
    ensures Letter(v + 26) == "abcdefghijklmnopqrstuvwxyz"[v]
  {
  }

  /** In one line, as the standard has it. */
  lemma AlphabetIs(v: int)
    requires 0 <= v < 64
    ensures Letter(v) == ("ABCDEFGHIJKLMNOPQRSTUVWXYZ" + "abcdefghijklmnopqrstuvwxyz" + "0123456789" + "+/")[v]
  {
    if v < 26 {
      UpperCase(v);
    } else if v < 52 {
      LowerCase(v - 26);
    } else {
    }
  }

  const INVALID := 255

  /** The six-bit value of a character; padding counts as zero. */
  function Value(c: char): (v: int)
    ensures v == INVALID || 0 <= v < 64
  {
    if 'A' <= c <= 'Z' then c as int - 'A' as int
    else if 'a' <= c <= 'z' then c as int - 'a' as int + 26
    else if '0' <= c <= '9' then c as int - '0' as int + 52
    else if c == '+' then 62
    else if c == '/' then 63
    else if c == '=' then 0 else INVALID
  }

  /** Apart from padding, values and characters belong to each other one to one. */
  lemma LettersMatch(v: int, c: char)
    requires 0 <= v < 64 && c != '='
    ensures Value(Letter(v)) == v && Letter(v) != '='
    ensures Value(c) != INVALID ==> 0 <= Value(c) < 64 && Letter(Value(c)) == c
  {
  }

  // ----- Groups of three bytes and four characters -----

  type Sextet = v: int | 0 <= v < 64

  function First(b0: Byte): Sextet { b0 / 4 }

  function Second(b0: Byte, b1: Byte): Sextet { b0 % 4 * 16 + b1 / 16 }

  function Third(b1: Byte, b2: Byte): Sextet { b1 % 16 * 4 + b2 / 64 }

  function Fourth(b2: Byte): Sextet { b2 % 64 }

  function Byte0(a: Sextet, b: Sextet): Byte { a * 4 + b / 16 }

  function Byte1(b: Sextet, c: Sextet): Byte { b % 16 * 16 + c / 4 }

  function Byte2(c: Sextet, d: Sextet): Byte { c % 4 * 64 + d }

  lemma BytesSplit(b0: Byte, b1: Byte, b2: Byte)
    ensures Byte0(First(b0), Second(b0, b1)) == b0
    ensures Byte1(Second(b0, b1), Third(b1, b2)) == b1
    ensures Byte2(Third(b1, b2), Fourth(b2)) == b2
  {
  }

  lemma SextetsSplit(a: Sextet, b: Sextet, c: Sextet, d: Sextet)
    ensures First(Byte0(a, b)) == a && Second(Byte0(a, b), Byte1(b, c)) == b
    ensures Third(Byte1(b, c), Byte2(c, d)) == c && Fourth(Byte2(c, d)) == d
    ensures Second(Byte0(a, b), 0) == b <==> b % 16 == 0
    ensures Third(Byte1(b, c), 0) == c <==> c % 4 == 0
  {
  }

  // ----- Encoding -----

  /** The four characters for a group of `n` bytes; bytes the group lacks are zero. */
  function Group(b0: Byte, b1: Byte, b2: Byte, n: int): (g: string)
    ensures |g| == 4
  {
    [ Letter(First(b0)),
      Letter(Second(b0, b1)),
      if 1 < n then Letter(Third(b1, b2)) else '=',
      if 2 < n then Letter(Fourth(b2)) else '=' ]
  }

  function At(d: seq<Byte>, i: nat): Byte {
    if i < |d| then d[i] else 0
  }

  function Rest(d: seq<Byte>): (rest: seq<Byte>)
    ensures |rest| == if 3 <= |d| then |d| - 3 else 0
  {
    if 3 <= |d| then d[3..] else []
  }

  function Encoded(d: seq<Byte>): (s: string)
    ensures |s| % 4 == 0
    decreases |d|
  {
    hide Group, At, Rest;
    if d == [] then ""
    else
      var rest := Encoded(Rest(d));
      var s := Group(d[0], At(d, 1), At(d, 2), |d|) + rest;
      assert |s| == 4 + |rest|;
      s
  }

  function Tail(d: seq<Byte>, i: nat): seq<Byte> {
    if i <= |d| then d[i..] else []
  }

  lemma EncodesEnds(d: seq<Byte>)
    ensures "" + Encoded(Tail(d, 0)) == Encoded(d)
  {
    assert Tail(d, 0) == d;
  }

  lemma EncodesPast(d: seq<Byte>, i: nat)
    requires |d| <= i
    ensures Encoded(Tail(d, i)) == ""
  {
  }

  lemma EncodesGroup(d: seq<Byte>, i: nat)
    requires i < |d|
    ensures Encoded(Tail(d, i)) == Group(d[i], At(d, i + 1), At(d, i + 2), |d| - i) + Encoded(Tail(d, i + 3))
  {
    hide Group;
    var r := d[i..];
    assert At(r, 1) == At(d, i + 1) && At(r, 2) == At(d, i + 2);
    assert Rest(r) == Tail(d, i + 3);
  }

  method Encode(d: seq<Byte>) returns (s: string)
    ensures s == Encoded(d)
  {
    hide Group, Encoded, Tail;
    s := "";
    var i := 0;
    EncodesEnds(d);
    while i < |d|
      invariant 0 <= i && s + Encoded(Tail(d, i)) == Encoded(d)
    {
      var b1: Byte := if i + 1 < |d| then d[i + 1] else 0;
      var b2: Byte := if i + 2 < |d| then d[i + 2] else 0;
      EncodesGroup(d, i);
      s := s + Group(d[i], b1, b2, |d| - i);
      i := i + 3;
    }
    EncodesPast(d, i);
  }

  // ----- Decoding -----

  /** Every character, padding included, has a value. */
  predicate Known(s: string) {
    forall i :: 0 <= i < |s| ==> Value(s[i]) != INVALID
  }

  /** The bytes of one group of four characters. */
  function Bytes(g: string): seq<Byte>
    requires |g| == 4 && Known(g)
  {
    var a, b, c, d := Value(g[0]), Value(g[1]), Value(g[2]), Value(g[3]);
    [Byte0(a, b)] + (if g[2] != '=' then [Byte1(b, c)] else []) + (if g[3] != '=' then [Byte2(c, d)] else [])
  }

  function AllBytes(s: string): seq<Byte>
    requires |s| % 4 == 0 && Known(s)
  {
    if s == "" then [] else Bytes(s[..4]) + AllBytes(s[4..])
  }

  /** What decoding yields: it refuses a length that is no multiple of four and unknown characters, nothing else. */
  function Decoded(s: string): Option<seq<Byte>> {
    if |s| % 4 == 0 && Known(s) then Some(AllBytes(s)) else None
  }

  /** The loop body: takes one group of characters, and stops at one without a value. */
  method DecodeGroup(g: string) returns (ok: bool, out: seq<Byte>)
    requires |g| == 4
    ensures ok <==> Known(g)
    ensures ok ==> out == Bytes(g)
  {
    hide Value, Byte0, Byte1, Byte2;
    var a, b, c, d := Value(g[0]), Value(g[1]), Value(g[2]), Value(g[3]);
    if a == INVALID || b == INVALID || c == INVALID || d == INVALID {
      return false, [];
    }
    assert Known(g);
    out := [Byte0(a, b)];
    if g[2] != '=' {
      out := out + [Byte1(b, c)];
    }
    if g[3] != '=' {
      out := out + [Byte2(c, d)];
    }
    return true, out;
  }

  lemma UnknownGroup(s: string, i: nat)
    requires i + 4 <= |s| && !Known(s[i..i + 4])
    ensures !Known(s)
  {
    var j :| 0 <= j < 4 && Value(s[i..i + 4][j]) == INVALID;
    assert Value(s[i + j]) == INVALID;
  }

  lemma DecodesGroup(s: string, i: nat)
    requires |s| % 4 == 0 && i % 4 == 0 && i < |s| && Known(s)
    ensures AllBytes(s[i..]) == Bytes(s[i..i + 4]) + AllBytes(s[i + 4..])
  {
    hide Bytes;
    assert s[i..][..4] == s[i..i + 4] && s[i..][4..] == s[i + 4..];
  }

  method Decode(s: string) returns (r: Option<seq<Byte>>)
    ensures r == Decoded(s)
  {
    hide Value, Bytes;
    if |s| % 4 != 0 {
      return None;
    }
    var out: seq<Byte> := [];
    var i := 0;
    while i < |s|
      invariant 0 <= i <= |s| && i % 4 == 0 && Known(s[..i])
      invariant Known(s) ==> out + AllBytes(s[i..]) == AllBytes(s)
    {
      var ok, bytes := DecodeGroup(s[i..i + 4]);
      if !ok {
        UnknownGroup(s, i);
        return None;
      }
      assert s[..i + 4] == s[..i] + s[i..i + 4];
      if Known(s) { DecodesGroup(s, i); }
      out := out + bytes;
      i := i + 4;
    }
    assert s[..i] == s && s[i..] == "" && out + AllBytes("") == out;
    return Some(out);
  }

  // ----- Round trips -----

  lemma GroupRoundTrip(b0: Byte, b1: Byte, b2: Byte, n: int)
    requires 1 <= n && (n <= 1 ==> b1 == 0) && (n <= 2 ==> b2 == 0)
    ensures Known(Group(b0, b1, b2, n))
    ensures Bytes(Group(b0, b1, b2, n)) == [b0, b1, b2][..if n < 3 then n else 3]
  {
    hide Letter, First, Second, Third, Fourth, Byte0, Byte1, Byte2;
    LettersMatch(First(b0), 'A');
    LettersMatch(Second(b0, b1), 'A');
    LettersMatch(Third(b1, b2), 'A');
    LettersMatch(Fourth(b2), 'A');
    BytesSplit(b0, b1, b2);
  }

  /** Decoding what was encoded gives back the bytes. */
  lemma {:induction false} DecodesBack(d: seq<Byte>)
    ensures Decoded(Encoded(d)) == Some(d)
    decreases |d|
  {
    hide Group, Bytes;
    if d != [] {
      var b1, b2 := At(d, 1), At(d, 2);
      var g, rest := Group(d[0], b1, b2, |d|), Rest(d);
      DecodesBack(rest);
      GroupRoundTrip(d[0], b1, b2, |d|);
      var s := Encoded(d);
      assert s == g + Encoded(rest) && s[..4] == g && s[4..] == Encoded(rest);
      assert d == [d[0], b1, b2][..if |d| < 3 then |d| else 3] + rest;
    }
  }

  /** Two byte strings never share a code. */
  lemma EncodingIsInjective(d: seq<Byte>, e: seq<Byte>)
    requires Encoded(d) == Encoded(e)
    ensures d == e
  {
    DecodesBack(d);
    DecodesBack(e);
  }

  // ----- Which texts are codes -----

  /** A group that ends the code may have padding, with the bits that padding leaves over at zero. */
  predicate LastGroup(g: string)
    requires |g| == 4
  {
    && g[0] != '=' && g[1] != '='
    && (g[2] == '=' ==> g[3] == '=' && Value(g[1]) % 16 == 0)
    && (g[2] != '=' && g[3] == '=' ==> Value(g[2]) % 4 == 0)
  }

  /** The form that section 4 of RFC 4648 gives a code: padding only at the very end, leftover bits zero. */
  predicate Canonical(s: string) {
    && |s| % 4 == 0 && Known(s)
    && (forall i :: 0 <= i < |s| - 4 ==> s[i] != '=')
    && (s != "" ==> LastGroup(s[|s| - 4..]))
  }

  lemma FullGroup(g: string)
    requires |g| == 4 && Known(g) && forall i :: 0 <= i < 4 ==> g[i] != '='
    ensures var b := Bytes(g); |b| == 3 && forall n :: 3 <= n ==> Group(b[0], b[1], b[2], n) == g
  {
    hide First, Second, Third, Fourth, Byte0, Byte1, Byte2, Letter, Value;
    forall i | 0 <= i < 4 ensures Value(g[i]) != INVALID && Letter(Value(g[i])) == g[i] {
      LettersMatch(0, g[i]);
    }
    SextetsSplit(Value(g[0]), Value(g[1]), Value(g[2]), Value(g[3]));
  }

  lemma PadValue()
    ensures Value('=') == 0
  {
  }

  /** One group on its own is encoded back to itself exactly when it can end a code. */
  lemma OneGroup(g: string)
    requires |g| == 4 && Known(g)
    ensures LastGroup(g) ==> Encoded(Bytes(g)) == g
  {
    hide First, Second, Third, Fourth, Byte0, Byte1, Byte2, Letter, Value;
    if LastGroup(g) {
      forall i | 0 <= i < 4 && g[i] != '=' ensures Value(g[i]) != INVALID && Letter(Value(g[i])) == g[i] {
        LettersMatch(0, g[i]);
      }
      PadValue();
      SextetsSplit(Value(g[0]), Value(g[1]), Value(g[2]), Value(g[3]));
      var d := Bytes(g);
      assert Rest(d) == [];
      assert Encoded(d) == Group(d[0], At(d, 1), At(d, 2), |d|);
    }
  }

  lemma {:induction false} CanonicalEncodesBack(s: string)
    requires Canonical(s)
    ensures Encoded(AllBytes(s)) == s
  {
    hide Bytes, Group, LastGroup, Value;
    if |s| == 4 {
      assert s[..4] == s && s[|s| - 4..] == s && s[4..] == "" && AllBytes(s) == Bytes(s);
      OneGroup(s);
    } else if s != "" {
      var g, r := s[..4], s[4..];
      assert r[|r| - 4..] == s[|s| - 4..];
      CanonicalEncodesBack(r);
      FullGroup(g);
      var b, d := Bytes(g), AllBytes(s);
      assert d == b + AllBytes(r) && Rest(d) == AllBytes(r) && s == g + r;
    }
  }

  lemma LeftoverBits(b0: Byte, b1: Byte)
    ensures Second(b0, 0) % 16 == 0 && Third(b1, 0) % 4 == 0
  {
  }

  lemma GroupEnds(b0: Byte, b1: Byte, b2: Byte, n: int)
    requires 1 <= n && (n <= 1 ==> b1 == 0) && (n <= 2 ==> b2 == 0)
    ensures var g := Group(b0, b1, b2, n); LastGroup(g) && (3 <= n ==> forall i :: 0 <= i < 4 ==> g[i] != '=')
  {
    hide Letter, Value, First, Second, Third, Fourth;
    LettersMatch(First(b0), 'A');
    LettersMatch(Second(b0, b1), 'A');
    LettersMatch(Third(b1, b2), 'A');
    LettersMatch(Fourth(b2), 'A');
    LeftoverBits(b0, b1);
  }

  lemma {:induction false} EncodedIsCanonical(d: seq<Byte>)
    ensures Canonical(Encoded(d))
    decreases |d|
  {
    hide Letter, Value, First, Second, Third, Fourth;
    if d != [] {
      var b1, b2 := At(d, 1), At(d, 2);
      var g, t := Group(d[0], b1, b2, |d|), Encoded(Rest(d));
      EncodedIsCanonical(Rest(d));
      GroupRoundTrip(d[0], b1, b2, |d|);
      GroupEnds(d[0], b1, b2, |d|);
      assert Encoded(d) == g + t;
      if |d| <= 3 {
        assert t == "" && (g + t)[|g + t| - 4..] == g;
      } else {
        assert 4 <= |t| && (g + t)[|g + t| - 4..] == t[|t| - 4..];
      }
    }
  }

  /** Decoding accepts more texts than encoding produces. Encoding what it yields gives the text back exactly
      when the text is in canonical form. */
  lemma EncodesBackIffCanonical(s: string)
    requires Decoded(s).Some?
    ensures Encoded(Decoded(s).value) == s <==> Canonical(s)
  {
    if Canonical(s) {
      CanonicalEncodesBack(s);
    }
    EncodedIsCanonical(Decoded(s).value);
  }

  lemma OnlyGroup(g: string)
    requires |g| == 4 && Known(g)
    ensures Decoded(g) == Some(Bytes(g)) && (Canonical(g) <==> LastGroup(g))
  {
    hide Bytes, LastGroup, Value;
    assert g[..4] == g && g[4..] == "" && g[|g| - 4..] == g;
    assert AllBytes(g[4..]) == [];
    assert AllBytes(g) == Bytes(g) + [];
    assert Bytes(g) + [] == Bytes(g);
  }

  /** Texts that decode without being canonical: the bits that padding leaves over are ignored, so sixteen
      texts decode to each single byte, and one of them is its code. */
  lemma LenientDecoding(a: Sextet, b: Sextet)
    ensures var g := [Letter(a), Letter(b), '=', '='];
            Decoded(g) == Some([Byte0(a, b)]) && (Canonical(g) <==> b % 16 == 0)
  {
    hide Letter, Value, Canonical, Decoded, Byte0;
    var g := [Letter(a), Letter(b), '=', '='];
    LettersMatch(a, 'A');
    LettersMatch(b, 'A');
    PadValue();
    OnlyGroup(g);
    assert Bytes(g) == [Byte0(a, b)];
  }

  lemma GroupPads(b0: Byte, b1: Byte, b2: Byte, n: int, i: nat)
    requires i < 4
    ensures Group(b0, b1, b2, n)[i] == '=' <==> (i == 2 && n <= 1) || (i == 3 && n <= 2)
  {
    hide Letter, Value, First, Second, Third, Fourth;
    LettersMatch(First(b0), 'A');
    LettersMatch(Second(b0, b1), 'A');
    LettersMatch(Third(b1, b2), 'A');
    LettersMatch(Fourth(b2), 'A');
  }

  /** The shape of a code for `n` bytes: four characters for every three bytes begun; of the last four two are padding
      when one byte is left over, one is when two are, and no other character is. */
  ghost predicate Padded(s: string, n: nat) {
    && |s| == (n + 2) / 3 * 4
    && forall i :: 0 <= i < |s| ==> (s[i] == '=' <==> (n % 3 == 1 && |s| - 2 <= i) || (n % 3 == 2 && |s| - 1 <= i))
  }

  lemma PaddedStep(g: string, rest: string, n: nat)
    requires |g| == 4 && 3 <= n && Padded(rest, n - 3) && forall i :: 0 <= i < 4 ==> g[i] != '='
    ensures Padded(g + rest, n)
  {
    assert (n - 3) % 3 == n % 3 && (n + 2) / 3 == (n - 1) / 3 + 1;
  }

  lemma PaddedEnd(g: string, n: nat)
    requires |g| == 4 && 0 < n < 3
    requires forall i :: 0 <= i < 4 ==> (g[i] == '=' <==> (i == 2 && n <= 1) || (i == 3 && n <= 2))
    ensures Padded(g + "", n)
  {
  }

  lemma NoPadding()
    ensures Padded("", 0)
  {
  }

  lemma {:induction false} PaddingIs(d: seq<Byte>)
    ensures Padded(Encoded(d), |d|)
    decreases |d|
  {
    hide Group, At, Padded;
    if d == [] {
      assert Padded("", 0) by { NoPadding(); }
    } else {
      var g := Group(d[0], At(d, 1), At(d, 2), |d|);
      forall i: nat | i < 4 ensures g[i] == '=' <==> (i == 2 && |d| <= 1) || (i == 3 && |d| <= 2) {
        GroupPads(d[0], At(d, 1), At(d, 2), |d|, i);
      }
      if 3 <= |d| {
        PaddingIs(d[3..]);
        PaddedStep(g, Encoded(d[3..]), |d|);
      } else {
        assert Rest(d) == [] && Encoded([]) == "";
        PaddedEnd(g, |d|);
      }
    }
  }

  predicate InAlphabet(c: char) {
    'A' <= c <= 'Z' || 'a' <= c <= 'z' || '0' <= c <= '9' || c == '+' || c == '/' || c == '='
  }

  /** Which texts decode, padding anywhere in them: those of the right length, of letters of the alphabet. */
  lemma DecodedIff(s: string)
    ensures Decoded(s).Some? <==> |s| % 4 == 0 && forall i :: 0 <= i < |s| ==> InAlphabet(s[i])
  {
    forall i | 0 <= i < |s| ensures Value(s[i]) != INVALID <==> InAlphabet(s[i]) {
    }
    hide Value, InAlphabet, AllBytes;
  }

  lemma ThreeBytes(a: Sextet, b: Sextet, c: Sextet, d: Sextet)
    ensures a * 0x4_0000 + b * 0x1000 + c * 64 + d == Byte0(a, b) * 0x1_0000 + Byte1(b, c) * 0x100 + Byte2(c, d)
  {
    assert b == b / 16 * 16 + b % 16 && c == c / 4 * 4 + c % 4;
  }

  lemma TakenApart(x: int, b0: int, b1: int, b2: int)
    requires 0 <= b1 < 256 && 0 <= b2 < 256 && x == b0 * 0x1_0000 + b1 * 0x100 + b2
    ensures x / 0x1_0000 == b0 && x / 0x100 % 0x100 == b1 && x % 0x100 == b2
  {
    QuotientIs(x, 0x1_0000, b0, b1 * 0x100 + b2);
    QuotientIs(x, 0x100, b0 * 0x100 + b1, b2);
    QuotientIs(b0 * 0x100 + b1, 0x100, b0, b1);
  }

  lemma GroupIs(g: string, x: int)
    requires |g| == 4 && Known(g)
    requires x == Value(g[0]) * 0x4_0000 + Value(g[1]) * 0x1000 + Value(g[2]) * 64 + Value(g[3])
    ensures Bytes(g) == [x / 0x1_0000] + (if g[2] == '=' then [] else [x / 0x100 % 0x100])
                                       + (if g[3] == '=' then [] else [x % 0x100])
  {
    hide Value, Byte0, Byte1, Byte2;
    var a, b, c, d := Value(g[0]), Value(g[1]), Value(g[2]), Value(g[3]);
    ThreeBytes(a, b, c, d);
    TakenApart(x, Byte0(a, b), Byte1(b, c), Byte2(c, d));
  }

  /** And to what: four characters at a time are a number of three bytes, of which the second is left out when the
      third character is padding, and the third when the fourth is. */
  lemma DecodedGroups(s: string)
    requires Decoded(s).Some? && 4 <= |s|
    ensures Decoded(s[4..]).Some? && Known(s[..4])
    ensures var x := Value(s[0]) * 0x4_0000 + Value(s[1]) * 0x1000 + Value(s[2]) * 64 + Value(s[3]);
            Decoded(s).value == [x / 0x1_0000] + (if s[2] == '=' then [] else [x / 0x100 % 0x100])
                                + (if s[3] == '=' then [] else [x % 0x100]) + Decoded(s[4..]).value
  {
    hide Value, Bytes;
    GroupIs(s[..4], Value(s[0]) * 0x4_0000 + Value(s[1]) * 0x1000 + Value(s[2]) * 64 + Value(s[3]));
  }

  // ----- The number a code stands for -----

  /** Digits read as a number, most significant first. */
  function Number(digits: seq<int>, base: int): int {
    if digits == [] then 0 else Number(digits[..|digits| - 1], base) * base + digits[|digits| - 1]
  }

  function Values(s: string): (v: seq<int>)
    ensures |v| == |s|
  {
    seq(|s|, i requires 0 <= i < |s| => Value(s[i]))
  }

  function Zeros(n: nat): (z: seq<Byte>)
    ensures |z| == n
  {
    seq(n, i => 0)
  }

  /** How many bytes the last group lacks. */
  function Lacking(d: seq<Byte>): nat {
    (3 - |d| % 3) % 3
  }

  lemma LackingFills(d: seq<Byte>)
    ensures (|d| + Lacking(d)) % 3 == 0 && Lacking(d) < 3
    ensures 3 <= |d| ==> Lacking(d[3..]) == Lacking(d)
  {
  }

  lemma OneMore(d: seq<Byte>)
    requires 3 <= |d|
    ensures Encoded(d) == Group(d[0], d[1], d[2], |d|) + Encoded(d[3..])
  {
    hide Group;
  }

  lemma LackingShort(d: seq<Byte>)
    ensures |d| == 0 ==> Lacking(d) == 0
    ensures |d| == 1 ==> Lacking(d) == 2
    ensures |d| == 2 ==> Lacking(d) == 1
  {
  }

  lemma PadLetter()
    ensures Value(Letter(0)) == Value('=') && Third(0, 0) == 0 && Fourth(0) == 0
  {
    hide Letter, Value;
    LettersMatch(0, 'A');
    PadValue();
  }

  lemma ShortOne(b0: Byte)
    ensures Values(Encoded([b0])) == Values(Encoded([b0, 0, 0]))
  {
    hide Letter, Value, First, Second, Third, Fourth;
    PadLetter();
    assert Encoded([]) == "";
    var d: seq<Byte>, e: seq<Byte> := [b0], [b0, 0, 0];
    assert Encoded(d) == Group(b0, 0, 0, 1) + "" && Encoded(e) == Group(b0, 0, 0, 3) + "";
  }

  lemma ShortTwo(b0: Byte, b1: Byte)
    ensures Values(Encoded([b0, b1])) == Values(Encoded([b0, b1, 0]))
  {
    hide Letter, Value, First, Second, Third, Fourth;
    PadLetter();
    assert Encoded([]) == "";
    var d: seq<Byte>, e: seq<Byte> := [b0, b1], [b0, b1, 0];
    assert Encoded(d) == Group(b0, b1, 0, 2) + "" && Encoded(e) == Group(b0, b1, 0, 3) + "";
  }

  lemma ShortGroups(d: seq<Byte>)
    requires |d| < 3
    ensures Values(Encoded(d)) == Values(Encoded(d + Zeros(Lacking(d))))
  {
    hide Encoded, Values, Lacking;
    LackingShort(d);
    if |d| == 0 {
      assert d + Zeros(Lacking(d)) == d;
    } else if |d| == 1 {
      ShortOne(d[0]);
      assert d == [d[0]] && d + Zeros(Lacking(d)) == [d[0], 0, 0];
    } else {
      ShortTwo(d[0], d[1]);
      assert d == [d[0], d[1]] && d + Zeros(Lacking(d)) == [d[0], d[1], 0];
    }
  }

  lemma SameGroup(b0: Byte, b1: Byte, b2: Byte, n: int, m: int)
    requires 3 <= n && 3 <= m
    ensures Group(b0, b1, b2, n) == Group(b0, b1, b2, m)
  {
  }

  lemma ValuesConcat(s: string, t: string)
    ensures Values(s + t) == Values(s) + Values(t)
  {
  }

  lemma {:induction false} PaddingIsZero(d: seq<Byte>)
    ensures Values(Encoded(d)) == Values(Encoded(d + Zeros(Lacking(d))))
    decreases |d|
  {
    hide Encoded, Values, Lacking, Zeros;
    LackingFills(d);
    var e := d + Zeros(Lacking(d));
    if |d| >= 3 {
      PaddingIsZero(d[3..]);
      assert e[3..] == d[3..] + Zeros(Lacking(d));
      OneMore(d);
      OneMore(e);
      SameGroup(d[0], d[1], d[2], |d|, |e|);
      ValuesConcat(Group(d[0], d[1], d[2], |d|), Encoded(d[3..]));
      ValuesConcat(Group(d[0], d[1], d[2], |e|), Encoded(e[3..]));
    } else {
      ShortGroups(d);
    }
  }

  lemma ConcatStep(d: seq<Byte>, e: seq<Byte>)
    requires 3 <= |d| && Encoded(d[3..] + e) == Encoded(d[3..]) + Encoded(e)
    ensures Encoded(d + e) == Encoded(d) + Encoded(e)
  {
    hide Group, Encoded;
    assert (d + e)[3..] == d[3..] + e;
    OneMore(d);
    OneMore(d + e);
    SameGroup(d[0], d[1], d[2], |d|, |d + e|);
  }

  lemma {:induction false} EncodedConcat(d: seq<Byte>, e: seq<Byte>)
    requires |d| % 3 == 0
    ensures Encoded(d + e) == Encoded(d) + Encoded(e)
    decreases |d|
  {
    if d == [] {
      assert d + e == e;
    } else {
      EncodedConcat(d[3..], e);
      ConcatStep(d, e);
    }
  }

  lemma AppendOne(v: seq<int>, a: int, base: int)
    ensures Number(v + [a], base) == Number(v, base) * base + a
  {
    assert (v + [a])[..|v|] == v;
  }

  lemma AppendFour(v: seq<int>, a: int, b: int, c: int, d: int)
    ensures Number(v + [a, b, c, d], 64) == Number(v, 64) * 0x100_0000 + a * 0x4_0000 + b * 0x1000 + c * 64 + d
  {
    hide Number;
    AppendOne(v, a, 64);
    AppendOne(v + [a], b, 64);
    AppendOne(v + [a] + [b], c, 64);
    AppendOne(v + [a] + [b] + [c], d, 64);
    assert v + [a, b, c, d] == v + [a] + [b] + [c] + [d];
  }

  lemma AppendThree(v: seq<int>, a: int, b: int, c: int)
    ensures Number(v + [a, b, c], 256) == Number(v, 256) * 0x100_0000 + a * 0x1_0000 + b * 256 + c
  {
    hide Number;
    AppendOne(v, a, 256);
    AppendOne(v + [a], b, 256);
    AppendOne(v + [a] + [b], c, 256);
    assert v + [a, b, c] == v + [a] + [b] + [c];
  }

  lemma GroupNumber(b0: Byte, b1: Byte, b2: Byte)
    ensures First(b0) * 0x4_0000 + Second(b0, b1) * 0x1000 + Third(b1, b2) * 64 + Fourth(b2) ==
            b0 * 0x1_0000 + b1 * 256 + b2
  {
  }

  /** The values of a full group's code. */
  lemma GroupValues(g: seq<Byte>) returns (v: seq<int>)
    requires |g| == 3
    ensures v == [First(g[0]), Second(g[0], g[1]), Third(g[1], g[2]), Fourth(g[2])] && Values(Encoded(g)) == v
  {
    hide Letter, Value, First, Second, Third, Fourth;
    v := [First(g[0]), Second(g[0], g[1]), Third(g[1], g[2]), Fourth(g[2])];
    LettersMatch(v[0], 'A');
    LettersMatch(v[1], 'A');
    LettersMatch(v[2], 'A');
    LettersMatch(v[3], 'A');
    assert Rest(g) == [] && Encoded([]) == "";
    assert Encoded(g) == Group(g[0], g[1], g[2], 3) + "";
  }

  lemma FullStep(b: seq<Byte>, g: seq<Byte>)
    requires |b| % 3 == 0 && |g| == 3 && Number(Values(Encoded(b)), 64) == Number(b, 256)
    ensures Number(Values(Encoded(b + g)), 64) == Number(b + g, 256)
  {
    hide First, Second, Third, Fourth, Number, Encoded, Values;
    EncodedConcat(b, g);
    var v := GroupValues(g);
    ValuesConcat(Encoded(b), Encoded(g));
    AppendFour(Values(Encoded(b)), v[0], v[1], v[2], v[3]);
    AppendThree(b, g[0], g[1], g[2]);
    GroupNumber(g[0], g[1], g[2]);
    assert g == [g[0], g[1], g[2]];
  }

  lemma {:induction false} FullNumber(d: seq<Byte>)
    requires |d| % 3 == 0
    ensures Number(Values(Encoded(d)), 64) == Number(d, 256)
    decreases |d|
  {
    if d != [] {
      hide Number, Encoded, Values;
      var n := |d| - 3;
      FullNumber(d[..n]);
      assert d == d[..n] + d[n..];
      FullStep(d[..n], d[n..]);
    } else {
      assert Values("") == [];
    }
  }

  /** Read as a number in base 64, the code is the number that its bytes make up in base 256, the missing
      ones counted as zero. */
  lemma CodeIsTheNumber(d: seq<Byte>)
    ensures Number(Values(Encoded(d)), 64) == Number(d + Zeros(Lacking(d)), 256)
  {
    hide Number, Encoded, Values, Zeros, Lacking;
    PaddingIsZero(d);
    LackingFills(d);
    FullNumber(d + Zeros(Lacking(d)));
  }
}
