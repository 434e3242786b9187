/** Field keys as eight hexadecimal digits, and reading them back. */
module HexKeys {
  import opened Basics

  type UInt32 = n: int | 0 <= n < 0x1_0000_0000

  const MAX32 := 0xFFFF_FFFF

  function Digit(n: int): char
    requires 0 <= n < 16
  {
    if n < 10 then ('0' as int + n) as char else ('a' as int + (n - 10)) as char
  }

  function Digits(n: nat, width: nat): (s: string)
    ensures |s| == width
  {
    if width == 0 then "" else Digits(n / 16, width - 1) + [Digit(n % 16)]
  }

  /** The name under which a field is exported: its key in lower-case hexadecimal, padded to eight digits. */
  function Hex8(key: UInt32): string {
    Digits(key, 8)
  }

  function DigitValue(c: char): int {
    if '0' <= c <= '9' then c as int - '0' as int
    else if 'a' <= c <= 'f' then c as int - 'a' as int + 10
    else if 'A' <= c <= 'F' then c as int - 'A' as int + 10
    else -1
  }

  predicate Space(c: char) {
    c == ' ' || (9 as char <= c <= 13 as char)
  }

  function SkipSpace(s: string): string {
    if s != "" && Space(s[0]) then SkipSpace(s[1..]) else s
  }

  /** The number that the longest run of digits at the front makes up, on top of `acc`. */
  function Leading(s: string, acc: nat): nat {
    if s != "" && DigitValue(s[0]) >= 0 then Leading(s[1..], acc * 16 + DigitValue(s[0])) else acc
  }

  /** A prefix "0x" counts only when a digit comes after it. */
  function SkipPrefix(s: string): string {
    if 3 <= |s| && s[0] == '0' && (s[1] == 'x' || s[1] == 'X') && DigitValue(s[2]) >= 0 then s[2..] else s
  }

  /** What strtoul reads in base 16 with a 32-bit result: white space, a sign, a prefix, and digits up to the
      first other character; too large a number gives the largest one. */
  function Strtoul(s: string): UInt32 {
    var t := SkipSpace(s);
    var negative := t != "" && t[0] == '-';
    var u := if t != "" && (t[0] == '-' || t[0] == '+') then t[1..] else t;
    var n := Leading(SkipPrefix(u), 0);
    if n > MAX32 then MAX32
    else if negative && n != 0 then 0x1_0000_0000 - n else n
  }

  predicate AllDigits(s: string) {
    forall i :: 0 <= i < |s| ==> DigitValue(s[i]) >= 0
  }

  function Power16(k: nat): nat {
    if k == 0 then 1 else 16 * Power16(k - 1)
  }

  lemma {:induction false} LeadingAppend(s: string, c: char, acc: nat)
    requires AllDigits(s) && DigitValue(c) >= 0
    ensures Leading(s + [c], acc) == Leading(s, acc) * 16 + DigitValue(c)
  {
    if s == "" {
      assert s + [c] == [c] && [c][1..] == "";
    } else {
      LeadingAppend(s[1..], c, acc * 16 + DigitValue(s[0]));
      assert (s + [c])[1..] == s[1..] + [c];
    }
  }

  lemma {:induction false} DigitsRead(n: nat, width: nat)
    ensures AllDigits(Digits(n, width))
    ensures n < Power16(width) ==> Leading(Digits(n, width), 0) == n
  {
    if width > 0 {
      DigitsRead(n / 16, width - 1);
      assert DigitValue(Digit(n % 16)) == n % 16;
      LeadingAppend(Digits(n / 16, width - 1), Digit(n % 16), 0);
    }
  }

  /** Reading an exported name gives back the key, so different keys have different names. */
  lemma KeyRoundTrip(key: UInt32)
    ensures Strtoul(Hex8(key)) == key
  {
    DigitsRead(key, 8);
    var s := Hex8(key);
    assert Power16(8) == 0x1_0000_0000;
    assert DigitValue(s[0]) >= 0 && DigitValue(s[1]) >= 0;
  }

  lemma LowerDigits(n: int)
    requires 0 <= n < 16
    ensures "0123456789abcdef"[n] == if n < 10 then ('0' as int + n) as char else ('a' as int + (n - 10)) as char
  {
  }

  lemma UpperDigits(n: int)
    requires 0 <= n < 16
    ensures "0123456789ABCDEF"[n] == if n < 10 then ('0' as int + n) as char else ('A' as int + (n - 10)) as char
  {
  }

  /** Digits are read in either case, and no other character is a digit. */
  lemma DigitValueIs(c: char, n: int)
    requires 0 <= n < 16
    ensures DigitValue("0123456789abcdef"[n]) == n && DigitValue("0123456789ABCDEF"[n]) == n
    ensures DigitValue(c) < 16
    ensures DigitValue(c) >= 0 ==> c == "0123456789abcdef"[DigitValue(c)] || c == "0123456789ABCDEF"[DigitValue(c)]
  {
    LowerDigits(n);
    UpperDigits(n);
    if '0' <= c <= '9' || 'a' <= c <= 'f' { LowerDigits(DigitValue(c)); }
    if 'A' <= c <= 'F' { UpperDigits(DigitValue(c)); }
  }

  lemma DigitIs(n: int)
    requires 0 <= n < 16
    ensures Digit(n) == "0123456789abcdef"[n]
  {
  }

  lemma Divided(n: nat, p: int)
    requires 0 < p
    ensures n / 16 / p == n / (16 * p)
  {
    var q, r := n / 16 / p, n / 16 % p;
    assert n / 16 == p * q + r;
    assert n == 16 * (p * q + r) + n % 16 == 16 * p * q + (16 * r + n % 16);
    QuotientIs(n, 16 * p, q, 16 * r + n % 16);
  }

  lemma {:induction false} DigitsAt(n: nat, width: nat, i: nat)
    requires i < width
    ensures Power16(width - 1 - i) > 0
    ensures Digits(n, width)[i] == "0123456789abcdef"[n / Power16(width - 1 - i) % 16]
    decreases width
  {
    hide Digit;
    DigitIs(n % 16);
    if i < width - 1 {
      DigitsAt(n / 16, width - 1, i);
      Divided(n, Power16(width - 2 - i));
    }
  }

  /** A field's name has eight lower-case digits, the highest first. */
  lemma NameDigits(key: UInt32, i: nat)
    requires i < 8
    ensures |Hex8(key)| == 8 && Power16(7 - i) > 0
    ensures Hex8(key)[i] == "0123456789abcdef"[key / Power16(7 - i) % 16]
  {
    DigitsAt(key, 8, i);
  }

  lemma NameRead(key: UInt32)
    ensures |Hex8(key)| == 8 && DigitValue(Hex8(key)[0]) >= 0 && DigitValue(' ') == DigitValue('+') == -1
    ensures DigitValue('-') == DigitValue('\t') == -1
    ensures Leading(Hex8(key), 0) == key && SkipPrefix(Hex8(key)) == Hex8(key)
  {
    DigitsRead(key, 8);
    assert Power16(8) == 0x1_0000_0000;
    var s := Hex8(key);
    assert DigitValue(s[0]) >= 0 && DigitValue(s[1]) >= 0;
  }

  lemma NoSpace(s: string)
    requires s != "" && (DigitValue(s[0]) >= 0 || s[0] == '+' || s[0] == '-')
    ensures SkipSpace(s) == s
  {
  }

  lemma PrefixSkipped(s: string, x: char)
    requires s != "" && DigitValue(s[0]) >= 0 && (x == 'x' || x == 'X')
    ensures SkipPrefix(['0', x] + s) == s
  {
    assert (['0', x] + s)[2..] == s;
  }

  /** A prefix in front of a name makes no difference to what is read. */
  lemma ReadsPrefixed(key: UInt32, x: char)
    requires x == 'x' || x == 'X'
    ensures Strtoul(['0', x] + Hex8(key)) == key
  {
    hide Hex8, Leading;
    var s := Hex8(key);
    NameRead(key);
    PrefixSkipped(s, x);
    NoSpace(['0', x] + s);
  }

  /** No more does white space. */
  lemma {:induction false} ReadsSpaced(s: string, t: string)
    requires forall i :: 0 <= i < |s| ==> s[i] == ' ' || '\t' <= s[i] <= '\r'
    ensures Strtoul(s + t) == Strtoul(t)
  {
    if s == "" {
      assert s + t == t;
    } else {
      ReadsSpaced(s[1..], t);
      assert (s + t)[1..] == s[1..] + t;
    }
  }

  /** A minus sign takes the number from 2 to the power of 32. */
  lemma ReadsNegated(key: UInt32)
    ensures Strtoul("-" + Hex8(key)) == if key == 0 then 0 else 0x1_0000_0000 - key
    ensures Strtoul("+" + Hex8(key)) == key
  {
    hide Hex8, Leading;
    var s := Hex8(key);
    NameRead(key);
    NoSpace("-" + s);
    NoSpace("+" + s);
    assert ("-" + s)[1..] == s && ("+" + s)[1..] == s;
  }
}
