/** JSON values, and the conversions that reading a number or a truth value out of one goes through. */
module JsonValues {
  import opened Basics

  datatype Json =
    | Null
    | Bool(b: bool)
    | Int(i: int)
    | Num(r: real)
    | Str(s: string)
    | Arr(items: seq<Json>)
    | Obj(entries: map<string, Json>)

  type Int32 = i: int | -0x8000_0000 <= i < 0x8000_0000

  function Wrap32(n: int): Int32 {
    (n + 0x8000_0000) % 0x1_0000_0000 - 0x8000_0000
  }

  function Trunc(r: real): int {
    if 0.0 <= r then r.Floor else -(-r).Floor
  }

  /** A whole number, from a number of any kind or a truth value; None where the conversion throws. */
  function Whole(j: Json): Option<int> {
    match j
    case Int(i) => Some(i)
    case Num(r) => Some(Trunc(r))
    case Bool(b) => Some(if b then 1 else 0)
    case _ => None
  }

  function AsInt(j: Json): Option<Int32> {
    match Whole(j) case Some(i) => Some(Wrap32(i)) case None => None
  }

  function AsByte(j: Json): Option<Byte> {
    match Whole(j) case Some(i) => Some(i % 256) case None => None
  }

  function AsReal(j: Json): Option<real> {
    match j
    case Int(i) => Some(i as real)
    case Num(r) => Some(r)
    case Bool(b) => Some(if b then 1.0 else 0.0)
    case _ => None
  }

  function AsBool(j: Json): Option<bool> {
    match j case Bool(b) => Some(b) case _ => None
  }

  lemma ConversionsKeep(i: Int32, u: Byte)
    ensures AsInt(Int(i)) == Some(i) && AsByte(Int(u)) == Some(u)
  {
  }

  lemma Multiple(n: int, d: int, q: int)
    requires 0 < d && n == d * q
    ensures n % d == 0
  {
    QuotientIs(n, d, q, 0);
  }

  /** Numbers out of range wrap around, and broken ones are cut off towards zero. */
  lemma ConversionsWrap(i: int, r: real)
    ensures AsInt(Int(i)).Some? && (i - AsInt(Int(i)).value) % 0x1_0000_0000 == 0
    ensures AsByte(Int(i)).Some? && (i - AsByte(Int(i)).value) % 256 == 0
    ensures r >= 0.0 ==> Trunc(r) as real <= r < Trunc(r) as real + 1.0
    ensures r <= 0.0 ==> Trunc(r) as real - 1.0 < r <= Trunc(r) as real
    ensures AsReal(Int(i)) == Some(i as real) && AsReal(Bool(true)) == Some(1.0) && AsReal(Bool(false)) == Some(0.0)
    ensures Whole(Num(r)) == Some(Trunc(r)) && Whole(Bool(true)) == Some(1) && Whole(Bool(false)) == Some(0)
  {
    var low := (i + 0x8000_0000) / 0x1_0000_0000;
    assert i - Wrap32(i) == 0x1_0000_0000 * low;
    Multiple(i - Wrap32(i), 0x1_0000_0000, low);
    assert i - i % 256 == 256 * (i / 256);
    Multiple(i - i % 256, 256, i / 256);
  }
}
