/** The undo buffer of a text field as a value: its fixed arrays, and what its operations do to them.

Undo records fill the record array from the front and redo records fill it from the back; the
characters they have saved do the same in the character array. `Holds` says which two stacks of
edits such a buffer stands for, and the lemmas say what each operation does to those stacks.
*/
module UndoBuffer {

  const STATE_COUNT := 99
  const CHAR_COUNT := 999

  /** An edit that replaces `del` characters at `where` by `ins`. */
  datatype Edit = Edit(where: int, ins: string, del: int)

  datatype Record = Record(where: int, insertLength: int, deleteLength: int, charStorage: int)

  /** What a record says, apart from where its characters are. */
  function Fields(r: Record): (int, int, int) { (r.where, r.insertLength, r.deleteLength) }

  datatype Buffer = Buffer(recs: seq<Record>, chars: string,
                           undoPoint: int, redoPoint: int, undoCharPoint: int, redoCharPoint: int)

  ghost predicate Shaped(b: Buffer) {
    && |b.recs| == STATE_COUNT && |b.chars| == CHAR_COUNT
    && 0 <= b.undoPoint <= b.redoPoint <= STATE_COUNT
    && 0 <= b.undoCharPoint <= b.redoCharPoint <= CHAR_COUNT
  }

  // ----- The stacks in the buffer -----

  /** The saved characters of a stack, one edit after the other. */
  function Flat(es: seq<Edit>): string {
    if es == [] then [] else es[0].ins + Flat(es[1..])
  }

  lemma FlatEmpty()
    ensures Flat([]) == []
  {
  }

  lemma Reassociate(x: string, y: string, z: string)
    ensures x + (y + z) == (x + y) + z
  {
  }

  lemma {:induction false} FlatConcat(a: seq<Edit>, b: seq<Edit>)
    ensures Flat(a + b) == Flat(a) + Flat(b)
  {
    if a == [] {
      assert a + b == b;
    } else {
      FlatConcat(a[1..], b);
      assert (a + b)[1..] == a[1..] + b;
      assert Flat(a + b) == a[0].ins + Flat((a + b)[1..]);
      Reassociate(a[0].ins, Flat(a[1..]), Flat(b));
    }
  }

  /** The number of characters saved before the `i`th edit of a stack. */
  function Offset(es: seq<Edit>, i: nat): nat
    requires i <= |es|
  {
    if i == 0 then 0 else |es[0].ins| + Offset(es[1..], i - 1)
  }

  lemma {:induction false} OffsetIsFlat(es: seq<Edit>, i: nat)
    requires i <= |es|
    ensures Offset(es, i) == |Flat(es[..i])|
  {
    if i > 0 {
      OffsetIsFlat(es[1..], i - 1);
      assert es[..i][1..] == es[1..][..i - 1];
    }
  }

  lemma {:induction false} OffsetPrefix(a: seq<Edit>, b: seq<Edit>, i: nat)
    requires i <= |a|
    ensures Offset(a + b, i) == Offset(a, i)
  {
    if i > 0 {
      OffsetPrefix(a[1..], b, i - 1);
      assert (a + b)[1..] == a[1..] + b;
    }
  }

  lemma OffsetAll(es: seq<Edit>)
    ensures Offset(es, |es|) == |Flat(es)|
  {
    OffsetIsFlat(es, |es|);
    assert es[..|es|] == es;
  }

  lemma FlatLast(es: seq<Edit>)
    requires es != []
    ensures var n := |es| - 1; Flat(es) == Flat(es[..n]) + es[n].ins && Offset(es, n) == |Flat(es[..n])|
  {
    var n := |es| - 1;
    assert es == es[..n] + [es[n]];
    FlatConcat(es[..n], [es[n]]);
    assert Flat([es[n]]) == es[n].ins + Flat([]);
    OffsetIsFlat(es, n);
  }

  /** The record of edit `e` whose characters are saved from position `at` on. */
  function RecordOf(e: Edit, at: int): Record {
    Record(e.where, |e.ins|, e.del, if e.ins == [] then -1 else at)
  }

  /** The records from position `first` on are those of `es`, their characters saved from `at` on. */
  ghost predicate Records(recs: seq<Record>, first: int, es: seq<Edit>, at: int) {
    && 0 <= first && first + |es| <= |recs|
    && forall i :: first <= i < first + |es| ==> recs[i] == RecordOf(es[i - first], at + Offset(es, i - first))
  }

  /** `undos` is the undo stack, oldest edit first. */
  ghost predicate HoldsUndos(b: Buffer, undos: seq<Edit>) {
    && Shaped(b) && b.undoPoint == |undos| && b.undoCharPoint == |Flat(undos)|
    && Records(b.recs, 0, undos, 0) && b.chars[..b.undoCharPoint] == Flat(undos)
  }

  /** `redos` is the redo stack, the edit to redo next first. */
  ghost predicate HoldsRedos(b: Buffer, redos: seq<Edit>) {
    && Shaped(b) && b.redoPoint == STATE_COUNT - |redos| && b.redoCharPoint == CHAR_COUNT - |Flat(redos)|
    && Records(b.recs, b.redoPoint, redos, b.redoCharPoint) && b.chars[b.redoCharPoint..] == Flat(redos)
  }

  ghost predicate Holds(b: Buffer, undos: seq<Edit>, redos: seq<Edit>) {
    HoldsUndos(b, undos) && HoldsRedos(b, redos)
  }

  // ----- Discarding -----

  predicate MovesInside<T>(s: seq<T>, dst: int, src: int, count: int) {
    0 <= dst && 0 <= src && 0 <= count && dst + count <= |s| && src + count <= |s|
  }

  /** `memmove` of `count` elements within `s`; nothing moves when the blocks do not lie inside. */
  function Move<T>(s: seq<T>, dst: int, src: int, count: int): (t: seq<T>)
    ensures |t| == |s|
    ensures MovesInside(s, dst, src, count) ==>
              forall i {:trigger t[i]} ::
                0 <= i < |s| ==> t[i] == if dst <= i < dst + count then s[src + i - dst] else s[i]
  {
    if MovesInside(s, dst, src, count)
    then s[..dst] + s[src..src + count] + s[dst + count..]
    else s
  }

  /** The records from `lo` up to `hi` with stored characters, their positions shifted by `n`. */
  function Shifted(recs: seq<Record>, lo: int, hi: int, n: int): (r: seq<Record>)
    ensures |r| == |recs|
    ensures forall i {:trigger r[i]} :: 0 <= i < |recs| ==>
              r[i] == if lo <= i < hi && recs[i].charStorage >= 0 then recs[i].(charStorage := recs[i].charStorage + n)
                else recs[i]
  {
    seq(|recs|, i requires 0 <= i < |recs| =>
      if lo <= i < hi && recs[i].charStorage >= 0 then recs[i].(charStorage := recs[i].charStorage + n) else recs[i])
  }

  function FlushRedo(b: Buffer): Buffer {
    b.(redoPoint := STATE_COUNT, redoCharPoint := CHAR_COUNT)
  }

  /** Frees the saved characters of the oldest undo record. */
  function FreeUndoChars(b: Buffer): Buffer
    requires Shaped(b)
  {
    if b.recs[0].charStorage >= 0 then
      var n := b.recs[0].insertLength;
      b.(undoCharPoint := b.undoCharPoint - n,
         chars := Move(b.chars, 0, n, b.undoCharPoint - n),
         recs := Shifted(b.recs, 0, b.undoPoint, -n))
    else b
  }

  /** Discards the oldest undo record. */
  function DiscardUndo(b: Buffer): Buffer
    requires Shaped(b)
  {
    if b.undoPoint > 0 then
      var b' := FreeUndoChars(b);
      b'.(undoPoint := b.undoPoint - 1, recs := Move(b'.recs, 0, 1, b.undoPoint - 1))
    else b
  }

  /** Frees the saved characters of the oldest redo record. */
  function FreeRedoChars(b: Buffer): Buffer
    requires Shaped(b)
  {
    var k := STATE_COUNT - 1;
    if b.recs[k].charStorage >= 0 then
      var n := b.recs[k].insertLength;
      var at := b.redoCharPoint + n;
      b.(redoCharPoint := at,
         chars := Move(b.chars, at, b.redoCharPoint, CHAR_COUNT - at),
         recs := Shifted(b.recs, b.redoPoint, k, n))
    else b
  }

  /** Discards the oldest redo record. */
  function DiscardRedo(b: Buffer): Buffer
    requires Shaped(b)
  {
    if b.redoPoint <= STATE_COUNT - 1 then
      var b' := FreeRedoChars(b);
      b'.(redoPoint := b.redoPoint + 1,
        recs := Move(b'.recs, b.redoPoint + 1, b.redoPoint, STATE_COUNT - b.redoPoint - 1))
    else b
  }

  lemma FlushRedoHolds(b: Buffer, undos: seq<Edit>)
    requires HoldsUndos(b, undos)
    ensures Holds(FlushRedo(b), undos, [])
  {
  }

  /** Moving the characters before `end` down over the first `n`. */
  lemma MoveDown(s: string, n: nat, end: int, rest: int)
    requires n <= end <= rest <= |s|
    ensures Move(s, 0, n, end - n)[..end - n] == s[..end][n..] && Move(s, 0, n, end - n)[rest..] == s[rest..]
    ensures n == 0 ==> s[..end][n..] == s[..end]
  {
  }

  /** The records as they are just before the oldest one goes: the positions of the others already start from 0. */
  function ShiftedDown(recs: seq<Record>, undoPoint: int, n: int): seq<Record> {
    if n > 0 then Shifted(recs, 0, undoPoint, -n) else recs
  }

  /** The records after the oldest undo record has been taken off and `n` characters have been closed up. */
  function MovedDown(recs: seq<Record>, undoPoint: int, n: int): seq<Record> {
    Move(ShiftedDown(recs, undoPoint, n), 0, 1, undoPoint - 1)
  }

  lemma DiscardUndoMoves(b: Buffer)
    requires Shaped(b) && b.undoPoint > 0
    requires b.recs[0].charStorage >= 0 ==> b.recs[0].insertLength > 0
    ensures DiscardUndo(b).recs ==
            MovedDown(b.recs, b.undoPoint, if b.recs[0].charStorage >= 0 then b.recs[0].insertLength else 0)
  {
    hide Move, Shifted;
  }

  lemma RecordsInside(recs: seq<Record>, first: int, es: seq<Edit>, at: int)
    requires Records(recs, first, es, at)
    ensures 0 <= first && first + |es| <= |recs|
  {
  }

  lemma RecordsTail(recs: seq<Record>, first: int, es: seq<Edit>, at: int)
    requires Records(recs, first, es, at) && es != []
    ensures Records(recs, first + 1, es[1..], at + |es[0].ins|)
  {
  }

  /** Shifting the saved characters of records shifts the positions the records say. */
  lemma RecordsShift(recs: seq<Record>, first: int, es: seq<Edit>, at: int, lo: int, hi: int, n: int)
    requires Records(recs, first, es, at) && 0 <= at && lo <= first && first + |es| <= hi
    ensures Records(Shifted(recs, lo, hi, n), first, es, at + n)
  {
  }

  /** Moving records along the array. */
  lemma RecordsSlide(recs: seq<Record>, first: int, es: seq<Edit>, at: int, dst: int)
    requires Records(recs, first, es, at) && 0 <= dst && dst + |es| <= |recs|
    ensures Records(Move(recs, dst, first, |es|), dst, es, at)
  {
    var recs' := Move(recs, dst, first, |es|);
    forall i | dst <= i < dst + |es| ensures recs'[i] == RecordOf(es[i - dst], at + Offset(es, i - dst)) {
      assert recs'[i] == recs[first + i - dst];
    }
  }

  lemma TailShifted(recs: seq<Record>, undos: seq<Edit>)
    requires Records(recs, 0, undos, 0) && undos != []
    ensures Records(ShiftedDown(recs, |undos|, |undos[0].ins|), 1, undos[1..], 0)
    ensures |undos| <= |recs| == |ShiftedDown(recs, |undos|, |undos[0].ins|)|
  {
    hide Records, Move, Shifted, Flat;
    var n, es := |undos[0].ins|, undos[1..];
    RecordsInside(recs, 0, undos, 0);
    RecordsTail(recs, 0, undos, 0);
    if n > 0 { RecordsShift(recs, 1, es, n, 0, |undos|, -n); }
  }

  lemma UndosMoved(recs: seq<Record>, undos: seq<Edit>, undoPoint: int)
    requires Records(recs, 0, undos, 0) && undos != [] && undoPoint == |undos|
    ensures Records(MovedDown(recs, undoPoint, |undos[0].ins|), 0, undos[1..], 0)
  {
    hide Records, Move, ShiftedDown, Flat;
    TailShifted(recs, undos);
    RecordsSlide(ShiftedDown(recs, undoPoint, |undos[0].ins|), 1, undos[1..], 0, 0);
    assert |undos[1..]| == undoPoint - 1;
  }

  lemma RecordsOutsideShift(recs: seq<Record>, first: int, es: seq<Edit>, at: int, lo: int, hi: int, n: int)
    requires Records(recs, first, es, at) && (hi <= first || first + |es| <= lo)
    ensures Records(Shifted(recs, lo, hi, n), first, es, at)
  {
  }

  lemma RecordsOutsideMove(recs: seq<Record>, first: int, es: seq<Edit>, at: int, dst: int, src: int, count: int)
    requires Records(recs, first, es, at) && (dst + count <= first || first + |es| <= dst)
    ensures Records(Move(recs, dst, src, count), first, es, at)
  {
    hide RecordOf, Offset;
    var recs' := Move(recs, dst, src, count);
    assert forall i :: first <= i < first + |es| ==> recs'[i] == recs[i];
  }

  lemma RedosUnmoved(recs: seq<Record>, undoPoint: int, redos: seq<Edit>, redoPoint: int, at: int, n: int)
    requires Records(recs, redoPoint, redos, at) && 0 < undoPoint <= redoPoint
    ensures Records(MovedDown(recs, undoPoint, n), redoPoint, redos, at)
  {
    hide Records, Move, Shifted;
    if n > 0 { RecordsOutsideShift(recs, redoPoint, redos, at, 0, undoPoint, -n); }
    RecordsOutsideMove(if n > 0 then Shifted(recs, 0, undoPoint, -n) else recs, redoPoint, redos, at, 0, 1,
      undoPoint - 1);
  }

  lemma RecordAt(recs: seq<Record>, first: int, es: seq<Edit>, at: int, i: nat)
    requires Records(recs, first, es, at) && i < |es|
    ensures recs[first + i] == RecordOf(es[i], at + Offset(es, i))
  {
  }

  lemma DiscardUndoRecords(b: Buffer, undos: seq<Edit>, redos: seq<Edit>)
    requires Holds(b, undos, redos) && undos != []
    ensures Records(DiscardUndo(b).recs, 0, undos[1..], 0)
    ensures Records(DiscardUndo(b).recs, b.redoPoint, redos, b.redoCharPoint)
  {
    hide Records, Move, Shifted, Flat;
    RecordAt(b.recs, 0, undos, 0, 0);
    DiscardUndoMoves(b);
    UndosMoved(b.recs, undos, b.undoPoint);
    RedosUnmoved(b.recs, b.undoPoint, redos, b.redoPoint, b.redoCharPoint, |undos[0].ins|);
  }

  /** Discarding the oldest undo record keeps all others, with their characters; redo is untouched. */
  lemma DiscardUndoHolds(b: Buffer, undos: seq<Edit>, redos: seq<Edit>)
    requires Holds(b, undos, redos) && undos != []
    ensures Holds(DiscardUndo(b), undos[1..], redos)
  {
    hide Records, Shifted, Move;
    var n := |undos[0].ins|;
    RecordAt(b.recs, 0, undos, 0, 0);
    MoveDown(b.chars, n, b.undoCharPoint, b.redoCharPoint);
    DiscardUndoRecords(b, undos, redos);
  }

  lemma RecordsFront(recs: seq<Record>, first: int, es: seq<Edit>, at: int, m: nat)
    requires Records(recs, first, es, at) && m <= |es|
    ensures Records(recs, first, es[..m], at)
  {
    forall i | first <= i < first + m ensures recs[i] == RecordOf(es[..m][i - first], at + Offset(es[..m], i - first)) {
      assert es == es[..m] + es[m..];
      OffsetPrefix(es[..m], es[m..], i - first);
    }
  }

  /** Moving the characters from `at` on up over the last `n`. */
  lemma MoveUp(s: string, at: nat, n: nat)
    requires at + n <= |s|
    ensures var t := Move(s, at + n, at, |s| - (at + n));
            t[at + n..] == s[at..][..|s| - at - n] && t[..at] == s[..at]
    ensures n == 0 ==> s[at..][..|s| - at - n] == s[at..]
  {
  }

  /** The records after the oldest redo record has been taken off and `n` characters have been closed up. */
  function MovedUp(recs: seq<Record>, redoPoint: int, n: int): seq<Record> {
    Move(if n > 0 then Shifted(recs, redoPoint, STATE_COUNT - 1, n) else recs, redoPoint + 1, redoPoint,
      STATE_COUNT - redoPoint - 1)
  }

  lemma DiscardRedoMoves(b: Buffer)
    requires Shaped(b) && b.redoPoint < STATE_COUNT
    requires b.recs[STATE_COUNT - 1].charStorage >= 0 ==> b.recs[STATE_COUNT - 1].insertLength > 0
    ensures var last := b.recs[STATE_COUNT - 1];
            DiscardRedo(b).recs == MovedUp(b.recs, b.redoPoint, if last.charStorage >= 0 then last.insertLength else 0)
  {
    hide Move, Shifted;
  }

  lemma RedosMoved(recs: seq<Record>, redoPoint: int, redos: seq<Edit>, at: int)
    requires Records(recs, redoPoint, redos, at) && redos != [] && 0 <= at
    requires |recs| == STATE_COUNT == redoPoint + |redos|
    ensures var m := |redos| - 1;
            Records(MovedUp(recs, redoPoint, |redos[m].ins|), redoPoint + 1, redos[..m], at + |redos[m].ins|)
  {
    hide Records, Move, Shifted;
    var m := |redos| - 1;
    var n := |redos[m].ins|;
    RecordsFront(recs, redoPoint, redos, at, m);
    if n > 0 { RecordsShift(recs, redoPoint, redos[..m], at, redoPoint, STATE_COUNT - 1, n); }
    RecordsSlide(if n > 0 then Shifted(recs, redoPoint, STATE_COUNT - 1, n) else recs, redoPoint, redos[..m], at + n,
      redoPoint + 1);
  }

  lemma UndosUnmoved(recs: seq<Record>, redoPoint: int, n: int)
    requires |recs| == STATE_COUNT && 0 <= redoPoint < STATE_COUNT
    ensures MovedUp(recs, redoPoint, n)[..redoPoint] == recs[..redoPoint]
  {
  }

  lemma DiscardRedoRecords(b: Buffer, redos: seq<Edit>)
    requires HoldsRedos(b, redos) && redos != []
    ensures var m := |redos| - 1;
            Records(DiscardRedo(b).recs, b.redoPoint + 1, redos[..m], b.redoCharPoint + |redos[m].ins|)
    ensures DiscardRedo(b).recs[..b.redoPoint] == b.recs[..b.redoPoint]
  {
    hide Records, Move, Shifted, Flat;
    var m := |redos| - 1;
    RecordAt(b.recs, b.redoPoint, redos, b.redoCharPoint, m);
    DiscardRedoMoves(b);
    RedosMoved(b.recs, b.redoPoint, redos, b.redoCharPoint);
    UndosUnmoved(b.recs, b.redoPoint, |redos[m].ins|);
  }

  /** Discarding the oldest redo record keeps all others, with their characters; undo is untouched. */
  lemma DiscardRedoHolds(b: Buffer, redos: seq<Edit>)
    requires HoldsRedos(b, redos) && redos != []
    ensures HoldsRedos(DiscardRedo(b), redos[..|redos| - 1])
    ensures var b' := DiscardRedo(b);
            && b'.undoPoint == b.undoPoint && b'.undoCharPoint == b.undoCharPoint
            && b'.recs[..b.redoPoint] == b.recs[..b.redoPoint]
              && b'.chars[..b.redoCharPoint] == b.chars[..b.redoCharPoint]
  {
    hide Records, Move, Shifted, Flat;
    var m := |redos| - 1;
    FlatLast(redos);
    RecordAt(b.recs, b.redoPoint, redos, b.redoCharPoint, m);
    MoveUp(b.chars, b.redoCharPoint, |redos[m].ins|);
    DiscardRedoRecords(b, redos);
  }

  // ----- Moving edits between the stacks -----

  /** `s` with `t` written over it from position `at` on. */
  function Written(s: string, at: int, t: string): (r: string)
    requires 0 <= at && at + |t| <= |s|
    ensures |r| == |s| && r[..at] == s[..at] && r[at..at + |t|] == t && r[at + |t|..] == s[at + |t|..]
  {
    s[..at] + t + s[at + |t|..]
  }

  lemma WrittenNothing(s: string, at: int)
    requires 0 <= at <= |s|
    ensures Written(s, at, "") == s
  {
  }

  ghost predicate RoomFor(b: Buffer, e: Edit) {
    Shaped(b) && b.undoPoint < b.redoPoint && b.undoCharPoint + |e.ins| <= b.redoCharPoint
  }

  function PushUndo(b: Buffer, e: Edit): Buffer
    requires RoomFor(b, e)
  {
    b.(recs := b.recs[b.undoPoint := RecordOf(e, b.undoCharPoint)],
       chars := Written(b.chars, b.undoCharPoint, e.ins),
       undoPoint := b.undoPoint + 1, undoCharPoint := b.undoCharPoint + |e.ins|)
  }

  function PushRedo(b: Buffer, e: Edit): Buffer
    requires RoomFor(b, e)
  {
    b.(recs := b.recs[b.redoPoint - 1 := RecordOf(e, b.redoCharPoint - |e.ins|)],
       chars := Written(b.chars, b.redoCharPoint - |e.ins|, e.ins),
       redoPoint := b.redoPoint - 1, redoCharPoint := b.redoCharPoint - |e.ins|)
  }

  function PopUndo(b: Buffer): Buffer
    requires Shaped(b) && 0 < b.undoPoint
  {
    b.(undoPoint := b.undoPoint - 1, undoCharPoint := b.undoCharPoint - b.recs[b.undoPoint - 1].insertLength)
  }

  function PopRedo(b: Buffer): Buffer
    requires Shaped(b) && b.redoPoint < STATE_COUNT
  {
    b.(redoPoint := b.redoPoint + 1, redoCharPoint := b.redoCharPoint + b.recs[b.redoPoint].insertLength)
  }

  lemma PushUndoRecords(b: Buffer, undos: seq<Edit>, redos: seq<Edit>, e: Edit)
    requires Holds(b, undos, redos) && RoomFor(b, e)
    ensures var b' := PushUndo(b, e);
            Records(b'.recs, 0, undos + [e], 0) && Records(b'.recs, b'.redoPoint, redos, b'.redoCharPoint)
  {
    hide Flat, Written;
    var b' := PushUndo(b, e);
    assert (undos + [e])[..|undos|] == undos;
    OffsetPrefix(undos, [e], |undos|);
    assert b.undoCharPoint == Offset(undos, |undos|) by { OffsetAll(undos); }
    forall i | 0 <= i < |undos| ensures Offset(undos + [e], i) == Offset(undos, i) {
      OffsetPrefix(undos, [e], i);
    }
  }

  lemma PushUndoHolds(b: Buffer, undos: seq<Edit>, redos: seq<Edit>, e: Edit)
    requires Holds(b, undos, redos) && RoomFor(b, e)
    ensures Holds(PushUndo(b, e), undos + [e], redos)
  {
    hide Records, Flat;
    var b', n := PushUndo(b, e), b.undoCharPoint + |e.ins|;
    PushUndoRecords(b, undos, redos, e);
    FlatLast(undos + [e]);
    assert (undos + [e])[..|undos|] == undos;
    assert b'.chars[..b'.undoCharPoint] == b'.chars[..b.undoCharPoint] + e.ins;
    assert b'.chars[b.redoCharPoint..] == b'.chars[n..][b.redoCharPoint - n..];
    assert b.chars[b.redoCharPoint..] == b.chars[n..][b.redoCharPoint - n..];
  }

  lemma PushRedoRecords(b: Buffer, undos: seq<Edit>, redos: seq<Edit>, e: Edit)
    requires Holds(b, undos, redos) && RoomFor(b, e)
    ensures var b' := PushRedo(b, e);
            Records(b'.recs, b'.redoPoint, [e] + redos, b'.redoCharPoint) && Records(b'.recs, 0, undos, 0)
  {
    hide Flat, Written;
    var b', at := PushRedo(b, e), b.redoCharPoint - |e.ins|;
    assert ([e] + redos)[1..] == redos;
    forall i | b'.redoPoint <= i < STATE_COUNT
      ensures b'.recs[i] == RecordOf(([e] + redos)[i - b'.redoPoint], at + Offset([e] + redos, i - b'.redoPoint))
    {
      if i > b'.redoPoint {
        assert b.recs[i] == RecordOf(redos[i - b.redoPoint], b.redoCharPoint + Offset(redos, i - b.redoPoint));
      }
    }
  }

  lemma PushRedoHolds(b: Buffer, undos: seq<Edit>, redos: seq<Edit>, e: Edit)
    requires Holds(b, undos, redos) && RoomFor(b, e)
    ensures Holds(PushRedo(b, e), undos, [e] + redos)
  {
    var b', at := PushRedo(b, e), b.redoCharPoint - |e.ins|;
    assert ([e] + redos)[1..] == redos;
    assert b'.chars[at..] == e.ins + b'.chars[b.redoCharPoint..];
    assert b'.chars[..b.undoCharPoint] == b'.chars[..at][..b.undoCharPoint] == b.chars[..at][..b.undoCharPoint];
    PushRedoRecords(b, undos, redos, e);
  }

  lemma PopUndoHolds(b: Buffer, undos: seq<Edit>, redos: seq<Edit>)
    requires Holds(b, undos, redos) && undos != []
    ensures Holds(PopUndo(b), undos[..|undos| - 1], redos)
  {
    var n := |undos| - 1;
    var front := undos[..n];
    FlatLast(undos);
    assert b.recs[n] == RecordOf(undos[n], Offset(undos, n));
    assert b.chars[..|Flat(front)|] == b.chars[..b.undoCharPoint][..|Flat(front)|];
    assert undos == front + [undos[n]];
    forall i | 0 <= i < n ensures Offset(undos, i) == Offset(front, i) {
      OffsetPrefix(front, [undos[n]], i);
    }
  }

  lemma PopRedoRecords(b: Buffer, redos: seq<Edit>)
    requires HoldsRedos(b, redos) && redos != []
    ensures Records(b.recs, b.redoPoint + 1, redos[1..], b.redoCharPoint + |redos[0].ins|)
  {
    hide Flat;
    forall i | b.redoPoint + 1 <= i < STATE_COUNT
      ensures b.recs[i] == RecordOf(redos[1..][i - b.redoPoint - 1],
                                    b.redoCharPoint + |redos[0].ins| + Offset(redos[1..], i - b.redoPoint - 1))
    {
      assert b.recs[i] == RecordOf(redos[i - b.redoPoint], b.redoCharPoint + Offset(redos, i - b.redoPoint));
    }
  }

  lemma PopRedoHolds(b: Buffer, undos: seq<Edit>, redos: seq<Edit>)
    requires Holds(b, undos, redos) && redos != []
    ensures Holds(PopRedo(b), undos, redos[1..])
  {
    var b' := PopRedo(b);
    assert b.recs[b.redoPoint] == RecordOf(redos[0], b.redoCharPoint);
    assert b.chars[b'.redoCharPoint..] == b.chars[b.redoCharPoint..][|redos[0].ins|..];
    PopRedoRecords(b, redos);
  }

  /** What the newest undo record says, and that its characters are where it says. */
  lemma TopUndo(b: Buffer, undos: seq<Edit>)
    requires HoldsUndos(b, undos) && undos != []
    ensures var n := |undos| - 1;
            var at := b.undoCharPoint - |undos[n].ins|;
            0 <= at && b.recs[n] == RecordOf(undos[n], at) && b.chars[at..b.undoCharPoint] == undos[n].ins
  {
    var n := |undos| - 1;
    FlatLast(undos);
    var at := b.undoCharPoint - |undos[n].ins|;
    assert b.chars[at..b.undoCharPoint] == b.chars[..b.undoCharPoint][at..];
  }

  /** What the next redo record says, and that its characters are where it says. */
  lemma TopRedo(b: Buffer, redos: seq<Edit>)
    requires HoldsRedos(b, redos) && redos != []
    ensures var end := b.redoCharPoint + |redos[0].ins|;
            end <= CHAR_COUNT && b.recs[b.redoPoint] == RecordOf(redos[0], b.redoCharPoint)
            && b.chars[b.redoCharPoint..end] == redos[0].ins
  {
    var end := b.redoCharPoint + |redos[0].ins|;
    assert b.chars[b.redoCharPoint..end] == b.chars[b.redoCharPoint..][..|redos[0].ins|];
  }

  lemma OldestUndo(b: Buffer, undos: seq<Edit>)
    requires HoldsUndos(b, undos) && undos != []
    ensures b.recs[0] == RecordOf(undos[0], 0) && |undos[0].ins| <= b.undoCharPoint
  {
  }

  lemma OldestRedo(b: Buffer, redos: seq<Edit>)
    requires HoldsRedos(b, redos) && redos != []
    ensures var e := redos[|redos| - 1];
            && b.recs[STATE_COUNT - 1].insertLength == |e.ins| && b.redoCharPoint + |e.ins| <= CHAR_COUNT
            && (b.recs[STATE_COUNT - 1].charStorage >= 0 <==> e.ins != [])
  {
    FlatLast(redos);
    RecordAt(b.recs, b.redoPoint, redos, b.redoCharPoint, |redos| - 1);
  }

  lemma NothingHeld(b: Buffer)
    requires Shaped(b) && b.undoPoint == 0 == b.undoCharPoint && b.redoPoint == STATE_COUNT
             && b.redoCharPoint == CHAR_COUNT
    ensures Holds(b, [], [])
  {
  }

  /** Saved characters belong to some record, so discarding records frees them all in the end. */
  lemma SomethingHeld(b: Buffer, undos: seq<Edit>)
    requires HoldsUndos(b, undos) && 0 < b.undoCharPoint
    ensures undos != []
  {
  }

  /** Behind the newest undo record and above the undo characters `b'` may differ from `b`, but not below. */
  ghost predicate Below(b: Buffer, b': Buffer) {
    && 0 < b.undoPoint <= |b.recs| && |b'.recs| == |b.recs| && 0 <= b.undoCharPoint <= |b.chars|
      && |b'.chars| == |b.chars|
    && b'.recs[..b.undoPoint - 1] == b.recs[..b.undoPoint - 1]
      && b'.chars[..b.undoCharPoint] == b.chars[..b.undoCharPoint]
  }

  /** Taking the newest record off leaves the rest of the undo stack, whatever happens behind it. */
  lemma UndosBelow(b: Buffer, b': Buffer, undos: seq<Edit>)
    requires HoldsUndos(b, undos) && undos != [] && Shaped(b')
    requires b'.undoPoint == b.undoPoint - 1 && b'.undoCharPoint == b.undoCharPoint - |undos[|undos| - 1].ins|
    requires Below(b, b')
    ensures HoldsUndos(b', undos[..|undos| - 1])
  {
    var n := |undos| - 1;
    FlatLast(undos);
    assert undos == undos[..n] + [undos[n]];
    assert b'.chars[..b'.undoCharPoint] == b'.chars[..b.undoCharPoint][..b'.undoCharPoint];
    forall i | 0 <= i < n ensures b'.recs[i] == RecordOf(undos[..n][i], Offset(undos[..n], i)) {
      assert b'.recs[..n][i] == b.recs[..n][i];
      OffsetPrefix(undos[..n], [undos[n]], i);
    }
  }

  /** The buffer between saving for redo and taking the undo record off. */
  ghost predicate SavedFor(b: Buffer, e: Edit, b': Buffer) {
    && Shaped(b) && Shaped(b') && 0 < b.redoPoint && |e.ins| <= b.redoCharPoint
    && b' == b.(recs := b.recs[b.redoPoint - 1 := RecordOf(e, b.redoCharPoint - |e.ins|)],
                chars := Written(b.chars, b.redoCharPoint - |e.ins|, e.ins),
                redoCharPoint := b.redoCharPoint - |e.ins|)
  }

  /** Writing a redo record, discarding redo records and storing characters leave the undo side alone;
      `b1` is the buffer after the first two. */
  lemma BelowStored(b: Buffer, e: Edit, b1: Buffer, b2: Buffer)
    requires Shaped(b) && Shaped(b1) && 0 < b.undoPoint && b.redoPoint <= b1.redoPoint && |e.ins| <= b1.redoCharPoint
    requires b1.recs[..b.redoPoint] == b.recs[b.redoPoint - 1 := Record(e.where, |e.ins|, e.del, -1)][..b.redoPoint]
    requires b1.chars[..b.redoCharPoint] == b.chars[..b.redoCharPoint] && b.undoCharPoint + |e.ins| <= b1.redoCharPoint
    requires var p, at := b1.redoPoint - 1, b1.redoCharPoint - |e.ins|;
             b2 == b1.(recs := b1.recs[p := b1.recs[p].(charStorage := at)], chars := Written(b1.chars, at, e.ins),
               redoCharPoint := at)
    ensures Below(b, b2)
  {
    var m, n, at := b.undoPoint - 1, b.undoCharPoint, b1.redoCharPoint - |e.ins|;
    forall i | 0 <= i < n ensures b2.chars[i] == b.chars[i] {
      assert b1.chars[..b.redoCharPoint][i] == b.chars[..b.redoCharPoint][i];
    }
    forall i | 0 <= i < m ensures b2.recs[i] == b.recs[i] {
      assert b1.recs[..b.redoPoint][i] == b.recs[i];
    }
    assert b2.chars[..n] == b.chars[..n];
    assert b2.recs[..m] == b.recs[..m];
  }

  /** Writing the record in front of the redo stack, even twice, leaves the undo side alone. */
  lemma BelowWritten(b: Buffer, r1: Record, r2: Record, b': Buffer)
    requires Shaped(b) && 0 < b.undoPoint
    requires b' == b.(recs := b.recs[b.redoPoint - 1 := r1][b.redoPoint - 1 := r2])
    ensures Shaped(b') && Below(b, b') && b'.recs[b'.redoPoint - 1] == r2
  {
    assert b'.recs[..b.undoPoint - 1] == b.recs[..b.undoPoint - 1];
  }

  lemma SavedForInsertion(b: Buffer, e: Edit, b': Buffer)
    requires Shaped(b) && 0 < b.undoPoint && e.ins == ""
    requires b' == b.(recs := b.recs[b.redoPoint - 1 := Record(e.where, 0, e.del, -1)])
    ensures SavedFor(b, e, b') && Shaped(b') && Below(b, b')
  {
    assert b'.recs[..b.undoPoint - 1] == b.recs[..b.undoPoint - 1];
    assert Written(b.chars, b.redoCharPoint, "") == b.chars;
  }

  /** Writing a redo record and then storing its characters. */
  lemma SavedForDeletion(b: Buffer, e: Edit, b1: Buffer, b2: Buffer)
    requires Shaped(b) && 0 < b.redoPoint && e.ins != "" && b.undoCharPoint + |e.ins| <= b.redoCharPoint
    requires b1 == b.(recs := b.recs[b.redoPoint - 1 := Record(e.where, |e.ins|, e.del, -1)])
    requires var p, at := b1.redoPoint - 1, b1.redoCharPoint - |e.ins|;
             b2 == b1.(recs := b1.recs[p := b1.recs[p].(charStorage := at)], chars := Written(b1.chars, at, e.ins),
               redoCharPoint := at)
    ensures SavedFor(b, e, b2) && Fields(b2.recs[b2.redoPoint - 1]) == (e.where, |e.ins|, e.del)
  {
    hide Written;
  }

  /** Both ways of saving deleted characters: `b1` is the buffer after writing the record, `b2` after
      making room, `b3` after storing the characters. */
  lemma DeletionSaved(b: Buffer, e: Edit, b1: Buffer, b2: Buffer, b3: Buffer)
    requires Shaped(b) && 0 < b.undoPoint && Shaped(b2) && e.ins != ""
    requires b1 == b.(recs := b.recs[b.redoPoint - 1 := Record(e.where, |e.ins|, e.del, -1)])
    requires b1.redoPoint <= b2.redoPoint && b.undoCharPoint + |e.ins| <= b2.redoCharPoint
    requires b2.recs[..b.redoPoint] == b1.recs[..b.redoPoint]
             && b2.chars[..b.redoCharPoint] == b1.chars[..b.redoCharPoint]
    requires b2.undoPoint == b.undoPoint && b2.undoCharPoint == b.undoCharPoint
    requires b.undoCharPoint + |e.ins| <= b.redoCharPoint ==> b2 == b1
    requires var p, at := b2.redoPoint - 1, b2.redoCharPoint - |e.ins|;
             b3 == b2.(recs := b2.recs[p := b2.recs[p].(charStorage := at)], chars := Written(b2.chars, at, e.ins),
               redoCharPoint := at)
    ensures Shaped(b3) && Below(b, b3) && 0 < b3.redoPoint
    ensures Fields(b3.recs[b3.redoPoint - 1]) == Fields(b2.recs[b2.redoPoint - 1])
    ensures b.undoCharPoint + |e.ins| <= b.redoCharPoint ==>
              SavedFor(b, e, b3) && Fields(b3.recs[b3.redoPoint - 1]) == (e.where, |e.ins|, e.del)
  {
    hide Written, Below, SavedFor;
    BelowStored(b, e, b2, b3);
    if b.undoCharPoint + |e.ins| <= b.redoCharPoint {
      SavedForDeletion(b, e, b1, b3);
    }
  }

  /** Taking the undo record off completes the move to the redo stack. */
  lemma SavedThenPopped(b: Buffer, e: Edit, b': Buffer, b'': Buffer, undos: seq<Edit>, redos: seq<Edit>)
    requires Holds(b, undos, redos) && undos != [] && SavedFor(b, e, b')
    requires b'' == b'.(undoPoint := b'.undoPoint - 1, undoCharPoint := b'.undoCharPoint - |undos[|undos| - 1].ins|,
                        redoPoint := b'.redoPoint - 1)
    ensures Holds(b'', undos[..|undos| - 1], [e] + redos)
  {
    hide Records, Flat, Written;
    TopUndo(b, undos);
    PopUndoHolds(b, undos, redos);
    assert RoomFor(PopUndo(b), e);
    assert b'' == PushRedo(PopUndo(b), e);
    PushRedoHolds(PopUndo(b), undos[..|undos| - 1], redos, e);
  }

  /** The buffer after saving for undo, before the redo record is taken off. */
  ghost predicate SavedForUndo(b: Buffer, e: Edit, b': Buffer) {
    && Shaped(b) && b.undoPoint < STATE_COUNT && b.undoCharPoint + |e.ins| <= b.redoCharPoint
    && b' == b.(recs := b.recs[b.undoPoint := RecordOf(e, b.undoCharPoint)],
                chars := Written(b.chars, b.undoCharPoint, e.ins),
                undoCharPoint := b.undoCharPoint + |e.ins|)
  }

  lemma SavedOnUndoInsertion(b: Buffer, e: Edit, b1: Buffer)
    requires Shaped(b) && b.undoPoint < STATE_COUNT && e.ins == ""
    requires b1 == b.(recs := b.recs[b.undoPoint := Record(e.where, 0, e.del, -1)])
    ensures Shaped(b1) && SavedForUndo(b, e, b1) && b1.chars[b.redoCharPoint..] == b.chars[b.redoCharPoint..]
  {
    assert Written(b.chars, b.undoCharPoint, "") == b.chars;
  }

  /** Writing an undo record and then storing its characters. */
  lemma SavedOnUndoDeletion(b: Buffer, e: Edit, b1: Buffer, b2: Buffer)
    requires Shaped(b) && b.undoPoint < STATE_COUNT && e.ins != "" && b.undoCharPoint + |e.ins| <= b.redoCharPoint
    requires b1 == b.(recs := b.recs[b.undoPoint := Record(e.where, |e.ins|, e.del, -1)])
    requires var p, at := b1.undoPoint, b1.undoCharPoint;
             b2 == b1.(recs := b1.recs[p := b1.recs[p].(charStorage := at)], chars := Written(b1.chars, at, e.ins),
                       undoCharPoint := at + |e.ins|)
    ensures Shaped(b2) && SavedForUndo(b, e, b2) && b2.chars[b.redoCharPoint..] == b.chars[b.redoCharPoint..]
  {
    hide Written;
    var at := b.undoCharPoint + |e.ins|;
    assert b2.chars[b.redoCharPoint..] == b2.chars[at..][b.redoCharPoint - at..] ==
      b.chars[at..][b.redoCharPoint - at..];
  }

  /** Taking the redo record off completes the move to the undo stack. */
  lemma SavedThenPoppedRedo(b: Buffer, e: Edit, b': Buffer, b'': Buffer, undos: seq<Edit>, redos: seq<Edit>)
    requires Holds(b, undos, redos) && redos != [] && SavedForUndo(b, e, b')
    requires b'' == b'.(undoPoint := b'.undoPoint + 1, redoPoint := b'.redoPoint + 1,
                        redoCharPoint := b'.redoCharPoint + |redos[0].ins|)
    ensures Holds(b'', undos + [e], redos[1..])
  {
    hide Records, Flat, Written;
    TopRedo(b, redos);
    PopRedoHolds(b, undos, redos);
    assert RoomFor(PopRedo(b), e);
    assert b'' == PushUndo(PopRedo(b), e);
    PushUndoHolds(PopRedo(b), undos, redos[1..], e);
  }

  /** The redo stack only depends on its own part of the arrays. */
  lemma RedosFrame(b: Buffer, b': Buffer, redos: seq<Edit>)
    requires HoldsRedos(b, redos) && Shaped(b') && b'.redoPoint == b.redoPoint && b'.redoCharPoint == b.redoCharPoint
    requires b'.recs[b.redoPoint..] == b.recs[b.redoPoint..]
             && b'.chars[b.redoCharPoint..] == b.chars[b.redoCharPoint..]
    ensures HoldsRedos(b', redos)
  {
    forall i | b.redoPoint <= i < STATE_COUNT ensures b'.recs[i] == b.recs[i] {
      assert b'.recs[b.redoPoint..][i - b.redoPoint] == b.recs[b.redoPoint..][i - b.redoPoint];
    }
  }

  lemma RedosAfterWrite(b: Buffer, r: Record, b': Buffer, redos: seq<Edit>)
    requires HoldsRedos(b, redos) && Shaped(b) && 0 < b.redoPoint && b' == b.(recs := b.recs[b.redoPoint - 1 := r])
    ensures HoldsRedos(b', redos)
  {
    assert b'.recs[b.redoPoint..] == b.recs[b.redoPoint..];
    RedosFrame(b, b', redos);
  }

  /** After discarding redo records the record in front of the redo stack reads like the top one. */
  lemma DiscardRedoLeaves(b: Buffer, redos: seq<Edit>)
    requires HoldsRedos(b, redos) && redos != []
    ensures DiscardRedo(b).redoPoint == b.redoPoint + 1 && b.redoCharPoint <= DiscardRedo(b).redoCharPoint
    ensures Fields(DiscardRedo(b).recs[b.redoPoint]) == (redos[0].where, |redos[0].ins|, redos[0].del)
  {
    hide Flat;
    RecordAt(b.recs, b.redoPoint, redos, b.redoCharPoint, 0);
    OldestRedo(b, redos);
  }

  // ----- Undo without room -----

  predicate RoomInFront(redos: seq<Edit>, used: int, n: int) {
    used + n <= CHAR_COUNT - |Flat(redos)|
  }

  /** The redo stack after the edits to be redone last have been discarded until `n` more characters fit in
      front of the saved ones, with `used` characters saved for undo. */
  function Nearest(redos: seq<Edit>, used: int, n: int): seq<Edit> {
    if redos == [] || RoomInFront(redos, used, n) then redos else Nearest(redos[..|redos| - 1], used, n)
  }

  /** What is kept is a prefix that leaves room for `n` characters behind the `used` ones, and no longer prefix does. */
  lemma {:induction false} NearestIsLongest(redos: seq<Edit>, used: int, n: int)
    requires used + n <= CHAR_COUNT
    ensures var k := |Nearest(redos, used, n)|;
            && k <= |redos| && Nearest(redos, used, n) == redos[..k] && used + n + |Flat(redos[..k])| <= CHAR_COUNT
            && forall j :: k < j <= |redos| ==> used + n + |Flat(redos[..j])| > CHAR_COUNT
  {
    if redos != [] && !RoomInFront(redos, used, n) {
      var m := |redos| - 1;
      NearestIsLongest(redos[..m], used, n);
      var k := |Nearest(redos, used, n)|;
      forall j | k < j <= |redos| ensures used + n + |Flat(redos[..j])| > CHAR_COUNT {
        if j <= m { assert redos[..j] == redos[..m][..j]; } else { assert redos[..j] == redos; }
      }
      assert redos[..k] == redos[..m][..k];
    } else {
      assert redos[..|redos|] == redos;
    }
  }

  /** Record `r` lies in front of the redo stack `kept`, and `saved` in front of its characters. */
  ghost predicate InFront(b: Buffer, r: Record, saved: string, kept: seq<Edit>) {
    && 0 < b.redoPoint <= |b.recs| && b.recs[b.redoPoint - 1] == r
    && 0 <= b.redoCharPoint && b.redoCharPoint + |saved| <= |b.chars|
    && b.chars[b.redoCharPoint..b.redoCharPoint + |saved|] == saved
    && HoldsRedos(b.(redoCharPoint := b.redoCharPoint + |saved|), kept)
  }

  lemma InRange(b: Buffer, redos: seq<Edit>)
    requires HoldsRedos(b, redos)
    ensures Shaped(b) && b.redoPoint == STATE_COUNT - |redos|
  {
  }

  /** Writing the record in front of the redo stack. */
  lemma WrittenInFront(b: Buffer, r: Record, b': Buffer, redos: seq<Edit>)
    requires HoldsRedos(b, redos) && 0 < b.redoPoint && b' == b.(recs := b.recs[b.redoPoint - 1 := r])
    ensures InFront(b', r, "", redos)
  {
    hide HoldsRedos;
    InRange(b, redos);
    RedosAfterWrite(b, r, b', redos);
    assert b'.(redoCharPoint := b'.redoCharPoint + |""|) == b';
  }

  lemma WrittenTwice(b: Buffer, r1: Record, r2: Record, redos: seq<Edit>)
    requires HoldsRedos(b, redos) && 0 < b.redoPoint
    ensures InFront(b.(recs := b.recs[b.redoPoint - 1 := r1][b.redoPoint - 1 := r2]), r2, "", redos)
  {
    assert b.recs[b.redoPoint - 1 := r1][b.redoPoint - 1 := r2] == b.recs[b.redoPoint - 1 := r2];
    WrittenInFront(b, r2, b.(recs := b.recs[b.redoPoint - 1 := r2]), redos);
  }

  /** Storing characters in front of those saved for redo. */
  lemma StoredInFront(b: Buffer, saved: string, b': Buffer, redos: seq<Edit>)
    requires HoldsRedos(b, redos) && 0 < b.redoPoint && |saved| <= b.redoCharPoint && Shaped(b')
    requires var p, at := b.redoPoint - 1, b.redoCharPoint - |saved|;
             b' == b.(recs := b.recs[p := b.recs[p].(charStorage := at)], chars := Written(b.chars, at, saved),
               redoCharPoint := at)
    ensures InFront(b', b'.recs[b'.redoPoint - 1], saved, redos)
  {
    hide HoldsRedos, Written;
    InRange(b, redos);
    var b'' := b'.(redoCharPoint := b'.redoCharPoint + |saved|);
    assert b''.recs[b.redoPoint..] == b.recs[b.redoPoint..];
    RedosFrame(b, b'', redos);
  }

  /** From its saved characters on, the array goes on with those of the edits below. */
  lemma ReadsOn(b: Buffer, r: Record, saved: string, kept: seq<Edit>, n: nat)
    requires InFront(b, r, saved, kept) && n <= |saved + Flat(kept)|
    ensures b.redoCharPoint + n <= |b.chars|
            && b.chars[b.redoCharPoint..b.redoCharPoint + n] == (saved + Flat(kept))[..n]
  {
    var at, end := b.redoCharPoint, b.redoCharPoint + |saved|;
    assert b.chars[at..] == b.chars[at..end] + b.chars[end..] == saved + Flat(kept);
    assert b.chars[at..at + n] == b.chars[at..][..n];
  }

  /** What lies in front of the redo stack does not depend on the undo side. */
  lemma InFrontAfterTakeOff(b: Buffer, r: Record, saved: string, kept: seq<Edit>, b': Buffer)
    requires InFront(b, r, saved, kept) && Shaped(b')
    requires b' == b.(undoPoint := b'.undoPoint, undoCharPoint := b'.undoCharPoint)
    ensures InFront(b', r, saved, kept)
  {
    hide HoldsRedos;
    InRange(b.(redoCharPoint := b.redoCharPoint + |saved|), kept);
    RedosFrame(b.(redoCharPoint := b.redoCharPoint + |saved|), b'.(redoCharPoint := b'.redoCharPoint + |saved|), kept);
  }

  /** Saving for undo and taking the left-over record off adds to the undo stack, whatever becomes of redo. */
  lemma PushedUndos(b: Buffer, undos: seq<Edit>, e: Edit, b1: Buffer, b2: Buffer)
    requires HoldsUndos(b, undos) && SavedForUndo(b, e, b1) && Shaped(b2)
    requires b2 == b1.(undoPoint := b1.undoPoint + 1, redoPoint := b2.redoPoint, redoCharPoint := b2.redoCharPoint)
    ensures HoldsUndos(b2, undos + [e])
  {
    hide Records, Flat, Written;
    FlushRedoHolds(b, undos);
    PushUndoHolds(FlushRedo(b), undos, [], e);
  }

  /** When the characters read are as many as were saved, the redo stack behind the record is left. */
  lemma KeptRedos(b: Buffer, r: Record, saved: string, kept: seq<Edit>, e: Edit, b1: Buffer, b2: Buffer)
    requires InFront(b.(redoPoint := b.redoPoint + 1), r, saved, kept) && SavedForUndo(b, e, b1) && Shaped(b2)
    requires b2 == b1.(undoPoint := b1.undoPoint + 1, redoPoint := b1.redoPoint + 1,
                       redoCharPoint := b1.redoCharPoint + |saved|)
    ensures HoldsRedos(b2, kept)
  {
    hide HoldsRedos, Written;
    var b0 := b.(redoPoint := b.redoPoint + 1, redoCharPoint := b.redoCharPoint + |saved|);
    var at := b.undoCharPoint + |e.ins|;
    assert b2.chars[b0.redoCharPoint..] == b2.chars[at..][b0.redoCharPoint - at..] ==
      b.chars[at..][b0.redoCharPoint - at..];
    assert b2.recs[b0.redoPoint..] == b0.recs[b0.redoPoint..];
    RedosFrame(b0, b2, kept);
  }
}
