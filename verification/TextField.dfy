/** The text field as it runs: its text, its fixed undo arrays, and the edits that drive them. */
module TextField {
  import opened UndoBuffer
  import H = History

  class Field {
    var text: string            // the host's text buffer
    var capacity: nat           // the longest text the host's buffer can take

    const resizable: bool       // whether the host makes it larger when needed

    var cursor: int
    var selectStart: int
    var selectEnd: int
    var insertMode: bool
    var singleLine: bool

    const recs: array<Record>
    const chars: array<char>

    var undoPoint: int
    var redoPoint: int
    var undoCharPoint: int
    var redoCharPoint: int
    ghost var undos: seq<Edit>  // the undo stack, oldest edit first
    ghost var redos: seq<Edit>  // the redo stack, the edit to redo next first

    ghost function View(): (b: Buffer)
      reads this`undoPoint, this`redoPoint, this`undoCharPoint, this`redoCharPoint, recs, chars
      ensures |b.recs| == recs.Length && |b.chars| == chars.Length
      ensures b.undoPoint == undoPoint && b.redoPoint == redoPoint
      ensures b.undoCharPoint == undoCharPoint && b.redoCharPoint == redoCharPoint
    {
      Buffer(recs[..], chars[..], undoPoint, redoPoint, undoCharPoint, redoCharPoint)
    }

    ghost function Past(): H.History
      reads this`text, this`undos, this`redos
    {
      H.History(text, undos, redos)
    }

    lemma ViewAt(i: int)
      ensures 0 <= i < recs.Length ==> View().recs[i] == recs[i]
    {
    }

    /** The arrays hold the two stacks. */
    ghost predicate Buffered()
      reads this, recs, chars
    {
      Holds(View(), undos, redos)
    }

    ghost predicate Valid()
      reads this, recs, chars
    {
      Buffered() && H.Valid(Past(), capacity)
    }

    constructor (text: string, capacity: nat, resizable: bool, singleLine: bool, recs: array<Record>,
                 chars: array<char>)
      requires recs.Length == STATE_COUNT && chars.Length == CHAR_COUNT && |text| <= capacity
      ensures Valid() && this.text == text && undos == [] == redos
      ensures this.capacity == capacity && this.resizable == resizable
      ensures this.recs == recs && this.chars == chars
    {
      this.capacity, this.resizable, this.singleLine := capacity, resizable, singleLine;
      this.recs, this.chars := recs, chars;
      this.text, cursor, selectStart, selectEnd, insertMode := text, 0, 0, 0, false;
      undoPoint, undoCharPoint, redoPoint, redoCharPoint := 0, 0, STATE_COUNT, CHAR_COUNT;
      undos, redos := [], [];
      new;
      H.NoPast(text);
    }

    // ----- The host's text -----

    method DeleteChars(pos: int, n: int)
      requires 0 <= pos && 0 <= n && pos + n <= |text|
      modifies this`text
      ensures text == H.Splice(old(text), pos, n, "") == old(text)[..pos] + old(text)[pos + n..]
    {
      text := text[..pos] + text[pos + n..];
    }

    static function Clamped(v: int, lo: int, hi: int): int { if v < lo then lo else if v > hi then hi else v }

    /** What the host's buffer can take after `n` characters have been added to `length` others, if it can: it grows
        to what is needed, but by 32 characters at least. */
    static function Grown(resizable: bool, capacity: nat, length: nat, n: nat): (larger: nat)
      ensures resizable ==> length + n <= larger
      ensures larger == if resizable && capacity < length + n then length + (if n < 32 then 32 else n) else capacity
    {
      if !resizable || length + n <= capacity then capacity else length + Clamped(n, 32, if n < 256 then 256 else n)
    }

    /** Inserts into the host's text, which may make the buffer larger for it. */
    method InsertChars(pos: int, s: string) returns (ok: bool)
      requires 0 <= pos <= |text|
      modifies this`text, this`capacity
      ensures ok == (resizable || |old(text)| + |s| <= old(capacity))
      ensures text == if ok then H.Splice(old(text), pos, 0, s) else old(text)
      ensures ok ==> text == old(text)[..pos] + s + old(text)[pos..]
      ensures capacity == Grown(resizable, old(capacity), |old(text)|, |s|)
    {
      if |text| + |s| > capacity {
        if !resizable {
          return false;
        }
        capacity := |text| + Clamped(|s|, 32, if |s| < 256 then 256 else |s|);
      }
      text := text[..pos] + s + text[pos..];
      return true;
    }

    // ----- The undo arrays -----

    static method MemMove<T>(a: array<T>, dst: int, src: int, count: int)
      requires MovesInside(a[..], dst, src, count)
      modifies a
      ensures a[..] == Move(old(a[..]), dst, src, count)
    {
      forall i | dst <= i < dst + count {
        a[i] := a[src + i - dst];
      }
    }

    method ShiftStorage(lo: int, hi: int, n: int)
      requires 0 <= lo <= hi <= recs.Length
      modifies recs
      ensures recs[..] == Shifted(old(recs[..]), lo, hi, n)
    {
      var i := lo;
      while i < hi
        invariant lo <= i <= hi && recs[..] == Shifted(old(recs[..]), lo, i, n)
      {
        if recs[i].charStorage >= 0 {
          recs[i] := recs[i].(charStorage := recs[i].charStorage + n);
        }
        i := i + 1;
      }
    }

    method FlushRedo()
      requires Buffered()
      modifies this`redoPoint, this`redoCharPoint, this`redos
      ensures Buffered() && redos == []
    {
      FlushRedoHolds(View(), undos);
      redoPoint := STATE_COUNT;
      redoCharPoint := CHAR_COUNT;
      redos := [];
    }

    /** Frees the characters that the oldest undo record saves. */
    method FreeUndoChars()
      requires Shaped(View()) && 0 < undoPoint && 0 <= recs[0].insertLength <= undoCharPoint
      modifies this`undoCharPoint, recs, chars
      ensures View() == UndoBuffer.FreeUndoChars(old(View()))
    {
      hide Shifted, Move;
      if recs[0].charStorage >= 0 {
        var n := recs[0].insertLength;
        undoCharPoint := undoCharPoint - n;
        MemMove(chars, 0, n, undoCharPoint);
        ShiftStorage(0, undoPoint, -n);
      }
    }

    /** Discards the oldest undo record, if there is any. */
    method DiscardUndo()
      requires Buffered()
      modifies this`undoPoint, this`undoCharPoint, this`undos, recs, chars
      ensures Buffered() && undos == if old(undos) == [] then [] else old(undos)[1..]
    {
      hide Records, Flat, Shifted, Move, UndoBuffer.FreeUndoChars;
      if undoPoint > 0 {
        ghost var b := View();
        DiscardUndoHolds(b, undos, redos);
        OldestUndo(b, undos);
        FreeUndoChars();
        undoPoint := undoPoint - 1;
        MemMove(recs, 0, 1, undoPoint);
        undos := undos[1..];
        assert View() == UndoBuffer.DiscardUndo(b);
      }
    }

    /** Frees the characters that the oldest redo record saves. */
    method FreeRedoChars()
      requires Shaped(View()) && redoPoint < STATE_COUNT
      requires var n := recs[STATE_COUNT - 1].insertLength;
               0 <= n && redoCharPoint + n <= CHAR_COUNT
      modifies this`redoCharPoint, recs, chars
      ensures View() == UndoBuffer.FreeRedoChars(old(View()))
    {
      hide Shifted, Move;
      var k := STATE_COUNT - 1;
      if recs[k].charStorage >= 0 {
        var n := recs[k].insertLength;
        redoCharPoint := redoCharPoint + n;
        assert redoCharPoint - n == old(redoCharPoint) && redoCharPoint == old(redoCharPoint) + n;
        MemMove(chars, redoCharPoint, redoCharPoint - n, CHAR_COUNT - redoCharPoint);
        ShiftStorage(redoPoint, k, n);
      }
    }

    /** Discards the oldest redo record, if there is any. Only the redo side has to be in order. */
    method DiscardRedo()
      requires HoldsRedos(View(), redos)
      modifies this`redoPoint, this`redoCharPoint, this`redos, recs, chars
      ensures HoldsRedos(View(), redos) && redos == if old(redos) == [] then [] else old(redos)[..|old(redos)| - 1]
      ensures View() == UndoBuffer.DiscardRedo(old(View()))
    {
      hide Records, Flat, Shifted, Move, UndoBuffer.FreeRedoChars;
      if redoPoint <= STATE_COUNT - 1 {
        ghost var b := View();
        DiscardRedoHolds(b, redos);
        OldestRedo(b, redos);
        FreeRedoChars();
        MemMove(recs, redoPoint + 1, redoPoint, STATE_COUNT - redoPoint - 1);
        redoPoint := redoPoint + 1;
        redos := redos[..|redos| - 1];
        assert View() == UndoBuffer.DiscardRedo(b);
      }
    }

    /** Makes room for a record that saves `numChars` characters, by discarding redo and the oldest undos. */
    method CreateUndoRecord(numChars: nat) returns (ok: bool)
      requires Buffered()
      modifies this`undoPoint, this`undoCharPoint, this`undos, this`redoPoint, this`redoCharPoint, this`redos, recs,
               chars
      ensures Buffered() && redos == [] && ok == (numChars <= CHAR_COUNT)
      ensures if ok then undos == H.Newest(old(undos), numChars) else undos == []
      ensures ok ==> |undos| < STATE_COUNT && |Flat(undos)| + numChars <= CHAR_COUNT
      ensures |old(undos)| < STATE_COUNT && |Flat(old(undos))| + numChars <= CHAR_COUNT ==> undos == old(undos)
    {
      hide Records, Flat;
      FlatEmpty();
      FlushRedo();
      if undoPoint == STATE_COUNT {
        DiscardUndo();
      }
      if numChars > CHAR_COUNT {
        undoPoint := 0;
        undoCharPoint := 0;
        undos := [];
        NothingHeld(View());
        return false;
      }
      while undoCharPoint + numChars > CHAR_COUNT
        invariant Buffered() && redos == [] && |undos| < STATE_COUNT
        invariant H.Newest(undos, numChars) == H.Newest(old(undos), numChars)
        decreases undoPoint
      {
        SomethingHeld(View(), undos);
        DiscardUndo();
      }
      return true;
    }

    /** Saves `n` characters of the text from position `at` of the character array on. */
    method SaveChars(at: int, where: int, n: int)
      requires 0 <= at && 0 <= n && at + n <= chars.Length && 0 <= where && where + n <= |text|
      modifies chars
      ensures chars[..] == Written(old(chars[..]), at, text[where..where + n])
    {
      var i := 0;
      while i < n
        invariant 0 <= i <= n
        invariant forall k :: 0 <= k < chars.Length ==>
                    chars[k] == if at <= k < at + i then text[where + k - at] else old(chars[k])
      {
        chars[at + i] := text[where + i];
        i := i + 1;
      }
    }

    /** Writes the next undo record, and saves the characters it replaces. */
    method WriteUndo(where: int, oldLength: int, newLength: int, ghost e: Edit)
      requires 0 <= where && 0 <= oldLength && 0 <= newLength && where + oldLength <= |text|
      requires e == Edit(where, text[where..where + oldLength], newLength) && RoomFor(View(), e)
      modifies this`undoPoint, this`undoCharPoint, recs, chars
      ensures View() == PushUndo(old(View()), e)
    {
      hide Written;
      if oldLength == 0 {
        recs[undoPoint] := Record(where, 0, newLength, -1);
        undoPoint := undoPoint + 1;
        assert Written(chars[..], undoCharPoint, e.ins) == chars[..] by { WrittenNothing(chars[..], undoCharPoint); }
      } else {
        var at := undoCharPoint;
        recs[undoPoint] := Record(where, oldLength, newLength, at);
        undoPoint := undoPoint + 1;
        undoCharPoint := undoCharPoint + oldLength;
        SaveChars(at, where, oldLength);
      }
    }

    /** Records an edit of the `oldLength` characters at `where`, which are about to become `newLength` others. */
    method MakeUndo(where: int, oldLength: int, newLength: int)
      requires Buffered() && 0 <= where && 0 <= oldLength && 0 <= newLength && where + oldLength <= |text|
      modifies this`undoPoint, this`undoCharPoint, this`undos, this`redoPoint, this`redoCharPoint, this`redos, recs,
               chars
      ensures Buffered() && redos == []
      ensures undos == if oldLength > CHAR_COUNT then []
                       else H.Newest(old(undos), oldLength) + [Edit(where, text[where..where + oldLength], newLength)]
    {
      hide View, Records, Flat, H.Newest, PushUndo;
      FlatEmpty();
      var ok := CreateUndoRecord(oldLength);
      if !ok {
        return;
      }
      ghost var b, e := View(), Edit(where, text[where..where + oldLength], newLength);
      WriteUndo(where, oldLength, newLength, e);
      PushUndoHolds(b, undos, [], e);
      undos := undos + [e];
    }

    method WriteRecord(i: int, r: Record)
      requires 0 <= i < recs.Length
      modifies recs
      ensures View() == old(View()).(recs := old(View()).recs[i := r])
    {
      recs[i] := r;
    }

    // ----- Undo and redo -----

    lemma EmptyUndo()
      requires Valid()
      ensures undoPoint == |undos| && redoPoint == STATE_COUNT - |redos| && undoPoint <= redoPoint
              && recs.Length == STATE_COUNT
    {
    }

    /** The newest edit of `h` is off the undo stack, and the left-over record is in front of the redo stack. */
    static ghost predicate Moved(h: H.History, b: Buffer)
      requires h.undos != [] && H.Applies(h.undos[|h.undos| - 1], h.text)
    {
      && HoldsUndos(b, h.undos[..|h.undos| - 1])
      && 0 <= b.redoPoint < |b.recs| && Fields(b.recs[b.redoPoint]) == H.LeftRecord(h)
      && InFront(b.(redoPoint := b.redoPoint + 1), H.LeftOver(h, b.redoCharPoint), H.Saved(h), H.Kept(h))
    }

    /** The newest edit of `h` has been taken back, and the record left for redo is the one that `h` calls for. */
    ghost predicate TextUndone(h: H.History)
      requires h.undos != []
      reads this, recs, chars
    {
      var n := |h.undos| - 1;
      var u := h.undos[n];
      && H.Applies(u, h.text) && text == H.Apply(u, h.text) && cursor == u.where + |u.ins|
      && undos == h.undos[..n] && H.Undoable(undos, text) && Moved(h, View())
    }

    /** The left-over record is in front of the redo stack; with room that is the inverse of the undone edit. */
    static ghost predicate RecordIsLeft(h: H.History, b: Buffer, b': Buffer, redos': seq<Edit>)
      requires h.undos != [] && H.Applies(h.undos[|h.undos| - 1], h.text)
    {
      && Shaped(b') && 0 < b'.redoPoint && Below(b, b') && Fields(b'.recs[b'.redoPoint - 1]) == H.LeftRecord(h)
      && InFront(b', H.LeftOver(h, b'.redoCharPoint), H.Saved(h), H.Kept(h))
      && (H.HasRoom(h) ==> redos' == h.redos && SavedFor(b, H.Inverse(h.undos[|h.undos| - 1], h.text), b'))
    }

    /** Taking the undo record off after saving for redo: `b'` is the buffer in between. */
    static lemma Moves(h: H.History, capacity: nat, b: Buffer, b': Buffer, b'': Buffer, redos': seq<Edit>)
      requires H.Valid(h, capacity) && Holds(b, h.undos, h.redos) && h.undos != []
      requires H.Applies(h.undos[|h.undos| - 1], h.text) && RecordIsLeft(h, b, b', redos')
      requires b'.undoPoint == b.undoPoint && b'.undoCharPoint == b.undoCharPoint
      requires Shaped(b'') && b'' == b'.(undoPoint := b'.undoPoint - 1, redoPoint := b'.redoPoint - 1,
                                         undoCharPoint := b'.undoCharPoint - |h.undos[|h.undos| - 1].ins|)
      ensures Moved(h, b'')
      ensures H.HasRoom(h) ==>
                redos' == h.redos
                && Holds(b'', h.undos[..|h.undos| - 1], [H.Inverse(h.undos[|h.undos| - 1], h.text)] + h.redos)
    {
      hide HoldsUndos, HoldsRedos, SavedFor, H.Valid, H.Inverse, H.LeftRecord, H.HasRoom, H.LeftOver, H.Saved, H.Kept,
        InFront;
      UndosBelow(b, b'', h.undos);
      InFrontAfterTakeOff(b', H.LeftOver(h, b'.redoCharPoint), H.Saved(h), H.Kept(h), b''.(redoPoint := b'.redoPoint));
      if H.HasRoom(h) {
        SavedThenPopped(b, H.Inverse(h.undos[|h.undos| - 1], h.text), b', b'', h.undos, h.redos);
      }
    }

    /** Takes the undone record off the undo stack; the redo record in front of the redo stack joins it. */
    method TakeOff(u: Record)
      requires 0 < undoPoint && 0 < redoPoint && Shaped(View()) && 0 <= u.insertLength <= undoCharPoint
      modifies this`cursor, this`undoPoint, this`redoPoint, this`undoCharPoint
      ensures View() == old(View()).(undoPoint := old(undoPoint) - 1, redoPoint := old(redoPoint) - 1,
                                     undoCharPoint := old(undoCharPoint) - u.insertLength)
      ensures Shaped(View()) && cursor == u.where + u.insertLength
    {
      undoCharPoint := undoCharPoint - u.insertLength;
      cursor := u.where + u.insertLength;
      undoPoint := undoPoint - 1;
      redoPoint := redoPoint - 1;
    }

    static lemma LeftReads(h: H.History, b: Buffer, b': Buffer, redos': seq<Edit>, at: int)
      requires h.undos != [] && H.Applies(h.undos[|h.undos| - 1], h.text) && RecordIsLeft(h, b, b', redos')
      requires 0 <= at <= b.undoCharPoint
      ensures Shaped(b') && 0 < b'.redoPoint && |b'.chars| == |b.chars| && b.undoCharPoint <= |b.chars|
      ensures b'.chars[at..b.undoCharPoint] == b.chars[at..b.undoCharPoint]
    {
      assert b'.chars[at..b.undoCharPoint] == b'.chars[..b.undoCharPoint][at..];
      assert b.chars[at..b.undoCharPoint] == b.chars[..b.undoCharPoint][at..];
    }

    /** Carries out an edit that the host's buffer is known to have room for. */
    method ReplaceText(where: int, del: int, ins: string)
      requires 0 <= where && 0 <= del && where + del <= |text| && |text| - del + |ins| <= capacity
      modifies this`text, this`capacity
      ensures text == H.Splice(old(text), where, del, ins) && capacity == old(capacity)
    {
      H.DeleteThenInsert(text, where, del, ins);
      if del != 0 {
        DeleteChars(where, del);
      }
      if |ins| != 0 {
        var ok := InsertChars(where, ins);
      }
    }

    /** Carries out on the text the edit `e` that record `r` stands for. */
    method ReplayRecord(r: Record, ghost e: Edit)
      requires Fields(r) == (e.where, |e.ins|, e.del) && H.Applies(e, text) && |H.Apply(e, text)| <= capacity
      requires e.ins != "" ==>
                 && 0 <= r.charStorage && r.charStorage + |e.ins| <= chars.Length
                 && View().chars[r.charStorage..r.charStorage + |e.ins|] == e.ins
      modifies this`text, this`capacity
      ensures text == H.Apply(e, old(text)) && capacity == old(capacity)
    {
      var s := if r.insertLength != 0 then chars[r.charStorage..r.charStorage + r.insertLength] else "";
      assert s == e.ins;
      ReplaceText(r.where, r.deleteLength, s);
    }

    /** The three ways in which the characters that undo deletes are saved for redo: as they are, not at all
        for lack of room, or after redo records have been discarded. */
    static ghost predicate DeletionIsSaved(b: Buffer, e: Edit, redos: seq<Edit>, b': Buffer, redos': seq<Edit>) {
      && 0 < b'.redoPoint <= |b'.recs|
      && var n, left := b.undoCharPoint + |e.ins|, b'.recs[b'.redoPoint - 1];
         && (n < CHAR_COUNT && n <= b.redoCharPoint ==>
              redos' == redos && SavedFor(b, e, b') && Fields(left) == (e.where, |e.ins|, e.del))
         && (n >= CHAR_COUNT ==>
              Fields(left) == (e.where, 0, e.del) && InFront(b', Record(e.where, 0, e.del, -1), "", redos))
         && (n < CHAR_COUNT ==>
              left.charStorage == b'.redoCharPoint
              && InFront(b', left, e.ins, Nearest(redos, b.undoCharPoint, |e.ins|)))
         && (n < CHAR_COUNT && n > b.redoCharPoint ==>
              redos != [] && Fields(left) == var r := redos[0]; (r.where, |r.ins|, r.del))
    }

    static lemma DeletionLeavesRecord(h: H.History, capacity: nat, b: Buffer, b': Buffer, redos': seq<Edit>)
      requires H.Valid(h, capacity) && Holds(b, h.undos, h.redos) && h.undos != [] && h.undos[|h.undos| - 1].del != 0
      requires H.Applies(h.undos[|h.undos| - 1], h.text) && Shaped(b') && Below(b, b')
      requires DeletionIsSaved(b, H.Inverse(h.undos[|h.undos| - 1], h.text), h.redos, b', redos')
      ensures RecordIsLeft(h, b, b', redos')
    {
      hide H.Valid, InFront, SavedFor, Below, Nearest, Records, Flat, H.Splice;
    }

    static lemma HeldCounts(b: Buffer, undos: seq<Edit>, redos: seq<Edit>)
      requires Holds(b, undos, redos)
      ensures Shaped(b) && b.undoPoint == |undos|
    {
    }

    static lemma InsertionLeavesRecord(h: H.History, capacity: nat, b: Buffer, b': Buffer)
      requires H.Valid(h, capacity) && Holds(b, h.undos, h.redos) && h.undos != [] && h.undos[|h.undos| - 1].del == 0
      requires H.Applies(h.undos[|h.undos| - 1], h.text)
      requires var u := h.undos[|h.undos| - 1];
               b' == b.(recs := b.recs[b.redoPoint - 1 := Record(u.where, 0, |u.ins|, -1)])
      ensures RecordIsLeft(h, b, b', h.redos)
    {
      hide H.Valid, HoldsUndos, InFront, SavedFor, Below, Records, Flat, H.Splice, Written;
      var u := h.undos[|h.undos| - 1];
      HeldCounts(b, h.undos, h.redos);
      SavedForInsertion(b, H.Inverse(u, h.text), b');
      WrittenInFront(b, Record(u.where, 0, |u.ins|, -1), b', h.redos);
    }

    /** Stores `n` characters of the text in front of the saved redo characters. */
    method StoreForRedo(where: int, n: int)
      requires Shaped(View()) && 0 < redoPoint && 0 <= n <= redoCharPoint && 0 <= where && where + n <= |text|
      modifies this`redoCharPoint, recs, chars
      ensures var b := old(View());
              var p, at := b.redoPoint - 1, b.redoCharPoint - n;
              View() == b.(recs := b.recs[p := b.recs[p].(charStorage := at)],
                           chars := Written(b.chars, at, text[where..where + n]), redoCharPoint := at)
    {
      WriteRecord(redoPoint - 1, recs[redoPoint - 1].(charStorage := redoCharPoint - n));
      redoCharPoint := redoCharPoint - n;
      SaveChars(redoCharPoint, where, n);
    }

    /** Discards redo records until `n` more characters fit in front of the saved redo characters. */
    method MakeRedoRoom(n: int)
      requires HoldsRedos(View(), redos) && 0 < n && undoCharPoint + n < CHAR_COUNT
      modifies this`redos, this`redoPoint, this`redoCharPoint, recs, chars
      ensures Shaped(View()) && HoldsRedos(View(), redos) && undoCharPoint + n <= redoCharPoint
      ensures redos == Nearest(old(redos), undoCharPoint, n)
      ensures View().recs[..old(redoPoint)] == old(View()).recs[..old(redoPoint)]
      ensures View().chars[..old(redoCharPoint)] == old(View()).chars[..old(redoCharPoint)]
      ensures old(undoCharPoint + n <= redoCharPoint) ==> View() == old(View()) && redos == old(redos)
      ensures old(undoCharPoint + n > redoCharPoint) ==>
                && old(redos) != [] && old(redoPoint) < redoPoint
                && Fields(View().recs[redoPoint - 1]) == var e := old(redos)[0]; (e.where, |e.ins|, e.del)
    {
      hide Records, Flat, View, UndoBuffer.DiscardRedo;
      ghost var b := View();
      while undoCharPoint + n > redoCharPoint
        invariant HoldsRedos(View(), redos) && b.redoPoint <= redoPoint && b.redoCharPoint <= redoCharPoint
        invariant View().recs[..b.redoPoint] == b.recs[..b.redoPoint]
        invariant View().chars[..b.redoCharPoint] == b.chars[..b.redoCharPoint]
        invariant redoPoint == b.redoPoint ==> View() == b && redos == old(redos)
        invariant redoPoint > b.redoPoint ==>
                    && old(redos) != []
                    && Fields(View().recs[redoPoint - 1]) == var e := old(redos)[0]; (e.where, |e.ins|, e.del)
        invariant redos == old(redos)[..|redos|]
                  && Nearest(redos, undoCharPoint, n) == Nearest(old(redos), undoCharPoint, n)
        invariant b.redoPoint < redoPoint ==> old(undoCharPoint + n > redoCharPoint)
        decreases STATE_COUNT - redoPoint
      {
        if redoPoint == STATE_COUNT {
          FlatEmpty();
          assert false;
        }
        DiscardRedoHolds(View(), redos);
        DiscardRedoLeaves(View(), redos);
        DiscardRedo();
      }
    }

    /** Writes the redo record for an undo record that deletes characters, and saves those if it can. */
    method SaveDeleted(u: Record, ghost e: Edit)
      requires Shaped(View()) && HoldsRedos(View(), redos) && 0 < u.deleteLength && 0 < undoPoint
      requires Fields(u) == (e.where, e.del, |e.ins|) && 0 <= e.where && e.where + |e.ins| <= |text|
      requires e.ins == text[e.where..e.where + |e.ins|]
      modifies this`redos, this`redoPoint, this`redoCharPoint, recs, chars
      ensures Shaped(View()) && Below(old(View()), View())
      ensures DeletionIsSaved(old(View()), e, old(redos), View(), redos)
    {
      ghost var b, r := View(), Record(u.where, u.deleteLength, u.insertLength, -1);
      hide View, HoldsRedos, SavedFor, Below, Written, InFront, Flat, Nearest, Records;
      WriteRecord(redoPoint - 1, Record(u.where, u.deleteLength, u.insertLength, -1));
      if undoCharPoint + u.deleteLength >= CHAR_COUNT {
        WriteRecord(redoPoint - 1, Record(u.where, 0, u.insertLength, -1));
        BelowWritten(b, r, Record(u.where, 0, u.insertLength, -1), View());
        WrittenTwice(b, r, Record(u.where, 0, u.insertLength, -1), redos);
      } else {
        ghost var b1 := View();
        RedosAfterWrite(b, r, b1, redos);
        MakeRedoRoom(u.deleteLength);
        ghost var b2 := View();
        StoreForRedo(u.where, u.deleteLength);
        DeletionSaved(b, e, b1, b2, View());
        StoredInFront(b2, e.ins, View(), redos);
      }
    }

    lemma NextSaves(h: H.History, capacity: nat, b: Buffer)
      requires H.Valid(h, capacity) && Holds(b, h.undos, h.redos) && h.undos != []
      ensures var n := |h.undos| - 1;
              var u := h.undos[n];
              && H.Applies(u, h.text)
              && var e := H.Inverse(u, h.text);
              && Fields(b.recs[n]) == (u.where, |u.ins|, u.del) && b.undoCharPoint == |Flat(h.undos)|
              && b.redoCharPoint == CHAR_COUNT - |Flat(h.redos)| && b.undoCharPoint <= b.redoCharPoint
              && 0 < b.undoPoint <= b.redoPoint && b.undoPoint == |h.undos| && b.redoPoint <= STATE_COUNT == |b.recs|
                && |b.chars| == CHAR_COUNT
              && e.where == u.where && e.ins == h.text[u.where..u.where + u.del] && e.del == |u.ins|
    {
      TopUndo(b, h.undos);
      H.NextUndo(h, capacity);
    }

    /** Writes the redo record for the undo record `u`, and saves the characters that undoing it deletes. */
    method SaveForRedo(u: Record)
      requires Valid() && undos != [] && u == recs[undoPoint - 1]
      modifies this`redos, this`redoPoint, this`redoCharPoint, recs, chars
      ensures RecordIsLeft(old(Past()), old(View()), View(), redos)
    {
      ghost var h, b := Past(), View();
      NextSaves(h, capacity, b);
      ghost var e := H.Inverse(undos[|undos| - 1], text);
      hide HoldsUndos, HoldsRedos, H.Valid, H.Inverse, H.Applies, Flat, Written, SavedFor;
      assert u == b.recs[undoPoint - 1];
      hide View, Below, DeletionIsSaved, InFront, RecordIsLeft;
      if u.deleteLength != 0 {
        SaveDeleted(u, e);
        DeletionLeavesRecord(h, capacity, b, View(), redos);
      } else {
        WriteRecord(redoPoint - 1, Record(u.where, u.deleteLength, u.insertLength, -1));
        InsertionLeavesRecord(h, capacity, b, View());
      }
    }

    /** Carries out the undo record `u` on the text and the arrays. */
    method UndoRecord(u: Record)
      requires Valid() && undos != [] && u == recs[undoPoint - 1]
      modifies this`text, this`capacity, this`cursor, this`undos, this`redos, recs, chars
      modifies this`undoPoint, this`redoPoint, this`undoCharPoint, this`redoCharPoint
      ensures TextUndone(old(Past())) && capacity == old(capacity)
      ensures H.HasRoom(old(Past())) ==> Buffered() && Past() == H.Undone(old(Past()))
    {
      hide View, HoldsUndos, HoldsRedos, SavedFor, H.Valid, H.Splice, H.LeftRecord, H.HasRoom, Flat;
      hide InFront, Moved, H.LeftOver, H.Saved, H.Kept, RecordIsLeft;
      ghost var h, b, n := Past(), View(), |undos| - 1;
      ghost var e := undos[n];
      ViewAt(undoPoint - 1);
      TopUndo(b, undos);
      NextSaves(h, capacity, b);
      H.NextUndo(h, capacity);
      SaveForRedo(u);
      hide H.Inverse;
      ghost var b' := View();
      LeftReads(h, b, b', redos, undoCharPoint - |e.ins|);
      ReplayRecord(u, e);
      undos := undos[..n];
      TakeOff(u);
      Moves(h, capacity, b, b', View(), redos);
      if H.HasRoom(h) {
        redos := [H.Inverse(e, h.text)] + redos;
      }
    }

    /** Takes back the newest edit, and saves what redo will need. */
    lemma TextIsUndone(h: H.History)
      requires h.undos != [] && TextUndone(h)
      ensures undos == h.undos[..|h.undos| - 1] && cursor == var u := h.undos[|h.undos| - 1]; u.where + |u.ins|
    {
    }

    method Undo()
      requires Valid()
      modifies this`text, this`capacity, this`cursor, this`undos, this`redos, recs, chars
      modifies this`undoPoint, this`redoPoint, this`undoCharPoint, this`redoCharPoint
      ensures old(undos) == [] ==> View() == old(View()) && Past() == old(Past()) && cursor == old(cursor) && Valid()
      ensures old(undos) != [] ==> TextUndone(old(Past()))
      ensures old(undos) != [] ==>
                && undos == old(undos)[..|old(undos)| - 1]
                && cursor == var u := old(undos)[|old(undos)| - 1]; u.where + |u.ins|
      ensures capacity == old(capacity)
      ensures old(undos) != [] && H.HasRoom(old(Past())) ==> Valid() && Past() == H.Undone(old(Past()))
    {
      hide TextUndone, HoldsUndos, HoldsRedos, H.Valid, H.HasRoom, H.Undone;
      ghost var h := Past();
      EmptyUndo();
      if undoPoint == 0 {
        return;
      }
      UndoRecord(recs[undoPoint - 1]);
      assert cursor == var u := h.undos[|h.undos| - 1]; u.where + |u.ins| by { TextIsUndone(h); }
      assert undos == h.undos[..|h.undos| - 1] by { TextIsUndone(h); }
      if H.HasRoom(h) {
        H.UndoneVersions(h, capacity);
      }
    }

    /** The record left over is the one of the left-over edit, whose characters it finds in the array; so
        replaying it does to the text what that edit does. */
    static lemma LeftOverIsEdit(h: H.History, b: Buffer)
      requires h.undos != [] && H.Applies(h.undos[|h.undos| - 1], h.text) && Moved(h, b) && H.LeftEdit(h).Some?
      ensures 0 <= b.redoPoint < |b.recs|
      ensures var e, r := H.LeftEdit(h).value, b.recs[b.redoPoint];
              && Fields(r) == (e.where, |e.ins|, e.del)
              && (e.ins != "" ==> 0 <= r.charStorage && r.charStorage + |e.ins| <= |b.chars|
                                  && b.chars[r.charStorage..r.charStorage + |e.ins|] == e.ins)
    {
      hide HoldsUndos, HoldsRedos, Nearest, Flat;
      ReadsOn(b.(redoPoint := b.redoPoint + 1), H.LeftOver(h, b.redoCharPoint), H.Saved(h), H.Kept(h),
        |H.LeftEdit(h).value.ins|);
    }

    static lemma LeftShape(h: H.History, b: Buffer)
      requires h.undos != [] && H.Applies(h.undos[|h.undos| - 1], h.text) && Moved(h, b)
      ensures Shaped(b) && b.undoPoint == |h.undos| - 1 < STATE_COUNT && b.redoPoint < STATE_COUNT
      ensures 0 <= b.undoCharPoint && 0 <= b.redoCharPoint <= CHAR_COUNT == |b.chars|
      ensures H.LeftEdit(h).Some? ==> b.redoCharPoint + |H.LeftEdit(h).value.ins| <= CHAR_COUNT
      ensures H.LeftEdit(h).Some? && H.LeftEdit(h).value.ins != "" ==>
                b.recs[b.redoPoint].charStorage == b.redoCharPoint
    {
      hide Flat, Nearest, Records;
    }

    static lemma InverseIs(e: Edit, t: string)
      requires H.Applies(e, t)
      ensures var inv := H.Inverse(e, t);
              inv.where == e.where && inv.ins == t[e.where..e.where + e.del] && |inv.ins| == e.del && inv.del == |e.ins|
    {
    }

    /** With room for what the left-over record deletes, redoing it adds to the undo stack. */
    static lemma LeftOverRedone(h: H.History, b: Buffer, inv: Edit, b1: Buffer, b2: Buffer)
      requires h.undos != [] && H.Applies(h.undos[|h.undos| - 1], h.text) && Moved(h, b) && H.LeftEdit(h).Some?
      requires SavedForUndo(b, inv, b1)
      requires b2 == b1.(undoPoint := b1.undoPoint + 1, redoPoint := b1.redoPoint + 1,
                         redoCharPoint := b1.redoCharPoint + |H.LeftEdit(h).value.ins|)
      ensures HoldsUndos(b2, h.undos[..|h.undos| - 1] + [inv])
      ensures |H.LeftEdit(h).value.ins| == |H.Saved(h)| ==> HoldsRedos(b2, H.Kept(h))
    {
      hide HoldsUndos, HoldsRedos, InFront, H.LeftOver, H.Saved, H.Kept, H.LeftEdit, Written;
      LeftShape(h, b);
      assert Shaped(b2);
      PushedUndos(b, h.undos[..|h.undos| - 1], inv, b1, b2);
      if |H.LeftEdit(h).value.ins| == |H.Saved(h)| {
        KeptRedos(b, H.LeftOver(h, b.redoCharPoint), H.Saved(h), H.Kept(h), inv, b1, b2);
      }
    }

    /** What the undone edit had saved makes room for what a record of equal length deletes. */
    static lemma LeftRoom(h: H.History, capacity: nat, b: Buffer)
      requires H.Valid(h, capacity) && h.undos != [] && H.Applies(h.undos[|h.undos| - 1], h.text) && Moved(h, b)
      ensures b.undoCharPoint + |h.undos[|h.undos| - 1].ins| <= b.redoCharPoint
    {
      hide H.Valid, Records, Flat, H.Kept, H.Saved, H.LeftOver;
      H.KeptRoom(h, capacity);
      FlatLast(h.undos);
    }

    /** Moves the points and the cursor past a redo record. */
    method MoveOn(r: Record)
      modifies this`cursor, this`undoPoint, this`redoPoint, this`redoCharPoint
      ensures View() == old(View()).(undoPoint := old(undoPoint) + 1, redoPoint := old(redoPoint) + 1,
                                     redoCharPoint := old(redoCharPoint) + r.insertLength)
      ensures cursor == r.where + r.insertLength
    {
      redoCharPoint := redoCharPoint + r.insertLength;
      cursor := r.where + r.insertLength;
      undoPoint := undoPoint + 1;
      redoPoint := redoPoint + 1;
    }

    /** Takes the redone record off the redo stack; the undo record behind the undo stack joins it. */
    method TakeOffRedo(r: Record, ghost b: Buffer, ghost e: Edit)
      requires SavedForUndo(b, e, View()) && Holds(b, undos, redos) && redos != [] && r.insertLength == |redos[0].ins|
      modifies this`cursor, this`undoPoint, this`redoPoint, this`redoCharPoint, this`undos, this`redos
      ensures Buffered() && undos == old(undos) + [e] && redos == old(redos)[1..]
      ensures cursor == r.where + r.insertLength
    {
      hide HoldsUndos, HoldsRedos, SavedForUndo;
      ghost var b' := View();
      MoveOn(r);
      SavedThenPoppedRedo(b, e, b', View(), undos, redos);
      undos, redos := undos + [e], redos[1..];
    }

    static lemma Tail(s: string, t: string, lo: int, mid: int)
      requires 0 <= lo <= |s| && lo <= |t| && s[lo..] == t[lo..]
      ensures lo <= mid <= |s| ==> mid <= |t| && s[lo..mid] == t[lo..mid]
    {
      assert |s[lo..]| == |t[lo..]|;
      if lo <= mid <= |s| {
        assert s[lo..mid] == s[lo..][..mid - lo] && t[lo..mid] == t[lo..][..mid - lo];
      }
    }

    /** Stores `n` characters of the text behind the saved undo characters. */
    method StoreForUndo(where: int, n: int)
      requires |View().recs| == STATE_COUNT && |View().chars| == CHAR_COUNT && 0 <= undoPoint < STATE_COUNT
      requires 0 <= n && 0 <= undoCharPoint && undoCharPoint + n <= CHAR_COUNT && 0 <= where && where + n <= |text|
      modifies this`undoCharPoint, recs, chars
      ensures var b := old(View());
              var p, at := b.undoPoint, b.undoCharPoint;
              View() == b.(recs := b.recs[p := b.recs[p].(charStorage := at)],
                           chars := Written(b.chars, at, text[where..where + n]), undoCharPoint := at + n)
    {
      WriteRecord(undoPoint, recs[undoPoint].(charStorage := undoCharPoint));
      undoCharPoint := undoCharPoint + n;
      SaveChars(undoCharPoint - n, where, n);
    }

    /** Writes the undo record for the redo record `r`, and saves the characters that redoing deletes, those of
        `e`; without room for them the undo record says nothing. */
    method SaveUndoRecord(r: Record, ghost e: Edit)
      requires Shaped(View()) && undoPoint < STATE_COUNT
      requires Fields(r) == (e.where, e.del, |e.ins|) && 0 <= e.where && e.where + |e.ins| <= |text|
      requires e.ins == text[e.where..e.where + |e.ins|]
      modifies this`undoCharPoint, recs, chars
      ensures old(undoCharPoint) + |e.ins| <= redoCharPoint ==> SavedForUndo(old(View()), e, View())
      ensures old(undoCharPoint) + |e.ins| > redoCharPoint ==>
                View() == old(View()).(recs := old(View()).recs[undoPoint := Record(r.where, 0, 0, -1)])
      ensures Shaped(View()) && View().chars[redoCharPoint..] == old(View()).chars[redoCharPoint..]
    {
      hide View, Written, SavedForUndo;
      ghost var b := View();
      WriteRecord(undoPoint, Record(r.where, r.deleteLength, r.insertLength, -1));
      if r.deleteLength != 0 {
        if undoCharPoint + r.deleteLength > redoCharPoint {
          WriteRecord(undoPoint, Record(r.where, 0, 0, -1));
          assert View().recs == b.recs[undoPoint := Record(r.where, 0, 0, -1)];
        } else {
          ghost var b1 := View();
          StoreForUndo(r.where, r.deleteLength);
          SavedOnUndoDeletion(b, e, b1, View());
        }
      } else {
        SavedOnUndoInsertion(b, e, View());
      }
    }

    lemma NextSavesForUndo(h: H.History, capacity: nat, b: Buffer)
      requires H.Valid(h, capacity) && Holds(b, h.undos, h.redos) && h.redos != []
      ensures var r := h.redos[0];
              && H.Applies(r, h.text) && |H.Apply(r, h.text)| <= capacity
              && var e := H.Inverse(r, h.text);
              && Shaped(b) && b.redoPoint < STATE_COUNT && b.undoCharPoint + r.del <= b.redoCharPoint
              && b.redoCharPoint + |r.ins| <= CHAR_COUNT
              && e.where == r.where && e.ins == h.text[r.where..r.where + r.del] && e.del == |r.ins|
              && Fields(b.recs[b.redoPoint]) == (r.where, |r.ins|, r.del)
              && b.recs[b.redoPoint] == RecordOf(r, b.redoCharPoint)
              && b.chars[b.redoCharPoint..b.redoCharPoint + |r.ins|] == r.ins
    {
      TopRedo(b, h.redos);
      H.NextRedo(h, capacity);
      H.NextRedoFits(h, capacity);
    }

    /** Redo after an undo without room: carries out the left-over edit, if it fits the text. It brings the text
        back exactly when `H.Restores` says so; the undo stack is in order when there is room for what is deleted;
        and when as many characters are read as were saved the field is as valid as before. */
    method RedoLeftOver(ghost h: H.History)
      requires H.Valid(h, capacity) && h.undos != [] && TextUndone(h) && H.LeftEdit(h).Some?
      requires H.Applies(H.LeftEdit(h).value, text) && |H.Apply(H.LeftEdit(h).value, text)| <= capacity
      modifies this`text, this`capacity, this`cursor, this`undos, this`redos, recs, chars
      modifies this`undoPoint, this`redoPoint, this`undoCharPoint, this`redoCharPoint
      ensures var e := H.LeftEdit(h).value;
              && text == H.Apply(e, old(text)) && cursor == e.where + |e.ins| && capacity == old(capacity)
              && (old(undoCharPoint) + e.del <= old(redoCharPoint) ==>
                   Past() == H.Resumed(h) && HoldsUndos(View(), undos))
      ensures H.Restores(h) <==> text == h.text
      ensures H.Restores(h) && |H.LeftEdit(h).value.ins| == |H.Saved(h)| ==> Valid() && Past() == H.Resumed(h)
    {
      hide View, HoldsUndos, HoldsRedos, Moved, H.Valid, H.Splice, H.Inverse, H.LeftEdit, SavedForUndo, Flat, Shaped;
      ghost var b, e := View(), H.LeftEdit(h).value;
      ghost var t, n := text, |h.undos| - 1;
      ghost var inv := H.Inverse(e, text);
      LeftOverIsEdit(h, b);
      LeftShape(h, b);
      H.ResumedVersions(h, capacity);
      InverseIs(e, text);
      ViewAt(redoPoint);
      var r := recs[redoPoint];
      SaveUndoRecord(r, inv);
      ghost var b1 := View();
      Tail(b1.chars, b.chars, redoCharPoint, redoCharPoint + |e.ins|);
      ReplayRecord(r, e);
      MoveOn(r);
      undos, redos := undos + [inv], H.Kept(h);
      if b.undoCharPoint + e.del <= b.redoCharPoint {
        LeftOverRedone(h, b, inv, b1, View());
      }
      if H.Restores(h) && |e.ins| == |H.Saved(h)| {
        LeftRoom(h, capacity, b);
      }
    }

    /** Writes the undo record for the redo record `r`, and saves the characters that redoing it deletes:
        there always is room for them. */
    method SaveForUndo(r: Record)
      requires Valid() && redos != [] && redoPoint < recs.Length && r == recs[redoPoint]
      modifies this`undoCharPoint, recs, chars
      ensures SavedForUndo(old(View()), H.Inverse(redos[0], text), View())
      ensures Shaped(View()) && View().chars[redoCharPoint..] == old(View()).chars[redoCharPoint..]
    {
      ghost var h, b, e := Past(), View(), redos[0];
      ghost var inv := H.Inverse(e, h.text);
      NextSavesForUndo(h, capacity, b);
      assert r == b.recs[redoPoint];
      SaveUndoRecord(r, inv);
    }

    /** Carries out the redo record `r` on the text and the arrays. */
    method RedoRecord(r: Record)
      requires Valid() && redos != [] && redoPoint < recs.Length && r == recs[redoPoint]
      modifies this`text, this`capacity, this`cursor, this`undos, this`redos, recs, chars
      modifies this`undoPoint, this`redoPoint, this`undoCharPoint, this`redoCharPoint
      ensures Buffered() && Past() == H.Redone(old(Past())) && capacity == old(capacity)
      ensures cursor == var e := old(redos)[0]; e.where + |e.ins|
    {
      hide View, HoldsUndos, HoldsRedos, H.Valid, H.Inverse, H.Applies, H.Splice, SavedForUndo, Flat, Shaped;
      ghost var h, b, e := Past(), View(), redos[0];
      ViewAt(redoPoint);
      NextSavesForUndo(h, capacity, b);
      ghost var inv := H.Inverse(e, h.text);
      SaveForUndo(r);
      Tail(View().chars, b.chars, redoCharPoint, redoCharPoint + |e.ins|);
      ReplayRecord(r, e);
      TakeOffRedo(r, b, inv);
    }

    /** Brings the next undone edit back. */
    method Redo()
      requires Valid()
      modifies this`text, this`capacity, this`cursor, this`undos, this`redos, recs, chars
      modifies this`undoPoint, this`redoPoint, this`undoCharPoint, this`redoCharPoint
      ensures Valid() && capacity == old(capacity)
      ensures old(redos) == [] ==> View() == old(View()) && Past() == old(Past()) && cursor == old(cursor)
      ensures old(redos) != [] ==>
                Past() == H.Redone(old(Past())) && cursor == var r := old(redos)[0]; r.where + |r.ins|
    {
      hide HoldsUndos, HoldsRedos, H.Valid, H.Redone;
      ghost var h := Past();
      EmptyUndo();
      if redoPoint == STATE_COUNT {
        return;
      }
      RedoRecord(recs[redoPoint]);
      H.RedoneVersions(h, capacity);
    }

    // ----- Edits -----

    lemma TextFits()
      requires Valid()
      ensures |text| <= capacity
    {
    }

    predicate HasSelection()
      reads this`selectStart, this`selectEnd
    {
      selectStart != selectEnd
    }

    static function Min(a: int, b: int): int { if a < b then a else b }

    /** Makes the selection and the cursor valid if the host has changed the text. */
    method Clamp()
      requires 0 <= cursor && 0 <= selectStart && 0 <= selectEnd
      modifies this`cursor, this`selectStart, this`selectEnd
      ensures 0 <= cursor <= |text|
      ensures HasSelection() ==> selectStart <= |text| && selectEnd <= |text|
      ensures old(HasSelection()) ==>
                selectStart == Min(old(selectStart), |text|) && selectEnd == Min(old(selectEnd), |text|)
      ensures !old(HasSelection()) ==> selectStart == old(selectStart) && selectEnd == old(selectEnd)
      ensures cursor == if old(HasSelection()) && !HasSelection() then selectStart else Min(old(cursor), |text|)
    {
      var n := |text|;
      if HasSelection() {
        if selectStart > n {
          selectStart := n;
        }
        if selectEnd > n {
          selectEnd := n;
        }
        if selectStart == selectEnd {
          cursor := selectStart;
        }
      }
      if cursor > n {
        cursor := n;
      }
    }

    /** Deletes `n` characters, and records it. */
    method Delete(where: int, n: int)
      requires Valid() && 0 <= where && 0 <= n && where + n <= |text|
      modifies this`text, this`undos, this`redos, recs, chars
      modifies this`undoPoint, this`redoPoint, this`undoCharPoint, this`redoCharPoint
      ensures Valid() && Past() == H.Recorded(old(Past()), Edit(where, "", n)) && |text| == |old(text)| - n
    {
      TextFits();
      hide Holds, View, H.Valid, H.Newest, H.Splice, Flat;
      ghost var h := Past();
      H.RecordedVersions(h, Edit(where, "", n), capacity);
      MakeUndo(where, n, 0);
      DeleteChars(where, n);
      assert text == H.Recorded(h, Edit(where, "", n)).text;
    }

    /** The history after the selection, if there is one, has been deleted. */
    ghost function SelectionDeleted(): H.History
      requires 0 <= selectStart && 0 <= selectEnd
      reads this
    {
      var lo := Min(Min(selectStart, selectEnd), |text|);
      var hi := Min(if selectStart < selectEnd then selectEnd else selectStart, |text|);
      if lo < hi then H.Recorded(Past(), Edit(lo, "", hi - lo)) else Past()
    }

    /** Where the cursor is then. */
    ghost function CursorAfterDeletion(): int
      requires 0 <= selectStart && 0 <= selectEnd
      reads this
    {
      Min(if HasSelection() then if Min(selectStart, |text|) == Min(selectEnd, |text|) then |text|
        else Min(selectStart, selectEnd)
          else cursor, |text|)
    }

    /** What lies between the two ends of the selection goes, as far as the text reaches, and the cursor moves to the
        lower end; deleting nothing is not recorded, and something is recorded as one edit. */
    lemma SelectionIsDeleted()
      requires 0 <= selectStart && 0 <= selectEnd
      ensures var a, b, n := selectStart, selectEnd, |text|;
              var lo := if a < b then (if a < n then a else n) else if b < n then b else n;
              var hi := if a < b then (if b < n then b else n) else if a < n then a else n;
              && SelectionDeleted().text == text[..lo] + text[hi..]
              && (lo == hi ==> SelectionDeleted() == Past())
              && (lo < hi && |undos| < STATE_COUNT && |Flat(undos)| + (hi - lo) <= CHAR_COUNT ==>
                   SelectionDeleted().undos == undos + [Edit(lo, text[lo..hi], 0)] && SelectionDeleted().redos == [])
              && CursorAfterDeletion() == if a != b then lo else if cursor < n then cursor else n
    {
      hide Flat;
      assert forall i :: 0 <= i <= |text| ==> text[..i] + text[i..] == text;
    }

    method DeleteSelection()
      requires Valid() && 0 <= cursor && 0 <= selectStart && 0 <= selectEnd
      modifies this`text, this`cursor, this`selectStart, this`selectEnd, this`undos, this`redos, recs, chars
      modifies this`undoPoint, this`redoPoint, this`undoCharPoint, this`redoCharPoint
      ensures Valid() && Past() == old(SelectionDeleted()) && cursor == old(CursorAfterDeletion())
      ensures 0 <= cursor <= |text| && !HasSelection() && 0 <= selectStart
    {
      hide Holds, H.Valid, H.Recorded;
      Clamp();
      if HasSelection() {
        if selectStart < selectEnd {
          Delete(selectStart, selectEnd - selectStart);
          cursor := selectStart;
          selectEnd := selectStart;
        } else {
          Delete(selectEnd, selectStart - selectEnd);
          cursor := selectEnd;
          selectStart := selectEnd;
        }
      }
    }

    /** Recording that `s` has been inserted, in a buffer that may have become larger for it. */
    static lemma Inserts(h: H.History, capacity: nat, larger: nat, at: int, s: string)
      requires H.Valid(h, capacity) && 0 <= at <= |h.text| && capacity <= larger && |h.text| + |s| <= larger
      ensures var t := H.Splice(h.text, at, 0, s);
              var h' := H.History(t, H.Newest(h.undos, 0) + [Edit(at, "", |s|)], []);
              h' == H.Recorded(h, Edit(at, s, 0)) && H.Valid(h', larger)
    {
      hide H.Valid, H.Newest, H.Splice;
      H.ValidInLarger(h, capacity, larger);
      H.RecordedVersions(h, Edit(at, s, 0), larger);
      assert h.text[at..at + 0] == "";
    }

    /** Inserts `s` at the cursor, and records it, if the host has room for it. */
    method InsertAtCursor(s: string) returns (ok: bool)
      requires Valid() && 0 <= cursor <= |text|
      modifies this`text, this`capacity, this`cursor, this`undos, this`redos, recs, chars
      modifies this`undoPoint, this`redoPoint, this`undoCharPoint, this`redoCharPoint
      ensures Valid() && ok == (resizable || |old(text)| + |s| <= old(capacity))
      ensures capacity == Grown(resizable, old(capacity), |old(text)|, |s|)
      ensures Past() == if ok then H.Recorded(old(Past()), Edit(old(cursor), s, 0)) else old(Past())
      ensures cursor == if ok then old(cursor) + |s| else old(cursor)
    {
      hide Holds, View, H.Valid, H.Newest, H.Splice, H.Recorded;
      ghost var h := Past();
      ok := InsertChars(cursor, s);
      if ok {
        Inserts(h, old(capacity), capacity, cursor, s);
        assert text[cursor..cursor + 0] == "";
        MakeUndo(cursor, 0, |s|);
        cursor := cursor + |s|;
      }
    }

    /** Pastes `s` over the selection; when it does not fit, the selection is deleted all the same. */
    method Paste(s: string) returns (ok: bool)
      requires Valid() && 0 <= cursor && 0 <= selectStart && 0 <= selectEnd
      modifies this`text, this`capacity, this`cursor, this`selectStart, this`selectEnd, this`undos, this`redos, recs,
               chars
      modifies this`undoPoint, this`redoPoint, this`undoCharPoint, this`redoCharPoint
      ensures Valid()
      ensures var h, at := old(SelectionDeleted()), old(CursorAfterDeletion());
              && ok == (resizable || |h.text| + |s| <= old(capacity)) && 0 <= at <= |h.text|
              && capacity == Grown(resizable, old(capacity), |h.text|, |s|)
              && Past() == (if ok then H.Recorded(h, Edit(at, s, 0)) else h)
              && cursor == if ok then at + |s| else at
    {
      hide Holds, H.Valid, H.Recorded;
      DeleteSelection();
      ok := InsertAtCursor(s);
    }

    method TypeOver(s: string)
      requires Valid() && 0 <= cursor < |text|
      modifies this`text, this`capacity, this`cursor, this`undos, this`redos, recs, chars
      modifies this`undoPoint, this`redoPoint, this`undoCharPoint, this`redoCharPoint
      ensures capacity == Grown(resizable, old(capacity), |old(text)| - 1, |s|)
      ensures text == H.Overwritten(old(text), old(cursor), s, capacity)
      ensures undos == H.Newest(old(undos), 1) + [Edit(old(cursor), old(text[cursor..cursor + 1]), 1)] && redos == []
      ensures |s| == 1 ==>
                Valid() && Past() == H.Recorded(old(Past()), Edit(old(cursor), s, 1)) && cursor == old(cursor) + 1
    {
      hide Holds, H.Valid, H.Newest, H.Splice, H.Recorded, View;
      TextFits();
      ghost var h, at := Past(), cursor;
      if |s| == 1 {
        H.OverwriteOne(h, at, s, capacity);
      }
      MakeUndo(cursor, 1, 1);
      DeleteChars(cursor, 1);
      var ok := InsertChars(cursor, s);
      if ok {
        cursor := cursor + |s|;
      }
    }

    /** Types `s`: over the character at the cursor in insert mode, over the selection otherwise. */
    method Type(s: string)
      requires Valid() && 0 < |s| && 0 <= cursor && 0 <= selectStart && 0 <= selectEnd
      modifies this`text, this`capacity, this`cursor, this`selectStart, this`selectEnd, this`undos, this`redos, recs,
               chars
      modifies this`undoPoint, this`redoPoint, this`undoCharPoint, this`redoCharPoint
      ensures s[0] == '\n' && singleLine ==>
                Valid() && Past() == old(Past()) && cursor == old(cursor) && capacity == old(capacity)
      ensures !(s[0] == '\n' && singleLine) && old(insertMode && selectStart == selectEnd && cursor < |text|) ==>
                && capacity == Grown(resizable, old(capacity), |old(text)| - 1, |s|)
                && text == H.Overwritten(old(text), old(cursor), s, capacity)
                && undos == H.Newest(old(undos), 1) + [Edit(old(cursor), old(text[cursor..cursor + 1]), 1)]
                && redos == []
                && (|s| == 1 ==>
                     Valid() && Past() == H.Recorded(old(Past()), Edit(old(cursor), s, 1)) && cursor == old(cursor) + 1)
      ensures !(s[0] == '\n' && singleLine) && !old(insertMode && selectStart == selectEnd && cursor < |text|) ==>
                && Valid()
                && var h, at := old(SelectionDeleted()), old(CursorAfterDeletion());
                   var ok := resizable || |h.text| + |s| <= old(capacity);
                   && capacity == Grown(resizable, old(capacity), |h.text|, |s|)
                   && 0 <= at <= |h.text| && Past() == (if ok then H.Recorded(h, Edit(at, s, 0)) else h)
                   && cursor == if ok then at + |s| else at
    {
      hide Holds, View, H.Valid, H.Recorded, H.Overwritten, H.Newest, Grown;
      if s[0] == '\n' && singleLine {
        return;
      }
      if insertMode && !HasSelection() && cursor < |text| {
        TypeOver(s);
      } else {
        DeleteSelection();
        var ok := InsertAtCursor(s);
      }
    }
  }
}
