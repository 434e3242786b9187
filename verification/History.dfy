/** The edit history of a text field, and the versions of the text it can go back and forward to.

A history is a text with its two stacks of edits. Read as a zipper it is a list of past versions,
the present one, and a list of future ones; recording, undoing and redoing are then what one would
expect of versions, as long as the buffer has room for what an undo has to save.
*/
module History {
  import opened Basics
  import opened UndoBuffer

  datatype History = History(text: string, undos: seq<Edit>, redos: seq<Edit>)

  datatype Zipper = Zipper(past: seq<string>, present: string, future: seq<string>)

  // ----- Edits of a text -----

  ghost predicate Applies(e: Edit, t: string) {
    0 <= e.where && 0 <= e.del && e.where + e.del <= |t|
  }

  function Splice(t: string, where: int, del: int, ins: string): (r: string)
    requires 0 <= where && 0 <= del && where + del <= |t|
    ensures |r| == |t| - del + |ins|
  {
    t[..where] + ins + t[where + del..]
  }

  lemma DeleteThenInsert(t: string, where: int, del: int, ins: string)
    requires 0 <= where && 0 <= del && where + del <= |t|
    ensures Splice(Splice(t, where, del, ""), where, 0, ins) == Splice(t, where, del, ins)
    ensures Splice(t, where, 0, "") == t
  {
    assert t[..where] + "" + t[where..] == t;
  }

  function Apply(e: Edit, t: string): string
    requires Applies(e, t)
  {
    Splice(t, e.where, e.del, e.ins)
  }

  /** The edit that takes `Apply(e, t)` back to `t`. */
  function Inverse(e: Edit, t: string): Edit
    requires Applies(e, t)
  {
    Edit(e.where, t[e.where..e.where + e.del], |e.ins|)
  }

  lemma InverseApplies(e: Edit, t: string)
    requires Applies(e, t)
    ensures Applies(Inverse(e, t), Apply(e, t)) && Apply(Inverse(e, t), Apply(e, t)) == t
    ensures Inverse(Inverse(e, t), Apply(e, t)) == e
  {
    var t' := Apply(e, t);
    assert t'[..e.where] == t[..e.where] && t'[e.where + |e.ins|..] == t[e.where + e.del..];
    assert t'[e.where..e.where + |e.ins|] == e.ins;
    assert t == t[..e.where] + t[e.where..e.where + e.del] + t[e.where + e.del..];
  }

  // ----- Versions -----

  /** Every undo in turn applies to the text it meets. */
  ghost predicate Undoable(undos: seq<Edit>, t: string) {
    undos != [] ==>
      var n := |undos| - 1;
      Applies(undos[n], t) && Undoable(undos[..n], Apply(undos[n], t))
  }

  ghost predicate Redoable(redos: seq<Edit>, t: string) {
    redos != [] ==> Applies(redos[0], t) && Redoable(redos[1..], Apply(redos[0], t))
  }

  /** The texts that successive undos lead to, oldest first. */
  function Past(undos: seq<Edit>, t: string): (past: seq<string>)
    requires Undoable(undos, t)
    ensures |past| == |undos|
  {
    if undos == [] then []
    else
      var n := |undos| - 1;
      var t' := Apply(undos[n], t);
      Past(undos[..n], t') + [t']
  }

  /** The texts that successive redos lead to, nearest first. */
  function Future(redos: seq<Edit>, t: string): (future: seq<string>)
    requires Redoable(redos, t)
    ensures |future| == |redos|
  {
    if redos == [] then []
    else
      var t' := Apply(redos[0], t);
      [t'] + Future(redos[1..], t')
  }

  /** Redoing everything in turn always finds room: `used` characters are saved for undo, and redo
      characters are saved from `from` on. */
  ghost predicate RoomToRedo(redos: seq<Edit>, used: int, from: int) {
    redos != [] ==>
      used + redos[0].del <= from && RoomToRedo(redos[1..], used + redos[0].del, from + |redos[0].ins|)
  }

  /** Every version is short enough for the host's text buffer. */
  ghost predicate AllFit(versions: seq<string>, capacity: nat) {
    forall i :: 0 <= i < |versions| ==> |versions[i]| <= capacity
  }

  ghost predicate Valid(h: History, capacity: nat) {
    && |h.undos| + |h.redos| <= STATE_COUNT
    && |Flat(h.undos)| + |Flat(h.redos)| <= CHAR_COUNT
    && Undoable(h.undos, h.text) && Redoable(h.redos, h.text)
    && RoomToRedo(h.redos, |Flat(h.undos)|, CHAR_COUNT - |Flat(h.redos)|)
    && |h.text| <= capacity && AllFit(Past(h.undos, h.text), capacity) && AllFit(Future(h.redos, h.text), capacity)
  }

  lemma CanMove(h: History, capacity: nat)
    requires Valid(h, capacity)
    ensures Undoable(h.undos, h.text) && Redoable(h.redos, h.text)
  {
  }

  /** A larger text buffer takes the same history. */
  lemma ValidInLarger(h: History, capacity: nat, larger: nat)
    requires Valid(h, capacity) && capacity <= larger
    ensures Valid(h, larger)
  {
    hide Undoable, Redoable, RoomToRedo, Past, Future, Flat;
  }

  ghost function Versions(h: History): Zipper
    requires Undoable(h.undos, h.text) && Redoable(h.redos, h.text)
  {
    Zipper(Past(h.undos, h.text), h.text, Future(h.redos, h.text))
  }

  // ----- Recording -----

  /** Room for one more record that saves `n` characters. */
  predicate HasSpace(undos: seq<Edit>, n: nat) {
    |undos| < STATE_COUNT && |Flat(undos)| + n <= CHAR_COUNT
  }

  /** The undo stack after the oldest edits have been discarded until `n` more characters fit. */
  function Newest(undos: seq<Edit>, n: nat): seq<Edit> {
    if undos == [] || HasSpace(undos, n) then undos else Newest(undos[1..], n)
  }

  /** Without the `k` oldest edits there is room for one more record and its `n` characters, and with any of them
      there is not. */
  ghost predicate JustEnough(undos: seq<Edit>, n: int, k: int) {
    && 0 <= k <= |undos|
    && |undos| - k < STATE_COUNT && |Flat(undos[k..])| + n <= CHAR_COUNT
    && forall j :: 0 <= j < k ==> |undos| - j >= STATE_COUNT || |Flat(undos[j..])| + n > CHAR_COUNT
  }

  /** What is kept is a suffix with room for one more record and its `n` characters, and no longer suffix has it. */
  lemma {:induction false} NewestIsLongest(undos: seq<Edit>, n: nat)
    requires n <= CHAR_COUNT
    ensures var k := |undos| - |Newest(undos, n)|;
            JustEnough(undos, n, k) && Newest(undos, n) == undos[k..]
  {
    if undos != [] && !HasSpace(undos, n) {
      NewestIsLongest(undos[1..], n);
      var k := |undos| - |Newest(undos, n)|;
      forall j | 0 <= j < k ensures |undos| - j >= STATE_COUNT || |Flat(undos[j..])| + n > CHAR_COUNT {
        if j > 0 { assert undos[j..] == undos[1..][j - 1..]; } else { assert undos[j..] == undos; }
      }
      assert undos[k..] == undos[1..][k - 1..];
    } else {
      assert undos[0..] == undos;
    }
  }

  /** The host replaced `e.del` characters by `e.ins`, and the edit was recorded before. */
  function Recorded(h: History, e: Edit): History
    requires Applies(e, h.text)
  {
    History(Apply(e, h.text), if e.del > CHAR_COUNT then [] else Newest(h.undos, e.del) + [Inverse(e, h.text)], [])
  }

  /** Cutting off the oldest edits cuts off the oldest versions. */
  lemma {:induction false} PastSuffix(undos: seq<Edit>, k: nat, t: string)
    requires Undoable(undos, t) && k <= |undos|
    ensures Undoable(undos[k..], t) && Past(undos[k..], t) == Past(undos, t)[k..]
    decreases |undos|
  {
    if k < |undos| {
      var n := |undos| - 1;
      PastSuffix(undos[..n], k, Apply(undos[n], t));
      assert undos[..n][k..] == undos[k..][..n - k];
      assert undos[k..][n - k] == undos[n];
    } else {
      assert undos[k..] == [];
    }
  }

  lemma PastPush(undos: seq<Edit>, e: Edit, t: string)
    requires Applies(e, t) && Undoable(undos, Apply(e, t))
    ensures Undoable(undos + [e], t) && Past(undos + [e], t) == Past(undos, Apply(e, t)) + [Apply(e, t)]
  {
    assert (undos + [e])[..|undos|] == undos;
  }

  lemma NoPast(t: string)
    ensures Undoable([], t) && Past([], t) == [] && Flat([]) == []
  {
  }

  lemma KeptVersions(undos: seq<Edit>, k: nat, inv: Edit, t: string, t': string)
    requires Undoable(undos, t) && k <= |undos| && Applies(inv, t') && Apply(inv, t') == t
    ensures Undoable(undos[k..] + [inv], t')
    ensures Past(undos[k..] + [inv], t') == (Past(undos, t) + [t])[k..]
    ensures |Flat(undos[k..] + [inv])| == |Flat(undos[k..])| + |inv.ins|
  {
    PastSuffix(undos, k, t);
    PastPush(undos[k..], inv, t');
    FlatConcat(undos[k..], [inv]);
    assert Flat([inv]) == inv.ins + Flat([]);
  }

  lemma RecordedPast(h: History, e: Edit) returns (k: nat)
    requires Undoable(h.undos, h.text) && Applies(e, h.text) && e.del <= CHAR_COUNT
    ensures var h' := Recorded(h, e);
            && k <= |h.undos| && |h'.undos| == |h.undos| + 1 - k <= STATE_COUNT && |Flat(h'.undos)| <= CHAR_COUNT
            && Undoable(h'.undos, h'.text) && Past(h'.undos, h'.text) == (Past(h.undos, h.text) + [h.text])[k..]
    ensures JustEnough(h.undos, e.del, k)
    ensures Flat([]) == []
  {
    hide Newest, Splice;
    NewestIsLongest(h.undos, e.del);
    k := |h.undos| - |Newest(h.undos, e.del)|;
    InverseApplies(e, h.text);
    KeptVersions(h.undos, k, Inverse(e, h.text), h.text, Apply(e, h.text));
  }

  /** Recording adds the present to the past, of which only the oldest part may get lost, and ends the future. */
  lemma RecordedVersions(h: History, e: Edit, capacity: nat)
    requires Valid(h, capacity) && Applies(e, h.text) && |Apply(e, h.text)| <= capacity
    ensures Valid(Recorded(h, e), capacity)
    ensures var z, z' := Versions(h), Versions(Recorded(h, e));
            && z'.present == Apply(e, h.text) && z'.future == []
            && |z'.past| <= |z.past| + 1 && z'.past == (z.past + [z.present])[|z.past| + 1 - |z'.past|..]
    ensures e.del <= CHAR_COUNT ==> Versions(Recorded(h, e)).past != []
  {
    hide Newest, Splice, Flat, Inverse, Past, Undoable;
    var h', past := Recorded(h, e), Past(h.undos, h.text) + [h.text];
    if e.del <= CHAR_COUNT {
      var k := RecordedPast(h, e);
      assert forall i :: 0 <= i < |past| ==> |past[i]| <= capacity;
      assert AllFit(Past(h'.undos, h'.text), capacity);
    } else {
      NoPast(h'.text);
    }
  }

  lemma TooMuch(h: History, e: Edit)
    requires Applies(e, h.text) && e.del > CHAR_COUNT
    ensures Recorded(h, e).undos == [] && Undoable([], Recorded(h, e).text) && Past([], Recorded(h, e).text) == []
  {
  }

  lemma NothingMustGo(undos: seq<Edit>, n: int, k: int)
    requires JustEnough(undos, n, k) && |undos| < STATE_COUNT && |Flat(undos)| + n <= CHAR_COUNT
    ensures k == 0
  {
    assert undos[0..] == undos;
  }

  /** How much of the past is lost: as many of the oldest versions as it takes until the new record finds a place
      and its characters fit, and no more; all of them when the characters could never fit. */
  lemma RecordedLoses(h: History, e: Edit, capacity: nat)
    requires Valid(h, capacity) && Applies(e, h.text) && |Apply(e, h.text)| <= capacity
    ensures Valid(Recorded(h, e), capacity)
    ensures e.del > CHAR_COUNT ==> Versions(Recorded(h, e)).past == []
    ensures var z, z' := Versions(h), Versions(Recorded(h, e));
            var k := |z.past| + 1 - |z'.past|;
            e.del <= CHAR_COUNT ==> JustEnough(h.undos, e.del, k) && z'.past == (z.past + [z.present])[k..]
    ensures |h.undos| < STATE_COUNT && |Flat(h.undos)| + e.del <= CHAR_COUNT ==>
              Versions(Recorded(h, e)).past == Versions(h).past + [h.text]
  {
    hide Valid, Recorded, Newest, Splice, Flat, Inverse, Past, Future, Undoable, Redoable, JustEnough;
    CanMove(h, capacity);
    assert Valid(Recorded(h, e), capacity) by { RecordedVersions(h, e, capacity); }
    CanMove(Recorded(h, e), capacity);
    if e.del <= CHAR_COUNT {
      var k := RecordedPast(h, e);
      var past, past' := Past(h.undos, h.text) + [h.text], Past(Recorded(h, e).undos, Recorded(h, e).text);
      assert past' == past[k..] && k == |past| - |past'|;
      if |h.undos| < STATE_COUNT && |Flat(h.undos)| + e.del <= CHAR_COUNT {
        NothingMustGo(h.undos, e.del, k);
        assert past[0..] == past;
      }
    } else {
      TooMuch(h, e);
    }
  }

  // ----- Undoing and redoing -----

  /** The buffer has room for the characters that undoing would delete. */
  predicate HasRoom(h: History)
    requires h.undos != []
  {
    var u := h.undos[|h.undos| - 1];
    u.del == 0 || (|Flat(h.undos)| + u.del < CHAR_COUNT && |Flat(h.undos)| + u.del <= CHAR_COUNT - |Flat(h.redos)|)
  }

  /** The newest edit applies, and the text it leads back to fits. */
  lemma NextUndo(h: History, capacity: nat)
    requires Valid(h, capacity) && h.undos != []
    ensures var n := |h.undos| - 1;
            && Applies(h.undos[n], h.text) && Undoable(h.undos[..n], Apply(h.undos[n], h.text))
            && |Apply(h.undos[n], h.text)| <= capacity
  {
    assert Past(h.undos, h.text)[|h.undos| - 1] == Apply(h.undos[|h.undos| - 1], h.text);
  }

  lemma NextRedo(h: History, capacity: nat)
    requires Valid(h, capacity) && h.redos != []
    ensures Applies(h.redos[0], h.text) && |Apply(h.redos[0], h.text)| <= capacity
  {
    assert Future(h.redos, h.text)[0] == Apply(h.redos[0], h.text);
  }

  function Undone(h: History): History
    requires h.undos != [] && Applies(h.undos[|h.undos| - 1], h.text)
  {
    var n := |h.undos| - 1;
    var u := h.undos[n];
    History(Apply(u, h.text), h.undos[..n], [Inverse(u, h.text)] + h.redos)
  }

  function Redone(h: History): History
    requires h.redos != [] && Applies(h.redos[0], h.text)
  {
    var r := h.redos[0];
    History(Apply(r, h.text), h.undos + [Inverse(r, h.text)], h.redos[1..])
  }

  /** The undone edit's inverse leads the previous version back to the present. */
  lemma UndoneStacks(h: History)
    requires h.undos != [] && Undoable(h.undos, h.text) && Redoable(h.redos, h.text)
    ensures var n, h' := |h.undos| - 1, Undone(h);
            && Undoable(h'.undos, h'.text) && Past(h.undos, h.text) == Past(h'.undos, h'.text) + [h'.text]
            && Redoable(h'.redos, h'.text) && Future(h'.redos, h'.text) == [h.text] + Future(h.redos, h.text)
  {
    hide Splice, Flat;
    InverseApplies(h.undos[|h.undos| - 1], h.text);
    assert Undone(h).redos[1..] == h.redos;
  }

  lemma UndoneRoom(h: History)
    requires h.undos != [] && Applies(h.undos[|h.undos| - 1], h.text) && HasRoom(h)
    requires RoomToRedo(h.redos, |Flat(h.undos)|, CHAR_COUNT - |Flat(h.redos)|)
    requires |Flat(h.undos)| + |Flat(h.redos)| <= CHAR_COUNT
    ensures var h' := Undone(h);
            && |Flat(h'.undos)| + |Flat(h'.redos)| <= CHAR_COUNT
            && RoomToRedo(h'.redos, |Flat(h'.undos)|, CHAR_COUNT - |Flat(h'.redos)|)
  {
    hide Splice;
    FlatLast(h.undos);
    assert Undone(h).redos[1..] == h.redos;
  }

  lemma UndoneVersions(h: History, capacity: nat)
    requires Valid(h, capacity) && h.undos != [] && HasRoom(h)
    ensures Valid(Undone(h), capacity)
    ensures var z, n := Versions(h), |h.undos| - 1;
            Versions(Undone(h)) == Zipper(z.past[..n], z.past[n], [z.present] + z.future)
  {
    hide Splice, Inverse, Undoable, Redoable, Past, Future, RoomToRedo, Flat, HasRoom;
    NextUndo(h, capacity);
    UndoneStacks(h);
    UndoneRoom(h);
    var n, h' := |h.undos| - 1, Undone(h);
    var past, past' := Past(h.undos, h.text), Past(h'.undos, h'.text);
    assert past[n] == h'.text && forall i :: 0 <= i < n ==> past'[i] == past[i];
    assert past[..n] == past';
  }

  lemma NextRedoFits(h: History, capacity: nat)
    requires Valid(h, capacity) && h.redos != []
    ensures |Flat(h.undos)| + h.redos[0].del <= CHAR_COUNT - |Flat(h.redos)|
  {
  }

  lemma RedoneVersions(h: History, capacity: nat)
    requires Valid(h, capacity) && h.redos != []
    ensures Valid(Redone(h), capacity)
    ensures var z := Versions(h);
            Versions(Redone(h)) == Zipper(z.past + [z.present], z.future[0], z.future[1..])
  {
    var r, h' := h.redos[0], Redone(h);
    var inv := Inverse(r, h.text);
    InverseApplies(r, h.text);
    PastPush(h.undos, inv, h'.text);
    FlatConcat(h.undos, [inv]);
    assert Flat([inv]) == inv.ins + Flat([]);
    var future, future' := Future(h.redos, h.text), Future(h'.redos, h'.text);
    assert future == [h'.text] + future';
    assert future[0] == h'.text && forall i :: 0 <= i < |future'| ==> future'[i] == future[i + 1];
  }

  lemma RedoAfterUndo(h: History, capacity: nat)
    requires Valid(h, capacity) && h.undos != [] && HasRoom(h)
    ensures Valid(Undone(h), capacity) && Redone(Undone(h)) == h
  {
    hide Valid, Flat, Undoable, Redoable, Splice;
    UndoneVersions(h, capacity);
    NextUndo(h, capacity);
    var n := |h.undos| - 1;
    InverseApplies(h.undos[n], h.text);
    assert h.undos == h.undos[..n] + [h.undos[n]];
    assert Undone(h).redos[1..] == h.redos;
  }

  lemma UndoAfterRedo(h: History, capacity: nat)
    requires Valid(h, capacity) && h.redos != []
    ensures Valid(Redone(h), capacity) && Undone(Redone(h)) == h
  {
    hide Valid, Flat, Undoable, Redoable, Splice;
    RedoneVersions(h, capacity);
    NextRedo(h, capacity);
    InverseApplies(h.redos[0], h.text);
    assert Redone(h).undos[..|h.undos|] == h.undos;
    assert h.redos == [h.redos[0]] + h.redos[1..];
  }

  /** Redo after undo, and undo after redo, bring back the very same history. */
  lemma UndoRedoInverse(h: History, capacity: nat)
    requires Valid(h, capacity)
    ensures h.undos != [] && HasRoom(h) ==> Valid(Undone(h), capacity) && Redone(Undone(h)) == h
    ensures h.redos != [] ==> Valid(Redone(h), capacity) && Undone(Redone(h)) == h
  {
    hide Undone, Redone, HasRoom;
    if h.undos != [] && HasRoom(h) { RedoAfterUndo(h, capacity); }
    if h.redos != [] { UndoAfterRedo(h, capacity); }
  }

  // ----- Runs -----

  /** A recorded edit, which replaces text in one go, or a key. */
  datatype Action = Change(e: Edit) | Undo | Redo

  /** One step of the text field; an undo has room for what it must save. */
  ghost predicate Does(h: History, a: Action, h': History, capacity: nat) {
    match a
    case Change(e) => Applies(e, h.text) && |Apply(e, h.text)| <= capacity && h' == Recorded(h, e)
    case Undo => if h.undos == [] then h' == h else Undoable(h.undos, h.text) && HasRoom(h) && h' == Undone(h)
    case Redo => if h.redos == [] then h' == h else Redoable(h.redos, h.text) && h' == Redone(h)
  }

  /** The same step on versions: undo and redo move along them, an edit adds one and ends the future,
      and only an edit may lose versions, and only the oldest. */
  ghost predicate Moves(z: Zipper, a: Action, z': Zipper) {
    match a
    case Change(e) =>
      && Applies(e, z.present) && z'.present == Apply(e, z.present) && z'.future == []
      && |z'.past| <= |z.past| + 1 && z'.past == (z.past + [z.present])[|z.past| + 1 - |z'.past|..]
      && (e.del <= CHAR_COUNT ==> z'.past != [])
    case Undo =>
      z' == if z.past == [] then z
            else var n := |z.past| - 1; Zipper(z.past[..n], z.past[n], [z.present] + z.future)
    case Redo =>
      z' == if z.future == [] then z
            else Zipper(z.past + [z.present], z.future[0], z.future[1..])
  }

  lemma DoesMoves(h: History, a: Action, h': History, capacity: nat)
    requires Valid(h, capacity) && Does(h, a, h', capacity)
    ensures Valid(h', capacity) && Moves(Versions(h), a, Versions(h'))
  {
    hide Recorded, Undone, Redone;
    match a
    case Change(e) => RecordedVersions(h, e, capacity);
    case Undo => if h.undos != [] { UndoneVersions(h, capacity); }
    case Redo => if h.redos != [] { RedoneVersions(h, capacity); }
  }

  ghost predicate Run(hs: seq<History>, actions: seq<Action>, capacity: nat) {
    |hs| == |actions| + 1 && forall i :: 0 <= i < |actions| ==> Does(hs[i], actions[i], hs[i + 1], capacity)
  }

  /** Over any run the text field is a list of versions with a place in it. */
  lemma {:induction false} RunMoves(hs: seq<History>, actions: seq<Action>, capacity: nat, i: nat)
    requires Run(hs, actions, capacity) && Valid(hs[0], capacity) && i <= |actions|
    ensures Valid(hs[i], capacity)
    ensures i < |actions| ==> Valid(hs[i + 1], capacity) && Moves(Versions(hs[i]), actions[i], Versions(hs[i + 1]))
  {
    hide Valid, Moves, Versions;
    if i > 0 { RunMoves(hs, actions, capacity, i - 1); }
    if i < |actions| { DoesMoves(hs[i], actions[i], hs[i + 1], capacity); }
  }

  /** The branch of redo that gives up for lack of room is never taken, however a run got there. */
  lemma RedoHasRoom(hs: seq<History>, actions: seq<Action>, capacity: nat, i: nat)
    requires Run(hs, actions, capacity) && Valid(hs[0], capacity) && i <= |actions| && hs[i].redos != []
    ensures |Flat(hs[i].undos)| + hs[i].redos[0].del <= CHAR_COUNT - |Flat(hs[i].redos)|
  {
    hide Valid, Does;
    RunMoves(hs, actions, capacity, i);
    NextRedoFits(hs[i], capacity);
  }

  // ----- Undo without room -----

  /** What undo writes into the redo record it leaves on top: when characters saved for redo are in the
      way they are discarded, and the record keeps what the former top one said. */
  function LeftRecord(h: History): (int, int, int)
    requires h.undos != []
  {
    var u := h.undos[|h.undos| - 1];
    if HasRoom(h) then (u.where, u.del, |u.ins|)
    else if |Flat(h.undos)| + u.del >= CHAR_COUNT || h.redos == [] then (u.where, 0, |u.ins|)
    else (h.redos[0].where, |h.redos[0].ins|, h.redos[0].del)
  }

  /** The characters that undo saves for redo: those it deletes, unless there can be no room for them. */
  function Saved(h: History): string
    requires h.undos != [] && Applies(h.undos[|h.undos| - 1], h.text)
  {
    var u := h.undos[|h.undos| - 1];
    if |Flat(h.undos)| + u.del >= CHAR_COUNT then "" else h.text[u.where..u.where + u.del]
  }

  /** The part of the redo stack that undo keeps below the record. */
  function Kept(h: History): seq<Edit>
    requires h.undos != []
  {
    var u := h.undos[|h.undos| - 1];
    if u.del == 0 || |Flat(h.undos)| + u.del >= CHAR_COUNT then h.redos else Nearest(h.redos, |Flat(h.undos)|, u.del)
  }

  /** The record itself; `at` is where the saved characters are. */
  function LeftOver(h: History, at: int): Record
    requires h.undos != [] && Applies(h.undos[|h.undos| - 1], h.text)
  {
    var left := LeftRecord(h);
    Record(left.0, left.1, left.2, if Saved(h) == "" then -1 else at)
  }

  /** The record left on top is the one that redoes the undone edit exactly when there is room, or the
      record it was overlaid on happens to read the same. */
  lemma LeftRecordRightIff(h: History, capacity: nat)
    requires Valid(h, capacity) && h.undos != []
    ensures var u := h.undos[|h.undos| - 1];
            LeftRecord(h) == (u.where, |Inverse(u, h.text).ins|, Inverse(u, h.text).del)
            <==>
            HasRoom(h) || (|Flat(h.undos)| + u.del < CHAR_COUNT && h.redos[0].where == u.where
                           && |h.redos[0].ins| == u.del && h.redos[0].del == |u.ins|)
  {
  }

  /** When the buffer is too full for the characters at all, redoing does not bring the text back. */
  lemma FullBufferLosesText(h: History, capacity: nat)
    requires Valid(h, capacity) && h.undos != [] && !HasRoom(h)
    requires |Flat(h.undos)| + h.undos[|h.undos| - 1].del >= CHAR_COUNT
    ensures var left := Edit(LeftRecord(h).0, "", LeftRecord(h).2);
            Applies(left, Undone(h).text) && Apply(left, Undone(h).text) != h.text
  {
    var u := h.undos[|h.undos| - 1];
    var left := Edit(u.where, "", |u.ins|);
    assert |Apply(left, Undone(h).text)| == |h.text| - u.del;
  }

  /** The characters from the saved ones on, past their end those of the edits below the record. */
  function Stored(h: History): string
    requires h.undos != [] && Applies(h.undos[|h.undos| - 1], h.text)
  {
    Saved(h) + Flat(Kept(h))
  }

  /** The edit that the record left on top stands for; none when there are not so many characters. */
  function LeftEdit(h: History): Option<Edit>
    requires h.undos != [] && Applies(h.undos[|h.undos| - 1], h.text)
  {
    var (where, n, del) := LeftRecord(h);
    if 0 <= n <= |Stored(h)| then Some(Edit(where, Stored(h)[..n], del)) else None
  }

  /** Replaying the record left on top brings the text back that was undone. */
  ghost predicate Restores(h: History)
    requires h.undos != [] && Applies(h.undos[|h.undos| - 1], h.text)
  {
    var t := Undone(h).text;
    LeftEdit(h).Some? && Applies(LeftEdit(h).value, t) && Apply(LeftEdit(h).value, t) == h.text
  }

  /** Text `s` has at `i` the character that `t` has `shift` further on. */
  predicate SameAt(s: string, t: string, i: int, shift: int) {
    0 <= i < |s| && 0 <= i + shift < |t| && s[i] == t[i + shift]
  }

  ghost predicate ReadsLike(s: string, t: string, lo: int, hi: int, shift: int) {
    forall i :: lo <= i < hi ==> SameAt(s, t, i, shift)
  }

  /** A splice makes a text exactly when it does so in front, inside and behind. */
  lemma SpliceIs(t: string, where: int, del: int, ins: string, goal: string)
    requires 0 <= where && 0 <= del && where + del <= |t|
    ensures Splice(t, where, del, ins) == goal <==>
              && |t| - del + |ins| == |goal| && goal[where..where + |ins|] == ins
              && ReadsLike(t, goal, 0, where, 0) && ReadsLike(t, goal, where + del, |t|, |ins| - del)
  {
    var s := Splice(t, where, del, ins);
    assert forall i :: 0 <= i < |s| ==>
      s[i] == if i < where then t[i] else if i < where + |ins| then ins[i - where] else t[i - |ins| + del];
    if |s| == |goal| && goal[where..where + |ins|] == ins
       && ReadsLike(t, goal, 0, where, 0) && ReadsLike(t, goal, where + del, |t|, |ins| - del) {
      forall i | 0 <= i < |s| ensures s[i] == goal[i] {
        if i < where { assert SameAt(t, goal, i, 0); }
        if where <= i < where + |ins| { assert goal[where..where + |ins|][i - where] == ins[i - where]; }
        if where + |ins| <= i { assert SameAt(t, goal, i - |ins| + del, |ins| - del); }
      }
      assert s == goal;
    }
    if s == goal {
      var shift := |ins| - del;
      forall i | where + del <= i < |t| ensures SameAt(t, goal, i, shift) {
        assert s[i + |ins| - del] == t[i];
      }
    }
  }

  /** Two texts that an edit takes into one another differ only where the edit is. */
  lemma ReadsLikeOutside(e: Edit, t: string, w: int)
    requires Applies(e, t) && 0 <= w
    ensures var t' := Apply(e, t);
            && (ReadsLike(t', t, 0, w, 0) <==> ReadsLike(t', t, e.where, w, 0))
            && var shift := e.del - |e.ins|;
               ReadsLike(t', t, w, |t'|, shift) <==> ReadsLike(t', t, w, e.where + |e.ins|, shift)
  {
    var t', shift := Apply(e, t), e.del - |e.ins|;
    forall i | 0 <= i < e.where ensures SameAt(t', t, i, 0) {
    }
    forall i | e.where + |e.ins| <= i < |t'| ensures SameAt(t', t, i, shift) {
    }
    hide Splice, SameAt;
  }

  /** Taking `t` back by `u` and then replacing `del` characters at `where` by `ins` leads to `t` again exactly
      when the lengths agree, `t` has `ins` there, and the texts are alike between the two places. */
  lemma BackAgain(u: Edit, t: string, where: int, del: int, ins: string)
    requires Applies(u, t) && 0 <= where && 0 <= del
    ensures var t' := Apply(u, t);
            where + del <= |t'| && Splice(t', where, del, ins) == t <==>
              && |ins| - del == u.del - |u.ins| && where + |ins| <= |t| && t[where..where + |ins|] == ins
              && ReadsLike(t', t, u.where, where, 0) && ReadsLike(t', t, where + del, u.where + |u.ins|, |ins| - del)
  {
    hide Splice, ReadsLike;
    var t' := Apply(u, t);
    if where + del <= |t'| {
      SpliceIs(t', where, del, ins, t);
      if |ins| - del == u.del - |u.ins| {
        ReadsLikeOutside(u, t, where);
        ReadsLikeOutside(u, t, where + del);
      }
    }
  }

  /** Without room for the characters that undo deletes, replaying the record it leaves brings the text back
      exactly when the characters can be saved at all, the record it was overlaid on changes the length as
      much as the undone edit did, the characters it finds are those it says, and the text repeats between the
      two places. */
  lemma RestoredIff(h: History, capacity: nat)
    requires Valid(h, capacity) && h.undos != [] && !HasRoom(h)
    ensures Applies(h.undos[|h.undos| - 1], h.text)
    ensures var u := h.undos[|h.undos| - 1];
            Restores(h) <==>
              && |Flat(h.undos)| + u.del < CHAR_COUNT
              && var r, t, t' := h.redos[0], h.text, Undone(h).text;
                 && |r.ins| - r.del == u.del - |u.ins| && |r.ins| <= |Stored(h)| && r.where + |r.ins| <= |t|
                 && t[r.where..r.where + |r.ins|] == Stored(h)[..|r.ins|]
                 && ReadsLike(t', t, u.where, r.where, 0)
                 && ReadsLike(t', t, r.where + r.del, u.where + |u.ins|, |r.ins| - r.del)
  {
    hide Splice, Kept, Saved, Flat, ReadsLike, Undoable, Redoable;
    NextUndo(h, capacity);
    FlatEmpty();
    var u := h.undos[|h.undos| - 1];
    if |Flat(h.undos)| + u.del >= CHAR_COUNT {
      FullBufferLosesText(h, capacity);
    } else {
      NextRedo(h, capacity);
      var r := h.redos[0];
      if |r.ins| <= |Stored(h)| {
        BackAgain(u, h.text, r.where, r.del, Stored(h)[..|r.ins|]);
      }
    }
  }

  /** The history after the left-over edit has been redone. */
  function Resumed(h: History): History
    requires h.undos != [] && Applies(h.undos[|h.undos| - 1], h.text)
    requires LeftEdit(h).Some? && Applies(LeftEdit(h).value, Undone(h).text)
  {
    var e, t := LeftEdit(h).value, Undone(h).text;
    History(Apply(e, t), h.undos[..|h.undos| - 1] + [Inverse(e, t)], Kept(h))
  }

  lemma {:induction false} RoomPrefix(redos: seq<Edit>, k: nat, used: int, from: int, from': int)
    requires k <= |redos| && RoomToRedo(redos, used, from) && from <= from'
    ensures RoomToRedo(redos[..k], used, from')
  {
    if k > 0 {
      RoomPrefix(redos[1..], k - 1, used + redos[0].del, from + |redos[0].ins|, from' + |redos[0].ins|);
      assert redos[..k][1..] == redos[1..][..k - 1];
    }
  }

  lemma {:induction false} FuturePrefix(redos: seq<Edit>, k: nat, t: string)
    requires k <= |redos| && Redoable(redos, t)
    ensures Redoable(redos[..k], t) && Future(redos[..k], t) == Future(redos, t)[..k]
  {
    hide Splice;
    if k > 0 {
      FuturePrefix(redos[1..], k - 1, Apply(redos[0], t));
      assert redos[..k][1..] == redos[1..][..k - 1];
    }
  }

  /** Undoing keeps every redo record if there is nothing to save or can be no room for it, and otherwise as many of
      the nearest ones as leave room for what is saved, and no more. */
  lemma KeptIsLongest(h: History)
    requires h.undos != [] && Applies(h.undos[|h.undos| - 1], h.text)
    ensures var u, used, k := h.undos[|h.undos| - 1], |Flat(h.undos)|, |Kept(h)|;
            && k <= |h.redos| && Kept(h) == h.redos[..k]
            && (if u.del == 0 || used + u.del >= CHAR_COUNT then k == |h.redos| && Saved(h) == ""
                else
                  && Saved(h) == h.text[u.where..u.where + u.del]
                  && used + u.del + |Flat(h.redos[..k])| <= CHAR_COUNT
                  && forall j :: k < j <= |h.redos| ==> used + u.del + |Flat(h.redos[..j])| > CHAR_COUNT)
  {
    hide Flat, Nearest;
    var u, used := h.undos[|h.undos| - 1], |Flat(h.undos)|;
    if u.del != 0 && used + u.del < CHAR_COUNT { NearestIsLongest(h.redos, used, u.del); }
  }

  /** What is kept is a prefix of the redo stack, and leaves room for what was saved. */
  lemma KeptRoom(h: History, capacity: nat)
    requires Valid(h, capacity) && h.undos != []
    ensures Applies(h.undos[|h.undos| - 1], h.text)
    ensures |Kept(h)| <= |h.redos| && Kept(h) == h.redos[..|Kept(h)|]
    ensures |Flat(h.undos)| + |Saved(h)| + |Flat(Kept(h))| <= CHAR_COUNT && |Flat(Kept(h))| <= |Flat(h.redos)|
  {
    hide Undoable, Redoable, RoomToRedo, Past, Future, Nearest, Flat;
    NextUndo(h, capacity);
    var u, used := h.undos[|h.undos| - 1], |Flat(h.undos)|;
    if u.del != 0 && used + u.del < CHAR_COUNT { NearestIsLongest(h.redos, used, u.del); }
    var k := |Kept(h)|;
    assert Kept(h) == h.redos[..k];
    FlatConcat(h.redos[..k], h.redos[k..]);
    assert h.redos[..k] + h.redos[k..] == h.redos;
  }

  lemma LengthsAgree(h: History, e: Edit)
    requires h.undos != [] && Applies(h.undos[|h.undos| - 1], h.text) && Applies(e, Undone(h).text)
    requires LeftEdit(h) == Some(e) && |e.ins| == |Saved(h)| && |Apply(e, Undone(h).text)| == |h.text|
    ensures e.del == |h.undos[|h.undos| - 1].ins|
  {
    hide Flat, Kept, Nearest;
  }

  /** The newest undo record may be replaced by one that does the same and saves as many characters. */
  lemma NewestReplaced(undos: seq<Edit>, inv: Edit, t: string)
    requires undos != [] && Undoable(undos, t) && Applies(inv, t)
    requires var u := undos[|undos| - 1];
             Applies(u, t) && Apply(inv, t) == Apply(u, t) && |inv.ins| == |u.ins|
    ensures var undos' := undos[..|undos| - 1] + [inv];
            Undoable(undos', t) && Past(undos', t) == Past(undos, t) && |Flat(undos')| == |Flat(undos)|
  {
    hide Splice, Flat;
    var n := |undos| - 1;
    var undos' := undos[..n] + [inv];
    PastPush(undos[..n], inv, t);
    FlatLast(undos);
    FlatLast(undos');
    assert undos'[..n] == undos[..n];
  }

  lemma FewerRedos(redos: seq<Edit>, k: nat, used: int)
    requires k <= |redos| && RoomToRedo(redos, used, CHAR_COUNT - |Flat(redos)|)
    ensures |Flat(redos[..k])| <= |Flat(redos)|
    ensures RoomToRedo(redos[..k], used, CHAR_COUNT - |Flat(redos[..k])|)
  {
    hide Flat, RoomToRedo;
    FlatConcat(redos[..k], redos[k..]);
    assert redos[..k] + redos[k..] == redos;
    RoomPrefix(redos, k, used, CHAR_COUNT - |Flat(redos)|, CHAR_COUNT - |Flat(redos[..k])|);
  }

  lemma ResumedIsValid(h: History, k: nat, inv: Edit, capacity: nat)
    requires Valid(h, capacity) && h.undos != [] && k <= |h.redos|
    requires var n := |h.undos| - 1;
             && Applies(h.undos[n], h.text) && Applies(inv, h.text) && Apply(inv, h.text) == Apply(h.undos[n], h.text)
             && |inv.ins| == |h.undos[n].ins|
    ensures var n := |h.undos| - 1;
            var h' := History(h.text, h.undos[..n] + [inv], h.redos[..k]);
            && Undoable(h'.undos, h'.text) && Redoable(h'.redos, h'.text) && Valid(h', capacity)
            && Versions(h') == Versions(h).(future := Versions(h).future[..k])
  {
    hide Splice, Apply, Flat, RoomToRedo, Undoable, Redoable, Past, Future;
    NewestReplaced(h.undos, inv, h.text);
    FuturePrefix(h.redos, k, h.text);
    FewerRedos(h.redos, k, |Flat(h.undos)|);
  }

  /** When redo brings the text back and reads as many characters as were saved, everything goes on as before
      the undo, except that the versions farthest ahead may have been lost. */
  lemma ResumedVersions(h: History, capacity: nat)
    requires Valid(h, capacity) && h.undos != []
    ensures Applies(h.undos[|h.undos| - 1], h.text) && |Kept(h)| <= |h.redos|
    ensures Undoable(h.undos, h.text) && Redoable(h.redos, h.text)
    ensures Restores(h) && |LeftEdit(h).value.ins| == |Saved(h)| ==>
              && Valid(Resumed(h), capacity) && LeftEdit(h).value.del == |h.undos[|h.undos| - 1].ins|
              && Versions(Resumed(h)) == Versions(h).(future := Versions(h).future[..|Kept(h)|])
  {
    hide Valid, Splice, RoomToRedo, Flat, Past, Future, Undoable, Redoable, Kept, Nearest, LeftEdit, LeftRecord;
    CanMove(h, capacity);
    NextUndo(h, capacity);
    KeptRoom(h, capacity);
    if Restores(h) && |LeftEdit(h).value.ins| == |Saved(h)| {
      var n, e, t, k := |h.undos| - 1, LeftEdit(h).value, Undone(h).text, |Kept(h)|;
      var u, inv := h.undos[n], Inverse(e, t);
      InverseApplies(e, t);
      FlatLast(h.undos);
      FlatLast(h.undos[..n] + [inv]);
      assert (h.undos[..n] + [inv])[..n] == h.undos[..n];
      assert e.del == |u.ins| by { LengthsAgree(h, e); }
      PastPush(h.undos[..n], inv, h.text);
      ResumedIsValid(h, k, inv, capacity);
    }
  }

  function Smaller(a: int, b: int): int { if a < b then a else b }

  function Larger(a: int, b: int): int { if a < b then b else a }

  lemma StartsWithSaved(h: History)
    requires h.undos != [] && Applies(h.undos[|h.undos| - 1], h.text)
    requires |Flat(h.undos)| + h.undos[|h.undos| - 1].del < CHAR_COUNT
    ensures var u := h.undos[|h.undos| - 1];
            u.del <= |Stored(h)| && Stored(h)[..u.del] == h.text[u.where..u.where + u.del]
  {
    hide Kept, Flat;
  }

  /** Between the places of two insertions a text and its previous version are alike if the text repeats. */
  lemma WithoutInsertion(u: Edit, t: string, where: int)
    requires Applies(u, t) && u.ins == "" && 0 <= where && where + u.del <= |t|
    ensures var t', lo, hi := Apply(u, t), Smaller(u.where, where), Larger(u.where, where);
            ReadsLike(t', t, u.where, where, 0) && ReadsLike(t', t, where, u.where, u.del)
            <==> ReadsLike(t, t, lo, hi, u.del)
  {
    var t' := Apply(u, t);
    forall i | u.where <= i < where ensures SameAt(t', t, i, 0) <==> SameAt(t, t, i, u.del) {
    }
    forall i | where <= i < u.where ensures SameAt(t', t, i, u.del) <==> SameAt(t, t, i, u.del) {
    }
    hide Splice, SameAt;
  }

  /** When both edits are insertions, as after two pastes, that means that they are equally long, and the text
      repeats with their length all the way from the one to the other. */
  lemma InsertionRestoredIff(h: History, capacity: nat)
    requires Valid(h, capacity) && h.undos != [] && !HasRoom(h)
    requires |Flat(h.undos)| + h.undos[|h.undos| - 1].del < CHAR_COUNT
    requires h.undos[|h.undos| - 1].ins == "" && h.redos[0].del == 0
    ensures Applies(h.undos[|h.undos| - 1], h.text)
    ensures var u, r, t := h.undos[|h.undos| - 1], h.redos[0], h.text;
            var m, lo, hi := u.del, Smaller(u.where, r.where), Larger(u.where, r.where);
            Restores(h) <==>
              && |r.ins| == m && r.where + m <= |t| && t[r.where..r.where + m] == t[u.where..u.where + m]
              && ReadsLike(t, t, lo, hi, m)
  {
    assert h.redos != [];
    hide Valid, Splice, Stored, Flat, ReadsLike, HasRoom, Restores, Inverse, Kept, Saved, LeftEdit, SameAt, LeftRecord;
    RestoredIff(h, capacity);
    NextUndo(h, capacity);
    StartsWithSaved(h);
    NextRedo(h, capacity);
    var u, r, t := h.undos[|h.undos| - 1], h.redos[0], h.text;
    if |r.ins| == u.del && r.where + u.del <= |t| {
      WithoutInsertion(u, t, r.where);
    }
  }

  function Spaces(n: nat): (s: string)
    ensures |s| == n
  {
    seq(n, _ => ' ')
  }

  /** Pasting spaces into spaces. */
  lemma PastedSpaces(n: nat, at: nat, m: nat)
    requires at <= n
    ensures Apply(Edit(at, Spaces(m), 0), Spaces(n)) == Spaces(n + m)
    ensures Inverse(Edit(at, Spaces(m), 0), Spaces(n)) == Edit(at, "", m)
    ensures Apply(Edit(at, "", m), Spaces(n + m)) == Spaces(n)
    ensures Inverse(Edit(at, "", m), Spaces(n + m)) == Edit(at, Spaces(m), 0)
  {
  }

  lemma NoneSaved(undos: seq<Edit>)
    requires forall i :: 0 <= i < |undos| ==> undos[i].ins == ""
    ensures Flat(undos) == "" && (|undos| < STATE_COUNT ==> Newest(undos, 0) == undos)
  {
    if undos != [] { NoneSaved(undos[1..]); }
  }

  /** A paste that is recorded behind edits that save no characters. */
  lemma PasteRecorded(h: History, n: nat, at: nat, m: nat, capacity: nat)
    requires Valid(h, capacity) && h.text == Spaces(n) && at <= n && n + m <= capacity && |h.undos| < 2
    requires forall i :: 0 <= i < |h.undos| ==> h.undos[i].ins == ""
    ensures Does(h, Change(Edit(at, Spaces(m), 0)), Recorded(h, Edit(at, Spaces(m), 0)), capacity)
    ensures Recorded(h, Edit(at, Spaces(m), 0)) == History(Spaces(n + m), h.undos + [Edit(at, "", m)], [])
    ensures Valid(Recorded(h, Edit(at, Spaces(m), 0)), capacity)
  {
    var e := Edit(at, Spaces(m), 0);
    assert Applies(e, h.text);
    hide Spaces, Apply, Inverse, Valid, Splice, Newest, Flat, Undoable, Redoable, Past, Future;
    PastedSpaces(n, at, m);
    NoneSaved(h.undos);
    RecordedVersions(h, e, capacity);
    assert Newest(h.undos, 0) + [Edit(at, "", m)] == h.undos + [Edit(at, "", m)];
  }

  /** Undoing the newest of such pastes. */
  lemma PasteUndone(h: History, n: nat, at: nat, m: nat, capacity: nat)
    requires Valid(h, capacity) && h.text == Spaces(n + m) && at <= n && m < CHAR_COUNT && h.redos == []
    requires h.undos != [] && h.undos[|h.undos| - 1] == Edit(at, "", m)
    requires forall i :: 0 <= i < |h.undos| ==> h.undos[i].ins == ""
    ensures Does(h, Undo, Undone(h), capacity) && Valid(Undone(h), capacity)
    ensures Undone(h) == History(Spaces(n), h.undos[..|h.undos| - 1], [Edit(at, Spaces(m), 0)])
  {
    hide Valid, Splice, Undoable, Redoable, Flat;
    PastedSpaces(n, at, m);
    NoneSaved(h.undos);
    NoPast("");
    assert HasRoom(h);
    UndoneVersions(h, capacity);
    NextUndo(h, capacity);
    CanMove(h, capacity);
    assert [Edit(at, Spaces(m), 0)] + h.redos == [Edit(at, Spaces(m), 0)];
  }

  /** Two pastes into a text of spaces and an undo: the history that they lead to. */
  lemma TwoPastes(start: nat, at: nat, m: nat, capacity: nat) returns (hs: seq<History>)
    requires at <= start + 600 && start + 600 + m <= capacity && 0 < m < CHAR_COUNT
    ensures Run(hs, [Change(Edit(0, Spaces(600), 0)), Change(Edit(at, Spaces(m), 0)), Undo], capacity)
    ensures hs[0] == History(Spaces(start), [], []) && Valid(hs[0], capacity) && Valid(hs[3], capacity)
    ensures hs[3] == History(Spaces(start + 600), [Edit(0, "", 600)], [Edit(at, Spaces(m), 0)])
  {
    var h0 := History(Spaces(start), [], []);
    NoPast(h0.text);
    assert Valid(h0, capacity);
    hide Valid, Recorded, Undone, Does;
    PasteRecorded(h0, start, 0, 600, capacity);
    var h1 := Recorded(h0, Edit(0, Spaces(600), 0));
    assert h1.undos == [Edit(0, "", 600)];
    PasteRecorded(h1, start + 600, at, m, capacity);
    var h2 := Recorded(h1, Edit(at, Spaces(m), 0));
    assert h2.undos == [Edit(0, "", 600), Edit(at, "", m)];
    PasteUndone(h2, start + 600, at, m, capacity);
    hs := [h0, h1, h2, Undone(h2)];
    assert h2.undos[..1] == [Edit(0, "", 600)];
    var actions := [Change(Edit(0, Spaces(600), 0)), Change(Edit(at, Spaces(m), 0)), Undo];
    assert Does(hs[0], actions[0], hs[1], capacity) && Does(hs[1], actions[1], hs[2], capacity);
    assert Does(hs[2], actions[2], hs[3], capacity);
  }

  lemma LacksRoom(h: History, at: nat, m: nat)
    requires h.undos == [Edit(0, "", 600)] && h.redos == [Edit(at, Spaces(m), 0)] && CHAR_COUNT < 600 + m
    ensures !HasRoom(h) && LeftRecord(h) == (at, m, 0) && |Flat(h.undos)| == 0 && |Flat(h.redos)| == m
  {
    assert h.undos[1..] == [] && h.redos[1..] == [];
    assert Flat(h.undos) == "" && Flat(h.redos) == Spaces(m);
  }

  /** After pasting 600 characters, then 500, and undoing, another undo has to discard the redo record of the
      first, leaves a record that says where the other paste was, and redo cannot bring the text back. */
  lemma TwoPastesLoseRedo(capacity: nat) returns (hs: seq<History>)
    requires 1100 <= capacity
    ensures Run(hs, [Change(Edit(0, Spaces(600), 0)), Change(Edit(600, Spaces(500), 0)), Undo], capacity)
    ensures hs[0] == History("", [], []) && Valid(hs[3], capacity) && hs[3].undos != []
    ensures !HasRoom(hs[3]) && LeftRecord(hs[3]) == (600, 500, 0) && |hs[3].text| == 600
    ensures Applies(hs[3].undos[|hs[3].undos| - 1], hs[3].text) && !Restores(hs[3])
  {
    hs := TwoPastes(0, 600, 500, capacity);
    hide Run, Valid, HasRoom, LeftRecord, Flat, Restores;
    assert Spaces(0) == "";
    LacksRoom(hs[3], 600, 500);
    InsertionRestoredIff(hs[3], capacity);
  }

  /** After pasting 600 spaces into 600 others, 600 more behind the first of them, and undoing, another undo
      leaves a record that is not the one of the undone edit, and still redo brings the text back. */
  lemma WrongRecordRestores(capacity: nat) returns (hs: seq<History>)
    requires 1800 <= capacity
    ensures Run(hs, [Change(Edit(0, Spaces(600), 0)), Change(Edit(1, Spaces(600), 0)), Undo], capacity)
    ensures hs[0] == History(Spaces(600), [], []) && Valid(hs[0], capacity) && Valid(hs[3], capacity)
    ensures hs[3].undos != [] && !HasRoom(hs[3]) && Applies(hs[3].undos[|hs[3].undos| - 1], hs[3].text)
    ensures var h := hs[3];
            var u := h.undos[|h.undos| - 1];
            LeftRecord(h) != (u.where, |Inverse(u, h.text).ins|, Inverse(u, h.text).del) && Restores(h)
  {
    hs := TwoPastes(600, 1, 600, capacity);
    hide Run, Valid, HasRoom, LeftRecord, Flat, Restores;
    LacksRoom(hs[3], 1, 600);
    InsertionRestoredIff(hs[3], capacity);
    var t := hs[3].text;
    assert t[1..601] == t[0..600];
    assert ReadsLike(t, t, 0, 1, 600);
  }

  // ----- Typing over -----

  /** The text after overwriting the character at `at` by `s`, which only gets in if the host has room. */
  function Overwritten(t: string, at: int, s: string, capacity: nat): string
    requires 0 <= at < |t|
  {
    var rest := Splice(t, at, 1, "");
    if |rest| + |s| <= capacity then Splice(rest, at, 0, s) else rest
  }

  /** The character goes in any case, and what was typed takes its place if the host has room for it. */
  lemma OverwrittenIs(t: string, at: int, s: string, capacity: nat)
    requires 0 <= at < |t|
    ensures Overwritten(t, at, s, capacity) ==
            if |t| - 1 + |s| <= capacity then t[..at] + s + t[at + 1..] else t[..at] + t[at + 1..]
  {
    DeleteThenInsert(t, at, 1, s);
    assert t[..at] + "" + t[at + 1..] == t[..at] + t[at + 1..];
  }

  /** Overwriting records the replacement of one character by one: the record takes the text back exactly
      when one character was typed. */
  lemma OverwriteRecordIff(t: string, at: int, s: string, capacity: nat)
    requires 0 <= at < |t| <= capacity
    ensures var e, t' := Edit(at, t[at..at + 1], 1), Overwritten(t, at, s, capacity);
            Applies(e, t') && Apply(e, t') == t <==> |s| == 1
  {
    if |s| == 1 {
      DeleteThenInsert(t, at, 1, s);
      InverseApplies(Edit(at, s, 1), t);
    }
  }

  lemma OverwriteOne(h: History, at: int, s: string, capacity: nat)
    requires Valid(h, capacity) && 0 <= at < |h.text| && |s| == 1
    ensures var undos := Newest(h.undos, 1) + [Edit(at, h.text[at..at + 1], 1)];
            var h' := History(Overwritten(h.text, at, s, capacity), undos, []);
            h' == Recorded(h, Edit(at, s, 1)) && Valid(h', capacity)
  {
    DeleteThenInsert(h.text, at, 1, s);
    RecordedVersions(h, Edit(at, s, 1), capacity);
  }
}
