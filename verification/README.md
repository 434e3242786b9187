# Models and proofs of the self-contained algorithms

The client's external headers hold a handful of algorithms that stand on their own. This project models them
in Dafny and proves what they are for. Code that changes state step by step is modelled by classes, arrays and
loops, each proved against functions on values; the theorems are about those functions and about runs.

**The skyline rectangle packer** (`Columns`, `Skyline`, `Waste`, `Rounding`, `Packing`, `Optimal`, `NodeStorage`,
`Leader`, `NodeLists`, `RectPacker`, `RectArray`). A skyline means one height per column. On every skyline that runs
reach, the packer's walk over the nodes computes the resting height and the area wasted under a rectangle, and the
position it picks is the first of *all* columns by height, waste and place. What it packs over any run of calls
lies inside the target and apart. `RectPacker.Context` is the packer as it runs, an array of nodes
whose links are redirected in place, and `RectArray` the call that sorts, packs and restores an array.

**Undo and redo of the text field** (`UndoBuffer`, `History`, `TextField`). Two stacks of records grow towards
each other in one array, and their saved characters in another, with compaction by moving memory. Two stacks
of edits are what the arrays hold; a zipper of text versions is what the stacks mean. `TextField.Field` carries
out every operation on the arrays.

**Polygons** (`Polygon`, `Triangulate`, `Sides`, `SimpleRings`, `Winding`, `TwoEars`, `Convexity`, `Monotone`,
`NodeMap`, `Walks`, `ContourTrace`). Ear clipping conserves area. Every simple polygon with no three vertices on a line
has an ear, even one away from any given edge, so clipping covers it completely; so it does where vertices lie on a
line, if the polygon is monotone in a direction in which no two vertices are level. A simple polygon that turns left
everywhere is convex, so all triangles run counter-clockwise, those of a fan too, unless a corner turns right by so
little that the test for convexity lets it pass. The spatial hash agrees with a plain scan, and the contour tracer uses
every edge exactly once, at every step the first one counter-clockwise from straight ahead. Its walks all come back to
where they started exactly when every node has as many edges out as in.

**The BC7 block decoder** (`Bits`, `Bc7Tables`, `Bc7`, `Bc7Places`, `Bc7Decode`, `Bc7Image`). The place of every field
of a block in closed form and in plain numbers, how exact the texels are, and the one-pass decoder and the image loop
proved to produce exactly those texels.

**The settings codec** (`Base64`, `ShareCode`, `JsonValues`, `HexKeys`, `Fields`, `ConfigDelta`, `Registry`,
`Sharing`). Base 64 with its exact canonical form, share codes under white space, and the export of the settings that
differ from a baseline, with its round trip from any prior state; settings shared from one registry to another
arrive whatever happens to the white space.

`Basics` and `Permutations` hold what several parts share. `dafny verify dfyconfig.toml` checks everything.

## Where the code and its own words differ

The models follow the code. In these places it does not do what its comments say, and the exact condition is
proved:

- The packer's header says that quantized widths guarantee enough nodes. Packing places rectangles by their
  unrounded width, so in targets two or more high they do exactly when there is a node per column; the lower
  ones are settled too (`NodeStorage.StorageSufficesIff`).
- Undo fetches its redo record again after discarding others, and then keeps what an older record says. The
  record it leaves is right exactly under the condition of `History.LeftRecordRightIff`, and brings the text back
  exactly under that of `History.RestoredIff`; when there can be no room for the saved characters it never does
  (`History.FullBufferLosesText`).
- In insert mode the undo record says that one character replaced one, whatever was typed; it takes the text
  back exactly when one character was (`History.OverwriteRecordIff`).
- The block decoder shortens the index of the two-subset anchor in the modes with three subsets too. When that
  anchor is no three-subset one, every later index is read one bit early and the last bit of the block never
  (`Bc7.WholeBlockIff`). Two partitions have their second anchor outside its subset
  (`Bc7Tables.AnchorInItsSubsetIff`). No claim is made that modes 0 and 2 agree with the format's standard.

## Model

| member | source | states |
|---|---|---|
| Skyline.MinYIsRest | velocity-cs2/project/external/imgui/imstb_rectpack.h:291-339 | The height that the walk over the nodes reports is the greatest column height under the span, wherever in its first node the span starts |
| Skyline.MinYWasteIsGap | velocity-cs2/project/external/imgui/imstb_rectpack.h:311-338 | The accumulated waste is the area between the columns and the rectangle resting on them, if the span starts at a node or inside a node above the floor |
| Waste.WasteExactIff | velocity-cs2/project/external/imgui/imstb_rectpack.h:311-338 | On any skyline whatever the accumulated waste is never below the area, and equals it exactly when the span starts at its node or above the floor, ends in that node, or of the nodes reaching into its last columns (as many as it starts behind its node) the last is on the floor and every other is on the floor or higher than all before it; that reached skylines meet it is stated by Optimal.ReachedWasteIsArea |
| Waste.Surplus | velocity-cs2/project/external/imgui/imstb_rectpack.h:314-335 | However many columns the walk has counted too much, the waste exceeds the area by what it has already wasted, and by more exactly when the surplus still does harm |
| Waste.NextSurplus | velocity-cs2/project/external/imgui/imstb_rectpack.h:314-335 | A rise keeps the surplus, a lower node shortens it to the columns that are left, and each column taken off adds the height of its node |
| Waste.WasteIsGap | velocity-cs2/project/external/imgui/imstb_rectpack.h:311-338 | When only the last node can be on the floor, height and waste reported for any span are those of the columns under it |
| Skyline.PlaceWellFormed | velocity-cs2/project/external/imgui/imstb_rectpack.h:464-499 | Cutting a rectangle into the skyline leaves nodes that start at 0, increase strictly, end in the sentinel, and are at most one more than before |
| Skyline.PlaceHeight | velocity-cs2/project/external/imgui/imstb_rectpack.h:475-499 | After the cut a column has the new height exactly under the rectangle, and to its right as far as the node reached that it landed inside; its old height everywhere else |
| Rounding.RoundUpDivides | velocity-cs2/project/external/imgui/imstb_rectpack.h:353-356 | The rounded width is a multiple of the alignment |
| Rounding.AlignBounds | velocity-cs2/project/external/imgui/imstb_rectpack.h:245-263 | The default alignment times the number of nodes covers the width, is at most the width, and is 1 exactly when there is a node per column |
| Rounding.RoundUp | velocity-cs2/project/external/imgui/imstb_rectpack.h:353-356 | The rounded width is at least the width and less than one alignment more |
| Packing.MeasureIsRest | velocity-cs2/project/external/imgui/imstb_rectpack.h:365-389 | What is measured at any column is the resting height there, and within the target |
| Packing.BestIsUnique | velocity-cs2/project/external/imgui/imstb_rectpack.h:365-446 | Height, waste and column together decide: at most one position is the best one |
| Packing.BestIsLowest | velocity-cs2/project/external/imgui/imstb_rectpack.h:365-446 | The best position rests no higher than the rectangle would at any column whatever, aligned with a node or not (for best fit: at any column where it is not too high) |
| Packing.SlideLeft | velocity-cs2/project/external/imgui/imstb_rectpack.h:365-389 | Sliding a rectangle left to the start of the node under its left edge never lifts it |
| Packing.FindsPosition | velocity-cs2/project/external/imgui/imstb_rectpack.h:347-447 | When the rectangle fits at some column, a best position exists and the rectangle fits there |
| Packing.PackedIffFits | velocity-cs2/project/external/imgui/imstb_rectpack.h:449-462 | A request is met exactly when the rectangle fits on the skyline somewhere and a node is free |
| Optimal.SlidesAligned | velocity-cs2/project/external/imgui/imstb_rectpack.h:393-411 | Every column is matched by one that a node is aligned with on either side, no higher, and with less waste or with no more and further left |
| Optimal.BestIffLeast | velocity-cs2/project/external/imgui/imstb_rectpack.h:347-447 | The position picked is the least of all integer columns: lowest, then (best fit) with the least area wasted under the rectangle, then leftmost; nothing but column heights decides it |
| Optimal.InsideAboveFloor | velocity-cs2/project/external/imgui/imstb_rectpack.h:416-441 | A position inside a node is never in one on the floor, where the start of the node is as good |
| Optimal.PacksKeepsFloor | velocity-cs2/project/external/imgui/imstb_rectpack.h:449-499 | Each request leaves only the last node on the floor, if any |
| Optimal.ReachedWasteIsArea | velocity-cs2/project/external/imgui/imstb_rectpack.h:291-338 | Over every run from a fresh target, heuristic and alignment switched at will, the waste reported for any span of the skyline is the area between the columns and the rectangle resting on them |
| Optimal.ReachedBestIffFirst | velocity-cs2/project/external/imgui/imstb_rectpack.h:347-447 | Over every such run a position is picked exactly when, of all integer columns of the target, no other lets the rectangle rest lower, or as low with (best fit) less area left unused under it, or as low (with as little) farther left |
| Optimal.ReachedPacksFirst | velocity-cs2/project/external/imgui/imstb_rectpack.h:449-526 | Whatever such a run packs goes to that column, rests there on the highest column under it, and lies within the target |
| Packing.PackedHeights | velocity-cs2/project/external/imgui/imstb_rectpack.h:464-499 | A met request puts the top of the rectangle on its columns, lowers no column, and changes no other column under bottom-left or without rounding |
| Packing.PacksKeepsValid | velocity-cs2/project/external/imgui/imstb_rectpack.h:449-526 | Every request keeps the skyline well-formed, inside the target, and within the number of nodes |
| Packing.PacksKeepsSafe | velocity-cs2/project/external/imgui/imstb_rectpack.h:449-526 | Every request keeps all boxes inside the target, pairwise disjoint and below the skyline |
| Packing.InitIsSafe | velocity-cs2/project/external/imgui/imstb_rectpack.h:265-288 | A fresh target is in order and empty, all columns at 0, and packs bottom-left |
| Packing.RunIsSafe | velocity-cs2/project/external/imgui/imstb_rectpack.h:94-116 | Over every run of packing and set-up calls on one target, all packed boxes lie inside it and are pairwise disjoint |
| NodeStorage.StorageSufficesIff | velocity-cs2/project/external/imgui/imstb_rectpack.h:147-153 | Quantized widths never run out of nodes exactly when there is a node per column, or the target is of height 0, or of height 1 and narrower than nodes and alignment together; so the promise for fewer nodes is false |
| NodeStorage.EnoughNodes | velocity-cs2/project/external/imgui/imstb_rectpack.h:147-148 | With a node per column a free node is left after any history |
| NodeStorage.LowRun | velocity-cs2/project/external/imgui/imstb_rectpack.h:245-263 | In a target of height 1 every node but one stands for a column above the floor, over every quantized run |
| Leader.ChallengeLeads | velocity-cs2/project/external/imgui/imstb_rectpack.h:367-389 | Comparing columns one at a time keeps the one preferred to all seen so far |
| Leader.TakesLeftDecides | velocity-cs2/project/external/imgui/imstb_rectpack.h:370-386 | Coming from the left, the test of the first pass takes a column exactly when it is preferred to all before it |
| Leader.TakesRightDecides | velocity-cs2/project/external/imgui/imstb_rectpack.h:428-438 | In any order, the test of the second pass takes a column exactly when it is preferred |
| Leader.SeenIsTried | velocity-cs2/project/external/imgui/imstb_rectpack.h:365-440 | The two passes see exactly the columns aligned left or (best fit) right with a node |
| Leader.LeaderIsBest | velocity-cs2/project/external/imgui/imstb_rectpack.h:443-446 | The column that leads after both passes beats every other one that is compared, and if none leads, none is comparable |
| NodeLists.AllFree | velocity-cs2/project/external/imgui/imstb_rectpack.h:265-288 | The initial links make two lists that share out all nodes |
| NodeLists.OpenAt | velocity-cs2/project/external/imgui/imstb_rectpack.h:475-483 | Redirecting one link opens the active list at any place and loses no node |
| NodeLists.FreeOne | velocity-cs2/project/external/imgui/imstb_rectpack.h:487-493 | Moving a covered node to the free list keeps every node in exactly one place |
| NodeLists.StitchLists | velocity-cs2/project/external/imgui/imstb_rectpack.h:495-499 | Stitching the list back in leaves two lists that share out all nodes again |
| NodeLists.MovedIsPlaced | velocity-cs2/project/external/imgui/imstb_rectpack.h:475-499 | The relinked list, read as a skyline, is the old skyline with the rectangle placed on it |
| RectPacker.Context.InitTarget | velocity-cs2/project/external/imgui/imstb_rectpack.h:265-288 | The array of linked nodes stands for the fresh packer, all nodes shared out between the lists |
| RectPacker.Context.SetupAllowOutOfMem | velocity-cs2/project/external/imgui/imstb_rectpack.h:245-263 | Changes only the alignment |
| RectPacker.Context.SetupHeuristic | velocity-cs2/project/external/imgui/imstb_rectpack.h:233-243 | Changes only the heuristic |
| RectPacker.Context.FindMinY | velocity-cs2/project/external/imgui/imstb_rectpack.h:291-339 | The walk along the links computes the resting height of the columns under the span and the area wasted there |
| RectPacker.Context.TryLeft | velocity-cs2/project/external/imgui/imstb_rectpack.h:365-391 | The first pass keeps the leader of all columns where a node starts, and the link to its node |
| RectPacker.Context.TryRight | velocity-cs2/project/external/imgui/imstb_rectpack.h:410-441 | The second pass adds the columns where a rectangle ends at a node |
| RectPacker.Context.FirstTail | velocity-cs2/project/external/imgui/imstb_rectpack.h:411-416 | Finds the first node that leaves room for the rectangle on its left |
| RectPacker.Context.FindLeft | velocity-cs2/project/external/imgui/imstb_rectpack.h:421-426 | Moves on to the node that covers the column |
| RectPacker.Context.FindBestPos | velocity-cs2/project/external/imgui/imstb_rectpack.h:347-447 | Finds the unique best position and the link to the node it lies in, or there is none |
| RectPacker.Context.FreeCovered | velocity-cs2/project/external/imgui/imstb_rectpack.h:485-493 | Frees exactly the nodes that the rectangle covers |
| RectPacker.Context.TakeFree | velocity-cs2/project/external/imgui/imstb_rectpack.h:464-469 | Takes the head of the free list, which is then in neither list |
| RectPacker.Context.Redirect | velocity-cs2/project/external/imgui/imstb_rectpack.h:475-483 | Redirects a link to the new node and loses none |
| RectPacker.Context.FreeFirst | velocity-cs2/project/external/imgui/imstb_rectpack.h:488-492 | Moves one node from the active to the free list |
| RectPacker.Context.Cut | velocity-cs2/project/external/imgui/imstb_rectpack.h:475-483 | Opens the list behind the nodes that stay in front of the rectangle |
| RectPacker.Context.Stitch | velocity-cs2/project/external/imgui/imstb_rectpack.h:495-499 | Closes the list and moves the node behind the rectangle to its right edge |
| RectPacker.Context.Insert | velocity-cs2/project/external/imgui/imstb_rectpack.h:464-499 | Relinking in place makes the skyline that has the rectangle placed on it, and keeps every node in one list |
| RectPacker.Context.PackRectangle | velocity-cs2/project/external/imgui/imstb_rectpack.h:449-526 | One call is one request of the packer that the nodes stand for, and records the box |
| RectArray.Sort | velocity-cs2/project/external/imgui/imstb_rectpack.h:555-573 | Stands for the sort that is called: orders, and permutes |
| RectArray.Tag | velocity-cs2/project/external/imgui/imstb_rectpack.h:550-553 | Every rectangle is tagged with its place |
| RectArray.Flag | velocity-cs2/project/external/imgui/imstb_rectpack.h:575-583 | Flags, and whether all of them are set |
| RectArray.PackOne | velocity-cs2/project/external/imgui/imstb_rectpack.h:559-569 | One rectangle is answered in place: an empty one at the origin, one that is left out outside |
| RectArray.PackInOrder | velocity-cs2/project/external/imgui/imstb_rectpack.h:558-570 | The answers to all rectangles, on one continuing packer |
| RectArray.ServingKeepsSafe | velocity-cs2/project/external/imgui/imstb_rectpack.h:558-570 | All requests of a call together keep everything packed so far safe |
| RectArray.ServedApart | velocity-cs2/project/external/imgui/imstb_rectpack.h:558-570 | The boxes of two rectangles packed in one call are apart |
| RectArray.CallIsSafe | velocity-cs2/project/external/imgui/imstb_rectpack.h:94-116 | After a call every rectangle has its id and size, is flagged 0 or 1, and the packed ones that take up space lie inside the target, apart from each other and from all boxes of earlier calls |
| RectArray.PackedIffItFits | velocity-cs2/project/external/imgui/imstb_rectpack.h:104-106 | With a node per column, a rectangle is flagged exactly when it fitted somewhere at its turn |
| RectArray.TallerGoesFirst | velocity-cs2/project/external/imgui/imstb_rectpack.h:528-570 | A taller rectangle has its turn before every lower one, and of equally tall ones a wider before a narrower |
| RectArray.EmptyAndLeftOut | velocity-cs2/project/external/imgui/imstb_rectpack.h:558-580 | Empty rectangles count as packed at the origin; those left out end up at the largest coordinates |
| RectArray.AnswersAreFlagged | velocity-cs2/project/external/imgui/imstb_rectpack.h:575-580 | No packed rectangle lies where left-out ones are put, so the flag is set exactly for those that were answered |
| RectArray.CallServes | velocity-cs2/project/external/imgui/imstb_rectpack.h:546-584 | Tagging, sorting, packing, sorting back and flagging together fill the answers into the array in its own order |
| RectArray.PackRects | velocity-cs2/project/external/imgui/imstb_rectpack.h:546-584 | The array keeps its order; every rectangle is answered tallest first on one continuing packer; the result is 1 exactly when all are flagged |
| UndoBuffer.FlushRedoHolds | velocity-cs2/project/external/imgui/imstb_textedit.h:1142-1146 | Dropping redo leaves the undo stack and its saved characters |
| UndoBuffer.DiscardUndoHolds | velocity-cs2/project/external/imgui/imstb_textedit.h:1149-1165 | After compaction every other record still finds its own characters, contiguous at the front, and redo is untouched |
| UndoBuffer.DiscardRedoHolds | velocity-cs2/project/external/imgui/imstb_textedit.h:1171-1199 | After compaction every other redo record still finds its own characters, contiguous at the end, and undo is untouched |
| UndoBuffer.PushUndoHolds | velocity-cs2/project/external/imgui/imstb_textedit.h:1222-1242 | A record pushed into free space joins the undo stack and disturbs neither stack |
| UndoBuffer.PushRedoHolds | velocity-cs2/project/external/imgui/imstb_textedit.h:1288-1310 | The same for redo |
| UndoBuffer.PopUndoHolds | velocity-cs2/project/external/imgui/imstb_textedit.h:1300-1310 | Moving the undo point back takes exactly the newest edit off |
| UndoBuffer.PopRedoHolds | velocity-cs2/project/external/imgui/imstb_textedit.h:1352-1361 | Moving the redo point on takes exactly the next edit off |
| UndoBuffer.SomethingHeld | velocity-cs2/project/external/imgui/imstb_textedit.h:1218-1220 | Saved characters belong to some record, so making room by discarding ends |
| UndoBuffer.NearestIsLongest | velocity-cs2/project/external/imgui/imstb_textedit.h:1279-1285 | Making room for redo keeps the longest run of nearest edits that leaves the room asked for |
| UndoBuffer.DiscardRedoLeaves | velocity-cs2/project/external/imgui/imstb_textedit.h:1284-1289 | After discarding, the record in front of the redo stack reads like the one on top of it |
| UndoBuffer.SavedThenPopped | velocity-cs2/project/external/imgui/imstb_textedit.h:1286-1310 | Storing the deleted characters and moving both points moves one edit from undo to redo |
| UndoBuffer.SavedThenPoppedRedo | velocity-cs2/project/external/imgui/imstb_textedit.h:1341-1361 | And back again |
| UndoBuffer.StoredInFront | velocity-cs2/project/external/imgui/imstb_textedit.h:1286-1294 | Storing the deleted characters leaves the record in front of the redo stack that was kept, with those characters in front of its own |
| UndoBuffer.ReadsOn | velocity-cs2/project/external/imgui/imstb_textedit.h:1349-1352 | From where a left-over record points to, the array goes on with the saved characters and then those of the edits below |
| History.InverseApplies | velocity-cs2/project/external/imgui/imstb_textedit.h:1252-1308 | The recorded inverse takes the text back, and its inverse is the edit itself |
| History.NewestIsLongest | velocity-cs2/project/external/imgui/imstb_textedit.h:1206-1220 | Making room keeps the longest run of newest edits that leaves the room asked for |
| History.RecordedVersions | velocity-cs2/project/external/imgui/imstb_textedit.h:1225-1243 | Recording adds the present version to the past, drops at most a run of oldest versions, and ends the future |
| History.RecordedLoses | velocity-cs2/project/external/imgui/imstb_textedit.h:1201-1240 | Recording loses exactly as many of the oldest versions as it takes for the record and its characters to fit, none if they fit, and all if they never could |
| History.UndoneVersions | velocity-cs2/project/external/imgui/imstb_textedit.h:1245-1311 | Undo with room steps back to exactly the previous version, and the present becomes the nearest future |
| History.RedoHasRoom | velocity-cs2/project/external/imgui/imstb_textedit.h:1324-1338 | However a run of edits, undos with room and redos got there, the branch of redo for lack of room is not taken |
| History.RedoneVersions | velocity-cs2/project/external/imgui/imstb_textedit.h:1313-1362 | Redo steps on to exactly the next version |
| History.UndoRedoInverse | velocity-cs2/project/external/imgui/imstb_textedit.h:1245-1362 | Redo after undo and undo after redo bring back the very same history |
| History.DoesMoves | velocity-cs2/project/external/imgui/imstb_textedit.h:1201-1387 | Every step is a step on the list of versions |
| History.RunMoves | velocity-cs2/project/external/imgui/imstb_textedit.h:1201-1387 | So is every step of every run of edits, undos with room and redos |
| History.LeftRecordRightIff | velocity-cs2/project/external/imgui/imstb_textedit.h:1272-1289 | The record that undo leaves for redo is right exactly when there is room, or the redo record before it happens to say the same |
| History.FullBufferLosesText | velocity-cs2/project/external/imgui/imstb_textedit.h:1272-1274 | When the undo characters fill the buffer, redoing does not bring the text back |
| History.KeptIsLongest | velocity-cs2/project/external/imgui/imstb_textedit.h:1262-1296 | Undo keeps all redo records if it saves nothing or can have no room, and otherwise the longest prefix that leaves room for what it saves |
| History.RestoredIff | velocity-cs2/project/external/imgui/imstb_textedit.h:1252-1352 | Without room, replaying the record that undo leaves brings the text back exactly when the characters could be saved at all, the record it was laid over changes the length as much, the characters it finds are those it stands for, and the text repeats between the two places |
| History.InsertionRestoredIff | velocity-cs2/project/external/imgui/imstb_textedit.h:1252-1352 | For two insertions that means equally long ones, with a text that repeats with their length all the way between them |
| History.ResumedVersions | velocity-cs2/project/external/imgui/imstb_textedit.h:1245-1362 | When such a redo brings the text back and reads as many characters as were saved, the versions are those from before the undo, but for the farthest ones ahead |
| History.WrongRecordRestores | velocity-cs2/project/external/imgui/imstb_textedit.h:1252-1352 | A run of two pastes and an undo after which the next undo leaves a record that is not the one of the undone edit, and still redo brings the text back |
| History.TwoPastesLoseRedo | velocity-cs2/project/external/imgui/imstb_textedit.h:1279-1286 | A run of two pastes and an undo after which the next undo leaves a wrong record, and redo cannot bring the text back |
| History.OverwriteRecordIff | velocity-cs2/project/external/imgui/imstb_textedit.h:749-756 | The record of an overwritten character takes the text back exactly when one character was typed |
| History.OverwriteOne | velocity-cs2/project/external/imgui/imstb_textedit.h:749-756 | And then it is an ordinary recorded edit |
| History.OverwrittenIs | velocity-cs2/project/external/imgui/imstb_textedit.h:749-756 | Typing over takes the character away in any case and puts what was typed in its place if the host has room |
| TextField.Field.constructor | velocity-cs2/project/external/imgui/imstb_textedit.h:1390-1405 | The arrays hold two empty stacks, whatever they contain |
| TextField.Field.DeleteChars | velocity-cs2/project/external/imgui/imgui_widgets.cpp:4081-4090 | The host removes the characters |
| TextField.Field.InsertChars | velocity-cs2/project/external/imgui/imgui_widgets.cpp:4092-4123 | The host inserts the characters if they fit or its buffer may grow, which it then does by the amount stated, and does nothing otherwise |
| TextField.Field.MemMove | velocity-cs2/project/external/imgui/imstb_textedit.h:1157-1163 | An overlapping move carries the old contents |
| TextField.Field.FlushRedo | velocity-cs2/project/external/imgui/imstb_textedit.h:1142-1146 | The arrays hold the same undo stack and no redo |
| TextField.Field.FreeUndoChars | velocity-cs2/project/external/imgui/imstb_textedit.h:1152-1161 | The characters of the oldest record go and the positions of the others follow |
| TextField.Field.DiscardUndo | velocity-cs2/project/external/imgui/imstb_textedit.h:1149-1165 | The arrays hold the undo stack without its oldest edit |
| TextField.Field.FreeRedoChars | velocity-cs2/project/external/imgui/imstb_textedit.h:1176-1186 | The same on the redo side, where the characters lie at the end |
| TextField.Field.DiscardRedo | velocity-cs2/project/external/imgui/imstb_textedit.h:1171-1199 | The arrays hold the redo stack without its oldest edit |
| TextField.Field.ShiftStorage | velocity-cs2/project/external/imgui/imstb_textedit.h:1158-1160 | The positions of saved characters in a range of records move together |
| TextField.Field.CreateUndoRecord | velocity-cs2/project/external/imgui/imstb_textedit.h:1201-1223 | Keeps the longest run of newest edits that leaves room, or nothing if the characters can never fit |
| TextField.Field.WriteUndo | velocity-cs2/project/external/imgui/imstb_textedit.h:1225-1243 | Writes the record behind the newest one and the characters behind those saved |
| TextField.Field.MakeUndo | velocity-cs2/project/external/imgui/imstb_textedit.h:1225-1243 | The undo stack gains the inverse of the edit, with the characters of the text as it is now |
| TextField.Field.SaveChars | velocity-cs2/project/external/imgui/imstb_textedit.h:1374-1375 | Copies characters of the text into the array and leaves the rest of it |
| TextField.Field.Undo | velocity-cs2/project/external/imgui/imstb_textedit.h:1245-1311 | Restores the previous version and, with room, moves the edit to redo; without room the text and the undo stack are still right, and the redo side is the left-over record with its saved characters in front of exactly the edits that were kept |
| TextField.Field.LeftOverIsEdit | velocity-cs2/project/external/imgui/imstb_textedit.h:1286-1352 | The left-over record is that of an edit whose characters it finds in the array, so replaying it does to the text what that edit does |
| TextField.Field.RedoLeftOver | velocity-cs2/project/external/imgui/imstb_textedit.h:1313-1362 | Redo after an undo without room carries out the left-over edit, brings the text back exactly when it should, adds the inverse to the undo stack when there is room, and leaves a valid field when it reads as many characters as were saved |
| TextField.Field.MakeRedoRoom | velocity-cs2/project/external/imgui/imstb_textedit.h:1279-1285 | Discarding redo records ends, makes the room, keeps the nearest edits that leave it, and does not touch the undo side |
| TextField.Field.SaveDeleted | velocity-cs2/project/external/imgui/imstb_textedit.h:1261-1294 | The three cases of saving deleted characters: the record each leaves, the characters in front of it and the redo stack behind |
| TextField.Field.SaveForRedo | velocity-cs2/project/external/imgui/imstb_textedit.h:1252-1294 | Writes the redo record and leaves the undo side alone |
| TextField.Field.ReplayRecord | velocity-cs2/project/external/imgui/imstb_textedit.h:1296-1308 | Carries out on the text the edit that a record stands for |
| TextField.Field.TakeOff | velocity-cs2/project/external/imgui/imstb_textedit.h:1300-1310 | Moves the points past the undone record |
| TextField.Field.SaveForUndo | velocity-cs2/project/external/imgui/imstb_textedit.h:1320-1347 | Writes the undo record and saves what redo deletes, for which there is always room |
| TextField.Field.SaveUndoRecord | velocity-cs2/project/external/imgui/imstb_textedit.h:1326-1345 | Both branches: the undo record with the characters that redo deletes, or without room a record that says nothing |
| TextField.Field.TakeOffRedo | velocity-cs2/project/external/imgui/imstb_textedit.h:1352-1361 | Moves the points past the redone record: one edit has moved from redo to undo |
| TextField.Field.Redo | velocity-cs2/project/external/imgui/imstb_textedit.h:1313-1362 | Brings the next version and moves the edit back to undo, always |
| TextField.Field.Clamp | velocity-cs2/project/external/imgui/imstb_textedit.h:581-593 | Selection and cursor end up inside the text, moved only when they were outside or the selection vanished |
| TextField.Field.Delete | velocity-cs2/project/external/imgui/imstb_textedit.h:595-600 | A deletion is a recorded edit |
| TextField.Field.DeleteSelection | velocity-cs2/project/external/imgui/imstb_textedit.h:603-616 | Deletes and records the selection in whichever direction it runs, and ends it |
| TextField.Field.SelectionIsDeleted | velocity-cs2/project/external/imgui/imstb_textedit.h:581-616 | What lies between the two ends of the selection goes, as far as the text reaches, recorded as one edit if it is anything, and the cursor moves to the lower end |
| TextField.Field.InsertAtCursor | velocity-cs2/project/external/imgui/imstb_textedit.h:727-735 | Inserts and records if the host has room, and does nothing otherwise |
| TextField.Field.TypeOver | velocity-cs2/project/external/imgui/imstb_textedit.h:749-756 | Overwrites one character; an ordinary recorded edit when one was typed |
| TextField.Field.Paste | velocity-cs2/project/external/imgui/imstb_textedit.h:722-737 | Replaces the selection in two recorded edits; if the text does not fit, the selection is gone all the same |
| TextField.Field.Type | velocity-cs2/project/external/imgui/imstb_textedit.h:743-765 | Types as a recorded edit over the selection, or over one character in insert mode |
| Polygon.CutVertex | velocity-cs2/project/external/poly2d.hpp:720-731 | Cutting a vertex off a ring takes away exactly the signed area of its corner triangle |
| Polygon.ReversedArea | velocity-cs2/project/external/poly2d.hpp:87-90 | Reversing a ring turns its signed area around |
| Polygon.TrapezoidsAreArea | velocity-cs2/project/external/poly2d.hpp:79-86 | The sum of the orientation test is minus twice the signed area |
| Polygon.BaseTimesHeight | velocity-cs2/project/external/poly2d.hpp:36-39 | The cross product of three points is base times height, positive counter-clockwise |
| Polygon.EnsureCcw | velocity-cs2/project/external/poly2d.hpp:77-92 | The polygon is left or reversed in place, and its signed area ends up not negative |
| Polygon.Reverse | velocity-cs2/project/external/poly2d.hpp:88-90 | Reverses in place |
| Polygon.SignedArea | velocity-cs2/project/external/poly2d.hpp:676-683 | The loop computes the shoelace sum around the ring |
| Triangulate.FanConservesArea | velocity-cs2/project/external/poly2d.hpp:660-669 | The signed areas of the fan add up to that of the polygon |
| Triangulate.ClippingConservesArea | velocity-cs2/project/external/poly2d.hpp:691-738 | However far clipping has got, triangles and remaining ring have the area of the ring it started from, and each triangle has cost one vertex |
| Triangulate.ClippedPositive | velocity-cs2/project/external/poly2d.hpp:705-708 | Every clipped triangle runs strictly counter-clockwise |
| Triangulate.ClippedCompletely | velocity-cs2/project/external/poly2d.hpp:691-738 | A ring clipped down to two vertices has been covered completely, and then its area is positive |
| Triangulate.ClippingIsUnique | velocity-cs2/project/external/poly2d.hpp:689-738 | Clipping as far as possible has one outcome only |
| Triangulate.SplitConservesArea | velocity-cs2/project/external/poly2d.hpp:637-741 | Fan or clipped ears, nothing of the area is lost |
| Triangulate.FirstEarIsClipped | velocity-cs2/project/external/poly2d.hpp:690-738 | Each triangle is the first ear of the ring it is cut from, and no other vertex lies in it or on its edges |
| Triangulate.HoldsIff | velocity-cs2/project/external/poly2d.hpp:718-723 | The test finds exactly the points that are means of the corners, in the triangle or on its edges |
| Triangulate.ReflexIsClipped | velocity-cs2/project/external/poly2d.hpp:647-738 | One corner anywhere that turns right by more than the tolerance has the polygon clipped, into triangles that all run counter-clockwise |
| Triangulate.OthersAreFanned | velocity-cs2/project/external/poly2d.hpp:647-669 | Otherwise the triangles are the first vertex with every edge that it is not on |
| Triangulate.IsConvex | velocity-cs2/project/external/poly2d.hpp:647-655 | Whether no corner turns right by more than the tolerance |
| Triangulate.IsEar | velocity-cs2/project/external/poly2d.hpp:698-718 | Whether a vertex is an ear of the ring |
| Triangulate.FindEar | velocity-cs2/project/external/poly2d.hpp:696-735 | Finds the first vertex whose triangle is strictly counter-clockwise and holds no other vertex, or there is none |
| Triangulate.InitialRing | velocity-cs2/project/external/poly2d.hpp:671-687 | The index ring runs over the polygon, turned around when its area is negative |
| Triangulate.ClipEars | velocity-cs2/project/external/poly2d.hpp:689-738 | Clipping stops only when two vertices are left or no vertex is an ear, never because of the safety counter |
| Triangulate.Triangulate | velocity-cs2/project/external/poly2d.hpp:637-741 | The fan for polygons that pass the convexity test; otherwise first ears in turn, their number and area accounting for all that was cut off |
| SimpleRings.EmptyClear | velocity-cs2/project/external/poly2d.hpp:698-731 | The segment that closes the gap of an empty corner crosses no edge |
| TwoEars.FindChord | velocity-cs2/project/external/poly2d.hpp:696-735 | Where the first vertex is no ear, a chord from it to a vertex in its corner crosses no edge |
| TwoEars.PositiveArea | velocity-cs2/project/external/poly2d.hpp:671-687 | A simple polygon that turns left at its first vertex in some direction has a positive area |
| TwoEars.TurnsAsArea | velocity-cs2/project/external/poly2d.hpp:671-687 | At the first vertex in any direction it turns as the sign of its area says, and its area is not zero |
| TwoEars.SecondWindsNot | velocity-cs2/project/external/poly2d.hpp:698-718 | One part of a split polygon does not wind around the vertices of the other |
| TwoEars.EarWinds | velocity-cs2/project/external/poly2d.hpp:698-718 | A polygon winds around a point at least as often as the ear clipped off it |
| TwoEars.EarAvoiding | velocity-cs2/project/external/poly2d.hpp:696-735 | A simple polygon that runs counter-clockwise has an ear, and one that is on neither end of any given edge |
| TwoEars.KeepsPositive | velocity-cs2/project/external/poly2d.hpp:720-735 | Clipping an ear off leaves a simple polygon that runs counter-clockwise |
| TwoEars.SimpleIsCovered | velocity-cs2/project/external/poly2d.hpp:689-738 | Clipping a simple polygon as far as possible ends with two vertices, and its triangles have the area of the polygon |
| TwoEars.SimpleIsTriangulated | velocity-cs2/project/external/poly2d.hpp:637-741 | Every simple polygon with no three vertices on a line, given either way around, is split into as many triangles as it has vertices but two, which have its area: signed for the fan, counted positive otherwise |
| Convexity.LeftIsConvex | velocity-cs2/project/external/poly2d.hpp:647-669 | A simple polygon that turns left at every corner is convex: any three vertices in turn run counter-clockwise |
| Convexity.TrianglesArePositive | velocity-cs2/project/external/poly2d.hpp:636-740 | A simple polygon in general position, whichever way it runs, gets only counter-clockwise triangles with its area, fan included, if no corner turns right within the tolerance |
| Convexity.DentIsFanned | velocity-cs2/project/external/poly2d.hpp:647-669 | A polygon with one corner that does, whose fan has a clockwise triangle outside of it |
| Monotone.ClippingKeeps | velocity-cs2/project/external/poly2d.hpp:720-735 | Clipping an ear of a polygon that is monotone in some direction leaves one that is |
| Monotone.HasEar | velocity-cs2/project/external/poly2d.hpp:696-735 | A monotone polygon of three or more vertices has an ear |
| Monotone.MonotoneIsCovered | velocity-cs2/project/external/poly2d.hpp:689-738 | So clipping a monotone ring as far as possible ends with two vertices, and its triangles have the area of the ring |
| Monotone.MonotoneArea | velocity-cs2/project/external/poly2d.hpp:671-687 | A monotone ring that runs counter-clockwise has a positive area, so it is the one that is clipped, whichever way the polygon was given |
| Monotone.MonotoneTriangulated | velocity-cs2/project/external/poly2d.hpp:637-741 | A monotone polygon, given either way around, is split by fan or clipping into as many triangles as it has vertices but two, which have its area: signed for the fan, counted positive otherwise |
| Monotone.MonotoneNeedNotBeConvex | velocity-cs2/project/external/poly2d.hpp:647-669 | A monotone polygon that the fan is not used for |
| NodeMap.RemTwice | velocity-cs2/project/external/poly2d.hpp:116-117 | Taking the remainder twice makes it the non-negative one |
| NodeMap.HashInRange | velocity-cs2/project/external/poly2d.hpp:111-118 | Every point hashes to a bucket, with 32-bit wrap-around |
| NodeMap.NearIsProbed | velocity-cs2/project/external/poly2d.hpp:120-127 | A point within 0.5 hashes like one of the nine points probed |
| NodeMap.AllClear | velocity-cs2/project/external/poly2d.hpp:120-134 | If the nine buckets hold no near point, no stored point is near |
| NodeMap.NodeMap.Init | velocity-cs2/project/external/poly2d.hpp:104-109 | An empty map |
| NodeMap.NodeMap.Scan | velocity-cs2/project/external/poly2d.hpp:125-131 | Finds a near point in one bucket, or there is none |
| NodeMap.NodeMap.Find | velocity-cs2/project/external/poly2d.hpp:120-134 | Agrees with a scan of all stored points on whether one is near, whatever collides, and returns one that is |
| NodeMap.NodeMap.FindOrAdd | velocity-cs2/project/external/poly2d.hpp:120-141 | Adds the point exactly when no stored one is within 0.5; stored points stay pairwise at least 0.5 apart |
| Walks.WalkIsDistinct | velocity-cs2/project/external/poly2d.hpp:495-500 | No walk uses an edge twice or one that was used before |
| Walks.TracingIsUnique | velocity-cs2/project/external/poly2d.hpp:462-559 | The edges and the first one determine all walks |
| Walks.EveryStepIsFirst | velocity-cs2/project/external/poly2d.hpp:508-540 | Every step of every walk takes, of the unused edges out of the node it has reached, the one met first turning counter-clockwise from straight ahead |
| Walks.EveryStartIsLeast | velocity-cs2/project/external/poly2d.hpp:466-483 | The first walk starts with the edge given, every other with the least edge that is not used yet |
| Walks.EveryWalkEnds | velocity-cs2/project/external/poly2d.hpp:496-540 | No walk of three edges or more goes on past its start; it ends there, or where no unused edge leads on |
| Walks.WalkNet | velocity-cs2/project/external/poly2d.hpp:497-541 | A walk leaves every node as often as it reaches it, except for its two ends |
| Walks.NetOfPermutation | velocity-cs2/project/external/poly2d.hpp:462-559 | Taking every edge once, in any order, gives every node the same balance |
| Walks.BalancedReturns | velocity-cs2/project/external/poly2d.hpp:497-541 | On a boundary with as many edges out of every node as into it, every walk ends in the node where it started |
| Walks.AllReturnIffBalanced | velocity-cs2/project/external/poly2d.hpp:462-559 | All walks return exactly when the boundary is balanced |
| ContourTrace.JoinEdges | velocity-cs2/project/external/poly2d.hpp:422-433 | Every end of an edge is within 0.5 of the node it is numbered after, and nodes are 0.5 apart |
| ContourTrace.EndsAndNodes | velocity-cs2/project/external/poly2d.hpp:112-140 | Every end of an edge is within half a unit of its node, and nodes are half a unit or more apart |
| ContourTrace.WalkIsConnected | velocity-cs2/project/external/poly2d.hpp:503-541 | Consecutive edges of a walk share a node, and their end points are less than 1 apart |
| ContourTrace.WalkCloses | velocity-cs2/project/external/poly2d.hpp:504-507 | The last edge of a walk that returns ends less than 1 from the start of the first |
| ContourTrace.Normalized | velocity-cs2/project/external/poly2d.hpp:524-534 | Brings a difference of directions to within half a turn by whole turns |
| ContourTrace.TurnInRange | velocity-cs2/project/external/poly2d.hpp:513-534 | Every turn is below the starting value of 10, so some free edge is picked whenever there is one |
| ContourTrace.Adjacency | velocity-cs2/project/external/poly2d.hpp:435-444 | Lists for every node exactly its outgoing edges, those from a node to itself left out, in order |
| ContourTrace.LeastTurn | velocity-cs2/project/external/poly2d.hpp:512-540 | Picks the first free outgoing edge of least turn, or none is free |
| ContourTrace.CounterSuffices | velocity-cs2/project/external/poly2d.hpp:495-499 | A walk and what was used before are never more than all edges |
| ContourTrace.FollowWalk | velocity-cs2/project/external/poly2d.hpp:489-541 | The walk ends by closing at the first opportunity or in a dead end, never because of its counter |
| ContourTrace.FirstUnused | velocity-cs2/project/external/poly2d.hpp:473-482 | Finds the first unused edge |
| ContourTrace.OutlinesAre | velocity-cs2/project/external/poly2d.hpp:542-558 | The outlines are the start points of exactly those walks with three edges or more around an area above 2.5 |
| ContourTrace.Trace | velocity-cs2/project/external/poly2d.hpp:462-559 | Every edge is used exactly once; the outlines are the walks of three or more edges with enough area, in order; the global counter never ends the loop |
| Bits.SliceConcat | velocity-cs2/project/external/bc7.hpp:15-26 | Reads next to each other make up one read |
| Bits.SliceOfNumber | velocity-cs2/project/external/bc7.hpp:15-26 | Every read is a slice of the block taken as one 128-bit little-endian number |
| Bits.BitReader.Read | velocity-cs2/project/external/bc7.hpp:10-27 | Reads the next bits, lowest first, and moves on by as many |
| Bc7.Layout | velocity-cs2/project/external/bc7.hpp:34-44 | In every mode the fields before the indices leave 16 index widths less one bit per subset |
| Bc7Places.ModeIs | velocity-cs2/project/external/bc7.hpp:170-174 | The mode is the place of the lowest bit set in the first byte |
| Bc7Places.HeaderPlaces | velocity-cs2/project/external/bc7.hpp:184-187 | Partition, rotation and selector at the bits where the format has them |
| Bc7Places.ColorPlaces | velocity-cs2/project/external/bc7.hpp:192-198 | The colors of every mode at their bits, reds before greens before blues |
| Bc7Places.AlphaPlaces | velocity-cs2/project/external/bc7.hpp:200-206 | The alphas at their bits behind the colors |
| Bc7Places.PBitPlaces | velocity-cs2/project/external/bc7.hpp:215-247 | The p-bit of every end point at its bit, below the color and the alpha, or none |
| Bc7Places.IndexPlaces | velocity-cs2/project/external/bc7.hpp:267-282 | Every index at its bits: behind those before it, one bit shorter for an anchor |
| Bc7Places.SecondIndexPlaces | velocity-cs2/project/external/bc7.hpp:284-290 | The second indices of two modes at their bits |
| Bc7.BitcountIs | velocity-cs2/project/external/bc7.hpp:266-282 | The indices take their width times 16, less one bit for each distinct anchor |
| Bc7.WholeBlockIff | velocity-cs2/project/external/bc7.hpp:266-290 | Decoding reads all 128 bits exactly when there are fewer than three subsets or the two-subset anchor is also a three-subset one; otherwise 127 |
| Bc7.LastBitUnread | velocity-cs2/project/external/bc7.hpp:271-279 | A partition of mode 0 for which the last bit is never read |
| Bc7Tables.AnchorInItsSubsetIff | velocity-cs2/project/external/bc7.hpp:118-124 | The anchor of the second of two subsets lies in that subset in all partitions but 60 and 63 |
| Bc7Tables.AnchorsInTheirSubsets | velocity-cs2/project/external/bc7.hpp:82-140 | The first texel belongs to the first subset in all partitions, and with three subsets the anchors of the other two to theirs |
| Bc7Tables.PartitionMasks | velocity-cs2/project/external/bc7.hpp:46-116 | Every partition is the one that its usual bit mask stands for |
| Bc7.ExpandSpreads | velocity-cs2/project/external/bc7.hpp:152-162 | Expanding keeps the order and the high bits, and takes the ends of the range to 0 and 255 |
| Bc7Places.ExpandRepeats | velocity-cs2/project/external/bc7.hpp:152-162 | The bits of an expanded value are those of the value, over and over from the top |
| Bc7.InterpBetween | velocity-cs2/project/external/bc7.hpp:146-150 | An interpolated value lies between its end points |
| Bc7.InterpMirrors | velocity-cs2/project/external/bc7.hpp:142-150 | Counting the index from the other end is swapping the end points; the extreme indices give the end points |
| Bc7Places.WeightIsNearest | velocity-cs2/project/external/bc7.hpp:142-144 | The weight of an index is the 64th nearest to its share of the largest index |
| Bc7Places.InterpRounds | velocity-cs2/project/external/bc7.hpp:146-150 | Interpolation rounds the weighted mean to the nearest number, and up from the middle |
| Bc7Places.InterpIsClose | velocity-cs2/project/external/bc7.hpp:142-150 | So every value is within half a unit, and a 128th of the distance of the end points, of the exact mean |
| Bc7.ChannelBetween | velocity-cs2/project/external/bc7.hpp:292-314 | Every channel of a texel lies between the end points of its subset |
| Bc7.OpaqueModes | velocity-cs2/project/external/bc7.hpp:199-213 | Blocks of the first four modes are opaque |
| Bc7Places.WhichIndex | velocity-cs2/project/external/bc7.hpp:299-308 | Which index, of what width, every channel takes in every mode |
| Bc7Places.TexelIsMean | velocity-cs2/project/external/bc7.hpp:292-321 | Every channel of a texel is, after rotation, opaque or the rounded mean of the end points of its subset |
| Bc7Places.Mode6Texel | velocity-cs2/project/external/bc7.hpp:166-323 | Every channel of a mode 6 texel in terms of the bits of the block alone |
| Bc7Decode.ReadColors | velocity-cs2/project/external/bc7.hpp:191-197 | The loops fill in every color from its own place in the block |
| Bc7Decode.ReadAlphas | velocity-cs2/project/external/bc7.hpp:199-212 | Alphas from their place in the block, or opacity |
| Bc7Decode.AddPBits | velocity-cs2/project/external/bc7.hpp:214-247 | Every end point gains its own p-bit or that of its subset, in the channels that are stored |
| Bc7Decode.ReadEndPoints | velocity-cs2/project/external/bc7.hpp:189-264 | The end points are those that the places of the fields say, and the cursor is where the indices start |
| Bc7Decode.ReadIndices | velocity-cs2/project/external/bc7.hpp:266-282 | Every index from its own place |
| Bc7Decode.ReadIndices2 | velocity-cs2/project/external/bc7.hpp:284-290 | The second indices, and the cursor where decoding ends |
| Bc7Decode.WriteTexel | velocity-cs2/project/external/bc7.hpp:292-322 | Writes four bytes, the texel of the block, and no others |
| Bc7Decode.FindMode | velocity-cs2/project/external/bc7.hpp:170-174 | The mode is the number of zero bits before the first one |
| Bc7Decode.DecodeBlock | velocity-cs2/project/external/bc7.hpp:166-323 | The one-pass decoder writes the 16 texels that the closed-form layout defines, never reading past the block, and stops where stated |
| Bc7Decode.ReadHeader | velocity-cs2/project/external/bc7.hpp:182-188 | Partition, rotation and selector from their places |
| Bc7Decode.PickIndices | velocity-cs2/project/external/bc7.hpp:298-308 | The color and the alpha index with their widths, exchanged by the selector |
| Bc7Image.CopyBlock | velocity-cs2/project/external/bc7.hpp:338-356 | Copies exactly the pixels of a block that lie in the image, and logs each write |
| Bc7Image.CopyRow | velocity-cs2/project/external/bc7.hpp:346-355 | Copies exactly the pixels of one row of a block that lie in the image, and logs each write |
| Bc7Image.CopyPixel | velocity-cs2/project/external/bc7.hpp:350-353 | One write of four bytes, which is the one logged |
| Bc7Image.ReplayConcat | velocity-cs2/project/external/bc7.hpp:330-358 | Replaying one log and then another is replaying both in turn |
| Bc7Image.DecodeBlocks | velocity-cs2/project/external/bc7.hpp:330-358 | The image is what the log of writes makes of the old one, the log writes every pixel once, and each ends up with its own texel |
| Bc7Image.WantedAt | velocity-cs2/project/external/bc7.hpp:325-358 | The pixel in a column and a row takes the texel at its place in the block that covers it, blocks counted row by row |
| Bc7Image.DecodeImage | velocity-cs2/project/external/bc7.hpp:325-359 | Every pixel of an image of any size is written exactly once, which the log of writes shows, with the texel of its own block; nothing outside the image is touched |
| Base64.Encode | velocity-cs2/project/external/config.hpp:440-462 | The loop encodes group by group |
| Base64.Decode | velocity-cs2/project/external/config.hpp:464-503 | The loop decodes group by group, and refuses exactly wrong lengths and unknown characters |
| Base64.DecodeGroup | velocity-cs2/project/external/config.hpp:478-499 | One group of four characters, or a character without a value |
| Base64.LettersMatch | velocity-cs2/project/external/config.hpp:438-466 | Characters and six-bit values belong to each other one to one, padding apart |
| Base64.AlphabetIs | velocity-cs2/project/external/config.hpp:438-438 | The characters in their order |
| Base64.PaddingIs | velocity-cs2/project/external/config.hpp:440-462 | A code has four characters for every three bytes begun, and padding exactly for the bytes that the last group lacks |
| Base64.DecodesBack | velocity-cs2/project/external/config.hpp:436-505 | Decoding an encoded byte string gives it back, for all byte strings |
| Base64.EncodingIsInjective | velocity-cs2/project/external/config.hpp:440-462 | No two byte strings share a code |
| Base64.CodeIsTheNumber | velocity-cs2/project/external/config.hpp:440-462 | Read in base 64 the code is the number that the zero-padded bytes make in base 256 (section 4 of RFC 4648) |
| Base64.EncodesBackIffCanonical | velocity-cs2/project/external/config.hpp:464-503 | What a text decodes to is encoded back to it exactly when the text has canonical padding |
| Base64.LenientDecoding | velocity-cs2/project/external/config.hpp:464-503 | The bits that padding leaves over are ignored when decoding |
| Base64.DecodedIff | velocity-cs2/project/external/config.hpp:464-503 | A text decodes exactly when its length is a multiple of four and it is of letters of the alphabet and padding, anywhere |
| Base64.DecodedGroups | velocity-cs2/project/external/config.hpp:475-500 | Every four characters are a number of three bytes, of which padding in third and fourth place leaves out the second and the third |
| ShareCode.Strip | velocity-cs2/project/external/config.hpp:1114-1127 | Removes exactly the white space |
| ShareCode.Import | velocity-cs2/project/external/config.hpp:1034-1045 | Accepts decoded payloads that are marked and longer than the header |
| ShareCode.StrippedIffSpaced | velocity-cs2/project/external/config.hpp:1114-1127 | Stripping yields a text exactly from that text with white space put in anywhere |
| ShareCode.StrippedOne | velocity-cs2/project/external/config.hpp:1118-1123 | Exactly spaces, line feeds, carriage returns and tabs go |
| ShareCode.CodesStart | velocity-cs2/project/external/config.hpp:1010-1028 | Every share code starts with the same four letters, and goes on with the code of what is shared |
| ShareCode.ImportedIff | velocity-cs2/project/external/config.hpp:1034-1045 | A text is accepted exactly when, stripped and decoded, it is the two marks, any byte, and something behind |
| ShareCode.ShareRoundTrip | velocity-cs2/project/external/config.hpp:1010-1127 | Whatever white space a share code picks up, importing gives back what was exported |
| ShareCode.VersionIsIgnored | velocity-cs2/project/external/config.hpp:1034-1042 | The version byte of a payload is not looked at |
| HexKeys.KeyRoundTrip | velocity-cs2/project/external/config.hpp:842-880 | Reading an exported key name gives back the key, for all 32-bit keys |
| HexKeys.NameDigits | velocity-cs2/project/external/config.hpp:865-865 | A name has eight lower-case hexadecimal digits, the highest first |
| HexKeys.DigitValueIs | velocity-cs2/project/external/config.hpp:876-876 | Digits are read in either case, and no other character is one |
| HexKeys.ReadsPrefixed | velocity-cs2/project/external/config.hpp:876-876 | A prefix in front of a name makes no difference to what is read |
| HexKeys.ReadsSpaced | velocity-cs2/project/external/config.hpp:876-876 | White space in front makes no difference |
| HexKeys.ReadsNegated | velocity-cs2/project/external/config.hpp:876-876 | A minus sign takes the number from 2 to the power of 32 |
| JsonValues.ConversionsKeep | velocity-cs2/project/external/config.hpp:374-376 | Numbers in range survive the conversions |
| JsonValues.ConversionsWrap | velocity-cs2/project/external/config.hpp:374-376 | Others wrap around or are cut off towards zero |
| Fields.ReadsBack | velocity-cs2/project/external/config.hpp:306-432 | Whatever a field held before, after reading what it wrote it writes the same again |
| Fields.ReadingKeepsKind | velocity-cs2/project/external/config.hpp:349-432 | Reading any JSON keeps the kind of a field and its number of elements |
| Fields.SettingRestoredIff | velocity-cs2/project/external/config.hpp:278-372 | A setting comes back entirely, whatever was there, exactly when it is bound to toggling and active as it is on |
| Fields.SettingReads | velocity-cs2/project/external/config.hpp:306-372 | What missing entries, a bind of null and unknown modes do to a setting |
| Fields.FieldWrites | velocity-cs2/project/external/config.hpp:306-347 | What settings, colors, vectors and flags write, element by element |
| Fields.ReadEachAt | velocity-cs2/project/external/config.hpp:385-420 | Elements are read up to the first that cannot be converted; the others keep what they had |
| Fields.FieldReads | velocity-cs2/project/external/config.hpp:349-432 | What cannot be read leaves a field alone, and colors and vectors need all their elements |
| ConfigDelta.DeltaHolds | velocity-cs2/project/external/config.hpp:811-833 | A delta holds exactly the fields that differ from the defaults |
| ConfigDelta.SnapshotIs | velocity-cs2/project/external/config.hpp:723-760 | A snapshot holds every field under its name, of several with one key the last, and nothing else |
| ConfigDelta.AppliedOne | velocity-cs2/project/external/config.hpp:874-883 | Reading one entry touches only the last field with its key |
| ConfigDelta.DeltaRoundTrip | velocity-cs2/project/external/config.hpp:811-886 | Importing an exported delta into any state with the same defaults gives every field back what it wrote |
| ConfigDelta.SameDelta | velocity-cs2/project/external/config.hpp:811-833 | And exporting again gives the same delta |
| Registry.ReadItems | velocity-cs2/project/external/config.hpp:382-413 | Reads elements up to the first that cannot be converted |
| Registry.JsonToBind | velocity-cs2/project/external/config.hpp:287-301 | Reads a bind, and leaves it as far as it was read when a conversion throws |
| Registry.JsonToSetting | velocity-cs2/project/external/config.hpp:357-377 | The value, the bind and the active flag in turn, up to where a conversion throws |
| Registry.BoolsToJson | velocity-cs2/project/external/config.hpp:327-337 | One element per flag |
| Registry.FieldToJson | velocity-cs2/project/external/config.hpp:303-349 | What a field writes |
| Registry.JsonToField | velocity-cs2/project/external/config.hpp:351-432 | What reading makes of a field, an exception included |
| Registry.Registry.TakeSnapshot | velocity-cs2/project/external/config.hpp:737-742 | Every field under its key name, the last one with a key counting |
| Registry.Registry.LookUp | velocity-cs2/project/external/config.hpp:788-795 | The last field with each key |
| Registry.Registry.ApplyBaseline | velocity-cs2/project/external/config.hpp:860-872 | Every field that the baseline has an entry for is read from it |
| Registry.UntouchedDeltaIsEmpty | velocity-cs2/project/external/config.hpp:723-760 | Fields as they were when the defaults were taken export nothing |
| Registry.Registry.ApplyBlankProfile | velocity-cs2/project/external/config.hpp:681-721 | Blanks every field in place |
| Registry.BlankWrites | velocity-cs2/project/external/config.hpp:681-721 | What every kind of field writes once it is blank: off, unbound, zero; numbers, colors and texts stay |
| Registry.SettingsAre | velocity-cs2/project/external/config.hpp:722-740 | Exactly the entries that are there and have a category and a name are registered |
| Registry.Registry.Initialize | velocity-cs2/project/external/config.hpp:722-758 | Registers the settings of the binding list that are there and named, and takes the two baselines, before and after blanking |
| Registry.Registry.ToJson | velocity-cs2/project/external/config.hpp:760-773 | Every field under its key name |
| Registry.Registry.ToJsonDelta | velocity-cs2/project/external/config.hpp:811-833 | The delta against the defaults, with its version |
| Registry.Registry.ApplyEntries | velocity-cs2/project/external/config.hpp:797-809 | In whatever order the entries come, each field is read from the one entry that names it, or left alone |
| Registry.Registry.FromJsonDelta | velocity-cs2/project/external/config.hpp:835-886 | Refuses what is no delta and leaves the fields; otherwise the baseline of its version and then its entries |
| Registry.Registry.FromJson | velocity-cs2/project/external/config.hpp:775-809 | The same for a full export, without a baseline |
| Sharing.ExportShare | velocity-cs2/project/external/config.hpp:1000-1112 | The share code of a registry: the delta with its name, as compressed text, marked and in base 64 |
| Sharing.ImportJson | velocity-cs2/project/external/config.hpp:1054-1076 | Takes the name out, and applies a delta or a full export; an exception reports nothing |
| Sharing.ReceivedIs | velocity-cs2/project/external/config.hpp:842-886 | A delta without a version, or with one before 2, is read onto the factory settings, any other onto the defaults; what else is imported, refused, and reported |
| Sharing.ImportPayload | velocity-cs2/project/external/config.hpp:1032-1077 | What is no JSON changes nothing |
| Sharing.ImportShare | velocity-cs2/project/external/config.hpp:1114-1134 | Imports a share code with white space in it |
| Sharing.Trim | velocity-cs2/project/external/config.hpp:1149-1157 | Takes the white space off both ends |
| Sharing.TrimmedIs | velocity-cs2/project/external/config.hpp:1149-1157 | Spaces, line feeds and carriage returns go off both ends, all of them and nothing else |
| Sharing.WordsArrive | velocity-cs2/project/external/config.hpp:1147-1163 | A code of words arrives without the white space around it, if it is marked and holds something |
| Sharing.TrimmedIsLikewise | velocity-cs2/project/external/config.hpp:1147-1167 | Trimming changes neither what stripping leaves nor whether there is a bar |
| Sharing.ImportAuto | velocity-cs2/project/external/config.hpp:1147-1170 | Text with a bar is a code of words, and other text a share code, whatever white space is around it |
| Sharing.NoBar | velocity-cs2/project/external/config.hpp:1164-1170 | No share code, however spaced, is taken for a code of words |
| Sharing.SharedSettingsArrive | velocity-cs2/project/external/config.hpp:1000-1170 | Settings exported from one registry and pasted, with any white space, into another with the same fields and defaults arrive with their name: every field writes what it wrote there and the share code is the same; nothing arrives exactly when compression failed |

## Left out

- History.RunMoves: undo steps with room only; an undo without room is followed by one redo, `TextField.Field.RedoLeftOver`, after which the field is valid again under the condition stated there; other steps after it are not followed.
- ConfigDelta.DeltaRoundTrip: for registries with distinct keys; hash collisions between key names are not excluded by the code and are not modelled.
- ConfigDelta.Applied: leaves open what happens to a field that several entries of a hand-written object name.
- RectArray.Sort: stands for the C library's sort, of which only order and permutation are used.
- Rectangle packing: coordinates are unbounded integers, for a width above 0, a height below the sentinel and sizes not negative; pointers are indices into one array, in which the two extra nodes come last.
- Text field: mouse, layout, word and key navigation, and the preferred column; the host's text is a field, and what the host calls through macros are methods.
- Undo records keep the text's own characters; the narrow integer types of positions and lengths are unbounded here.
- Polygons: coordinates are real numbers, and the direction of an edge is a parameter, so rounding, the approximate equality of points and the arc tangent are not modelled.
- NodeMap.HashInRange: cell numbers are unbounded integers; the conversion of a coordinate too large for 32 bits is not modelled.
- Contour tracing starts from any list of boundary edges and any first edge: how polygons are split at intersections, interior edges are dropped, the first edge is picked, and what is returned when there are no outlines, is not modelled.
- Triangulate.Triangulate: triangles are triples of points, not a flat list of coordinates. That the triangles do not overlap is not stated beyond each being clear of the vertices left and the areas adding up.
- TwoEars.SimpleIsTriangulated: for polygons with no three vertices on a line; `Monotone` allows those, for monotone polygons. For any other polygon `Triangulate.Triangulate` says what is left when no ear is found.
- Convexity.TrianglesArePositive: says nothing of polygons whose only right turns are within the tolerance; their fan may hold clockwise triangles (`Convexity.DentIsFanned`) or may not, depending on where it starts.
- Bc7Decode.DecodeBlock: bit operations on bytes are written as division and remainder; buffers hold numbers that are proved to be bytes.
- Base64.Decode: characters are those of Dafny; every character outside the alphabet is unknown.
- Sharing.SharedSettingsArrive: compression and JSON text are a pair of functions; that reading gives back what was written is assumed there, and nothing else about them.
- Settings: the code of words, which is a parameter, the registry of the operating system, numbers that are not numbers, and the hashing of names into keys, which is a parameter. Custom fields are a pair of functions; their law is assumed where a round trip is stated.
- Process injection, hooks, rendering and the user interface.
