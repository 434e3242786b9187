/** Keeping the leading column while columns are tried one after another. */
module Leader {
  import opened Basics
  import opened Skyline
  import opened Packing

  /** Column `x` may lead: best fit only accepts columns where the rectangle is not too high. */
  ghost predicate Eligible(p: Packer, w: int, h: int, x: int)
    requires Valid(p) && 0 < w
  {
    0 <= x && x + w <= p.width && (p.heuristic == BestFit ==> Measure(p, w, x).minY + h <= p.height)
  }

  /** `best` leads the columns in `seen`: it is preferred to every other eligible one. */
  ghost predicate Leads(p: Packer, w: int, h: int, seen: set<int>, best: Option<int>)
    requires Valid(p) && 0 < w
  {
    match best
    case None => forall x :: x in seen ==> !Eligible(p, w, h, x)
    case Some(b) =>
      && b in seen && Eligible(p, w, h, b)
      && forall x :: x in seen && x != b && Eligible(p, w, h, x) ==>
           Better(p.heuristic, Measure(p, w, b), b, Measure(p, w, x), x)
  }

  /** The leader after column `x` has been tried too. */
  ghost function Challenge(p: Packer, w: int, h: int, best: Option<int>, x: int): Option<int>
    requires Valid(p) && 0 < w
    requires 0 <= x && x + w <= p.width && (best.Some? ==> Eligible(p, w, h, best.value))
  {
    if Eligible(p, w, h, x)
       && (best.None? || Better(p.heuristic, Measure(p, w, x), x, Measure(p, w, best.value), best.value))
    then Some(x) else best
  }

  lemma ChallengeLeads(p: Packer, w: int, h: int, seen: set<int>, best: Option<int>, x: int)
    requires Valid(p) && 0 < w && 0 <= x && x + w <= p.width
    requires Leads(p, w, h, seen, best)
    ensures Leads(p, w, h, seen + {x}, Challenge(p, w, h, best, x))
  {
    hide Measure, Valid;
  }

  /** The best height and waste kept by the passes are those of the leader. */
  ghost predicate Tracks(p: Packer, w: int, h: int, lead: Option<int>, bestY: int, bestWaste: int)
    requires Valid(p) && 0 < w
  {
    match lead
    case None => bestY == SENTINEL_Y == bestWaste
    case Some(x) =>
      && Eligible(p, w, h, x) && bestY == Measure(p, w, x).minY
      && (p.heuristic == BestFit ==> bestWaste == Measure(p, w, x).waste)
  }

  /** The left ends of the first `n` nodes. */
  ghost function LeftEnds(sky: seq<Seg>, n: nat): set<int>
    requires n <= |sky|
  {
    set j | 0 <= j < n :: sky[j].x
  }

  lemma NobodyLeads(p: Packer, w: int, h: int)
    requires Valid(p) && 0 < w
    ensures Leads(p, w, h, LeftEnds(p.sky, 0), None) && Tracks(p, w, h, None, SENTINEL_Y, SENTINEL_Y)
  {
  }

  /** The test of the first pass. */
  predicate TakesLeft(p: Packer, h: int, m: Walk, bestY: int, bestWaste: int) {
    if p.heuristic == BottomLeft then m.minY < bestY
    else m.minY + h <= p.height && (m.minY < bestY || (m.minY == bestY && m.waste < bestWaste))
  }

  /** Coming from the left, the test of the first pass decides the challenge. */
  lemma TakesLeftDecides(p: Packer, w: int, h: int, seen: set<int>, lead: Option<int>, bestY: int, bestWaste: int,
                         x: int)
    requires Valid(p) && 0 < w && 0 <= x && x + w <= p.width && Measure(p, w, x).minY < SENTINEL_Y
    requires Leads(p, w, h, seen, lead) && Tracks(p, w, h, lead, bestY, bestWaste)
    requires forall s :: s in seen ==> s < x
    ensures var m := Measure(p, w, x);
            if TakesLeft(p, h, m, bestY, bestWaste)
            then Leads(p, w, h, seen + {x}, Some(x)) &&
                 Tracks(p, w, h, Some(x), m.minY, if p.heuristic == BestFit then m.waste else bestWaste)
            else Leads(p, w, h, seen + {x}, lead)
  {
    hide Measure, Valid;
    ChallengeLeads(p, w, h, seen, lead, x);
  }

  /** The test of the second pass. */
  predicate TakesRight(p: Packer, h: int, m: Walk, x: int, bestX: int, bestY: int, bestWaste: int) {
    m.minY + h <= p.height && m.minY <= bestY &&
    (m.minY < bestY || m.waste < bestWaste || (m.waste == bestWaste && x < bestX))
  }

  /** In any order, the test of the second pass decides the challenge. */
  lemma TakesRightDecides(p: Packer, w: int, h: int, seen: set<int>, lead: Option<int>,
                          bestX: int, bestY: int, bestWaste: int, x: int)
    requires Valid(p) && 0 < w && 0 <= x && x + w <= p.width && Measure(p, w, x).minY < SENTINEL_Y
    requires p.heuristic == BestFit && (lead.Some? ==> bestX == lead.value)
    requires Leads(p, w, h, seen, lead) && Tracks(p, w, h, lead, bestY, bestWaste)
    ensures var m := Measure(p, w, x);
            if TakesRight(p, h, m, x, bestX, bestY, bestWaste)
            then Leads(p, w, h, seen + {x}, Some(x)) && Tracks(p, w, h, Some(x), m.minY, m.waste)
            else Leads(p, w, h, seen + {x}, lead)
  {
    hide Measure, Valid;
    ChallengeLeads(p, w, h, seen, lead, x);
  }

  /** The left ends of rectangles whose right end is at one of the first `n` nodes. */
  ghost function RightEnds(sky: seq<Seg>, w: int, n: nat): set<int>
    requires n <= |sky|
  {
    set j | 0 <= j < n && w <= sky[j].x :: sky[j].x - w
  }

  lemma LeftEndsGrow(sky: seq<Seg>, n: nat)
    requires Sorted(sky) && n < |sky|
    ensures LeftEnds(sky, n + 1) == LeftEnds(sky, n) + {sky[n].x}
    ensures forall s :: s in LeftEnds(sky, n) ==> s < sky[n].x
  {
  }

  lemma RightEndsGrow(sky: seq<Seg>, w: int, n: nat)
    requires n < |sky|
    ensures RightEnds(sky, w, n + 1) == RightEnds(sky, w, n) + if w <= sky[n].x then {sky[n].x - w} else {}
  {
  }

  /** The passes see every column that the heuristic tries. */
  lemma SeenIsTried(p: Packer, w: int, n: nat)
    requires Valid(p) && 0 < w && n < |p.sky|
    requires p.width < p.sky[n].x + w && (n == 0 || p.sky[n - 1].x + w <= p.width)
    ensures forall x :: x in LeftEnds(p.sky, n) + (if p.heuristic == BestFit then RightEnds(p.sky, w, |p.sky|) else {})
                    <==> Tried(p, w, x)
  {
    var sky := p.sky;
    assert forall j :: 0 <= j < |sky| ==> 0 <= sky[j].x <= p.width;
    assert forall j :: 0 <= j < n ==> sky[j].x <= sky[n - 1].x;
    assert forall j :: n <= j < |sky| ==> sky[n].x <= sky[j].x;
  }

  /** Once every column that the heuristic tries has been seen, the leader is the best position. */
  lemma LeaderIsBest(p: Packer, w: int, h: int, seen: set<int>, best: Option<int>)
    requires Valid(p) && 0 < w && Leads(p, w, h, seen, best)
    requires forall x :: x in seen <==> Tried(p, w, x)
    ensures best.Some? ==> Wins(p, w, h, best.value)
    ensures best.None? ==> forall x :: !Compared(p, w, h, x)
  {
    hide Measure, Valid;
  }
}
