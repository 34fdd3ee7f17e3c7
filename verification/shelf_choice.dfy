/**
 * The placement decision of the shelf packer, stated on plain values.
 *
 * A request of size w x h is served, in this order of preference, by
 *   1. the first free slot whose capacity is exactly w x h,
 *   2. the first shelf whose height is exactly h and that has w of room left,
 *   3. the fitting free slot or taller shelf that wastes the least area
 *      (a free slot wastes maxw*maxh - w*h, a taller shelf (shelf.h - h)*w;
 *      a shelf must waste strictly less than the best free slot, and within one
 *      kind the earliest of equal waste wins),
 *   4. a new shelf of height h on top of the existing ones, if it fits,
 * and otherwise there is no room.  With automatic resizing the canvas is grown
 * and the decision is taken again (`Settle`).
 *
 * The two scans below follow the packer's two loops one entry at a time, so
 * that the loops of the imperative packer can be proved against them.
 */
module ShelfChoice {

  function Max(a: int, b: int): int { if a < b then b else a }

  /** The capacity of a vacated slot waiting on the free list. */
  datatype Slot = Slot(maxw: int, maxh: int)

  /** A shelf as the search sees it: its fixed height and its cursor. */
  datatype Room = Room(h: int, x: int)

  /** The best candidate so far; `NoCandidate` plays the role of waste = Infinity. */
  datatype Candidate = NoCandidate | FreeCand(i: nat, waste: int) | ShelfCand(k: nat, waste: int)

  /** The state of a scan: an exact fit ends it at once. */
  datatype Scan = Exact(index: nat) | Best(cand: Candidate)

  /** What an allocation request does to the packer. */
  datatype Choice = ReuseFree(i: nat) | UseShelf(k: nat) | NewShelf | NoRoom

  predicate Improves(waste: int, c: Candidate) { c.NoCandidate? || waste < c.waste }

  predicate ExactSlot(s: Slot, w: int, h: int) { w == s.maxw && h == s.maxh }
  predicate FitsSlot(s: Slot, w: int, h: int) { w <= s.maxw && h <= s.maxh }
  function SlotWaste(s: Slot, w: int, h: int): int { s.maxw * s.maxh - w * h }

  predicate ExactShelf(r: Room, canvasW: int, w: int, h: int) { w <= canvasW - r.x && h == r.h }
  predicate TallerShelf(r: Room, canvasW: int, w: int, h: int) { w <= canvasW - r.x && h < r.h }
  predicate FitsShelf(r: Room, canvasW: int, w: int, h: int) { w <= canvasW - r.x && h <= r.h }
  function ShelfWaste(r: Room, w: int, h: int): int { (r.h - h) * w }

  /** Sum of the shelf heights: where the next shelf would start. */
  function Total(rooms: seq<Room>): int
  {
    if rooms == [] then 0 else Total(rooms[..|rooms| - 1]) + rooms[|rooms| - 1].h
  }

  predicate NewShelfFits(rooms: seq<Room>, canvasW: int, canvasH: int, w: int, h: int)
  {
    h <= canvasH - Total(rooms) && w <= canvasW
  }

  /** One step of the free-list loop, at index i. */
  function FreeStep(s: Slot, i: nat, w: int, h: int, c: Candidate): Scan
  {
    if ExactSlot(s, w, h) then Exact(i)
    else if h > s.maxh || w > s.maxw then Best(c)
    else if Improves(SlotWaste(s, w, h), c) then Best(FreeCand(i, SlotWaste(s, w, h)))
    else Best(c)
  }

  /** The free-list loop after its first n entries. */
  function ScanFree(free: seq<Slot>, w: int, h: int, n: nat): Scan
    requires n <= |free|
  {
    if n == 0 then Best(NoCandidate)
    else match ScanFree(free, w, h, n - 1)
      case Exact(i) => Exact(i)
      case Best(c) => FreeStep(free[n - 1], n - 1, w, h, c)
  }

  /** One step of the shelf loop, at index k. */
  function ShelfStep(r: Room, k: nat, canvasW: int, w: int, h: int, c: Candidate): Scan
  {
    if w > canvasW - r.x then Best(c)
    else if h == r.h then Exact(k)
    else if h > r.h then Best(c)
    else if Improves(ShelfWaste(r, w, h), c) then Best(ShelfCand(k, ShelfWaste(r, w, h)))
    else Best(c)
  }

  /** The shelf loop after its first n shelves, starting from the free-list's best. */
  function ScanShelves(rooms: seq<Room>, canvasW: int, w: int, h: int, start: Candidate, n: nat): Scan
    requires n <= |rooms|
  {
    if n == 0 then Best(start)
    else match ScanShelves(rooms, canvasW, w, h, start, n - 1)
      case Exact(k) => Exact(k)
      case Best(c) => ShelfStep(rooms[n - 1], n - 1, canvasW, w, h, c)
  }

  /** The decision for a w x h request on a canvas of canvasW x canvasH. */
  function Choose(free: seq<Slot>, rooms: seq<Room>, canvasW: int, canvasH: int, w: int, h: int): Choice
  {
    match ScanFree(free, w, h, |free|)
    case Exact(i) => ReuseFree(i)
    case Best(c0) =>
      match ScanShelves(rooms, canvasW, w, h, c0, |rooms|)
      case Exact(k) => UseShelf(k)
      case Best(c) =>
        match c
        case FreeCand(i, _) => ReuseFree(i)
        case ShelfCand(k, _) => UseShelf(k)
        case NoCandidate => if NewShelfFits(rooms, canvasW, canvasH, w, h) then NewShelf else NoRoom
  }

  /**
   * One growth step of automatic resizing: the width doubles (to twice the
   * larger of request and canvas) when the canvas is not wider than tall or the
   * request is wider than the canvas; the height doubles likewise when the
   * canvas is wider than tall or the request is taller than the canvas.
   */
  function Grow(canvasW: int, canvasH: int, w: int, h: int): (int, int)
  {
    (if canvasW <= canvasH || w > canvasW then 2 * Max(w, canvasW) else canvasW,
     if canvasH < canvasW || h > canvasH then 2 * Max(h, canvasH) else canvasH)
  }

  /**
   * The canvas on which a request is finally decided: without automatic
   * resizing the current one; with it, the first canvas reached by growth
   * steps on which the request finds room.  Every growth step either makes the
   * request fit in width, makes a new shelf fit in height, or narrows the gap
   * between a canvas height and a smaller width, which is what the measure says.
   */
  function Settle(free: seq<Slot>, rooms: seq<Room>, canvasW: int, canvasH: int, w: int, h: int, auto: bool): (dims: (int, int))
    requires w >= 1 && h >= 1 && canvasW >= 0 && Total(rooms) <= canvasH
    ensures canvasW <= dims.0 && canvasH <= dims.1
    ensures !auto ==> dims == (canvasW, canvasH)
    ensures auto ==> Choose(free, rooms, dims.0, dims.1, w, h) != NoRoom
    decreases Max(0, w - canvasW), Max(0, Total(rooms) + h - canvasH), Max(0, canvasH - canvasW + 1)
  {
    if !auto || Choose(free, rooms, canvasW, canvasH, w, h) != NoRoom then (canvasW, canvasH)
    else
      NoRoomMeansNoNewShelf(free, rooms, canvasW, canvasH, w, h);
      var g := Grow(canvasW, canvasH, w, h);
      Settle(free, rooms, g.0, g.1, w, h, auto)
  }

  lemma NoRoomMeansNoNewShelf(free: seq<Slot>, rooms: seq<Room>, canvasW: int, canvasH: int, w: int, h: int)
    requires Choose(free, rooms, canvasW, canvasH, w, h) == NoRoom
    ensures !NewShelfFits(rooms, canvasW, canvasH, w, h)
  {
  }

  /** Once a scan has found an exact fit, or has seen every entry, its result is final. */
  lemma {:induction false} ScanFreeKeeps(free: seq<Slot>, w: int, h: int, n: nat)
    requires n <= |free| && (n == |free| || ScanFree(free, w, h, n).Exact?)
    ensures ScanFree(free, w, h, |free|) == ScanFree(free, w, h, n)
    decreases |free| - n
  {
    if n < |free| {
      ScanFreeKeeps(free, w, h, n + 1);
    }
  }

  lemma {:induction false} ScanShelvesKeeps(rooms: seq<Room>, canvasW: int, w: int, h: int, start: Candidate, n: nat)
    requires n <= |rooms| && (n == |rooms| || ScanShelves(rooms, canvasW, w, h, start, n).Exact?)
    ensures ScanShelves(rooms, canvasW, w, h, start, |rooms|) == ScanShelves(rooms, canvasW, w, h, start, n)
    decreases |rooms| - n
  {
    if n < |rooms| {
      ScanShelvesKeeps(rooms, canvasW, w, h, start, n + 1);
    }
  }

  // ---------------------------------------------------------------------------
  // What the two scans compute

  /** The free-list scan's result after n entries, described without the loop. */
  ghost predicate FreeScanned(free: seq<Slot>, w: int, h: int, n: nat, s: Scan)
    requires n <= |free|
  {
    match s
    case Exact(i) =>
      i < n && ExactSlot(free[i], w, h) && forall j :: 0 <= j < i ==> !ExactSlot(free[j], w, h)
    case Best(c) =>
      && (forall j :: 0 <= j < n ==> !ExactSlot(free[j], w, h))
      && !c.ShelfCand?
      && (c.NoCandidate? ==> forall j :: 0 <= j < n ==> !FitsSlot(free[j], w, h))
      && (c.FreeCand? ==>
            && c.i < n && FitsSlot(free[c.i], w, h) && c.waste == SlotWaste(free[c.i], w, h)
            && (forall j :: 0 <= j < n && FitsSlot(free[j], w, h) ==> c.waste <= SlotWaste(free[j], w, h))
            && (forall j :: 0 <= j < c.i && FitsSlot(free[j], w, h) ==> c.waste < SlotWaste(free[j], w, h)))
  }

  lemma {:induction false} ScanFreeMeaning(free: seq<Slot>, w: int, h: int, n: nat)
    requires n <= |free|
    ensures FreeScanned(free, w, h, n, ScanFree(free, w, h, n))
  {
    if n > 0 {
      ScanFreeMeaning(free, w, h, n - 1);
    }
  }

  /** The shelf scan's result after n shelves, relative to the candidate it started from. */
  ghost predicate ShelvesScanned(rooms: seq<Room>, canvasW: int, w: int, h: int, start: Candidate, n: nat, s: Scan)
    requires n <= |rooms|
  {
    match s
    case Exact(k) =>
      k < n && ExactShelf(rooms[k], canvasW, w, h)
      && forall m :: 0 <= m < k ==> !ExactShelf(rooms[m], canvasW, w, h)
    case Best(c) =>
      && (forall m :: 0 <= m < n ==> !ExactShelf(rooms[m], canvasW, w, h))
      && (c == start || (c.ShelfCand? && c.k < n && TallerShelf(rooms[c.k], canvasW, w, h)
                         && c.waste == ShelfWaste(rooms[c.k], w, h) && Improves(c.waste, start)))
      && (!start.NoCandidate? ==> !c.NoCandidate? && c.waste <= start.waste)
      && (forall m :: 0 <= m < n && TallerShelf(rooms[m], canvasW, w, h) ==>
            !c.NoCandidate? && c.waste <= ShelfWaste(rooms[m], w, h))
      && (c.ShelfCand? && c != start ==>
            forall m :: 0 <= m < c.k && TallerShelf(rooms[m], canvasW, w, h) ==> c.waste < ShelfWaste(rooms[m], w, h))
  }

  lemma {:induction false} ScanShelvesMeaning(rooms: seq<Room>, canvasW: int, w: int, h: int, start: Candidate, n: nat)
    requires n <= |rooms|
    ensures ShelvesScanned(rooms, canvasW, w, h, start, n, ScanShelves(rooms, canvasW, w, h, start, n))
  {
    if n > 0 {
      ScanShelvesMeaning(rooms, canvasW, w, h, start, n - 1);
    }
  }

  // ---------------------------------------------------------------------------
  // Properties of the decision

  /** Whatever is chosen has room for the request. */
  lemma ChooseFits(free: seq<Slot>, rooms: seq<Room>, canvasW: int, canvasH: int, w: int, h: int)
    ensures var c := Choose(free, rooms, canvasW, canvasH, w, h);
      && (c.ReuseFree? ==> c.i < |free| && FitsSlot(free[c.i], w, h))
      && (c.UseShelf? ==> c.k < |rooms| && FitsShelf(rooms[c.k], canvasW, w, h))
      && (c.NewShelf? ==> NewShelfFits(rooms, canvasW, canvasH, w, h))
  {
    ScanFreeMeaning(free, w, h, |free|);
    var s0 := ScanFree(free, w, h, |free|);
    if s0.Best? {
      ScanShelvesMeaning(rooms, canvasW, w, h, s0.cand, |rooms|);
    }
  }

  /**
   * A new shelf is opened exactly when no free slot and no shelf has room and
   * the new shelf fits; there is no room exactly when nothing fits at all.
   */
  lemma ChooseFallsBack(free: seq<Slot>, rooms: seq<Room>, canvasW: int, canvasH: int, w: int, h: int)
    ensures var c := Choose(free, rooms, canvasW, canvasH, w, h);
      var nothingReusable := (forall i :: 0 <= i < |free| ==> !FitsSlot(free[i], w, h))
                          && (forall k :: 0 <= k < |rooms| ==> !FitsShelf(rooms[k], canvasW, w, h));
      && (c.NewShelf? <==> nothingReusable && NewShelfFits(rooms, canvasW, canvasH, w, h))
      && (c.NoRoom? <==> nothingReusable && !NewShelfFits(rooms, canvasW, canvasH, w, h))
  {
    ScanFreeMeaning(free, w, h, |free|);
    var s0 := ScanFree(free, w, h, |free|);
    if s0.Best? {
      ScanShelvesMeaning(rooms, canvasW, w, h, s0.cand, |rooms|);
      var s1 := ScanShelves(rooms, canvasW, w, h, s0.cand, |rooms|);
      if s1.Best? && s1.cand.NoCandidate? {
        assert s0.cand.NoCandidate?;
        forall k | 0 <= k < |rooms|
          ensures !FitsShelf(rooms[k], canvasW, w, h)
        {
          assert !ExactShelf(rooms[k], canvasW, w, h);
          assert !TallerShelf(rooms[k], canvasW, w, h);
        }
      } else {
        var c := Choose(free, rooms, canvasW, canvasH, w, h);
        assert c.ReuseFree? || c.UseShelf?;
        ChooseFits(free, rooms, canvasW, canvasH, w, h);
      }
    } else {
      ChooseFits(free, rooms, canvasW, canvasH, w, h);
    }
  }

  /** The first free slot of exactly the requested size is reused, whatever the shelves offer. */
  lemma ChooseExactFreeFirst(free: seq<Slot>, rooms: seq<Room>, canvasW: int, canvasH: int, w: int, h: int, i: nat)
    requires i < |free| && ExactSlot(free[i], w, h)
    requires forall j :: 0 <= j < i ==> !ExactSlot(free[j], w, h)
    ensures Choose(free, rooms, canvasW, canvasH, w, h) == ReuseFree(i)
  {
    ScanFreeMeaning(free, w, h, |free|);
  }

  /**
   * With no free slot of exactly the requested size, the first shelf of exactly
   * the requested height with room is used, even if a fitting free slot exists.
   */
  lemma ChooseExactShelfFirst(free: seq<Slot>, rooms: seq<Room>, canvasW: int, canvasH: int, w: int, h: int, k: nat)
    requires forall j :: 0 <= j < |free| ==> !ExactSlot(free[j], w, h)
    requires k < |rooms| && ExactShelf(rooms[k], canvasW, w, h)
    requires forall m :: 0 <= m < k ==> !ExactShelf(rooms[m], canvasW, w, h)
    ensures Choose(free, rooms, canvasW, canvasH, w, h) == UseShelf(k)
  {
    ScanFreeMeaning(free, w, h, |free|);
    var s0 := ScanFree(free, w, h, |free|);
    ScanShelvesMeaning(rooms, canvasW, w, h, s0.cand, |rooms|);
  }

  /**
   * Without exact fits, the choice wastes the least area: a reused free slot
   * wastes no more than any fitting slot (strictly less than earlier ones) and
   * no more than any taller shelf; a used shelf is taller than the request,
   * wastes strictly less than every fitting free slot, and no more than any
   * taller shelf (strictly less than earlier ones).
   */
  lemma ChooseLeastWaste(free: seq<Slot>, rooms: seq<Room>, canvasW: int, canvasH: int, w: int, h: int)
    requires forall j :: 0 <= j < |free| ==> !ExactSlot(free[j], w, h)
    requires forall m :: 0 <= m < |rooms| ==> !ExactShelf(rooms[m], canvasW, w, h)
    ensures var c := Choose(free, rooms, canvasW, canvasH, w, h);
      && (c.ReuseFree? ==>
            && c.i < |free| && FitsSlot(free[c.i], w, h)
            && (forall j :: 0 <= j < |free| && FitsSlot(free[j], w, h) ==>
                  SlotWaste(free[c.i], w, h) <= SlotWaste(free[j], w, h))
            && (forall j :: 0 <= j < c.i && FitsSlot(free[j], w, h) ==>
                  SlotWaste(free[c.i], w, h) < SlotWaste(free[j], w, h))
            && (forall m :: 0 <= m < |rooms| && TallerShelf(rooms[m], canvasW, w, h) ==>
                  SlotWaste(free[c.i], w, h) <= ShelfWaste(rooms[m], w, h)))
      && (c.UseShelf? ==>
            && c.k < |rooms| && TallerShelf(rooms[c.k], canvasW, w, h)
            && (forall j :: 0 <= j < |free| && FitsSlot(free[j], w, h) ==>
                  ShelfWaste(rooms[c.k], w, h) < SlotWaste(free[j], w, h))
            && (forall m :: 0 <= m < |rooms| && TallerShelf(rooms[m], canvasW, w, h) ==>
                  ShelfWaste(rooms[c.k], w, h) <= ShelfWaste(rooms[m], w, h))
            && (forall m :: 0 <= m < c.k && TallerShelf(rooms[m], canvasW, w, h) ==>
                  ShelfWaste(rooms[c.k], w, h) < ShelfWaste(rooms[m], w, h)))
  {
    ScanFreeMeaning(free, w, h, |free|);
    var s0 := ScanFree(free, w, h, |free|);
    assert s0.Best?;
    ScanShelvesMeaning(rooms, canvasW, w, h, s0.cand, |rooms|);
  }
}
