/**
 * The shelf packer: bins, shelves and the packer that owns them, as classes
 * whose methods update their fields in place.
 *
 * Placement follows the decision of module ShelfChoice: the two search loops
 * of `PackNew` are proved to compute `ScanFree` and `ScanShelves`, so the state
 * after a request is stated in terms of `Choose` and `Settle` on the packer's
 * state before it.  The invariant `Valid` keeps every slot (live or vacated)
 * on its shelf, slots on one shelf side by side, ids consistent and the
 * statistics equal to the number of live bins per height.
 */
module ShelfPacking {
  import opened Maybe
  import opened ShelfChoice

  /** A bin identifier: JavaScript allows a number or a string. */
  datatype Id = Num(n: int) | Name(s: string)

  /** A bin. Its slot (`x`, `y`, `maxw`, `maxh`) never moves; reuse only rewrites id, size and count. */
  class Bin {
    var id: Id
    const x: int
    const y: int
    var w: int
    var h: int
    const maxw: int
    const maxh: int
    var refcount: int

    constructor (id: Id, x: int, y: int, w: int, h: int, maxw: int, maxh: int)
      ensures this.id == id && this.x == x && this.y == y && this.w == w && this.h == h
      ensures this.maxw == maxw && this.maxh == maxh && refcount == 0
    {
      this.id := id;
      this.x := x;
      this.y := y;
      this.w := w;
      this.h := h;
      this.maxw := maxw;
      this.maxh := maxh;
      this.refcount := 0;
    }

    /** Hands a vacated slot to a new request: new id and size, count back to zero. */
    method Reuse(id: Id, w: int, h: int)
      modifies this
      ensures this.id == id && this.w == w && this.h == h && refcount == 0
    {
      this.id := id;
      this.w := w;
      this.h := h;
      this.refcount := 0;
    }
  }

  /** A horizontal strip of fixed height; bins are appended at the cursor `x`. */
  class Shelf {
    const y: int
    var w: int
    const h: int
    var x: int
    var free: int

    constructor (y: int, w: int, h: int)
      ensures this.y == y && this.w == w && this.h == h && x == 0 && free == w
    {
      this.y := y;
      this.w := w;
      this.h := h;
      this.x := 0;
      this.free := w;
    }

    /**
     * Places a reqW x reqH bin at the cursor.  A request wider than the room
     * left or taller than the shelf gets nothing and changes nothing; otherwise
     * the new slot is exactly as wide as the request and as tall as the shelf,
     * and the cursor moves past it.
     */
    method Alloc(reqW: int, reqH: int, id: Id) returns (r: Option<Bin>)
      modifies this
      ensures w == old(w)
      ensures reqW > old(free) || reqH > h ==> r.None? && x == old(x) && free == old(free)
      ensures reqW <= old(free) && reqH <= h ==>
        && r.Some? && fresh(r.value)
        && r.value.id == id && r.value.x == old(x) && r.value.y == y
        && r.value.w == reqW && r.value.h == reqH && r.value.maxw == reqW && r.value.maxh == h
        && r.value.refcount == 0
        && x == old(x) + reqW && free == old(free) - reqW
    {
      if reqW > free || reqH > h {
        return None;
      }
      var bin := new Bin(id, x, y, reqW, reqH, reqW, h);
      x := x + reqW;
      free := free - reqW;
      return Some(bin);
    }

    /** Follows a change of canvas width: the room left changes by the same amount. */
    method Resize(newW: int)
      modifies this
      ensures w == newW && x == old(x) && free == old(free) + (newW - old(w))
    {
      free := free + (newW - w);
      w := newW;
    }
  }

  /** Where the next shelf would start: the bottom edge of the last shelf. Shelf `y` and `h` never change. */
  function Bottom(ss: seq<Shelf>): int
  {
    if ss == [] then 0 else ss[|ss| - 1].y + ss[|ss| - 1].h
  }

  /** Shelves stacked from the top of the canvas, each starting where the previous one ends. */
  ghost predicate Stacked(ss: seq<Shelf>)
  {
    && (|ss| > 0 ==> ss[0].y == 0)
    && (forall j :: Joined(ss, j))
  }

  /** Shelf j is at least one unit tall and starts where shelf j - 1 ends. */
  ghost predicate Joined(ss: seq<Shelf>, j: int)
  {
    && (0 <= j < |ss| ==> 1 <= ss[j].h)
    && (0 < j < |ss| ==> ss[j].y == ss[j - 1].y + ss[j - 1].h)
  }

  /** A shelf starts at or below the bottom edge of every earlier shelf. */
  lemma {:induction false} StackedApart(ss: seq<Shelf>, i: nat, j: nat)
    requires Stacked(ss) && i < j < |ss|
    ensures ss[i].y + ss[i].h <= ss[j].y
  {
    if j > i + 1 {
      StackedApart(ss, i, j - 1);
    }
    assert Joined(ss, j) && Joined(ss, j - 1);
  }

  /** Distinct positions in a stack hold distinct shelves. */
  lemma StackedDistinct(ss: seq<Shelf>, i: nat, j: nat)
    requires Stacked(ss) && i < |ss| && j < |ss| && i != j
    ensures ss[i] != ss[j]
  {
    assert Joined(ss, i) && Joined(ss, j);
    if i < j {
      StackedApart(ss, i, j);
    } else {
      StackedApart(ss, j, i);
    }
  }

  /** A shelf starting at the bottom edge extends the stack. */
  lemma StackedPush(ss: seq<Shelf>, s: Shelf)
    requires Stacked(ss) && s.y == Bottom(ss) && 1 <= s.h
    ensures Stacked(ss + [s]) && Bottom(ss + [s]) == s.y + s.h
  {
    var ss' := ss + [s];
    forall j ensures Joined(ss', j) {
      if 0 <= j < |ss| {
        assert Joined(ss, j);
      }
    }
  }

  /** Every shelf lies between the top of the canvas and the bottom edge of the stack. */
  lemma StackedWithin(ss: seq<Shelf>, i: nat)
    requires Stacked(ss) && i < |ss|
    ensures 0 <= ss[i].y && 1 <= ss[i].h && ss[i].y + ss[i].h <= Bottom(ss)
  {
    assert Joined(ss, 0) && Joined(ss, i) && Joined(ss, |ss| - 1);
    if i > 0 {
      StackedApart(ss, 0, i);
    }
    if i < |ss| - 1 {
      StackedApart(ss, i, |ss| - 1);
    }
  }

  /** `stats[h] | 0` in JavaScript: a missing height counts as zero. */
  function StatOf(stats: map<int, int>, ht: int): int
  {
    if ht in stats then stats[ht] else 0
  }

  /** How many ids in `m` have height `ht`. */
  function CountOf(m: map<Id, int>, ht: int): nat
  {
    |set k | k in m && m[k] == ht|
  }

  /** Registering a new id raises the count of its height by one and leaves the others. */
  lemma CountAdd(m: map<Id, int>, key: Id, v: int, ht: int)
    requires key !in m
    ensures CountOf(m[key := v], ht) == CountOf(m, ht) + (if v == ht then 1 else 0)
  {
    var before := set k | k in m && m[k] == ht;
    var m2 := m[key := v];
    var after := set k | k in m2 && m2[k] == ht;
    if v == ht {
      assert after == before + {key};
    } else {
      assert after == before;
    }
  }

  /** Removing an id lowers the count of its height by one and leaves the others. */
  lemma CountRemove(m: map<Id, int>, key: Id, ht: int)
    requires key in m
    ensures CountOf(m - {key}, ht) == CountOf(m, ht) - (if m[key] == ht then 1 else 0)
  {
    var before := set k | k in m && m[k] == ht;
    var after := set k | k in m - {key} && (m - {key})[k] == ht;
    if m[key] == ht {
      assert before == after + {key};
    } else {
      assert after == before;
    }
  }

  /** `stats` holds, for every height, the number of live bins of that height, and has an entry for every live height. */
  ghost predicate StatsHold(live: map<Id, int>, stats: map<int, int>)
  {
    && (forall k {:trigger Listed(live, stats, k)} :: Listed(live, stats, k))
    && (forall ht {:trigger Counted(live, stats, ht)} :: Counted(live, stats, ht))
  }

  /** A live id's height has an entry. */
  ghost predicate Listed(live: map<Id, int>, stats: map<int, int>, k: Id)
  {
    k in live ==> live[k] in stats
  }

  /** An entry counts the live ids of its height. */
  ghost predicate Counted(live: map<Id, int>, stats: map<int, int>, ht: int)
  {
    ht in stats ==> stats[ht] == CountOf(live, ht)
  }

  /** Registering a bin bumps its height's entry, starting a missing one from zero. */
  lemma StatsAdd(live: map<Id, int>, stats: map<int, int>, key: Id, v: int)
    requires StatsHold(live, stats) && key !in live
    ensures StatsHold(live[key := v], stats[v := StatOf(stats, v) + 1])
  {
    var live', stats' := live[key := v], stats[v := StatOf(stats, v) + 1];
    if v !in stats {
      forall k | k in live ensures live[k] != v {
        assert Listed(live, stats, k);
      }
      assert (set k | k in live && live[k] == v) == {};
    }
    forall ht ensures Counted(live', stats', ht) {
      assert Counted(live, stats, ht);
      CountAdd(live, key, v, ht);
    }
    forall k ensures Listed(live', stats', k) {
      assert Listed(live, stats, k);
    }
  }

  /** Retiring a bin lowers its height's entry by one; the entry stays. */
  lemma StatsRemove(live: map<Id, int>, stats: map<int, int>, key: Id)
    requires StatsHold(live, stats) && key in live
    ensures live[key] in stats
    ensures StatsHold(live - {key}, stats[live[key] := StatOf(stats, live[key]) - 1])
  {
    var live', stats' := live - {key}, stats[live[key] := StatOf(stats, live[key]) - 1];
    assert Listed(live, stats, key);
    forall ht ensures Counted(live', stats', ht) {
      assert Counted(live, stats, ht);
      CountRemove(live, key, ht);
    }
    forall k ensures Listed(live', stats', k) {
      assert Listed(live, stats, k);
    }
  }

  /** The capacities of a list of vacated bins, as the decision sees them. */
  function SlotsOf(bs: seq<Bin>): (fs: seq<Slot>)
    ensures |fs| == |bs| && forall i :: 0 <= i < |bs| ==> fs[i] == Slot(bs[i].maxw, bs[i].maxh)
  {
    if bs == [] then [] else SlotsOf(bs[..|bs| - 1]) + [Slot(bs[|bs| - 1].maxw, bs[|bs| - 1].maxh)]
  }

  /** Resizes every shelf of a stack to a new canvas width, in order. */
  method ResizeShelves(ss: seq<Shelf>, newW: int)
    requires Stacked(ss)
    modifies set s | s in ss
    ensures forall k :: 0 <= k < |ss| ==>
      ss[k].w == newW && ss[k].x == old(ss[k].x) && ss[k].free == old(ss[k].free) + (newW - old(ss[k].w))
  {
    var i := 0;
    while i < |ss|
      invariant 0 <= i <= |ss|
      invariant forall k :: 0 <= k < |ss| ==> ss[k].x == old(ss[k].x)
      invariant forall k :: 0 <= k < i ==> ss[k].w == newW && ss[k].free == old(ss[k].free) + (newW - old(ss[k].w))
      invariant forall k :: i <= k < |ss| ==> ss[k].w == old(ss[k].w) && ss[k].free == old(ss[k].free)
    {
      forall k | 0 <= k < |ss| && k != i ensures ss[k] != ss[i] {
        StackedDistinct(ss, k, i);
      }
      ss[i].Resize(newW);
      i := i + 1;
    }
  }

  /** Rooms of the same heights add up to the same total, wherever their cursors are. */
  lemma {:induction false} TotalSameHeights(rs: seq<Room>, rs': seq<Room>)
    requires |rs| == |rs'| && forall k :: 0 <= k < |rs| ==> rs[k].h == rs'[k].h
    ensures Total(rs) == Total(rs')
  {
    if rs != [] {
      var n := |rs| - 1;
      TotalSameHeights(rs[..n], rs'[..n]);
    }
  }

  /** A room added at the end raises the total by its height. */
  lemma TotalPush(rs: seq<Room>, r: Room)
    ensures Total(rs + [r]) == Total(rs) + r.h
  {
    assert (rs + [r])[..|rs|] == rs;
  }

  /** Opening an empty shelf and then cutting at its start leaves one more room, as wide as the cut. */
  lemma PushThenCut(rs: seq<Room>, rs1: seq<Room>, rs2: seq<Room>, rh: int, rw: int)
    requires rs1 == rs + [Room(rh, 0)] && rs2 == rs1[|rs| := Room(rh, 0 + rw)]
    ensures rs2 == rs + [Room(rh, rw)]
  {
  }

  /** Two rectangles, at their current sizes, do not overlap. */
  predicate Apart(a: Bin, b: Bin)
    reads a, b
  {
    a.x + a.w <= b.x || b.x + b.w <= a.x || a.y + a.h <= b.y || b.y + b.h <= a.y
  }

  /** The outcome of a single allocation request. */
  datatype PackResult = Placed(bin: Bin) | NoSpace | InvalidSize

  /** A request record of a batch: either spelling of the size, and the position written back. */
  datatype Request = Request(id: Option<Id>, w: Option<int>, h: Option<int>,
                             width: Option<int>, height: Option<int>,
                             x: Option<int>, y: Option<int>)

  /** JavaScript's `a || b` on optional numbers: a missing or zero `a` falls through to `b`. */
  function Either(a: Option<int>, b: Option<int>): (r: Option<int>)
    ensures r.Some? && r.value != 0 <==> (a.Some? && a.value != 0) || (b.Some? && b.value != 0)
    ensures a.Some? && a.value != 0 ==> r == a
  {
    if a.Some? && a.value != 0 then a else b
  }

  /** The size of a request, `w` preferred over `width` and `h` over `height`; None unless both are positive. */
  function SizeOf(r: Request): (s: Option<(int, int)>)
    ensures s.Some? ==> s.value.0 >= 1 && s.value.1 >= 1
    ensures s.Some? <==> Either(r.w, r.width).Some? && Either(r.w, r.width).value >= 1
                          && Either(r.h, r.height).Some? && Either(r.h, r.height).value >= 1
  {
    var w := Either(r.w, r.width);
    var h := Either(r.h, r.height);
    if w.Some? && h.Some? && w.value >= 1 && h.value >= 1 then Some((w.value, h.value)) else None
  }


  /**
   * The key a request without a live id is stored under, and the new high-water
   * mark of minted ids: a given id is kept (a numeric one raises the mark to it),
   * a missing one is minted as the mark plus one.
   */
  function NextKey(id: Option<Id>, maxId: int): (r: (Id, int))
    ensures maxId <= r.1 && (r.0.Num? ==> r.0.n <= r.1)
    ensures id.Some? ==> r.0 == id.value
    ensures id.None? ==> r.0 == Num(maxId + 1) && r.1 == maxId + 1
    ensures (id.None? || id.value.Num?) <==> r.0.Num?
    ensures !(id.Some? && id.value.Num? && id.value.n > maxId) && id != None ==> r.1 == maxId
  {
    match id
    case None => (Num(maxId + 1), maxId + 1)
    case Some(Num(n)) => (Num(n), Max(n, maxId))
    case Some(Name(s)) => (Name(s), maxId)
  }

  /** The bin a placement produced, if any. */
  function PlacedBin(r: PackResult): (b: Option<Bin>)
    ensures b.Some? <==> r.Placed?
    ensures r.Placed? ==> b.value == r.bin
  {
    if r.Placed? then Some(r.bin) else None
  }

  /** A batch record after `pack`: with `inPlace`, a placed request carries its bin's position. */
  function WrittenBack(q: Request, got: Option<Bin>, inPlace: bool): Request
  {
    if inPlace && got.Some? then q.(x := Some(got.value.x), y := Some(got.value.y)) else q
  }

  /** The records of a batch once the first |outs| of them have been answered with outs. */
  function Progress(qs: seq<Request>, outs: seq<Option<Bin>>, inPlace: bool): (rs: seq<Request>)
    ensures |rs| == |qs|
    ensures forall j :: 0 <= j < |qs| ==> rs[j] == if j < |outs| then WrittenBack(qs[j], outs[j], inPlace) else qs[j]
  {
    seq(|qs|, j requires 0 <= j < |qs| => if j < |outs| then WrittenBack(qs[j], outs[j], inPlace) else qs[j])
  }

  /** Answering request |outs| writes back that record alone. */
  lemma ProgressStep(qs: seq<Request>, outs: seq<Option<Bin>>, got: Option<Bin>, inPlace: bool)
    requires |outs| < |qs|
    ensures Progress(qs, outs + [got], inPlace) == Progress(qs, outs, inPlace)[|outs| := WrittenBack(qs[|outs|], got, inPlace)]
  {
  }

  /** The bins of the placed requests, in request order. */
  function Somes(outs: seq<Option<Bin>>): (bs: seq<Bin>)
    ensures |bs| <= |outs|
  {
    if |outs| == 0 then []
    else Somes(outs[..|outs| - 1]) + if outs[|outs| - 1].Some? then [outs[|outs| - 1].value] else []
  }

  /** Answering one more request adds its bin, if placed, to the batch's results. */
  lemma SomesAppend(outs: seq<Option<Bin>>, got: Option<Bin>)
    ensures Somes(outs + [got]) == Somes(outs) + if got.Some? then [got.value] else []
  {
    assert (outs + [got])[..|outs|] == outs;
  }

  /** When every request was placed, the results are the bins, request by request. */
  lemma {:induction false} SomesAll(outs: seq<Option<Bin>>)
    requires forall i :: 0 <= i < |outs| ==> outs[i].Some?
    ensures |Somes(outs)| == |outs|
    ensures forall i :: 0 <= i < |outs| ==> Somes(outs)[i] == outs[i].value
  {
    if |outs| > 0 {
      SomesAll(outs[..|outs| - 1]);
    }
  }

  /** Key k was filed by one of the first n requests of a batch that was placed. */
  predicate Filed(k: Id, keys: seq<Id>, outs: seq<Option<Bin>>, n: int)
  {
    exists j :: 0 <= j < n && j < |keys| && j < |outs| && outs[j].Some? && keys[j] == k
  }

  /**
   * Request q, the i-th of a batch, comes with an id that is live: it was live
   * before the batch (`keys0`) or an earlier request of the batch was placed under it.
   */
  predicate Reissued(q: Request, keys0: set<Id>, keys: seq<Id>, outs: seq<Option<Bin>>, i: int)
  {
    q.id.Some? && (q.id.value in keys0 || Filed(q.id.value, keys, outs, i))
  }

  /** Extending the batch's answers does not change which keys the first n of them filed. */
  lemma FiledExtended(keys: seq<Id>, outs: seq<Option<Bin>>, key: Id, got: Option<Bin>, n: int)
    requires n <= |keys| && n <= |outs|
    ensures forall k :: Filed(k, keys + [key], outs + [got], n) <==> Filed(k, keys, outs, n)
  {
    forall k | Filed(k, keys + [key], outs + [got], n) ensures Filed(k, keys, outs, n) {
      var j :| 0 <= j < n && j < |keys| + 1 && j < |outs| + 1 && (outs + [got])[j].Some? && (keys + [key])[j] == k;
      assert outs[j].Some? && keys[j] == k;
    }
    forall k | Filed(k, keys, outs, n) ensures Filed(k, keys + [key], outs + [got], n) {
      var j :| 0 <= j < n && j < |keys| && j < |outs| && outs[j].Some? && keys[j] == k;
      assert (outs + [got])[j].Some? && (keys + [key])[j] == k;
    }
  }

  /** The keys live after one more answer: those before, and the new key when the request was placed. */
  lemma FiledStep(before: map<Id, Bin>, after: map<Id, Bin>, bins0: map<Id, Bin>, keys: seq<Id>,
                  outs: seq<Option<Bin>>, key: Id, got: Option<Bin>)
    requires |outs| == |keys|
    requires forall k :: k in before <==> k in bins0 || Filed(k, keys, outs, |outs|)
    requires after == if got.Some? then before[key := got.value] else before
    ensures forall k :: k in after <==> k in bins0 || Filed(k, keys + [key], outs + [got], |outs| + 1)
  {
    var n := |outs|;
    FiledExtended(keys, outs, key, got, n);
    forall k ensures k in after <==> k in bins0 || Filed(k, keys + [key], outs + [got], n + 1) {
      if got.Some? && k == key {
        assert (outs + [got])[n].Some? && (keys + [key])[n] == k;
      }
      if Filed(k, keys + [key], outs + [got], n + 1) && !Filed(k, keys, outs, n) {
        var j :| 0 <= j < n + 1 && j < |keys| + 1 && j < |outs| + 1 && (outs + [got])[j].Some? && (keys + [key])[j] == k;
        assert j == n;
      }
    }
  }

  class ShelfPack {
    var w: int
    var h: int
    const autoResize: bool
    var shelves: seq<Shelf>
    var freebins: seq<Bin>
    var bins: map<Id, Bin>
    var stats: map<int, int>
    var maxId: int

    /** Every slot handed out since the last clear, live or vacated. */
    ghost var slots: set<Bin>
    /** The shelf each slot lies on. */
    ghost var rowOf: map<Bin, nat>
    /** The height of every live bin, by id. */
    ghost var live: map<Id, int>
    /** The height and cursor of every shelf, as the decision sees them. */
    ghost var rooms: seq<Room>

    /** The free list as the decision sees it. */
    ghost function FreeSlots(): seq<Slot>
      reads `freebins
    {
      SlotsOf(freebins)
    }

    /** A shelf spans the canvas: its cursor and the room left add up to the canvas width. */
    ghost predicate Spans(s: Shelf)
      reads `w, s
    {
      0 <= s.x <= w && s.w == w && s.free == w - s.x
    }

    /** The shelves are stacked from the top, fit in the canvas and span its width. */
    ghost predicate ShelvesOk()
      reads `w, `h, `shelves, `rooms, shelves
    {
      && 0 <= w && 0 <= h && Bottom(shelves) <= h
      && Stacked(shelves)
      && |rooms| == |shelves| && Total(rooms) == Bottom(shelves)
      && (forall i {:trigger SpansAt(i)} :: SpansAt(i))
    }

    /** Shelf i, if there is one, spans the canvas and its room records its height and cursor. */
    ghost predicate SpansAt(i: int)
      reads `w, `shelves, `rooms, shelves
    {
      0 <= i < |shelves| ==> Spans(shelves[i]) && i < |rooms| && rooms[i] == Room(shelves[i].h, shelves[i].x)
    }

    /** A slot lies on its shelf, left of the shelf's cursor and no taller than the shelf. */
    ghost predicate SlotOk(c: Bin)
      reads `shelves, `rowOf, shelves
    {
      && c in rowOf && rowOf[c] < |shelves|
      && c.y == shelves[rowOf[c]].y && 1 <= c.maxh <= shelves[rowOf[c]].h
      && 0 <= c.x && 1 <= c.maxw && c.x + c.maxw <= shelves[rowOf[c]].x
    }

    /** Two slots on the same shelf are side by side. */
    ghost predicate Beside(a: Bin, b: Bin)
      reads `rowOf
    {
      a in rowOf && b in rowOf && rowOf[a] == rowOf[b] ==> a.x + a.maxw <= b.x || b.x + b.maxw <= a.x
    }

    /** Every slot is on its shelf, and slots on one shelf are side by side. */
    ghost predicate SlotsOk()
      reads `shelves, `rowOf, `slots, shelves
    {
      && (forall c {:trigger SlotOk(c)} :: c in slots ==> SlotOk(c))
      && (forall a, b {:trigger Beside(a, b)} :: a in slots && b in slots && a != b ==> Beside(a, b))
    }

    /**
     * The bin live under `k` is a slot registered under its own id, with a
     * positive count, the height `live` records, a size within its slot and,
     * for a numeric id, an id no larger than `maxId`.
     */
    ghost predicate LiveOk(k: Id)
      reads `bins, `live, `maxId, `slots, slots
    {
      k in bins ==>
        && bins[k] in slots && k in live
        && bins[k].id == k && 1 <= bins[k].refcount && bins[k].h == live[k]
        && 1 <= bins[k].w <= bins[k].maxw && 1 <= bins[k].h <= bins[k].maxh
        && (k.Num? ==> k.n <= maxId)
    }

    /** Live bins are consistent, vacated bins are slots with a zero count, each listed once. */
    ghost predicate IdsOk()
      reads `bins, `live, `maxId, `freebins, `slots, slots
    {
      && 0 <= maxId
      && live.Keys == bins.Keys
      && (forall k {:trigger LiveOk(k)} :: LiveOk(k))
      && (forall i {:trigger Vacated(i)} :: Vacated(i))
      && (forall i, j {:trigger Twins(i, j)} :: !Twins(i, j))
    }

    /** Entry i of the free list, if there is one, is a slot with a zero count. */
    ghost predicate Vacated(i: int)
      reads `freebins, `slots, slots
    {
      0 <= i < |freebins| ==> freebins[i] in slots && freebins[i].refcount == 0
    }

    /** Two different entries of the free list hold the same bin. */
    ghost predicate Twins(i: int, j: int)
      reads `freebins
    {
      0 <= i < j < |freebins| && freebins[i] == freebins[j]
    }

    ghost predicate Valid()
      reads this, shelves, slots
    {
      ShelvesOk() && SlotsOk() && IdsOk() && StatsHold(live, stats)
    }

    constructor (w: nat, h: nat, autoResize: bool)
      ensures Valid() && slots == {}
      ensures this.w == w && this.h == h && this.autoResize == autoResize
      ensures shelves == [] && freebins == [] && bins == map[] && stats == map[] && maxId == 0
    {
      this.w := w;
      this.h := h;
      this.autoResize := autoResize;
      shelves := [];
      freebins := [];
      bins := map[];
      stats := map[];
      maxId := 0;
      slots := {};
      rowOf := map[];
      live := map[];
      rooms := [];
    }

    // -------------------------------------------------------------------------
    // Facts that follow from the invariant

    /** Every live bin lies inside the canvas. */
    lemma BinInCanvas(key: Id)
      requires Valid() && key in bins
      ensures 0 <= bins[key].x && bins[key].x + bins[key].w <= w
      ensures 0 <= bins[key].y && bins[key].y + bins[key].h <= h
    {
      var c := bins[key];
      assert LiveOk(key) && SlotOk(c);
      StackedWithin(shelves, rowOf[c]);
      assert SpansAt(rowOf[c]);
    }

    /** No two live bins overlap. */
    lemma BinsApart(a: Id, b: Id)
      requires Valid() && a in bins && b in bins && a != b
      ensures Apart(bins[a], bins[b])
    {
      var p, q := bins[a], bins[b];
      assert LiveOk(a) && LiveOk(b) && SlotOk(p) && SlotOk(q) && Beside(p, q);
      var kp, kq := rowOf[p], rowOf[q];
      if kp < kq {
        StackedApart(shelves, kp, kq);
      } else if kq < kp {
        StackedApart(shelves, kq, kp);
      }
    }

    /** Every entry of the free list is a slot with a zero count. */
    lemma FreeAllVacated()
      requires IdsOk()
      ensures forall b :: b in freebins ==> b in slots && b.refcount == 0
    {
      forall b | b in freebins ensures b in slots && b.refcount == 0 {
        var i :| 0 <= i < |freebins| && freebins[i] == b;
        assert Vacated(i);
      }
    }

    /** A vacated bin is never reachable by id. */
    lemma FreedUnreachable(i: nat, k: Id)
      requires Valid() && i < |freebins| && k in bins
      ensures bins[k] != freebins[i]
    {
      assert LiveOk(k) && Vacated(i);
    }

    // -------------------------------------------------------------------------
    // Preservation of the invariant's parts, one step kind at a time

    /** The id bookkeeping survives any step that leaves it and the slots alone. */
    twostate lemma IdsKept()
      requires old(IdsOk()) && slots == old(slots)
      requires maxId == old(maxId) && live == old(live) && bins == old(bins) && freebins == old(freebins)
      requires forall c :: c in slots ==> unchanged(c)
      ensures IdsOk()
    {
      forall k ensures LiveOk(k) {
        assert old(LiveOk(k));
      }
      forall i ensures Vacated(i) {
        assert old(Vacated(i));
      }
      forall i, j ensures !Twins(i, j) {
        assert !old(Twins(i, j));
      }
    }

    /** The slots stay on their shelves when shelves are only added and no cursor moves. */
    twostate lemma SlotsKept()
      requires old(SlotsOk()) && slots == old(slots) && rowOf == old(rowOf)
      requires |old(shelves)| <= |shelves| && shelves[..|old(shelves)|] == old(shelves)
      requires forall k :: 0 <= k < |old(shelves)| ==> shelves[k].x == old(shelves[k].x)
      ensures SlotsOk()
    {
      forall c | c in slots ensures SlotOk(c) {
        assert old(SlotOk(c));
      }
      forall a, b | a in slots && b in slots && a != b ensures Beside(a, b) {
        assert old(Beside(a, b));
      }
    }

    /** A new slot cut at the cursor of shelf k, which then moves past it. */
    twostate lemma SlotsAfterCut(new k: nat, new b: Bin)
      requires old(SlotsOk()) && k < |shelves| && shelves == old(shelves)
      requires b !in old(slots) && slots == old(slots) + {b} && rowOf == old(rowOf)[b := k]
      requires b.x == old(shelves[k].x) && b.y == shelves[k].y && 1 <= b.maxw && 1 <= b.maxh <= shelves[k].h
      requires 0 <= old(shelves[k].x) && shelves[k].x == old(shelves[k].x) + b.maxw
      requires forall j :: 0 <= j < |shelves| && j != k ==> shelves[j].x == old(shelves[j].x)
      ensures SlotsOk()
    {
      forall c | c in slots ensures SlotOk(c) {
        if c != b {
          assert old(SlotOk(c));
        }
      }
      forall a, c | a in slots && c in slots && a != c ensures Beside(a, c) {
        if a != b && c != b {
          assert old(Beside(a, c));
        } else if a == b {
          assert old(SlotOk(c));
        } else {
          assert old(SlotOk(a));
        }
      }
    }

    /** A freshly cut slot goes live under `key`. */
    twostate lemma IdsAfterCut(new key: Id, new b: Bin)
      requires old(IdsOk()) && key !in old(bins) && (key.Num? ==> key.n <= maxId) && maxId == old(maxId)
      requires b !in old(slots) && slots == old(slots) + {b} && freebins == old(freebins)
      requires bins == old(bins)[key := b] && live == old(live)[key := b.h]
      requires b.id == key && b.refcount == 1 && 1 <= b.w <= b.maxw && 1 <= b.h <= b.maxh
      requires forall c :: c in old(slots) ==> unchanged(c)
      ensures IdsOk()
    {
      forall k ensures LiveOk(k) {
        assert old(LiveOk(k));
      }
      forall i ensures Vacated(i) {
        assert old(Vacated(i));
      }
      forall i, j ensures !Twins(i, j) {
        assert !old(Twins(i, j));
      }
    }

    /** Vacated bin i is reused under `key`. */
    twostate lemma IdsAfterReuse(new i: nat, new key: Id, new b: Bin)
      requires old(IdsOk()) && i < |old(freebins)| && b == old(freebins)[i] && key !in old(bins)
      requires (key.Num? ==> key.n <= maxId) && maxId == old(maxId) && slots == old(slots)
      requires freebins == old(freebins)[..i] + old(freebins)[i + 1..]
      requires bins == old(bins)[key := b] && live == old(live)[key := b.h]
      requires b.id == key && b.refcount == 1 && 1 <= b.w <= b.maxw && 1 <= b.h <= b.maxh
      requires forall c :: c in slots && c != b ==> unchanged(c)
      ensures IdsOk()
    {
      assert old(Vacated(i));
      forall k ensures LiveOk(k) {
        assert old(LiveOk(k));
      }
      forall j ensures Vacated(j) {
        if 0 <= j < |freebins| {
          var m := if j < i then j else j + 1;
          assert freebins[j] == old(freebins[m]);
          assert old(Vacated(m));
          if m < i {
            assert !old(Twins(m, i));
          } else {
            assert !old(Twins(i, m));
          }
        }
      }
      forall j, j' ensures !Twins(j, j') {
        if 0 <= j < j' < |freebins| {
          var m := if j < i then j else j + 1;
          var m' := if j' < i then j' else j' + 1;
          assert freebins[j] == old(freebins[m]) && freebins[j'] == old(freebins[m']);
          assert !old(Twins(m, m'));
        }
      }
    }

    /** The live bin under `key` loses its last reference and joins the free list. */
    twostate lemma IdsAfterRelease(key: Id)
      requires old(IdsOk()) && key in old(bins) && maxId == old(maxId) && slots == old(slots)
      requires bins == old(bins) - {key} && live == old(live) - {key} && freebins == old(freebins) + [old(bins)[key]]
      requires old(bins)[key].refcount == 0
      requires forall c :: c in slots && c != old(bins)[key] ==> unchanged(c)
      ensures IdsOk()
    {
      var b := old(bins)[key];
      assert old(LiveOk(key));
      forall k ensures LiveOk(k) {
        assert old(LiveOk(k));
      }
      forall j ensures Vacated(j) {
        if 0 <= j < |old(freebins)| {
          assert old(Vacated(j));
          assert freebins[j] == old(freebins[j]) != b;
        }
      }
      forall j, j' ensures !Twins(j, j') {
        if 0 <= j < j' < |freebins| {
          assert old(Vacated(j)) && !old(Twins(j, j'));
        }
      }
    }

    // -------------------------------------------------------------------------
    // Lookup and reference counting

    /** The live bin registered under `key`, if any. */
    function GetBin(key: Id): (r: Option<Bin>)
      requires Valid()
      reads this, shelves, slots
      ensures r.Some? <==> key in bins
      ensures r.Some? ==> r.value.id == key && r.value.refcount >= 1 && r.value == bins[key]
      ensures r.Some? ==> r.value !in freebins
    {
      assert LiveOk(key);
      FreeAllVacated();
      if key in bins then Some(bins[key]) else None
    }

    /** Adds a reference to a live bin and returns the new count; the statistics stay as they are. */
    method Ref(b: Bin) returns (r: int)
      requires Valid() && b.id in bins && bins[b.id] == b
      modifies b
      ensures Valid()
      ensures r == b.refcount && r == old(b.refcount) + 1
      ensures b.id == old(b.id) && b.w == old(b.w) && b.h == old(b.h)
    {
      assert LiveOk(b.id);
      b.refcount := b.refcount + 1;
      r := b.refcount;
      forall k ensures LiveOk(k) {
        assert old(LiveOk(k));
      }
      forall i ensures Vacated(i) {
        assert old(Vacated(i));
      }
      forall i, j ensures !Twins(i, j) {
        assert !old(Twins(i, j));
      }
    }

    /**
     * Drops a reference and returns the new count.  A count already at zero is
     * left alone.  When the count reaches zero the bin leaves the id map, joins
     * the end of the free list and its height's statistic drops by one (the
     * entry stays, possibly at zero).
     */
    method Unref(b: Bin) returns (r: int)
      requires Valid() && ((b.id in bins && bins[b.id] == b) || b in freebins)
      modifies this, b
      ensures Valid() && slots == old(slots)
      ensures r == b.refcount && r == (if old(b.refcount) == 0 then 0 else old(b.refcount) - 1)
      ensures b.id == old(b.id) && b.w == old(b.w) && b.h == old(b.h)
      ensures w == old(w) && h == old(h) && shelves == old(shelves) && maxId == old(maxId)
      ensures old(b.refcount) != 1 ==> bins == old(bins) && freebins == old(freebins) && stats == old(stats)
      ensures old(b.refcount) == 1 ==>
        && b.id in old(bins) && old(bins[b.id]) == b
        && bins == old(bins) - {b.id} && freebins == old(freebins) + [b]
        && b.h in old(stats) && stats == old(stats)[b.h := old(stats)[b.h] - 1]
    {
      if b.refcount == 0 {
        return 0;
      }
      FreeAllVacated();
      assert LiveOk(b.id);
      b.refcount := b.refcount - 1;
      if b.refcount == 0 {
        StatsRemove(live, stats, b.id);
        Retire(b);
        IdsAfterRelease(b.id);
      } else {
        forall k ensures LiveOk(k) {
          assert old(LiveOk(k));
        }
        forall i ensures Vacated(i) {
          assert old(Vacated(i));
        }
        forall i, j ensures !Twins(i, j) {
          assert !old(Twins(i, j));
        }
      }
      r := b.refcount;
    }

    /** The bookkeeping of Unref when the last reference goes: the bin leaves the id map for the free list. */
    method Retire(b: Bin)
      requires b.id in live && b.h in stats
      modifies this
      ensures bins == old(bins) - {b.id} && live == old(live) - {b.id} && freebins == old(freebins) + [b]
      ensures stats == old(stats)[b.h := old(stats)[b.h] - 1]
      ensures shelves == old(shelves) && slots == old(slots) && rowOf == old(rowOf) && rooms == old(rooms)
      ensures w == old(w) && h == old(h) && maxId == old(maxId)
    {
      stats := stats[b.h := stats[b.h] - 1];
      bins := bins - {b.id};
      live := live - {b.id};
      freebins := freebins + [b];
    }

    /** Discards every shelf, bin and statistic; auto ids start again from 1.  The canvas keeps its size. */
    method Clear()
      requires Valid()
      modifies this
      ensures Valid() && slots == {}
      ensures w == old(w) && h == old(h)
      ensures shelves == [] && freebins == [] && bins == map[] && stats == map[] && maxId == 0
    {
      Reset();
      EmptyValid();
    }

    /** Empties every list and map; the canvas size stays. */
    method Reset()
      modifies this
      ensures Empty() && w == old(w) && h == old(h)
    {
      shelves := [];
      freebins := [];
      bins := map[];
      stats := map[];
      maxId := 0;
      slots := {};
      rowOf := map[];
      live := map[];
      rooms := [];
    }

    /** Nothing is on the canvas and no id has been handed out. */
    ghost predicate Empty()
      reads this
    {
      && shelves == [] && freebins == [] && bins == map[] && stats == map[] && maxId == 0
      && slots == {} && rowOf == map[] && live == map[] && rooms == []
    }

    /** A canvas with nothing on it is consistent. */
    lemma EmptyValid()
      requires 0 <= w && 0 <= h && Empty()
      ensures Valid()
    {
    }

    // -------------------------------------------------------------------------
    // Canvas size

    /**
     * Sets the canvas size and widens (or narrows) every shelf's room by the
     * change in width.  The new size must still hold every shelf's cursor and
     * every shelf; below that the layout is undefined.
     */
    method Resize(newW: int, newH: int) returns (ok: bool)
      requires Valid() && 0 <= newW && Bottom(shelves) <= newH
      requires forall k :: 0 <= k < |shelves| ==> shelves[k].x <= newW
      modifies this, shelves
      ensures Valid() && slots == old(slots) && ok
      ensures w == newW && h == newH
      ensures shelves == old(shelves) && rooms == old(rooms)
      ensures freebins == old(freebins) && bins == old(bins) && stats == old(stats) && maxId == old(maxId)
      ensures forall k :: 0 <= k < |shelves| ==> shelves[k].x == old(shelves[k].x)
      ensures forall k :: 0 <= k < |shelves| ==> shelves[k].free == old(shelves[k].free) + (newW - old(w))
    {
      if |shelves| > 0 {
        StackedWithin(shelves, |shelves| - 1);
      }
      w := newW;
      h := newH;
      ResizeShelves(shelves, newW);
      forall k | 0 <= k < |shelves|
        ensures Spans(shelves[k]) && old(shelves[k].w) == old(w) && rooms[k] == Room(shelves[k].h, shelves[k].x)
      {
        assert old(SpansAt(k));
      }
      forall k ensures SpansAt(k) {
      }
      SlotsKept();
      IdsKept();
      ok := true;
    }

    /**
     * Shrinks the canvas to the extent of its shelves: the widest cursor and the
     * bottom edge of the last shelf.  With no shelves the canvas is left alone.
     */
    method Shrink()
      requires Valid()
      modifies this, shelves
      ensures Valid() && slots == old(slots)
      ensures shelves == old(shelves) && rooms == old(rooms)
      ensures freebins == old(freebins) && bins == old(bins) && stats == old(stats) && maxId == old(maxId)
      ensures |shelves| == 0 ==> w == old(w) && h == old(h)
      ensures |shelves| > 0 ==>
        && h == Bottom(shelves)
        && (forall k :: 0 <= k < |shelves| ==> shelves[k].x <= w)
        && (exists k :: 0 <= k < |shelves| && shelves[k].x == w)
    {
      if |shelves| > 0 {
        var w2 := 0;
        var h2 := 0;
        var i := 0;
        ghost var widest := 0;
        while i < |shelves|
          invariant 0 <= i <= |shelves|
          invariant h2 == Bottom(shelves[..i]) && 0 <= w2
          invariant forall k :: 0 <= k < i ==> shelves[k].x <= w2
          invariant i == 0 ==> w2 == 0
          invariant 0 < i ==> widest < i && shelves[widest].x == w2
        {
          var shelf := shelves[i];
          assert Joined(shelves, i) && SpansAt(i);
          h2 := h2 + shelf.h;
          if i == 0 || w2 < shelf.w - shelf.free {
            widest := i;
          }
          w2 := Max(shelf.w - shelf.free, w2);
          i := i + 1;
        }
        assert shelves[..i] == shelves;
        var _ := Resize(w2, h2);
      }
    }

    // -------------------------------------------------------------------------
    // Allocation

    /** Places a bin on shelf k and gives it its first reference. */
    method AllocShelf(k: nat, rw: int, rh: int, key: Id) returns (b: Bin)
      requires Valid() && k < |shelves|
      requires 1 <= rw <= shelves[k].free && 1 <= rh <= shelves[k].h
      requires key !in bins && (key.Num? ==> key.n <= maxId)
      modifies this, shelves[k]
      ensures Valid() && fresh(b) && slots == old(slots) + {b}
      ensures shelves == old(shelves) && freebins == old(freebins) && bins == old(bins)[key := b]
      ensures w == old(w) && h == old(h) && maxId == old(maxId)
      ensures stats == old(stats)[rh := StatOf(old(stats), rh) + 1]
      ensures rooms == old(rooms)[k := Room(shelves[k].h, old(shelves[k].x) + rw)]
      ensures b.id == key && b.x == old(shelves[k].x) && b.y == shelves[k].y
      ensures b.w == rw && b.h == rh && b.maxw == rw && b.maxh == shelves[k].h && b.refcount == 1
      ensures forall c :: c in old(bins.Values) ==> c.id == old(c.id) && c.w == old(c.w) && c.h == old(c.h)
    {
      assert SpansAt(k);
      forall j | 0 <= j < |shelves| && j != k ensures shelves[j] != shelves[k] {
        StackedDistinct(shelves, j, k);
      }
      StatsAdd(live, stats, key, rh);
      b := CutShelf(k, rw, rh, key);
      forall j ensures SpansAt(j) {
        assert old(SpansAt(j));
      }
      TotalSameHeights(old(rooms), rooms);
      SlotsAfterCut(k, b);
      IdsAfterCut(key, b);
    }

    /** The bookkeeping of AllocShelf: shelf k cuts a new slot at its cursor, which goes live under `key`. */
    method CutShelf(k: nat, rw: int, rh: int, key: Id) returns (b: Bin)
      requires k < |shelves| && k < |rooms| && rw <= shelves[k].free && rh <= shelves[k].h
      modifies this, shelves[k]
      ensures fresh(b) && slots == old(slots) + {b} && rowOf == old(rowOf)[b := k]
      ensures bins == old(bins)[key := b] && live == old(live)[key := rh]
      ensures stats == old(stats)[rh := StatOf(old(stats), rh) + 1]
      ensures shelves == old(shelves) && freebins == old(freebins)
      ensures w == old(w) && h == old(h) && maxId == old(maxId)
      ensures shelves[k].w == old(shelves[k].w)
      ensures shelves[k].x == old(shelves[k].x) + rw && shelves[k].free == old(shelves[k].free) - rw
      ensures rooms == old(rooms)[k := Room(shelves[k].h, shelves[k].x)]
      ensures b.id == key && b.x == old(shelves[k].x) && b.y == shelves[k].y
      ensures b.w == rw && b.h == rh && b.maxw == rw && b.maxh == shelves[k].h && b.refcount == 1
    {
      var got := shelves[k].Alloc(rw, rh, key);
      b := got.value;
      b.refcount := 1;
      bins := bins[key := b];
      stats := stats[rh := StatOf(stats, rh) + 1];
      slots := slots + {b};
      rowOf := rowOf[b := k];
      live := live[key := rh];
      rooms := rooms[k := Room(shelves[k].h, shelves[k].x)];
    }

    /** Reuses vacated bin i for a request it can hold, giving it its first reference. */
    method AllocFreebin(i: nat, rw: int, rh: int, key: Id) returns (b: Bin)
      requires Valid() && i < |freebins|
      requires 1 <= rw <= freebins[i].maxw && 1 <= rh <= freebins[i].maxh
      requires key !in bins && (key.Num? ==> key.n <= maxId)
      modifies this, freebins[i]
      ensures Valid() && slots == old(slots)
      ensures b == old(freebins)[i] && freebins == old(freebins)[..i] + old(freebins)[i + 1..]
      ensures shelves == old(shelves) && rooms == old(rooms) && bins == old(bins)[key := b]
      ensures w == old(w) && h == old(h) && maxId == old(maxId)
      ensures stats == old(stats)[rh := StatOf(old(stats), rh) + 1]
      ensures b.id == key && b.w == rw && b.h == rh && b.refcount == 1
      ensures forall c :: c in old(bins.Values) ==> c.id == old(c.id) && c.w == old(c.w) && c.h == old(c.h)
    {
      assert Vacated(i);
      forall c | c in bins.Values ensures c != freebins[i] {
        var k :| k in bins && bins[k] == c;
        assert LiveOk(k);
      }
      StatsAdd(live, stats, key, rh);
      b := TakeFreebin(i, rw, rh, key);
      IdsAfterReuse(i, key, b);
    }

    /** The bookkeeping of AllocFreebin: bin i leaves the free list and goes live under `key`. */
    method TakeFreebin(i: nat, rw: int, rh: int, key: Id) returns (b: Bin)
      requires i < |freebins|
      modifies this, freebins[i]
      ensures b == old(freebins)[i] && freebins == old(freebins)[..i] + old(freebins)[i + 1..]
      ensures bins == old(bins)[key := b] && live == old(live)[key := rh]
      ensures stats == old(stats)[rh := StatOf(old(stats), rh) + 1]
      ensures shelves == old(shelves) && slots == old(slots) && rowOf == old(rowOf) && rooms == old(rooms)
      ensures w == old(w) && h == old(h) && maxId == old(maxId)
      ensures b.id == key && b.w == rw && b.h == rh && b.refcount == 1
    {
      b := freebins[i];
      freebins := freebins[..i] + freebins[i + 1..];
      b.Reuse(key, rw, rh);
      b.refcount := 1;
      bins := bins[key := b];
      stats := stats[rh := StatOf(stats, rh) + 1];
      live := live[key := rh];
    }

    /** Opens a new, empty shelf of height rh below the existing ones. */
    method AddShelf(y: int, rh: int)
      requires Valid() && y == Bottom(shelves) && 1 <= rh <= h - y
      modifies this
      ensures Valid() && slots == old(slots)
      ensures |shelves| == |old(shelves)| + 1 && shelves[..|old(shelves)|] == old(shelves)
      ensures fresh(shelves[|old(shelves)|])
      ensures shelves[|old(shelves)|].y == y && shelves[|old(shelves)|].h == rh && shelves[|old(shelves)|].x == 0
      ensures shelves[|old(shelves)|].free == w
      ensures rooms == old(rooms) + [Room(rh, 0)]
      ensures freebins == old(freebins) && bins == old(bins) && stats == old(stats)
      ensures w == old(w) && h == old(h) && maxId == old(maxId)
    {
      var shelf := new Shelf(y, w, rh);
      StackedPush(shelves, shelf);
      TotalPush(rooms, Room(rh, 0));
      shelves := shelves + [shelf];
      rooms := rooms + [Room(rh, 0)];
      forall j ensures SpansAt(j) {
        assert old(SpansAt(j));
      }
      SlotsKept();
      IdsKept();
    }

    // -------------------------------------------------------------------------
    // Placement

    /**
     * The search of `packOne`, which changes nothing.  The free list comes first:
     * an exact fit ends the search, otherwise the fitting bin of least waste is
     * kept.  Then the shelves, summing their heights into `y`: one of exactly
     * the request's height with room ends the search, otherwise a taller one
     * with room replaces the best so far only when strictly less wasteful.
     * Failing both, a new shelf at `y` is chosen when it fits.
     */
    method Search(rw: int, rh: int) returns (c: Choice, y: int)
      requires Valid()
      ensures c == Choose(FreeSlots(), rooms, w, h, rw, rh)
      ensures c.NewShelf? || c.NoRoom? ==> y == Total(rooms)
    {
      ghost var fs, rs := FreeSlots(), rooms;
      var scan := Best(NoCandidate);
      var i := 0;
      while i < |freebins| && scan.Best?
        invariant 0 <= i <= |freebins|
        invariant scan == ScanFree(fs, rw, rh, i)
      {
        var bin := freebins[i];
        if rh == bin.maxh && rw == bin.maxw {
          scan := Exact(i);
        } else if rh > bin.maxh || rw > bin.maxw {
        } else {
          var waste := bin.maxw * bin.maxh - rw * rh;
          if Improves(waste, scan.cand) {
            scan := Best(FreeCand(i, waste));
          }
        }
        i := i + 1;
      }
      ScanFreeKeeps(fs, rw, rh, i);
      y := 0;
      if scan.Exact? {
        return ReuseFree(scan.index), y;
      }
      var start := scan.cand;
      var found := Best(start);
      var k := 0;
      while k < |shelves| && found.Best?
        invariant 0 <= k <= |shelves|
        invariant found == ScanShelves(rs, w, rw, rh, start, k)
        invariant y == Total(rs[..k])
      {
        var shelf := shelves[k];
        assert SpansAt(k);
        assert rs[..k + 1][..k] == rs[..k];
        y := y + shelf.h;
        if rw > shelf.free {
        } else if rh == shelf.h {
          found := Exact(k);
        } else if rh > shelf.h {
        } else {
          var waste := (shelf.h - rh) * rw;
          if Improves(waste, found.cand) {
            found := Best(ShelfCand(k, waste));
          }
        }
        k := k + 1;
      }
      ScanShelvesKeeps(rs, w, rw, rh, start, k);
      if found.Exact? {
        return UseShelf(found.index), y;
      }
      assert rs[..k] == rs;
      match found.cand
      case FreeCand(fi, _) =>
        c := ReuseFree(fi);
      case ShelfCand(sk, _) =>
        c := UseShelf(sk);
      case NoCandidate =>
        c := if rh <= h - y && rw <= w then NewShelf else NoRoom;
    }

    /**
     * What placing a rw x rh request under `key` by decision `c` left behind,
     * against the free list `fb0`, the shelves `ss0` (seen by the decision as
     * `rs0`), the id map `bins0` and the statistics `stats0` it started from.
     * No room changes nothing.  Otherwise the bin is live under `key` with the
     * requested size and one reference, and its height is counted once more.  A
     * reused bin leaves the free list; a shelf's bin sits at its cursor, as tall
     * as the shelf, and moves the cursor past it; a new shelf starts at the
     * bottom edge as tall as the request.
     */
    ghost predicate Outcome(c: Choice, rw: int, rh: int, key: Id, r: Option<Bin>, fb0: seq<Bin>,
                            ss0: seq<Shelf>, rs0: seq<Room>, bins0: map<Id, Bin>, stats0: map<int, int>)
      reads this, shelves, if r.Some? then {r.value} else {}
    {
      match c
      case NoRoom =>
        && r.None? && shelves == ss0 && rooms == rs0
        && freebins == fb0 && bins == bins0 && stats == stats0
      case ReuseFree(i) =>
        && Registered(rw, rh, key, r, bins0, stats0)
        && i < |fb0| && r.value == fb0[i] && freebins == fb0[..i] + fb0[i + 1..]
        && shelves == ss0 && rooms == rs0
      case UseShelf(k) =>
        && Registered(rw, rh, key, r, bins0, stats0)
        && k < |rs0| && k < |ss0| && freebins == fb0 && shelves == ss0
        && r.value.x == rs0[k].x && r.value.y == ss0[k].y
        && r.value.maxw == rw && r.value.maxh == rs0[k].h
        && rooms == rs0[k := Room(rs0[k].h, rs0[k].x + rw)]
      case NewShelf =>
        && Registered(rw, rh, key, r, bins0, stats0)
        && freebins == fb0 && |shelves| == |ss0| + 1 && shelves[..|ss0|] == ss0
        && r.value.x == 0 && r.value.y == Total(rs0) && r.value.maxw == rw && r.value.maxh == rh
        && rooms == rs0 + [Room(rh, rw)]
    }

    /**
     * Where a request lands from a state with free list fb0, shelves ss0 and
     * rooms rs0 on a w0 by h0 canvas: the canvas is the one `Settle` reaches and
     * the change is the one `Outcome` describes for the decision taken there.
     */
    ghost predicate Placement(fb0: seq<Bin>, rs0: seq<Room>, w0: int, h0: int, rw: int, rh: int, key: Id,
                              r: Option<Bin>, ss0: seq<Shelf>, bins0: map<Id, Bin>, stats0: map<int, int>)
      requires 1 <= rw && 1 <= rh && 0 <= w0 && Total(rs0) <= h0
      reads this, shelves, if r.Some? then {r.value} else {}
    {
      match Settle(SlotsOf(fb0), rs0, w0, h0, rw, rh, autoResize)
      case (sw, sh) =>
        && w == sw && h == sh
        && Outcome(Choose(SlotsOf(fb0), rs0, sw, sh, rw, rh), rw, rh, key, r, fb0, ss0, rs0, bins0, stats0)
    }

    /** A request that finds no room lands where it lands on the canvas one growth step larger. */
    lemma GrownPlacement(fb0: seq<Bin>, rs0: seq<Room>, w0: int, h0: int, w1: int, h1: int, rw: int, rh: int,
                         key: Id, r: Option<Bin>, ss0: seq<Shelf>, bins0: map<Id, Bin>, stats0: map<int, int>)
      requires 1 <= rw && 1 <= rh && 0 <= w0 && Total(rs0) <= h0
      requires autoResize && Choose(SlotsOf(fb0), rs0, w0, h0, rw, rh).NoRoom? && (w1, h1) == Grow(w0, h0, rw, rh)
      requires Placement(fb0, rs0, w1, h1, rw, rh, key, r, ss0, bins0, stats0)
      ensures Placement(fb0, rs0, w0, h0, rw, rh, key, r, ss0, bins0, stats0)
    {
    }

    /** The placed bin is live under `key` with the requested size and one reference, and its height is counted once more. */
    ghost predicate Registered(rw: int, rh: int, key: Id, r: Option<Bin>, bins0: map<Id, Bin>, stats0: map<int, int>)
      reads this, if r.Some? then {r.value} else {}
    {
      && r.Some? && r.value.id == key && r.value.w == rw && r.value.h == rh && r.value.refcount == 1
      && bins == bins0[key := r.value] && stats == stats0[rh := StatOf(stats0, rh) + 1]
    }

    /** Opens a shelf of height rh at the bottom edge `y` and places the request at its start. */
    method OpenShelf(y: int, rw: int, rh: int, key: Id) returns (b: Bin)
      requires Valid() && y == Bottom(shelves) && 1 <= rh <= h - y && 1 <= rw <= w
      requires key !in bins && (key.Num? ==> key.n <= maxId)
      modifies this
      ensures Valid() && fresh(b) && slots == old(slots) + {b}
      ensures |shelves| == |old(shelves)| + 1 && shelves[..|old(shelves)|] == old(shelves) && fresh(shelves[|old(shelves)|])
      ensures freebins == old(freebins) && bins == old(bins)[key := b]
      ensures w == old(w) && h == old(h) && maxId == old(maxId)
      ensures stats == old(stats)[rh := StatOf(old(stats), rh) + 1]
      ensures rooms == old(rooms) + [Room(rh, rw)]
      ensures b.id == key && b.x == 0 && b.y == y && b.w == rw && b.h == rh
      ensures b.maxw == rw && b.maxh == rh && b.refcount == 1
      ensures forall c :: c in old(bins.Values) ==> c.id == old(c.id) && c.w == old(c.w) && c.h == old(c.h)
    {
      AddShelf(y, rh);
      ghost var rs1 := rooms;
      b := AllocShelf(|shelves| - 1, rw, rh, key);
      PushThenCut(old(rooms), rs1, rooms, rh, rw);
    }

    /** Carries out a decision the search took on the current state. */
    method Commit(c: Choice, y: int, rw: int, rh: int, key: Id) returns (r: Option<Bin>)
      requires Valid() && 1 <= rw && 1 <= rh && key !in bins && (key.Num? ==> key.n <= maxId)
      requires c == Choose(FreeSlots(), rooms, w, h, rw, rh)
      requires c.NewShelf? ==> y == Total(rooms)
      modifies this, shelves, slots
      ensures Valid() && w == old(w) && h == old(h) && maxId == old(maxId)
      ensures Outcome(c, rw, rh, key, r, old(freebins), old(shelves), old(rooms), old(bins), old(stats))
      ensures forall s :: s in shelves ==> s in old(shelves) || fresh(s)
      ensures forall b :: b in slots ==> b in old(slots) || fresh(b)
      ensures forall c :: c in old(bins.Values) ==> c.id == old(c.id) && c.w == old(c.w) && c.h == old(c.h)
    {
      ghost var rs := rooms;
      ChooseFits(FreeSlots(), rs, w, h, rw, rh);
      FreeAllVacated();
      match c
      case ReuseFree(i) =>
        var b := AllocFreebin(i, rw, rh, key);
        r := Some(b);
      case UseShelf(k) =>
        assert SpansAt(k);
        var b := AllocShelf(k, rw, rh, key);
        r := Some(b);
      case NewShelf =>
        var b := OpenShelf(y, rw, rh, key);
        r := Some(b);
      case NoRoom =>
        r := None;
    }

    /**
     * Places a request under a key that is not live.  When the search finds no
     * room and automatic resizing is on, the canvas grows one step and the
     * request is placed afresh on the grown canvas; the canvas finally reached is
     * the one `Settle` names.
     */
    method Place(rw: int, rh: int, key: Id) returns (r: Option<Bin>)
      requires Valid() && 1 <= rw && 1 <= rh && key !in bins && (key.Num? ==> key.n <= maxId)
      modifies this, shelves, slots
      ensures Valid() && maxId == old(maxId)
      ensures Placement(old(freebins), old(rooms), old(w), old(h), rw, rh, key, r, old(shelves), old(bins), old(stats))
      ensures forall s :: s in shelves ==> s in old(shelves) || fresh(s)
      ensures forall b :: b in slots ==> b in old(slots) || fresh(b)
      ensures forall c :: c in old(bins.Values) ==> c.id == old(c.id) && c.w == old(c.w) && c.h == old(c.h)
      decreases Max(0, rw - w), Max(0, Total(rooms) + rh - h), Max(0, h - w + 1), 1
    {
      var c, y := Search(rw, rh);
      if c.NoRoom? && autoResize {
        r := Regrow(rw, rh, key);
      } else {
        r := Commit(c, y, rw, rh, key);
      }
    }

    /** No room at the current size: grow the canvas once and place again. */
    method Regrow(rw: int, rh: int, key: Id) returns (r: Option<Bin>)
      requires Valid() && 1 <= rw && 1 <= rh && key !in bins && (key.Num? ==> key.n <= maxId)
      requires autoResize && Choose(FreeSlots(), rooms, w, h, rw, rh).NoRoom?
      modifies this, shelves, slots
      ensures Valid() && maxId == old(maxId)
      ensures Placement(old(freebins), old(rooms), old(w), old(h), rw, rh, key, r, old(shelves), old(bins), old(stats))
      ensures forall s :: s in shelves ==> s in old(shelves) || fresh(s)
      ensures forall b :: b in slots ==> b in old(slots) || fresh(b)
      ensures forall c :: c in old(bins.Values) ==> c.id == old(c.id) && c.w == old(c.w) && c.h == old(c.h)
      decreases Max(0, rw - w), Max(0, Total(rooms) + rh - h), Max(0, h - w + 1), 0
    {
      NoRoomMeansNoNewShelf(FreeSlots(), rooms, w, h, rw, rh);
      var w2, h2 := w, h;
      if w <= h || rw > w {
        w2 := 2 * Max(rw, w);
      }
      if h < w || rh > h {
        h2 := 2 * Max(rh, h);
      }
      assert (w2, h2) == Grow(w, h, rw, rh);
      forall k | 0 <= k < |shelves| ensures shelves[k].x <= w2 {
        assert SpansAt(k);
      }
      var _ := Resize(w2, h2);
      assert forall c :: c in old(bins.Values) ==> c in bins.Values && c.id == old(c.id) && c.w == old(c.w) && c.h == old(c.h);
      r := Place(rw, rh, key);
      GrownPlacement(old(freebins), old(rooms), old(w), old(h), w2, h2, rw, rh, key, r,
                     old(shelves), old(bins), old(stats));
    }

    // -------------------------------------------------------------------------
    // Requests

    /**
     * `packOne`: a request under a live id only adds a reference to that bin.
     * Otherwise the request is placed, as `Place` says, under the key `NextKey`
     * gives.  Non-positive sizes are refused before anything changes.
     */
    method PackOne(rw: int, rh: int, id: Option<Id>) returns (r: PackResult)
      requires Valid()
      modifies this, shelves, slots
      ensures Valid()
      ensures fresh(set s | s in shelves && s !in old(shelves))
      ensures fresh(slots - old(slots))
      ensures forall c :: c in old(bins.Values) ==> c.id == old(c.id) && c.w == old(c.w) && c.h == old(c.h)
      ensures rw < 1 || rh < 1 ==> r == InvalidSize && unchanged(this)
      ensures 1 <= rw && 1 <= rh && id.Some? && id.value in old(bins) ==>
        && r == Placed(old(bins)[id.value]) && r.bin.refcount == old(r.bin.refcount) + 1
        && r.bin.id == id.value && r.bin.w == old(r.bin.w) && r.bin.h == old(r.bin.h)
        && w == old(w) && h == old(h) && shelves == old(shelves) && rooms == old(rooms)
        && freebins == old(freebins) && bins == old(bins) && stats == old(stats) && maxId == old(maxId)
      ensures 1 <= rw && 1 <= rh && !(id.Some? && id.value in old(bins)) ==>
        && var next := NextKey(id, old(maxId));
        && next.0 !in old(bins) && maxId == next.1 && !r.InvalidSize?
        && (autoResize ==> r.Placed?)
        && Placement(old(freebins), old(rooms), old(w), old(h), rw, rh, next.0, PlacedBin(r),
                     old(shelves), old(bins), old(stats))
    {
      if rw < 1 || rh < 1 {
        return InvalidSize;
      }
      if id.Some? && id.value in bins {
        var b := bins[id.value];
        assert LiveOk(id.value);
        var _ := Ref(b);
        return Placed(b);
      }
      r := Admit(rw, rh, id);
    }

    /** A request whose id is not live: the key is taken or minted, then the request is placed. */
    method Admit(rw: int, rh: int, id: Option<Id>) returns (r: PackResult)
      requires Valid() && 1 <= rw && 1 <= rh && !(id.Some? && id.value in bins)
      modifies this, shelves, slots
      ensures Valid()
      ensures fresh(set s | s in shelves && s !in old(shelves))
      ensures fresh(slots - old(slots))
      ensures forall c :: c in old(bins.Values) ==> c.id == old(c.id) && c.w == old(c.w) && c.h == old(c.h)
      ensures var next := NextKey(id, old(maxId));
        && next.0 !in old(bins) && maxId == next.1 && !r.InvalidSize?
        && (autoResize ==> r.Placed?)
        && Placement(old(freebins), old(rooms), old(w), old(h), rw, rh, next.0, PlacedBin(r),
                     old(shelves), old(bins), old(stats))
    {
      var next := NextKey(id, maxId);
      assert LiveOk(next.0);
      maxId := next.1;
      forall k ensures LiveOk(k) {
        assert old(LiveOk(k));
      }
      var got := Place(rw, rh, next.0);
      r := if got.Some? then Placed(got.value) else NoSpace;
    }

    /**
     * The answers to the first |outs| requests qs of a batch begun with the
     * bins bins0: each answered, the keys filed so far added to bins0, and the
     * bins of bins0 kept.
     */
    ghost predicate Batch(qs: seq<Request>, bins0: map<Id, Bin>, outs: seq<Option<Bin>>, keys: seq<Id>)
      reads `bins, bins.Values
    {
      && |outs| == |keys| <= |qs|
      && (forall j :: 0 <= j < |outs| ==> Answered(qs[j], keys[j], outs[j], Reissued(qs[j], bins0.Keys, keys, outs, j)))
      && (forall k :: k in bins <==> k in bins0 || Filed(k, keys, outs, |outs|))
      && (forall k :: k in bins0 ==> k in bins && bins[k] == bins0[k])
    }

    /** Answering one request leaves the answer to an earlier one standing. */
    twostate lemma AnswerKept(new q: Request, new k: Id, new out: Option<Bin>, new reissued: bool, new key: Id,
                              new got: Option<Bin>)
      requires old(allocated(out)) && old(Answered(q, k, out, reissued))
      requires bins == if got.Some? then old(bins)[key := got.value] else old(bins)
      requires key in old(bins) ==> got == Some(old(bins)[key])
      requires forall c :: c in old(bins.Values) ==> c.id == old(c.id) && c.w == old(c.w) && c.h == old(c.h)
      ensures Answered(q, k, out, reissued)
    {
      if out.Some? {
        assert old(bins)[k] == out.value;
        assert out.value in old(bins.Values);
      }
    }

    /** Answering the next request of a batch extends its answers. */
    twostate lemma BatchStep(new qs: seq<Request>, new bins0: map<Id, Bin>, new outs: seq<Option<Bin>>, new keys: seq<Id>,
                             new key: Id, new got: Option<Bin>)
      requires old(allocated(outs)) && old(allocated(bins0)) && old(Batch(qs, bins0, outs, keys)) && |outs| < |qs|
      requires bins == if got.Some? then old(bins)[key := got.value] else old(bins)
      requires key in old(bins) ==> got == Some(old(bins)[key])
      requires forall c :: c in old(bins.Values) ==> c.id == old(c.id) && c.w == old(c.w) && c.h == old(c.h)
      requires var q := qs[|outs|]; Answered(q, key, got, q.id.Some? && q.id.value in old(bins))
      ensures Batch(qs, bins0, outs + [got], keys + [key])
    {
      AnswersKept(qs, bins0, outs, keys, key, got);
      FiledStep(old(bins), bins, bins0, keys, outs, key, got);
    }

    /** Answering the next request of a batch extends the answers, and leaves the earlier ones standing. */
    twostate lemma AnswersKept(new qs: seq<Request>, new bins0: map<Id, Bin>, new outs: seq<Option<Bin>>,
                               new keys: seq<Id>, new key: Id, new got: Option<Bin>)
      requires old(allocated(outs)) && old(allocated(bins0)) && old(Batch(qs, bins0, outs, keys)) && |outs| < |qs|
      requires bins == if got.Some? then old(bins)[key := got.value] else old(bins)
      requires key in old(bins) ==> got == Some(old(bins)[key])
      requires forall c :: c in old(bins.Values) ==> c.id == old(c.id) && c.w == old(c.w) && c.h == old(c.h)
      requires var q := qs[|outs|]; Answered(q, key, got, q.id.Some? && q.id.value in old(bins))
      ensures forall j :: 0 <= j <= |outs| ==>
        Answered(qs[j], (keys + [key])[j], (outs + [got])[j], Reissued(qs[j], bins0.Keys, keys + [key], outs + [got], j))
    {
      var n := |outs|;
      forall j | 0 <= j < n
        ensures Answered(qs[j], (keys + [key])[j], (outs + [got])[j], Reissued(qs[j], bins0.Keys, keys + [key], outs + [got], j))
      {
        FiledExtended(keys, outs, key, got, j);
        assert (keys + [key])[j] == keys[j] && (outs + [got])[j] == outs[j];
        AnswerKept(qs[j], keys[j], outs[j], Reissued(qs[j], bins0.Keys, keys, outs, j), key, got);
      }
      var q := qs[n];
      FiledExtended(keys, outs, key, got, n);
      assert q.id.Some? ==> (q.id.value in old(bins) <==> Reissued(q, bins0.Keys, keys + [key], outs + [got], n));
      assert (keys + [key])[n] == key && (outs + [got])[n] == got;
    }

    /**
     * How a batch request with record q was answered, filed under `key`: a
     * request with an id is filed under that id; it is skipped only without
     * automatic resizing, and never when its id is live (`reissued`); a placed
     * request's bin is live under its key, and it has the request's size unless
     * the id was live, in which case it is that live bin as it was.
     */
    ghost predicate Answered(q: Request, key: Id, got: Option<Bin>, reissued: bool)
      reads `bins, bins.Values
    {
      && (q.id.Some? ==> key == q.id.value)
      && (got.None? ==> !autoResize && !reissued)
      && (got.Some? ==> key in bins && bins[key] == got.value && bins[key].id == key)
      && (got.Some? && !reissued ==> key in bins && SizeOf(q) == Some((bins[key].w, bins[key].h)))
    }

    /** A placement either registers the requested bin under its key or, without automatic resizing, finds no room. */
    lemma PlacementFacts(fb0: seq<Bin>, rs0: seq<Room>, w0: int, h0: int, rw: int, rh: int, key: Id,
                         r: Option<Bin>, ss0: seq<Shelf>, bins0: map<Id, Bin>, stats0: map<int, int>)
      requires 1 <= rw && 1 <= rh && 0 <= w0 && Total(rs0) <= h0
      requires Placement(fb0, rs0, w0, h0, rw, rh, key, r, ss0, bins0, stats0)
      ensures r.Some? ==> r.value.id == key && r.value.w == rw && r.value.h == rh && bins == bins0[key := r.value]
      ensures r.None? ==> !autoResize && bins == bins0 && Choose(SlotsOf(fb0), rs0, w0, h0, rw, rh).NoRoom?
    {
    }

    /**
     * `pack`: places the requests in input order, as `PackOne` places each; a
     * request is skipped only when it finds no room, which automatic resizing
     * rules out.  With `inPlace` the position of every placed request is
     * written back into its record.  A request without a positive size is
     * refused before anything changes.  With automatic resizing the canvas is
     * shrunk to its shelves at the end.  `outs` and `keys` record, request by
     * request, the bin it got and the key it was filed under.
     */
    method Pack(requests: array<Request>, inPlace: bool)
      returns (res: Result<seq<Bin>>, ghost outs: seq<Option<Bin>>, ghost keys: seq<Id>)
      requires Valid()
      modifies this, shelves, slots, requests
      ensures Valid()
      ensures res.Failure? <==> exists i :: 0 <= i < requests.Length && SizeOf(old(requests[i])).None?
      ensures res.Failure? ==> unchanged(this) && unchanged(requests)
      ensures res.Success? ==>
        && |outs| == |keys| == requests.Length && res.value == Somes(outs)
        && (autoResize ==> |res.value| == requests.Length && forall i :: 0 <= i < requests.Length ==> outs[i].Some?)
        && (forall i :: 0 <= i < requests.Length ==> requests[i] == WrittenBack(old(requests[i]), outs[i], inPlace))
        && Batch(old(requests[..]), old(bins), outs, keys)
        && (autoResize && |shelves| > 0 ==>
              h == Bottom(shelves) && exists k :: 0 <= k < |shelves| && shelves[k].x == w)
    {
      if exists i :: 0 <= i < requests.Length && SizeOf(requests[i]).None? {
        return Failure("bin width and height must be positive numbers"), [], [];
      }
      var results;
      results, outs, keys := PackAll(requests, inPlace);
      if autoResize {
        BatchPlaced(old(requests[..]), old(bins), outs, keys);
        SomesAll(outs);
        ShrinkBatch(old(requests[..]), old(bins), outs, keys);
      }
      res := Success(results);
    }

    /** With automatic resizing every request of a batch is placed. */
    lemma BatchPlaced(qs: seq<Request>, bins0: map<Id, Bin>, outs: seq<Option<Bin>>, keys: seq<Id>)
      requires autoResize && Batch(qs, bins0, outs, keys)
      ensures forall j :: 0 <= j < |outs| ==> outs[j].Some?
    {
      forall j | 0 <= j < |outs| ensures outs[j].Some? {
        assert Answered(qs[j], keys[j], outs[j], Reissued(qs[j], bins0.Keys, keys, outs, j));
      }
    }

    /** `Shrink` at the end of a batch leaves its answers standing. */
    method ShrinkBatch(ghost qs: seq<Request>, ghost bins0: map<Id, Bin>, ghost outs: seq<Option<Bin>>, ghost keys: seq<Id>)
      requires Valid() && Batch(qs, bins0, outs, keys)
      modifies this, shelves
      ensures Valid() && Batch(qs, bins0, outs, keys)
      ensures |shelves| > 0 ==> h == Bottom(shelves) && exists k :: 0 <= k < |shelves| && shelves[k].x == w
    {
      Shrink();
    }

    /** The loop of `pack`, once every request is known to have a positive size. */
    method PackAll(requests: array<Request>, inPlace: bool)
      returns (results: seq<Bin>, ghost outs: seq<Option<Bin>>, ghost keys: seq<Id>)
      requires Valid()
      requires forall i :: 0 <= i < requests.Length ==> SizeOf(requests[i]).Some?
      modifies this, shelves, slots, requests
      ensures Valid()
      ensures fresh(set s | s in shelves && s !in old(shelves))
      ensures fresh(slots - old(slots))
      ensures |outs| == |keys| == requests.Length && results == Somes(outs)
      ensures forall i :: 0 <= i < requests.Length ==> requests[i] == WrittenBack(old(requests[i]), outs[i], inPlace)
      ensures Batch(old(requests[..]), old(bins), outs, keys)
    {
      ghost var qs, bins0 := requests[..], bins;
      results := [];
      outs := [];
      keys := [];
      var i := 0;
      while i < requests.Length
        invariant 0 <= i <= requests.Length
        invariant Valid()
        invariant fresh(set s | s in shelves && s !in old(shelves))
        invariant fresh(slots - old(slots))
        invariant |outs| == |keys| == i && results == Somes(outs)
        invariant requests[..] == Progress(qs, outs, inPlace)
        invariant Batch(qs, bins0, outs, keys)
      {
        var got;
        ghost var key;
        assert requests[i] == qs[i];
        got, key := PackRequest(requests, i, inPlace, qs, bins0, outs, keys);
        ProgressStep(qs, outs, got, inPlace);
        SomesAppend(outs, got);
        outs := outs + [got];
        keys := keys + [key];
        if got.Some? {
          results := results + [got.value];
        }
        i := i + 1;
      }
    }

    /**
     * Request i of a batch whose first i requests qs have the answers outs
     * under keys: its answer extends them, and its position is written back
     * when asked and it was placed.
     */
    method PackRequest(requests: array<Request>, i: nat, inPlace: bool, ghost qs: seq<Request>, ghost bins0: map<Id, Bin>,
                       ghost outs: seq<Option<Bin>>, ghost keys: seq<Id>)
      returns (got: Option<Bin>, ghost key: Id)
      requires Valid() && i < requests.Length && SizeOf(requests[i]).Some?
      requires |outs| == i < |qs| && qs[i] == requests[i] && allocated(bins0) && Batch(qs, bins0, outs, keys)
      modifies this, shelves, slots, requests
      ensures Valid()
      ensures fresh(set s | s in shelves && s !in old(shelves))
      ensures fresh(slots - old(slots))
      ensures requests[..] == old(requests[..])[i := WrittenBack(old(requests[i]), got, inPlace)]
      ensures Batch(qs, bins0, outs + [got], keys + [key])
    {
      got, key := AnswerNext(requests[i], qs, bins0, outs, keys);
      WriteBack(requests, i, got, inPlace);
    }

    /** With `inPlace`, a placed request's record takes the position of its bin. */
    static method WriteBack(requests: array<Request>, i: nat, got: Option<Bin>, inPlace: bool)
      requires i < requests.Length
      modifies requests
      ensures requests[..] == old(requests[..])[i := WrittenBack(old(requests[i]), got, inPlace)]
    {
      if inPlace && got.Some? {
        requests[i] := requests[i].(x := Some(got.value.x), y := Some(got.value.y));
      }
    }

    /** The answer to the next request q of a batch, extending the answers before it. */
    method AnswerNext(q: Request, ghost qs: seq<Request>, ghost bins0: map<Id, Bin>, ghost outs: seq<Option<Bin>>,
                      ghost keys: seq<Id>)
      returns (got: Option<Bin>, ghost key: Id)
      requires Valid() && SizeOf(q).Some?
      requires |outs| < |qs| && qs[|outs|] == q && allocated(bins0) && Batch(qs, bins0, outs, keys)
      modifies this, shelves, slots
      ensures Valid()
      ensures fresh(set s | s in shelves && s !in old(shelves))
      ensures fresh(slots - old(slots))
      ensures Batch(qs, bins0, outs + [got], keys + [key])
    {
      got, key := Answer(q);
      BatchStep(qs, bins0, outs, keys, key, got);
    }

    /**
     * The answer to a batch request with record q: `PackOne` on its size and
     * id.  A live id gets its bin back with one more reference and nothing else
     * changes; otherwise the request is filed under the key `NextKey` gives and
     * placed as `Placement` says, which without room leaves it unplaced.
     */
    method Answer(q: Request) returns (got: Option<Bin>, ghost key: Id)
      requires Valid() && SizeOf(q).Some?
      modifies this, shelves, slots
      ensures Valid()
      ensures fresh(set s | s in shelves && s !in old(shelves))
      ensures fresh(slots - old(slots))
      ensures Answered(q, key, got, q.id.Some? && q.id.value in old(bins))
      ensures bins == if got.Some? then old(bins)[key := got.value] else old(bins)
      ensures key in old(bins) <==> q.id.Some? && q.id.value in old(bins)
      ensures forall c :: c in old(bins.Values) ==> c.id == old(c.id) && c.w == old(c.w) && c.h == old(c.h)
      ensures q.id.Some? && q.id.value in old(bins) ==>
        && got == Some(old(bins)[q.id.value]) && got.value.refcount == old(got.value.refcount) + 1
        && w == old(w) && h == old(h) && shelves == old(shelves) && freebins == old(freebins) && maxId == old(maxId)
      ensures var size := SizeOf(q).value;
        !(q.id.Some? && q.id.value in old(bins)) ==>
          && (key, maxId) == NextKey(q.id, old(maxId))
          && (got.None? ==> Choose(SlotsOf(old(freebins)), old(rooms), old(w), old(h), size.0, size.1).NoRoom?)
          && Placement(old(freebins), old(rooms), old(w), old(h), size.0, size.1, key, got,
                       old(shelves), old(bins), old(stats))
    {
      var size := SizeOf(q).value;
      ghost var fb0, rs0, w0, h0, ss0, bins0, stats0, maxId0 := freebins, rooms, w, h, shelves, bins, stats, maxId;
      var r := PackOne(size.0, size.1, q.id);
      got := PlacedBin(r);
      if q.id.Some? && q.id.value in bins0 {
        key := q.id.value;
      } else {
        key := NextKey(q.id, maxId0).0;
        PlacementFacts(fb0, rs0, w0, h0, size.0, size.1, key, got, ss0, bins0, stats0);
      }
    }
  }
}
