/**
 The occupancy grid and the block placer's specification.

 The grid maps a cell (restricted line, unrestricted coordinate) to the item
 that occupies it; the positions map an item to its block's origin point. A
 block of size w x h anchored at point o covers the points o.x .. o.x + w - 1
 by o.y .. o.y + h - 1 in the view's axes.
 */
module Packing {
  import opened Geometry
  import opened Items

  type Grid = map<Cell, IndexPath>
  type Positions = map<IndexPath, Point>

  /** Point p lies in the block of size sz anchored at o. */
  predicate InBlock(o: Point, sz: Size, p: Point)
  {
    o.x <= p.x < o.x + sz.width && o.y <= p.y < o.y + sz.height
  }

  /**
   What the placer's per-cell check accepts for a block anchored at o: the
   cell is free, and it lies on a restricted line below the extent unless the
   block starts on restricted line 0 (an oversized block is accepted there).
   */
  predicate CellAcceptable(g: Grid, vertical: bool, extent: int, o: Point, p: Point)
  {
    var c := ToCell(vertical, p);
    c !in g && (c.res < extent || ToCell(vertical, o).res == 0)
  }

  /** Every point of the block anchored at o passes the per-cell check. */
  ghost predicate Fits(g: Grid, vertical: bool, extent: int, o: Point, sz: Size)
  {
    forall p :: InBlock(o, sz, p) ==> CellAcceptable(g, vertical, extent, o, p)
  }

  /**
   Cell a comes before cell b in the placer's scan from unrestricted
   coordinate u0: rows upward from u0, restricted lines 0 .. extent - 1 in each.
   */
  predicate ScanBefore(u0: int, extent: int, a: Cell, b: Cell)
  {
    0 <= a.res < extent && u0 <= a.unr && (a.unr < b.unr || (a.unr == b.unr && a.res < b.res))
  }

  /** A free cell at which a block of size sz fits. */
  ghost predicate Candidate(g: Grid, vertical: bool, extent: int, c: Cell, sz: Size)
  {
    c !in g && Fits(g, vertical, extent, ToPoint(vertical, c), sz)
  }

  /** No cell the scan from u0 visits before c is a candidate. */
  ghost predicate NoFitBefore(g: Grid, vertical: bool, extent: int, u0: int, sz: Size, c: Cell)
  {
    forall a {:trigger ScanBefore(u0, extent, a, c)} ::
      ScanBefore(u0, extent, a, c) ==> !Candidate(g, vertical, extent, a, sz)
  }

  /** Every cell the scan from u0 visits before c is occupied. */
  ghost predicate TakenBefore(g: Grid, extent: int, u0: int, c: Cell)
  {
    forall a {:trigger ScanBefore(u0, extent, a, c)} :: ScanBefore(u0, extent, a, c) ==> a in g
  }

  /** Point o is the first candidate origin in scan order from u0. */
  ghost predicate IsFirstFit(g: Grid, vertical: bool, extent: int, u0: int, sz: Size, o: Point)
  {
    var c := ToCell(vertical, o);
    0 <= c.res < extent && u0 <= c.unr && Candidate(g, vertical, extent, c, sz) &&
    NoFitBefore(g, vertical, extent, u0, sz, c)
  }

  /** Cell c is the first unoccupied cell in scan order from u0. */
  ghost predicate IsFirstFree(g: Grid, extent: int, u0: int, c: Cell)
  {
    0 <= c.res < extent && u0 <= c.unr && c !in g && TakenBefore(g, extent, u0, c)
  }

  /** The scan passes a cell that is not a candidate. */
  lemma NoFitStep(g: Grid, vertical: bool, extent: int, u0: int, sz: Size, r: int, u: int)
    requires NoFitBefore(g, vertical, extent, u0, sz, Cell(r, u))
    requires !Candidate(g, vertical, extent, Cell(r, u), sz)
    ensures NoFitBefore(g, vertical, extent, u0, sz, Cell(r + 1, u))
  {
    forall a | ScanBefore(u0, extent, a, Cell(r + 1, u))
      ensures !Candidate(g, vertical, extent, a, sz)
    {
      if a != Cell(r, u) {
        assert ScanBefore(u0, extent, a, Cell(r, u));
      }
    }
  }

  /** The scan passes an occupied cell. */
  lemma TakenStep(g: Grid, extent: int, u0: int, r: int, u: int)
    requires TakenBefore(g, extent, u0, Cell(r, u))
    requires Cell(r, u) in g
    ensures TakenBefore(g, extent, u0, Cell(r + 1, u))
  {
    forall a | ScanBefore(u0, extent, a, Cell(r + 1, u))
      ensures a in g
    {
      if a != Cell(r, u) {
        assert ScanBefore(u0, extent, a, Cell(r, u));
      }
    }
  }

  /** Past the last restricted line the scan moves to line 0 of the next row. */
  lemma ScanRowEnd(extent: int, u0: int, u: int, a: Cell)
    ensures ScanBefore(u0, extent, a, Cell(0, u + 1)) <==> ScanBefore(u0, extent, a, Cell(extent, u))
  {
  }

  lemma NoFitRowEnd(g: Grid, vertical: bool, extent: int, u0: int, sz: Size, u: int)
    requires NoFitBefore(g, vertical, extent, u0, sz, Cell(extent, u))
    ensures NoFitBefore(g, vertical, extent, u0, sz, Cell(0, u + 1))
  {
    forall a | ScanBefore(u0, extent, a, Cell(0, u + 1))
      ensures !Candidate(g, vertical, extent, a, sz)
    {
      ScanRowEnd(extent, u0, u, a);
    }
  }

  lemma TakenRowEnd(g: Grid, extent: int, u0: int, u: int)
    requires TakenBefore(g, extent, u0, Cell(extent, u))
    ensures TakenBefore(g, extent, u0, Cell(0, u + 1))
  {
    forall a | ScanBefore(u0, extent, a, Cell(0, u + 1))
      ensures a in g
    {
      ScanRowEnd(extent, u0, u, a);
    }
  }

  /** At the start of the scan nothing has been passed. */
  lemma ScanStart(g: Grid, vertical: bool, extent: int, u0: int, sz: Size)
    ensures NoFitBefore(g, vertical, extent, u0, sz, Cell(0, u0))
    ensures TakenBefore(g, extent, u0, Cell(0, u0))
  {
    forall a | ScanBefore(u0, extent, a, Cell(0, u0))
      ensures false
    {
    }
  }

  /** Every occupied cell is non-negative and no further than the furthest block point. */
  ghost predicate Bounded(g: Grid, vertical: bool, furthest: Point)
  {
    forall c :: c in g ==>
      0 <= c.res && 0 <= c.unr &&
      ToPoint(vertical, c).x <= furthest.x && ToPoint(vertical, c).y <= furthest.y
  }

  /** The two maps agree: every occupant has an origin, and every origin cell holds its item. */
  ghost predicate Indexed(g: Grid, pos: Positions, vertical: bool)
  {
    (forall c :: c in g ==> g[c] in pos) &&
    (forall id :: id in pos ==> ToCell(vertical, pos[id]) in g && g[ToCell(vertical, pos[id])] == id)
  }

  /** Each item occupies exactly the block of its size anchored at its origin. */
  ghost predicate ExactFootprints(g: Grid, pos: Positions, vertical: bool, d: Option<Delegate>)
  {
    (forall c :: c in g ==> g[c] in pos && InBlock(pos[g[c]], BlockSizeOf(d, g[c]), ToPoint(vertical, c))) &&
    (forall id, p :: id in pos && InBlock(pos[id], BlockSizeOf(d, id), p) ==>
       ToCell(vertical, p) in g && g[ToCell(vertical, p)] == id)
  }

  /** No point of the block anchored at o is occupied. */
  ghost predicate BlockFree(g: Grid, vertical: bool, o: Point, sz: Size)
  {
    forall p :: InBlock(o, sz, p) ==> ToCell(vertical, p) !in g
  }

  lemma FitsIsFree(g: Grid, vertical: bool, extent: int, o: Point, sz: Size)
    requires Fits(g, vertical, extent, o, sz)
    ensures BlockFree(g, vertical, o, sz)
  {
  }

  /**
   g is g0 with the block of size sz anchored at o marked as item id: no
   occupied cell changes, and exactly the block's cells are added.
   */
  ghost predicate Stamped(g0: Grid, g: Grid, vertical: bool, o: Point, sz: Size, id: IndexPath)
  {
    (forall c :: c in g <==> c in g0 || InBlock(o, sz, ToPoint(vertical, c))) &&
    (forall c :: c in g0 ==> g[c] == g0[c]) &&
    (forall c :: c in g && c !in g0 ==> g[c] == id)
  }

  /** The items seen by walking rows begin .. end - 1, restricted lines 0 .. extent - 1. */
  function ItemsInBand(g: Grid, extent: int, begin: int, end: int): set<IndexPath>
  {
    set c | c in g && 0 <= c.res < extent && begin <= c.unr < end :: g[c]
  }

  /** The block anchored at o has a cell in the band of rows begin .. end - 1 and lines 0 .. extent - 1. */
  ghost predicate MeetsBand(vertical: bool, o: Point, sz: Size, extent: int, begin: int, end: int)
  {
    exists p :: InBlock(o, sz, p) &&
      0 <= ToCell(vertical, p).res < extent && begin <= ToCell(vertical, p).unr < end
  }

  /**
   The items seen by a walk that has covered every row from begin below u,
   and restricted lines 0 .. r - 1 of row u.
   */
  function Seen(g: Grid, extent: int, begin: int, u: int, r: int): set<IndexPath>
  {
    set c | c in g && 0 <= c.res < extent && begin <= c.unr && (c.unr < u || (c.unr == u && c.res < r)) :: g[c]
  }

  lemma SeenStart(g: Grid, extent: int, begin: int)
    ensures Seen(g, extent, begin, begin, 0) == {}
  {
  }

  lemma SeenStep(g: Grid, extent: int, begin: int, u: int, r: int)
    requires 0 <= r < extent && begin <= u
    ensures Seen(g, extent, begin, u, r + 1) ==
            Seen(g, extent, begin, u, r) + (if Cell(r, u) in g then {g[Cell(r, u)]} else {})
  {
    var before, after := Seen(g, extent, begin, u, r), Seen(g, extent, begin, u, r + 1);
    forall id | id in after
      ensures id in before || (Cell(r, u) in g && id == g[Cell(r, u)])
    {
      var c :| c in g && 0 <= c.res < extent && begin <= c.unr &&
               (c.unr < u || (c.unr == u && c.res < r + 1)) && g[c] == id;
      if c != Cell(r, u) {
        assert id in before;
      }
    }
    if Cell(r, u) in g {
      assert g[Cell(r, u)] in after;
    }
  }

  lemma SeenRowEnd(g: Grid, extent: int, begin: int, u: int)
    ensures Seen(g, extent, begin, u, extent) == Seen(g, extent, begin, u + 1, 0)
  {
    var a, b := Seen(g, extent, begin, u, extent), Seen(g, extent, begin, u + 1, 0);
    forall id | id in a ensures id in b {
      var c :| c in g && 0 <= c.res < extent && begin <= c.unr &&
               (c.unr < u || (c.unr == u && c.res < extent)) && g[c] == id;
      assert c.unr < u + 1;
    }
    forall id | id in b ensures id in a {
      var c :| c in g && 0 <= c.res < extent && begin <= c.unr &&
               (c.unr < u + 1 || (c.unr == u + 1 && c.res < 0)) && g[c] == id;
      assert c.unr < u || (c.unr == u && c.res < extent);
    }
  }

  lemma SeenIsBand(g: Grid, extent: int, begin: int, end: int)
    ensures Seen(g, extent, begin, end, 0) == ItemsInBand(g, extent, begin, end)
  {
    var a, b := Seen(g, extent, begin, end, 0), ItemsInBand(g, extent, begin, end);
    forall id | id in a ensures id in b {
      var c :| c in g && 0 <= c.res < extent && begin <= c.unr &&
               (c.unr < end || (c.unr == end && c.res < 0)) && g[c] == id;
      assert begin <= c.unr < end;
    }
    forall id | id in b ensures id in a {
      var c :| c in g && 0 <= c.res < extent && begin <= c.unr < end && g[c] == id;
      assert c.unr < end;
    }
  }

  /** Distinct placed items have disjoint blocks: no cell has two occupants. */
  lemma PlacedBlocksDisjoint(g: Grid, pos: Positions, vertical: bool, d: Option<Delegate>,
                             a: IndexPath, b: IndexPath)
    requires ExactFootprints(g, pos, vertical, d)
    requires a in pos && b in pos && a != b
    ensures !BlocksOverlap(pos[a], BlockSizeOf(d, a), pos[b], BlockSizeOf(d, b))
  {
    if BlocksOverlap(pos[a], BlockSizeOf(d, a), pos[b], BlockSizeOf(d, b)) {
      var p := Point(Max(pos[a].x, pos[b].x), Max(pos[a].y, pos[b].y));
      SharedPointSameItem(g, pos, vertical, d, a, b, p);
    }
  }

  /** Two placed blocks that share a point belong to the same item. */
  lemma SharedPointSameItem(g: Grid, pos: Positions, vertical: bool, d: Option<Delegate>,
                            a: IndexPath, b: IndexPath, p: Point)
    requires ExactFootprints(g, pos, vertical, d)
    requires a in pos && b in pos
    requires InBlock(pos[a], BlockSizeOf(d, a), p) && InBlock(pos[b], BlockSizeOf(d, b), p)
    ensures a == b
  {
    assert g[ToCell(vertical, p)] == a;
  }

  /** The origin is itself a point of its block. */
  lemma OriginInBlock(o: Point, sz: Size)
    ensures InBlock(o, sz, o) && InBlock(o, sz, FarCorner(o, sz))
  {
  }

  /** A block's cells lie at or beyond its origin on both layout axes. */
  lemma BlockBeyondOrigin(vertical: bool, o: Point, sz: Size, p: Point)
    requires InBlock(o, sz, p)
    ensures ToCell(vertical, o).unr <= ToCell(vertical, p).unr
    ensures ToCell(vertical, o).res <= ToCell(vertical, p).res
  {
  }

  /**
   Past the furthest block point every cell is free, so a block fits on
   restricted line 0 of any row beyond it: the placer's scan terminates.
   */
  lemma FitsBeyondFurthest(g: Grid, vertical: bool, extent: int, o: Point, sz: Size, furthest: Point)
    requires Bounded(g, vertical, furthest)
    requires ToCell(vertical, o).res == 0
    requires ToCell(vertical, furthest).unr < ToCell(vertical, o).unr
    ensures Candidate(g, vertical, extent, ToCell(vertical, o), sz)
  {
    forall p | InBlock(o, sz, p)
      ensures CellAcceptable(g, vertical, extent, o, p)
    {
      BlockBeyondOrigin(vertical, o, sz, p);
    }
  }

  /** The first fit is unique: placement is deterministic. */
  lemma FirstFitUnique(g: Grid, vertical: bool, extent: int, u0: int, sz: Size, o1: Point, o2: Point)
    requires IsFirstFit(g, vertical, extent, u0, sz, o1)
    requires IsFirstFit(g, vertical, extent, u0, sz, o2)
    ensures o1 == o2
  {
    var c1, c2 := ToCell(vertical, o1), ToCell(vertical, o2);
    if c1 != c2 {
      if c1.unr < c2.unr || (c1.unr == c2.unr && c1.res < c2.res) {
        assert ScanBefore(u0, extent, c1, c2);
      } else {
        assert ScanBefore(u0, extent, c2, c1);
      }
    }
  }

  /** The first free cell never comes after the first-fit origin. */
  lemma FirstFreeNotAfterFit(g: Grid, vertical: bool, extent: int, u0: int, sz: Size, f: Cell, o: Point)
    requires IsFirstFree(g, extent, u0, f)
    requires IsFirstFit(g, vertical, extent, u0, sz, o)
    ensures f == ToCell(vertical, o) || ScanBefore(u0, extent, f, ToCell(vertical, o))
  {
    var c := ToCell(vertical, o);
    if f != c && !ScanBefore(u0, extent, f, c) {
      assert ScanBefore(u0, extent, c, f);
    }
  }

  /** The first free cell is unique. */
  lemma FirstFreeUnique(g: Grid, extent: int, u0: int, c1: Cell, c2: Cell)
    requires IsFirstFree(g, extent, u0, c1) && IsFirstFree(g, extent, u0, c2)
    ensures c1 == c2
  {
    assert !ScanBefore(u0, extent, c1, c2) && !ScanBefore(u0, extent, c2, c1);
  }

  /** Marking a block determines the new grid. */
  lemma StampedUnique(g0: Grid, g1: Grid, g2: Grid, vertical: bool, o: Point, sz: Size, id: IndexPath)
    requires Stamped(g0, g1, vertical, o, sz, id) && Stamped(g0, g2, vertical, o, sz, id)
    ensures g1 == g2
  {
    assert forall c :: c in g1 <==> c in g2;
    assert forall c :: c in g1 ==> g1[c] == g2[c];
  }

  /** Marking a fitting block keeps every occupied cell within the new furthest point. */
  lemma StampKeepsBounded(g0: Grid, g: Grid, vertical: bool, o: Point, sz: Size, id: IndexPath, furthest: Point)
    requires Bounded(g0, vertical, furthest)
    requires 0 <= o.x && 0 <= o.y
    requires Stamped(g0, g, vertical, o, sz, id)
    ensures Bounded(g, vertical, MaxPoint(furthest, FarCorner(o, sz)))
  {
    forall c | c in g
      ensures 0 <= c.res && 0 <= c.unr
      ensures ToPoint(vertical, c).x <= MaxPoint(furthest, FarCorner(o, sz)).x
      ensures ToPoint(vertical, c).y <= MaxPoint(furthest, FarCorner(o, sz)).y
    {
      if c !in g0 {
        BlockBeyondOrigin(vertical, o, sz, ToPoint(vertical, c));
        CellRoundTrip(vertical, c);
      }
    }
  }

  /** Marking an item's fitting block at o keeps the two maps in agreement once o is recorded. */
  lemma StampKeepsIndexed(g0: Grid, g: Grid, pos: Positions, vertical: bool, o: Point, sz: Size, id: IndexPath)
    requires Indexed(g0, pos, vertical)
    requires Stamped(g0, g, vertical, o, sz, id)
    requires ToCell(vertical, o) !in g0
    ensures Indexed(g, pos[id := o], vertical)
  {
    OriginInBlock(o, sz);
    assert ToCell(vertical, o) in g;
    forall other | other in pos && other != id
      ensures ToCell(vertical, pos[other]) in g && g[ToCell(vertical, pos[other])] == other
    {
    }
  }

  /**
   Marking the block of an item that had no origin yet keeps every item's
   footprint exact; earlier items keep their cells.
   */
  lemma StampKeepsFootprints(g0: Grid, g: Grid, pos: Positions, vertical: bool, d: Option<Delegate>,
                             o: Point, id: IndexPath)
    requires Indexed(g0, pos, vertical) && ExactFootprints(g0, pos, vertical, d)
    requires id !in pos
    requires BlockFree(g0, vertical, o, BlockSizeOf(d, id))
    requires Stamped(g0, g, vertical, o, BlockSizeOf(d, id), id)
    ensures ExactFootprints(g, pos[id := o], vertical, d)
  {
    var pos' := pos[id := o];
    forall c | c in g
      ensures g[c] in pos' && InBlock(pos'[g[c]], BlockSizeOf(d, g[c]), ToPoint(vertical, c))
    {
      if c in g0 {
        assert g[c] == g0[c] && g0[c] in pos;
      }
    }
    forall other, p | other in pos' && InBlock(pos'[other], BlockSizeOf(d, other), p)
      ensures ToCell(vertical, p) in g && g[ToCell(vertical, p)] == other
    {
      if other != id {
        assert ToCell(vertical, p) in g0;
      } else {
        CellRoundTrip(vertical, ToCell(vertical, p));
      }
    }
  }

  /**
   The placement state's invariant: occupied cells within the furthest
   point, the two maps in agreement, every origin on lines 0 .. extent - 1.
   */
  ghost predicate Layout(g: Grid, pos: Positions, vertical: bool, furthest: Point, extent: int)
  {
    Bounded(g, vertical, furthest) && Indexed(g, pos, vertical) &&
    forall id :: id in pos ==> 0 <= ToCell(vertical, pos[id]).res < extent
  }

  /** A free block anchored on restricted lines 0 .. extent - 1 at a non-negative row. */
  ghost predicate Placeable(g: Grid, vertical: bool, extent: int, o: Point, sz: Size)
  {
    0 <= ToCell(vertical, o).res < extent && 0 <= ToCell(vertical, o).unr && BlockFree(g, vertical, o, sz)
  }

  /** The first fit of a scan from a non-negative row is placeable. */
  lemma FirstFitPlaceable(g: Grid, vertical: bool, extent: int, u0: int, sz: Size, o: Point)
    requires 0 <= u0 && IsFirstFit(g, vertical, extent, u0, sz, o)
    ensures Placeable(g, vertical, extent, o, sz)
  {
    CellRoundTrip(vertical, ToCell(vertical, o));
    FitsIsFree(g, vertical, extent, o, sz);
  }

  /**
   The band walk returns exactly the placed items whose block meets the band.
   Oversized blocks are found through their cells on lines below the extent.
   */
  lemma ItemsInBandExact(g: Grid, pos: Positions, vertical: bool, d: Option<Delegate>,
                         extent: int, begin: int, end: int, id: IndexPath)
    requires Indexed(g, pos, vertical) && ExactFootprints(g, pos, vertical, d)
    ensures id in ItemsInBand(g, extent, begin, end) <==>
            id in pos && MeetsBand(vertical, pos[id], BlockSizeOf(d, id), extent, begin, end)
  {
    if id in ItemsInBand(g, extent, begin, end) {
      var c :| c in g && 0 <= c.res < extent && begin <= c.unr < end && g[c] == id;
      CellRoundTrip(vertical, c);
      assert InBlock(pos[id], BlockSizeOf(d, id), ToPoint(vertical, c));
    }
    if id in pos && MeetsBand(vertical, pos[id], BlockSizeOf(d, id), extent, begin, end) {
      var p :| InBlock(pos[id], BlockSizeOf(d, id), p) &&
               0 <= ToCell(vertical, p).res < extent && begin <= ToCell(vertical, p).unr < end;
      assert g[ToCell(vertical, p)] == id;
    }
  }

  /** Under exact footprints, every block's far corner is occupied, hence no further than the furthest point. */
  lemma FarCornerWithinFurthest(g: Grid, pos: Positions, vertical: bool, d: Option<Delegate>,
                                furthest: Point, id: IndexPath)
    requires Bounded(g, vertical, furthest) && ExactFootprints(g, pos, vertical, d)
    requires id in pos
    ensures FarCorner(pos[id], BlockSizeOf(d, id)).x <= furthest.x
    ensures FarCorner(pos[id], BlockSizeOf(d, id)).y <= furthest.y
  {
    var corner := FarCorner(pos[id], BlockSizeOf(d, id));
    OriginInBlock(pos[id], BlockSizeOf(d, id));
    assert ToCell(vertical, corner) in g;
    CellRoundTrip(vertical, ToCell(vertical, corner));
  }
}
