/**
 The quilt layout object: a collection-view layout that packs variably sized
 blocks into a grid that is bounded across the scroll direction (the
 restricted dimension) and unbounded along it (the unrestricted dimension).

 The layout keeps, between invalidations, the occupancy grid, the origin of
 every placed item, the cursor of the last item placed, the first free cell
 of the scan, the furthest occupied point, a z-index per item visited by the
 row-driven fill, and a cache of the last visible-rectangle query. The
 collection view's geometry (content extent after insets), its item counts
 and its delegate are fields set at construction; the content offset that
 `prepare()` reads is a parameter.
 */
module Quilt {
  import opened Geometry
  import opened Items
  import opened Visit
  import opened Packing

  /** Base of the z-index given to every item the row-driven fill visits. */
  const BaseZIndex := 5000

  /** The default cell size, in pixels, on both axes. */
  const DefaultCellSize: Positive := 314

  /** Swift's Int.max: the row target when everything is laid out up front. */
  const IntMax := 0x7fff_ffff_ffff_ffff

  /**
   Whether the fills lay out every item up front. The layout's flag starts
   false and nothing ever sets it, so this mode is never entered.
   */
  const PreLayoutEverything := false

  /** The kinds of batch update the collection view reports. */
  datatype UpdateAction = Insert | Delete | Reload | Move | NoAction

  datatype UpdateItem = UpdateItem(action: UpdateAction, indexPathAfterUpdate: Option<IndexPath>)

  /** Inserts and moves make the layout fill up to the updated index path. */
  predicate Fills(u: UpdateItem)
  {
    u.action == Insert || u.action == Move
  }

  /** What the layout reports for one item: its frame in pixels and its z-index. */
  datatype Attributes = Attributes(path: IndexPath, frame: Rect, zIndex: int)

  /** Point p of the block at o has been visited by a column-major walk stopped before (x, y). */
  ghost predicate Walked(o: Point, sz: Size, x: int, y: int, p: Point)
  {
    InBlock(o, sz, p) && (p.x < x || (p.x == x && p.y < y))
  }

  /** g is g0 with the cells of the block walked before (x, y) marked as item id. */
  ghost predicate MarkedUpTo(g0: Grid, g: Grid, vertical: bool, o: Point, sz: Size, x: int, y: int, id: IndexPath)
  {
    (forall c :: c in g <==> c in g0 || Walked(o, sz, x, y, ToPoint(vertical, c))) &&
    (forall c :: c in g0 ==> g[c] == g0[c]) &&
    (forall c :: c in g && c !in g0 ==> g[c] == id)
  }

  /** Marking the next cell of a free block extends the walk by one cell. */
  lemma MarkedStep(g0: Grid, g: Grid, vertical: bool, o: Point, sz: Size, x: int, y: int, id: IndexPath)
    requires BlockFree(g0, vertical, o, sz) && InBlock(o, sz, Point(x, y))
    requires MarkedUpTo(g0, g, vertical, o, sz, x, y, id)
    ensures MarkedUpTo(g0, g[ToCell(vertical, Point(x, y)) := id], vertical, o, sz, x, y + 1, id)
  {
    var g' := g[ToCell(vertical, Point(x, y)) := id];
    forall c
      ensures c in g' <==> c in g0 || Walked(o, sz, x, y + 1, ToPoint(vertical, c))
    {
      CellRoundTrip(vertical, c);
    }
  }

  /** A finished column is the start of the next one. */
  lemma MarkedNextColumn(g0: Grid, g: Grid, vertical: bool, o: Point, sz: Size, x: int, id: IndexPath)
    requires MarkedUpTo(g0, g, vertical, o, sz, x, o.y + sz.height, id)
    ensures MarkedUpTo(g0, g, vertical, o, sz, x + 1, o.y, id)
  {
  }

  /** The walk over every column of the block stamps the whole block. */
  lemma MarkedAll(g0: Grid, g: Grid, vertical: bool, o: Point, sz: Size, id: IndexPath)
    requires MarkedUpTo(g0, g, vertical, o, sz, o.x + sz.width, o.y, id)
    ensures Stamped(g0, g, vertical, o, sz, id)
  {
  }

  /**
   Marking a placeable block for an item and recording its origin keeps
   the invariant, with the furthest point raised to the block's far corner;
   a first placement also keeps every footprint exact.
   */
  lemma PlacementKeepsLayout(g0: Grid, g: Grid, pos: Positions, vertical: bool, d: Option<Delegate>,
                             furthest: Point, extent: int, id: IndexPath, o: Point)
    requires Layout(g0, pos, vertical, furthest, extent)
    requires Placeable(g0, vertical, extent, o, BlockSizeOf(d, id))
    requires Stamped(g0, g, vertical, o, BlockSizeOf(d, id), id)
    ensures NonNegative(o)
    ensures Layout(g, pos[id := o], vertical, MaxPoint(furthest, FarCorner(o, BlockSizeOf(d, id))), extent)
    ensures ExactFootprints(g0, pos, vertical, d) && id !in pos ==> ExactFootprints(g, pos[id := o], vertical, d)
  {
    var sz := BlockSizeOf(d, id);
    CellRoundTrip(vertical, ToCell(vertical, o));
    OriginInBlock(o, sz);
    StampKeepsBounded(g0, g, vertical, o, sz, id, furthest);
    StampKeepsIndexed(g0, g, pos, vertical, o, sz, id);
    if ExactFootprints(g0, pos, vertical, d) && id !in pos {
      StampKeepsFootprints(g0, g, pos, vertical, d, o, id);
    }
  }

  /**
   Between two states the placements only grew: every occupied cell keeps
   its occupant, every placed item keeps its origin, and the newly placed
   items are exactly those in `added`.
   */
  ghost predicate Grew(g0: Grid, g: Grid, pos0: Positions, pos: Positions, added: seq<IndexPath>)
  {
    (forall c :: c in g0 ==> c in g && g[c] == g0[c]) &&
    (forall id :: id in pos <==> id in pos0 || id in added) &&
    (forall id :: id in pos0 ==> pos[id] == pos0[id])
  }

  /** Every placed item is at or before the cursor in canonical order; with no cursor nothing is placed. */
  ghost predicate AtOrBefore(pos: Positions, cursor: Option<IndexPath>)
  {
    (cursor.None? ==> pos == map[]) &&
    (cursor.Some? ==> forall id :: id in pos ==> LexLe(id, cursor.value))
  }

  /** An item after the cursor has not been placed. */
  lemma AfterCursorUnplaced(pos: Positions, cursor: Option<IndexPath>, q: IndexPath)
    requires AtOrBefore(pos, cursor) && (cursor.Some? ==> LexLt(cursor.value, q))
    ensures q !in pos
  {
    assert cursor.Some? && q in pos ==> LexLe(q, cursor.value);
  }

  /** Placing the item after the cursor and moving the cursor to it keeps every placement at or before the cursor. */
  lemma CursorAdvances(pos0: Positions, pos: Positions, cursor: Option<IndexPath>, q: IndexPath)
    requires AtOrBefore(pos0, cursor) && (cursor.Some? ==> LexLt(cursor.value, q))
    requires q in pos && pos == pos0[q := pos[q]]
    ensures AtOrBefore(pos, Some(q))
  {
    forall id | id in pos
      ensures LexLe(id, q)
    {
      if id != q {
        assert LexLe(id, cursor.value);
      }
    }
  }

  /** Bookkeeping of a driver's walk: moving a placed run from the remaining walk to the visited prefix. */
  lemma GrewTrans(g0: Grid, g1: Grid, g2: Grid, pos0: Positions, pos1: Positions, pos2: Positions,
                  a: seq<IndexPath>, b: seq<IndexPath>)
    requires Grew(g0, g1, pos0, pos1, a) && Grew(g1, g2, pos1, pos2, b)
    ensures Grew(g0, g2, pos0, pos2, a + b)
  {
  }

  lemma ConcatAssoc(a: seq<IndexPath>, b: seq<IndexPath>, c: seq<IndexPath>)
    ensures (a + b) + c == a + (b + c)
  {
  }

  /** The cursor after placing `visited` in order, starting from `cursor`. */
  function CursorAfter(cursor: Option<IndexPath>, visited: seq<IndexPath>): Option<IndexPath>
    decreases |visited|
  {
    if visited == [] then cursor else CursorAfter(Some(visited[0]), visited[1..])
  }

  lemma {:induction false} CursorAfterAppend(cursor: Option<IndexPath>, a: seq<IndexPath>, b: seq<IndexPath>)
    ensures CursorAfter(cursor, a + b) == CursorAfter(CursorAfter(cursor, a), b)
    decreases |a|
  {
    if a == [] {
      assert a + b == b;
    } else {
      assert (a + b)[1..] == a[1..] + b;
      CursorAfterAppend(Some(a[0]), a[1..], b);
    }
  }

  /** Placing one more item makes it the cursor. */
  lemma CursorAfterSnoc(cursor: Option<IndexPath>, visited: seq<IndexPath>, q: IndexPath)
    ensures CursorAfter(cursor, visited + [q]) == Some(q)
  {
    CursorAfterAppend(cursor, visited, [q]);
    assert [q][1..] == [];
  }

  lemma {:induction false} CursorAfterRows(cursor: Option<IndexPath>, s: nat, lo: nat, next: nat)
    requires lo <= next
    ensures CursorAfter(cursor, Rows(s, lo, next)) == if next == lo then cursor else Some(IndexPath(s, next - 1))
    decreases next - lo
  {
    if lo < next {
      assert Rows(s, lo, next)[1..] == Rows(s, lo + 1, next);
      CursorAfterRows(Some(IndexPath(s, lo)), s, lo + 1, next);
    }
  }

  /** Placing rows lo .. next - 1 of a section leaves the cursor on the last of them, if any. */
  lemma CursorAfterRun(cursor: Option<IndexPath>, visited: seq<IndexPath>, s: nat, lo: nat, next: nat)
    requires lo <= next
    ensures CursorAfter(cursor, visited + Rows(s, lo, next)) ==
              if next == lo then CursorAfter(cursor, visited) else Some(IndexPath(s, next - 1))
  {
    CursorAfterAppend(cursor, visited, Rows(s, lo, next));
    CursorAfterRows(CursorAfter(cursor, visited), s, lo, next);
  }

  /** The frontier and the furthest corner did not move back. */
  predicate Advanced(vertical: bool, ff0: Point, fur0: Point, ff: Point, fur: Point)
  {
    ToCell(vertical, ff0).unr <= ToCell(vertical, ff).unr && fur0.x <= fur.x && fur0.y <= fur.y
  }

  lemma AdvancedTrans(vertical: bool, ff0: Point, fur0: Point, ff1: Point, fur1: Point, ff: Point, fur: Point)
    requires Advanced(vertical, ff0, fur0, ff1, fur1) && Advanced(vertical, ff1, fur1, ff, fur)
    ensures Advanced(vertical, ff0, fur0, ff, fur)
  {
  }

  /** The part of the layout's state that the fill drivers change. */
  datatype Snapshot = Snapshot(grid: Grid, positions: Positions, log: seq<IndexPath>,
                               cursor: Option<IndexPath>, firstFree: Point, furthest: Point)

  /**
   `after` is `before` with the items of `run` placed in order: the grid and
   the positions grew by exactly those items, the log of placed items grew by
   `run`, the cursor sits on the last of them, and neither the frontier nor the
   furthest corner moved back; an empty run changes nothing.
   */
  ghost predicate Recorded(vertical: bool, before: Snapshot, after: Snapshot, run: seq<IndexPath>)
  {
    (run == [] ==> after == before) &&
    Grew(before.grid, after.grid, before.positions, after.positions, run) &&
    after.log == before.log + run &&
    after.cursor == CursorAfter(before.cursor, run) &&
    Advanced(vertical, before.firstFree, before.furthest, after.firstFree, after.furthest)
  }

  /**
   A first placement of q that stamps only q's block, logs q, makes it the
   cursor and moves neither the frontier nor the furthest corner back is the
   record of the one-item run [q].
   */
  lemma RecordedOne(vertical: bool, a: Snapshot, b: Snapshot, sz: Size, q: IndexPath)
    requires q !in a.positions && q in b.positions && b.positions == a.positions[q := b.positions[q]]
    requires Stamped(a.grid, b.grid, vertical, b.positions[q], sz, q)
    requires b.log == a.log + [q] && b.cursor == Some(q)
    requires Advanced(vertical, a.firstFree, a.furthest, b.firstFree, b.furthest)
    ensures Recorded(vertical, a, b, [q])
  {
    CursorAfterSnoc(a.cursor, [], q);
    assert [] + [q] == [q];
  }

  lemma RecordedNothing(vertical: bool, a: Snapshot)
    ensures Recorded(vertical, a, a, [])
  {
    assert a.log + [] == a.log;
  }

  lemma RecordedTrans(vertical: bool, a: Snapshot, b: Snapshot, c: Snapshot, r1: seq<IndexPath>, r2: seq<IndexPath>)
    requires Recorded(vertical, a, b, r1) && Recorded(vertical, b, c, r2)
    ensures Recorded(vertical, a, c, r1 + r2)
  {
    GrewTrans(a.grid, b.grid, c.grid, a.positions, b.positions, c.positions, r1, r2);
    ConcatAssoc(a.log, r1, r2);
    CursorAfterAppend(a.cursor, r1, r2);
  }

  /**
   The z-index the row-driven fill gives an item: the base value plus the
   item's distance from the end of its section, so that earlier items of a
   section are stacked above later ones. A section the counts do not list
   counts as empty.
   */
  function ZIndexOf(counts: seq<nat>, q: IndexPath): (z: int)
    ensures q.section < |counts| && q.row < counts[q.section] ==>
              BaseZIndex < z <= BaseZIndex + counts[q.section]
  {
    BaseZIndex + (if q.section < |counts| then counts[q.section] else 0) - q.row
  }

  /** Within a section, an earlier item gets the higher z-index. */
  lemma ZIndexDecreasesAlongSection(counts: seq<nat>, p: IndexPath, q: IndexPath)
    requires p.section == q.section && p.row < q.row
    ensures ZIndexOf(counts, p) > ZIndexOf(counts, q)
  {
  }

  /** The z-index map after the row-driven fill stamps each item of `run`, in order. */
  function ZFor(z: map<IndexPath, int>, counts: seq<nat>, run: seq<IndexPath>): map<IndexPath, int>
    decreases |run|
  {
    if run == [] then z
    else ZFor(z, counts, run[..|run| - 1])[run[|run| - 1] := ZIndexOf(counts, run[|run| - 1])]
  }

  lemma ZForSnoc(z: map<IndexPath, int>, counts: seq<nat>, run: seq<IndexPath>, q: IndexPath)
    ensures ZFor(z, counts, run + [q]) == ZFor(z, counts, run)[q := ZIndexOf(counts, q)]
  {
    assert (run + [q])[..|run|] == run;
  }

  lemma {:induction false} ZForAppend(z: map<IndexPath, int>, counts: seq<nat>, a: seq<IndexPath>, b: seq<IndexPath>)
    ensures ZFor(z, counts, a + b) == ZFor(ZFor(z, counts, a), counts, b)
    decreases |b|
  {
    if b == [] {
      assert a + b == a;
    } else {
      var b' := b[..|b| - 1];
      var q := b[|b| - 1];
      assert b == b' + [q];
      assert a + b == (a + b') + [q];
      ZForSnoc(z, counts, a + b', q);
      ZForAppend(z, counts, a, b');
      ZForSnoc(ZFor(z, counts, a), counts, b', q);
    }
  }

  /**
   What the stamping does: the map gains exactly the items of `run`, each
   with its z-index, and every other entry is unchanged.
   */
  lemma {:induction false} ZForSpec(z: map<IndexPath, int>, counts: seq<nat>, run: seq<IndexPath>)
    ensures forall q :: q in ZFor(z, counts, run) <==> q in z || q in run
    ensures forall q :: q in run ==> ZFor(z, counts, run)[q] == ZIndexOf(counts, q)
    ensures forall q :: q in z && q !in run ==> ZFor(z, counts, run)[q] == z[q]
    decreases |run|
  {
    if run != [] {
      var run' := run[..|run| - 1];
      assert run == run' + [run[|run| - 1]];
      ZForSpec(z, counts, run');
    }
  }

  /**
   One placement of q, taking state a to state b as PlaceBlockAtIndex and
   the drivers' bookkeeping do: q was not placed before; its origin is the
   first fit for its block in a's grid, scanning from a's frontier row; the
   new frontier is the first free cell of that scan; exactly q's block is
   marked; the furthest point is raised to the block's far corner; q is
   logged and becomes the cursor.
   */
  ghost predicate PlacedStep(vertical: bool, extent: int, d: Option<Delegate>, a: Snapshot, b: Snapshot, q: IndexPath)
  {
    var u0 := ToCell(vertical, a.firstFree).unr;
    q !in a.positions && q in b.positions && b.positions == a.positions[q := b.positions[q]] &&
    IsFirstFit(a.grid, vertical, extent, u0, BlockSizeOf(d, q), b.positions[q]) &&
    IsFirstFree(a.grid, extent, u0, ToCell(vertical, b.firstFree)) &&
    Stamped(a.grid, b.grid, vertical, b.positions[q], BlockSizeOf(d, q), q) &&
    b.furthest == MaxPoint(a.furthest, FarCorner(b.positions[q], BlockSizeOf(d, q))) &&
    b.log == a.log + [q] && b.cursor == Some(q)
  }

  /** A placement is deterministic: the state after placing q is fixed by the state before. */
  lemma PlacedStepDeterministic(vertical: bool, extent: int, d: Option<Delegate>,
                                a: Snapshot, b1: Snapshot, b2: Snapshot, q: IndexPath)
    requires PlacedStep(vertical, extent, d, a, b1, q) && PlacedStep(vertical, extent, d, a, b2, q)
    ensures b1 == b2
  {
    var u0, sz := ToCell(vertical, a.firstFree).unr, BlockSizeOf(d, q);
    FirstFitUnique(a.grid, vertical, extent, u0, sz, b1.positions[q], b2.positions[q]);
    FirstFreeUnique(a.grid, extent, u0, ToCell(vertical, b1.firstFree), ToCell(vertical, b2.firstFree));
    StampedUnique(a.grid, b1.grid, b2.grid, vertical, b1.positions[q], sz, q);
  }

  /** The i-th placement of a run: run[i] taken from states[i] to states[i + 1], leaving frontier fs[i]. */
  ghost predicate StepAt(vertical: bool, extent: int, d: Option<Delegate>,
                         states: seq<Snapshot>, run: seq<IndexPath>, fs: seq<int>, i: int)
    requires 0 <= i < |run| && |states| == |run| + 1 && |fs| == |run|
  {
    PlacedStep(vertical, extent, d, states[i], states[i + 1], run[i]) &&
    fs[i] == ToCell(vertical, states[i + 1].firstFree).unr
  }

  /**
   `states` are the states a run of placements went through, one more than
   the items of `run`: each item was placed by one PlacedStep from the state
   before it, and `fs` holds the frontier row after each placement.
   */
  ghost predicate Traced(vertical: bool, extent: int, d: Option<Delegate>,
                         states: seq<Snapshot>, run: seq<IndexPath>, fs: seq<int>)
  {
    |states| == |run| + 1 && |fs| == |run| &&
    forall i {:trigger StepAt(vertical, extent, d, states, run, fs, i)} :: 0 <= i < |run| ==>
      StepAt(vertical, extent, d, states, run, fs, i)
  }

  lemma TracedSnoc(vertical: bool, extent: int, d: Option<Delegate>,
                   states: seq<Snapshot>, run: seq<IndexPath>, fs: seq<int>, b: Snapshot, q: IndexPath)
    requires Traced(vertical, extent, d, states, run, fs)
    requires PlacedStep(vertical, extent, d, states[|states| - 1], b, q)
    ensures Traced(vertical, extent, d, states + [b], run + [q], fs + [ToCell(vertical, b.firstFree).unr])
  {
    var states', run', fs' := states + [b], run + [q], fs + [ToCell(vertical, b.firstFree).unr];
    forall i | 0 <= i < |run'|
      ensures StepAt(vertical, extent, d, states', run', fs', i)
    {
      if i < |run| {
        assert StepAt(vertical, extent, d, states, run, fs, i);
        assert states'[i] == states[i] && states'[i + 1] == states[i + 1];
      }
    }
  }

  lemma TracedConcat(vertical: bool, extent: int, d: Option<Delegate>,
                     s1: seq<Snapshot>, r1: seq<IndexPath>, f1: seq<int>,
                     s2: seq<Snapshot>, r2: seq<IndexPath>, f2: seq<int>)
    requires Traced(vertical, extent, d, s1, r1, f1) && Traced(vertical, extent, d, s2, r2, f2)
    requires s1[|s1| - 1] == s2[0]
    ensures Traced(vertical, extent, d, s1 + s2[1..], r1 + r2, f1 + f2)
  {
    var states, run, fs := s1 + s2[1..], r1 + r2, f1 + f2;
    forall i | 0 <= i < |run|
      ensures StepAt(vertical, extent, d, states, run, fs, i)
    {
      if i < |r1| {
        assert StepAt(vertical, extent, d, s1, r1, f1, i);
        assert states[i] == s1[i] && states[i + 1] == s1[i + 1] && run[i] == r1[i] && fs[i] == f1[i];
      } else {
        var j := i - |r1|;
        assert StepAt(vertical, extent, d, s2, r2, f2, j);
        assert states[i] == s2[j] && states[i + 1] == s2[j + 1] && run[i] == r2[j] && fs[i] == f2[j];
      }
    }
  }

  lemma TracedPrefix(vertical: bool, extent: int, d: Option<Delegate>,
                     states: seq<Snapshot>, run: seq<IndexPath>, fs: seq<int>)
    requires Traced(vertical, extent, d, states, run, fs) && run != []
    ensures Traced(vertical, extent, d, states[..|states| - 1], run[..|run| - 1], fs[..|fs| - 1])
  {
    var states', run', fs' := states[..|states| - 1], run[..|run| - 1], fs[..|fs| - 1];
    forall i | 0 <= i < |run'|
      ensures StepAt(vertical, extent, d, states', run', fs', i)
    {
      assert StepAt(vertical, extent, d, states, run, fs, i);
    }
  }

  /**
   A run of placements is deterministic: from the same state, placing the
   same items goes through the same states and sees the same frontiers.
   */
  lemma {:induction false} TracedDeterministic(vertical: bool, extent: int, d: Option<Delegate>,
                                               s1: seq<Snapshot>, s2: seq<Snapshot>, run: seq<IndexPath>,
                                               f1: seq<int>, f2: seq<int>)
    requires Traced(vertical, extent, d, s1, run, f1) && Traced(vertical, extent, d, s2, run, f2)
    requires s1[0] == s2[0]
    ensures s1 == s2 && f1 == f2
    decreases |run|
  {
    if run != [] {
      var n := |run| - 1;
      TracedPrefix(vertical, extent, d, s1, run, f1);
      TracedPrefix(vertical, extent, d, s2, run, f2);
      TracedDeterministic(vertical, extent, d, s1[..n + 1], s2[..n + 1], run[..n], f1[..n], f2[..n]);
      assert s1[n] == s1[..n + 1][n] == s2[..n + 1][n] == s2[n];
      assert StepAt(vertical, extent, d, s1, run, f1, n) && StepAt(vertical, extent, d, s2, run, f2, n);
      PlacedStepDeterministic(vertical, extent, d, s1[n], s1[n + 1], s2[n + 1], run[n]);
      assert s1 == s1[..n + 1] + [s1[n + 1]] && s2 == s2[..n + 1] + [s2[n + 1]];
      assert f1 == f1[..n] + [f1[n]] && f2 == f2[..n] + [f2[n]];
    }
  }

  /**
   The bookkeeping of the index-path driver between two states: `after` is
   `before` with the items of `run` placed, and `states` are the states the
   placements went through, each item placed by one PlacedStep from the
   state before it, with `fs` the frontier row after each placement.
   */
  ghost predicate RunPlaced(vertical: bool, extent: int, d: Option<Delegate>, before: Snapshot, after: Snapshot,
                            states: seq<Snapshot>, run: seq<IndexPath>, fs: seq<int>)
  {
    Recorded(vertical, before, after, run) &&
    Traced(vertical, extent, d, states, run, fs) && states[0] == before && states[|states| - 1] == after
  }

  lemma RunPlacedNothing(vertical: bool, extent: int, d: Option<Delegate>, a: Snapshot)
    ensures RunPlaced(vertical, extent, d, a, a, [a], [], [])
  {
    RecordedNothing(vertical, a);
  }

  /** One more placement, of q, extends the bookkeeping by one step. */
  lemma RunPlacedStep(vertical: bool, extent: int, d: Option<Delegate>, a: Snapshot, b: Snapshot, c: Snapshot,
                      states: seq<Snapshot>, run: seq<IndexPath>, fs: seq<int>, q: IndexPath,
                      run1: seq<IndexPath>, f: int)
    requires RunPlaced(vertical, extent, d, a, b, states, run, fs)
    requires PlacedStep(vertical, extent, d, b, c, q) && Recorded(vertical, b, c, [q])
    requires run1 == run + [q] && f == ToCell(vertical, c.firstFree).unr
    ensures RunPlaced(vertical, extent, d, a, c, states + [c], run1, fs + [f])
  {
    RecordedTrans(vertical, a, b, c, run, [q]);
    TracedSnoc(vertical, extent, d, states, run, fs, c, q);
  }

  lemma RunPlacedTrans(vertical: bool, extent: int, d: Option<Delegate>, a: Snapshot, b: Snapshot, c: Snapshot,
                       s1: seq<Snapshot>, r1: seq<IndexPath>, f1: seq<int>,
                       s2: seq<Snapshot>, r2: seq<IndexPath>, f2: seq<int>)
    requires RunPlaced(vertical, extent, d, a, b, s1, r1, f1)
    requires RunPlaced(vertical, extent, d, b, c, s2, r2, f2)
    ensures RunPlaced(vertical, extent, d, a, c, s1 + s2[1..], r1 + r2, f1 + f2)
  {
    RecordedTrans(vertical, a, b, c, r1, r2);
    TracedConcat(vertical, extent, d, s1, r1, f1, s2, r2, f2);
    var states := s1 + s2[1..];
    if r2 == [] {
      assert states[|states| - 1] == s1[|s1| - 1];
    } else {
      assert states[|states| - 1] == s2[|s2| - 1];
    }
  }

  /** A later placement of a traced run leaves the origin of an earlier item where its own step put it. */
  lemma {:induction false} TracedKeepsOrigin(vertical: bool, extent: int, d: Option<Delegate>,
                                             states: seq<Snapshot>, run: seq<IndexPath>, fs: seq<int>, i: int, j: int)
    requires Traced(vertical, extent, d, states, run, fs) && 0 <= i < |run| && i < j <= |run|
    ensures run[i] in states[i + 1].positions && run[i] in states[j].positions &&
            states[j].positions[run[i]] == states[i + 1].positions[run[i]]
    decreases j - i
  {
    if j > i + 1 {
      TracedKeepsOrigin(vertical, extent, d, states, run, fs, i, j - 1);
      assert StepAt(vertical, extent, d, states, run, fs, j - 1);
    } else {
      assert StepAt(vertical, extent, d, states, run, fs, i);
    }
  }

  /**
   Item q is one of the run's items, and o is its first fit in the state the
   run placed it from.
   */
  ghost predicate PlacedByRunAt(vertical: bool, extent: int, d: Option<Delegate>,
                                states: seq<Snapshot>, run: seq<IndexPath>, q: IndexPath, o: Point)
  {
    exists i | 0 <= i < |run| && i < |states| && run[i] == q ::
      IsFirstFit(states[i].grid, vertical, extent, ToCell(vertical, states[i].firstFree).unr, BlockSizeOf(d, q), o)
  }

  /**
   Every item a traced run places ends at its first fit: the first block
   origin, in scan order from the frontier row of the state it was placed
   from, where its block fits that state's grid.
   */
  lemma RunPlacedOrigin(vertical: bool, extent: int, d: Option<Delegate>, before: Snapshot, after: Snapshot,
                        states: seq<Snapshot>, run: seq<IndexPath>, fs: seq<int>, i: int)
    requires RunPlaced(vertical, extent, d, before, after, states, run, fs) && 0 <= i < |run|
    ensures run[i] in after.positions
    ensures IsFirstFit(states[i].grid, vertical, extent, ToCell(vertical, states[i].firstFree).unr,
                       BlockSizeOf(d, run[i]), after.positions[run[i]])
    ensures PlacedByRunAt(vertical, extent, d, states, run, run[i], after.positions[run[i]])
  {
    TracedKeepsOrigin(vertical, extent, d, states, run, fs, i, |run|);
    assert StepAt(vertical, extent, d, states, run, fs, i);
  }

  /**
   The bookkeeping of the row-driven fill between two states: `after` is
   `before` with the items of `run` placed, `z` is `z0` with each of them
   stamped with its z-index, `states` are the states the placements went
   through, and `fs` holds the frontier after each placement; the stop
   test fired exactly when `stopped`, on the last placement only.
   */
  ghost predicate RowFilled(vertical: bool, extent: int, d: Option<Delegate>, counts: seq<nat>, endRow: int,
                            before: Snapshot, z0: map<IndexPath, int>, after: Snapshot, z: map<IndexPath, int>,
                            states: seq<Snapshot>, run: seq<IndexPath>, fs: seq<int>, stopped: bool)
  {
    Recorded(vertical, before, after, run) && z == ZFor(z0, counts, run) &&
    Traced(vertical, extent, d, states, run, fs) && states[0] == before && states[|states| - 1] == after &&
    Frontiers(endRow, fs, stopped, ToCell(vertical, after.firstFree).unr)
  }

  lemma RowFilledNothing(vertical: bool, extent: int, d: Option<Delegate>, counts: seq<nat>, endRow: int,
                         a: Snapshot, z: map<IndexPath, int>)
    ensures RowFilled(vertical, extent, d, counts, endRow, a, z, a, z, [a], [], [], false)
  {
    RecordedNothing(vertical, a);
  }

  /** One more placement, of q, with its z-index stamped, extends the bookkeeping by one step. */
  lemma RowFilledStep(vertical: bool, extent: int, d: Option<Delegate>, counts: seq<nat>, endRow: int,
                      a: Snapshot, za: map<IndexPath, int>, b: Snapshot, zb: map<IndexPath, int>,
                      c: Snapshot, zc: map<IndexPath, int>,
                      states: seq<Snapshot>, run: seq<IndexPath>, fs: seq<int>, q: IndexPath,
                      run1: seq<IndexPath>, f: int)
    requires RowFilled(vertical, extent, d, counts, endRow, a, za, b, zb, states, run, fs, false)
    requires PlacedStep(vertical, extent, d, b, c, q) && Recorded(vertical, b, c, [q])
    requires run1 == run + [q] && zc == ZFor(za, counts, run1) && f == ToCell(vertical, c.firstFree).unr
    ensures RowFilled(vertical, extent, d, counts, endRow, a, za, c, zc, states + [c], run1, fs + [f], f >= endRow)
  {
    RecordedTrans(vertical, a, b, c, run, [q]);
    TracedSnoc(vertical, extent, d, states, run, fs, c, q);
    FrontiersSnoc(endRow, fs, ToCell(vertical, b.firstFree).unr, ToCell(vertical, c.firstFree).unr);
  }

  lemma RowFilledTrans(vertical: bool, extent: int, d: Option<Delegate>, counts: seq<nat>, endRow: int,
                       a: Snapshot, za: map<IndexPath, int>, b: Snapshot, zb: map<IndexPath, int>,
                       c: Snapshot, zc: map<IndexPath, int>,
                       s1: seq<Snapshot>, r1: seq<IndexPath>, f1: seq<int>,
                       s2: seq<Snapshot>, r2: seq<IndexPath>, f2: seq<int>, stopped: bool)
    requires RowFilled(vertical, extent, d, counts, endRow, a, za, b, zb, s1, r1, f1, false)
    requires RowFilled(vertical, extent, d, counts, endRow, b, zb, c, zc, s2, r2, f2, stopped)
    ensures RowFilled(vertical, extent, d, counts, endRow, a, za, c, zc, s1 + s2[1..], r1 + r2, f1 + f2, stopped)
  {
    RecordedTrans(vertical, a, b, c, r1, r2);
    ZForAppend(za, counts, r1, r2);
    TracedConcat(vertical, extent, d, s1, r1, f1, s2, r2, f2);
    FrontiersConcat(endRow, f1, f2, stopped, ToCell(vertical, b.firstFree).unr, ToCell(vertical, c.firstFree).unr);
    var states := s1 + s2[1..];
    if r2 == [] {
      assert states[|states| - 1] == s1[|s1| - 1];
    } else {
      assert states[|states| - 1] == s2[|s2| - 1];
    }
  }

  /**
   Where the row-driven fill stops, in terms of the states it went through:
   after every placement but the last the frontier is below endRow, and a
   fill that ends before its walk does ended right after the placement that
   brought the frontier to endRow or past it.
   */
  lemma RowFillStopsAtFirstReach(vertical: bool, extent: int, d: Option<Delegate>, endRow: int, full: Walk,
                                 states: seq<Snapshot>, visited: seq<IndexPath>, fs: seq<int>, aborted: bool)
    requires StopsAtRow(endRow, full, visited, fs, aborted) && Traced(vertical, extent, d, states, visited, fs)
    ensures forall i :: 1 <= i < |visited| ==> ToCell(vertical, states[i].firstFree).unr < endRow
    ensures |visited| < |full.paths| ==>
              visited != [] && !aborted && ToCell(vertical, states[|visited|].firstFree).unr >= endRow
  {
    forall i | 1 <= i < |visited|
      ensures ToCell(vertical, states[i].firstFree).unr < endRow
    {
      assert StepAt(vertical, extent, d, states, visited, fs, i - 1);
      assert fs[i - 1] < endRow;
    }
    if |visited| < |full.paths| {
      assert StepAt(vertical, extent, d, states, visited, fs, |visited| - 1);
    }
  }

  class QuiltLayout {
    /** The cell size in pixels. */
    var itemBlockSize: Size
    /** The scroll direction: true for vertical scrolling, which restricts x. */
    var vertical: bool
    /** The public log of every placement, in order; never cleared. */
    var cellIndexPaths: seq<IndexPath>

    /** The collection view's frame less its content insets, in pixels. */
    const contentWidth: nat
    const contentHeight: nat
    const delegate: Option<Delegate>
    /** The number of items in each section, as the data source reports it. */
    var itemCounts: seq<nat>

    /** The furthest block point; it only ever grows. */
    var furthest: Point
    /** The first free cell of the scan, in the view's axes. */
    var firstFree: Point
    var previousRect: Rect
    var previousAttributes: Option<set<Attributes>>
    /** The z-index recorded for an item by the row-driven fill. */
    var zIndex: map<IndexPath, int>
    /** Cell to occupant. */
    var grid: Grid
    /** Item to block origin. */
    var positions: Positions
    /** The last item placed. */
    var last: Option<IndexPath>

    /** The number of restricted lines: whole cells across the content, at least one. */
    function RestrictedDimensionBlockSize(): Positive
      reads this`vertical, this`itemBlockSize
    {
      if vertical then ClampedCount(contentWidth, itemBlockSize.width)
      else ClampedCount(contentHeight, itemBlockSize.height)
    }

    ghost predicate Valid()
      reads this`furthest, this`firstFree, this`grid, this`positions, this`vertical, this`itemBlockSize
    {
      NonNegative(furthest) && NonNegative(firstFree) &&
      Layout(grid, positions, vertical, furthest, RestrictedDimensionBlockSize())
    }

    /** Every placed item is at or before the cursor in canonical order. */
    ghost predicate CursorCovers()
      reads this`last, this`positions
    {
      AtOrBefore(positions, last)
    }

    /** The fields the fill drivers change, as a value. */
    function Snap(): Snapshot
      reads this`grid, this`positions, this`cellIndexPaths, this`last, this`firstFree, this`furthest
    {
      Snapshot(grid, positions, cellIndexPaths, last, firstFree, furthest)
    }

    /** The state the layout keeps between calls. */
    ghost predicate Consistent()
      reads this`furthest, this`firstFree, this`grid, this`positions, this`vertical, this`itemBlockSize, this`last
    {
      Valid() && ExactFootprints(grid, positions, vertical, delegate) && CursorCovers()
    }

    constructor(contentWidth: nat, contentHeight: nat, itemCounts: seq<nat>,
                delegate: Option<Delegate>)
      ensures Consistent()
      ensures this.contentWidth == contentWidth && this.contentHeight == contentHeight
      ensures this.itemCounts == itemCounts && this.delegate == delegate
      ensures itemBlockSize == Size(DefaultCellSize, DefaultCellSize) && vertical
      ensures cellIndexPaths == [] && zIndex == map[]
      ensures grid == map[] && positions == map[] && last == None
      ensures furthest == Point(0, 0) && firstFree == Point(0, 0)
      ensures previousRect == Rect(0, 0, 0, 0) && previousAttributes == None
    {
      this.contentWidth := contentWidth;
      this.contentHeight := contentHeight;
      this.itemCounts := itemCounts;
      this.delegate := delegate;
      itemBlockSize := Size(DefaultCellSize, DefaultCellSize);
      vertical := true;
      cellIndexPaths := [];
      zIndex := map[];
      grid := map[];
      positions := map[];
      last := None;
      furthest := Point(0, 0);
      firstFree := Point(0, 0);
      previousRect := Rect(0, 0, 0, 0);
      previousAttributes := None;
    }

    /** The occupant of grid point p, if any. */
    function IndexPathForPosition(p: Point): (r: Option<IndexPath>)
      reads this`grid, this`vertical
      ensures r.None? <==> ToCell(vertical, p) !in grid
    {
      var c := ToCell(vertical, p);
      if c in grid then Some(grid[c]) else None
    }

    /** Under the invariant, the occupant of a point is exactly the item whose block covers it. */
    lemma OccupantCoversPoint(p: Point)
      requires Consistent()
      ensures IndexPathForPosition(p).Some? ==>
                IndexPathForPosition(p).value in positions &&
                InBlock(positions[IndexPathForPosition(p).value], BlockSizeOf(delegate, IndexPathForPosition(p).value), p)
      ensures forall id :: id in positions && InBlock(positions[id], BlockSizeOf(delegate, id), p) ==>
                IndexPathForPosition(p) == Some(id)
    {
      CellRoundTrip(vertical, ToCell(vertical, p));
    }

    /** Records id as the occupant of grid point p. */
    method SetPosition(p: Point, id: IndexPath)
      modifies this`grid
      ensures grid == old(grid)[ToCell(vertical, p) := id]
      ensures IndexPathForPosition(p) == Some(id)
    {
      grid := grid[ToCell(vertical, p) := id];
    }

    /** Records p as the origin of id, and logs the placement. */
    method SetIndexPath(id: IndexPath, p: Point)
      modifies this`positions, this`cellIndexPaths
      ensures positions == old(positions)[id := p]
      ensures cellIndexPaths == old(cellIndexPaths) + [id]
    {
      positions := positions[id := p];
      cellIndexPaths := cellIndexPaths + [id];
    }

    method ClearPositions()
      modifies this`grid, this`positions
      ensures grid == map[] && positions == map[]
    {
      grid := map[];
      positions := map[];
    }

    /** The furthest block point's setter keeps the componentwise maximum. */
    method SetFurthestBlockPoint(p: Point)
      modifies this`furthest
      ensures furthest == MaxPoint(old(furthest), p)
    {
      furthest := Point(Max(furthest.x, p.x), Max(furthest.y, p.y));
    }

    /**
     Forgets every placement and the query cache. The furthest point is
     written through its max-setter, so it keeps its value; the z-indices
     and the placement log are not cleared.
     */
    method InvalidateLayout()
      requires 0 <= furthest.x && 0 <= furthest.y
      modifies this
      ensures Consistent()
      ensures furthest == old(furthest)
      ensures firstFree == Point(0, 0) && last == None
      ensures grid == map[] && positions == map[]
      ensures previousRect == Rect(0, 0, 0, 0) && previousAttributes == None
      ensures zIndex == old(zIndex) && cellIndexPaths == old(cellIndexPaths)
      ensures itemBlockSize == old(itemBlockSize) && vertical == old(vertical) && itemCounts == old(itemCounts)
    {
      SetFurthestBlockPoint(Point(0, 0));
      firstFree := Point(0, 0);
      previousRect := Rect(0, 0, 0, 0);
      previousAttributes := None;
      last := None;
      ClearPositions();
    }

    /** Changing the scroll direction invalidates the layout, even to the same value. */
    method SetScrollDirection(v: bool)
      requires 0 <= furthest.x && 0 <= furthest.y
      modifies this
      ensures Consistent()
      ensures vertical == v && itemBlockSize == old(itemBlockSize)
      ensures furthest == old(furthest) && firstFree == Point(0, 0) && last == None
      ensures grid == map[] && positions == map[]
      ensures previousRect == Rect(0, 0, 0, 0) && previousAttributes == None
      ensures zIndex == old(zIndex) && cellIndexPaths == old(cellIndexPaths) && itemCounts == old(itemCounts)
    {
      vertical := v;
      InvalidateLayout();
    }

    /** Changing the cell size invalidates the layout, even to the same value. */
    method SetItemBlockSize(sz: Size)
      requires 0 <= furthest.x && 0 <= furthest.y
      modifies this
      ensures Consistent()
      ensures itemBlockSize == sz && vertical == old(vertical)
      ensures furthest == old(furthest) && firstFree == Point(0, 0) && last == None
      ensures grid == map[] && positions == map[]
      ensures previousRect == Rect(0, 0, 0, 0) && previousAttributes == None
      ensures zIndex == old(zIndex) && cellIndexPaths == old(cellIndexPaths) && itemCounts == old(itemCounts)
    {
      itemBlockSize := sz;
      InvalidateLayout();
    }

    /** Walks the block at origin column by column, stopping at the first point the per-cell check refuses. */
    method CheckTilesForPoint(origin: Point, size: Size, extent: int) returns (fits: bool)
      ensures fits == Fits(grid, vertical, extent, origin, size)
    {
      var x := origin.x;
      while x < origin.x + size.width
        invariant origin.x <= x <= origin.x + size.width
        invariant forall p :: Walked(origin, size, x, origin.y, p) ==> CellAcceptable(grid, vertical, extent, origin, p)
        decreases origin.x + size.width - x
      {
        var y := origin.y;
        while y < origin.y + size.height
          invariant origin.y <= y <= origin.y + size.height
          invariant forall p :: Walked(origin, size, x, y, p) ==> CellAcceptable(grid, vertical, extent, origin, p)
          decreases origin.y + size.height - y
        {
          var p := Point(x, y);
          var c := ToCell(vertical, p);
          var spaceAvailable := IndexPathForPosition(p).None?;
          var inBounds := c.res < extent;
          var maximumRestrictedBoundSize := ToCell(vertical, origin).res == 0;
          if !(spaceAvailable && (inBounds || maximumRestrictedBoundSize)) {
            assert InBlock(origin, size, p);
            return false;
          }
          y := y + 1;
        }
        x := x + 1;
      }
      return true;
    }

    /** Marks every point of the block at origin as id's, raising the furthest point through each. */
    method MarkTilesForPoint(origin: Point, size: Size, id: IndexPath)
      requires BlockFree(grid, vertical, origin, size)
      modifies this`grid, this`furthest
      ensures Stamped(old(grid), grid, vertical, origin, size, id)
      ensures furthest == MaxPoint(old(furthest), FarCorner(origin, size))
    {
      ghost var g0, f0 := grid, furthest;
      var x := origin.x;
      while x < origin.x + size.width
        invariant origin.x <= x <= origin.x + size.width
        invariant MarkedUpTo(g0, grid, vertical, origin, size, x, origin.y, id)
        invariant furthest == if x == origin.x then f0 else MaxPoint(f0, Point(x - 1, origin.y + size.height - 1))
        decreases origin.x + size.width - x
      {
        var x1 := x + 1;
        MarkColumn(origin, size, x, x1, id, g0, f0);
        x := x1;
      }
      MarkedAll(g0, grid, vertical, origin, size, id);
    }

    /** One column x of the block: its cells top to bottom, each marked and pushed into the furthest point. */
    method MarkColumn(origin: Point, size: Size, x: int, x1: int, id: IndexPath, ghost g0: Grid, ghost f0: Point)
      requires origin.x <= x < origin.x + size.width && x1 == x + 1
      requires BlockFree(g0, vertical, origin, size)
      requires MarkedUpTo(g0, grid, vertical, origin, size, x, origin.y, id)
      requires furthest == if x == origin.x then f0 else MaxPoint(f0, Point(x - 1, origin.y + size.height - 1))
      modifies this`grid, this`furthest
      ensures MarkedUpTo(g0, grid, vertical, origin, size, x1, origin.y, id)
      ensures furthest == MaxPoint(f0, Point(x, origin.y + size.height - 1))
    {
      ghost var fx := furthest;
      var y := origin.y;
      while y < origin.y + size.height
        invariant origin.y <= y <= origin.y + size.height
        invariant MarkedUpTo(g0, grid, vertical, origin, size, x, y, id)
        invariant furthest == if y == origin.y then fx
                              else MaxPoint(f0, Point(x, if x == origin.x then y - 1 else origin.y + size.height - 1))
        decreases origin.y + size.height - y
      {
        var p := Point(x, y);
        MarkedStep(g0, grid, vertical, origin, size, x, y, id);
        SetPosition(p, id);
        SetFurthestBlockPoint(p);
        y := y + 1;
      }
      MarkedNextColumn(g0, grid, vertical, origin, size, x, id);
    }

    /**
     One row u of the scan: restricted lines 0 .. extent - 1, stopping at
     the first free cell where the block fits. The first free cell seen is
     recorded while every cell scanned so far was taken.
     */
    method ScanRow(size: Size, u: int, ghost u0: int, allTakenBefore: bool)
      returns (found: bool, origin: Point, allTaken: bool)
      requires 0 <= u0 <= u && 0 <= firstFree.x && 0 <= firstFree.y
      requires Bounded(grid, vertical, furthest)
      requires NoFitBefore(grid, vertical, RestrictedDimensionBlockSize(), u0, size, Cell(0, u))
      requires allTakenBefore ==> TakenBefore(grid, RestrictedDimensionBlockSize(), u0, Cell(0, u))
      requires !allTakenBefore ==> IsFirstFree(grid, RestrictedDimensionBlockSize(), u0, ToCell(vertical, firstFree))
      modifies this`firstFree
      ensures 0 <= firstFree.x && 0 <= firstFree.y
      ensures found ==> IsFirstFit(grid, vertical, RestrictedDimensionBlockSize(), u0, size, origin)
      ensures !found ==> NoFitBefore(grid, vertical, RestrictedDimensionBlockSize(), u0, size, Cell(0, u + 1))
      ensures allTaken ==> !found && TakenBefore(grid, RestrictedDimensionBlockSize(), u0, Cell(0, u + 1))
      ensures !allTaken ==> IsFirstFree(grid, RestrictedDimensionBlockSize(), u0, ToCell(vertical, firstFree))
      ensures ToCell(vertical, furthest).unr < u ==> found
    {
      var extent := RestrictedDimensionBlockSize();
      ghost var g, v, f := grid, vertical, furthest;
      allTaken := allTakenBefore;
      found := false;
      origin := firstFree;
      var r: int := 0;
      while r < extent && !found
        invariant 0 <= r <= extent
        invariant 0 <= firstFree.x && 0 <= firstFree.y
        invariant !found ==> NoFitBefore(g, v, extent, u0, size, Cell(r, u))
        invariant found ==> IsFirstFit(g, v, extent, u0, size, origin)
        invariant allTaken ==> !found && TakenBefore(g, extent, u0, Cell(r, u))
        invariant !allTaken ==> IsFirstFree(g, extent, u0, ToCell(v, firstFree))
        invariant ToCell(v, f).unr < u && 0 < r ==> found
        decreases extent - r
      {
        var point := ToPoint(vertical, Cell(r, u));
        CellRoundTrip(v, Cell(r, u));
        if IndexPathForPosition(point).None? {
          if allTaken {
            firstFree := point;
            allTaken := false;
          }
          if r == 0 && ToCell(v, f).unr < u {
            FitsBeyondFurthest(g, v, extent, point, size, f);
          }
          var fits := CheckTilesForPoint(point, size, extent);
          if fits {
            origin := point;
            found := true;
          } else {
            NoFitStep(g, v, extent, u0, size, r, u);
          }
        } else {
          NoFitStep(g, v, extent, u0, size, r, u);
          if allTaken {
            TakenStep(g, extent, u0, r, u);
          }
        }
        r := r + 1;
      }
      if !found {
        NoFitRowEnd(g, v, extent, u0, size, u);
        if allTaken {
          TakenRowEnd(g, extent, u0, u);
        }
      }
    }

    /**
     Scans cells from the first free cell's row upward, restricted lines
     0 .. extent - 1 in each row, for the first free cell at which a block
     of the given size fits; records the first free cell seen on the way.
     Past the furthest block point every row has room, so the scan ends.
     */
    method TraversePublicTiles(size: Size) returns (origin: Point)
      requires Valid()
      modifies this`firstFree
      ensures Valid()
      ensures IsFirstFit(grid, vertical, RestrictedDimensionBlockSize(), ToCell(vertical, old(firstFree)).unr, size, origin)
      ensures IsFirstFree(grid, RestrictedDimensionBlockSize(), ToCell(vertical, old(firstFree)).unr, ToCell(vertical, firstFree))
    {
      var allTakenBefore := true;
      var u := ToCell(vertical, firstFree).unr;
      ghost var u0 := u;
      ghost var bound := Max(u0, ToCell(vertical, furthest).unr + 1);
      ScanStart(grid, vertical, RestrictedDimensionBlockSize(), u0, size);
      var found := false;
      origin := firstFree;
      while !found
        invariant u0 <= u <= bound
        invariant 0 <= firstFree.x && 0 <= firstFree.y
        invariant !found ==> NoFitBefore(grid, vertical, RestrictedDimensionBlockSize(), u0, size, Cell(0, u))
        invariant found ==> IsFirstFit(grid, vertical, RestrictedDimensionBlockSize(), u0, size, origin)
        invariant allTakenBefore ==> !found && TakenBefore(grid, RestrictedDimensionBlockSize(), u0, Cell(0, u))
        invariant !allTakenBefore ==> IsFirstFree(grid, RestrictedDimensionBlockSize(), u0, ToCell(vertical, firstFree))
        decreases bound - u, if found then 0 else 1
      {
        found, origin, allTakenBefore := ScanRow(size, u, u0, allTakenBefore);
        if !found {
          u := u + 1;
        }
      }
    }

    /**
     What the placer does once the scan has found a fitting origin: record
     the origin of id, then mark every point of its block as id's, raising
     the furthest point through each.
     */
    method FillBlock(id: IndexPath, origin: Point)
      requires Valid()
      requires Placeable(grid, vertical, RestrictedDimensionBlockSize(), origin, BlockSizeOf(delegate, id))
      modifies this`grid, this`positions, this`furthest, this`cellIndexPaths
      ensures Valid()
      ensures positions == old(positions)[id := origin]
      ensures cellIndexPaths == old(cellIndexPaths) + [id]
      ensures Stamped(old(grid), grid, vertical, origin, BlockSizeOf(delegate, id), id)
      ensures furthest == MaxPoint(old(furthest), FarCorner(origin, BlockSizeOf(delegate, id)))
      ensures old(ExactFootprints(grid, positions, vertical, delegate)) && id !in old(positions) ==>
                ExactFootprints(grid, positions, vertical, delegate)
    {
      var size := BlockSizeOf(delegate, id);
      ghost var g0, pos0, fur0 := grid, positions, furthest;
      SetIndexPath(id, origin);
      MarkTilesForPoint(origin, size, id);
      PlacementKeepsLayout(g0, grid, pos0, vertical, delegate, fur0, RestrictedDimensionBlockSize(), id, origin);
    }

    /**
     Places item id at the first fit for its block size and marks its
     cells. Placement always succeeds and does not look at whether id was
     already placed.
     */
    method PlaceBlockAtIndex(id: IndexPath) returns (placed: bool)
      requires Valid()
      modifies this`firstFree, this`grid, this`positions, this`furthest, this`cellIndexPaths
      ensures Valid()
      ensures placed && id in positions
      ensures IsFirstFit(old(grid), vertical, RestrictedDimensionBlockSize(), ToCell(vertical, old(firstFree)).unr,
                         BlockSizeOf(delegate, id), positions[id])
      ensures IsFirstFree(old(grid), RestrictedDimensionBlockSize(), ToCell(vertical, old(firstFree)).unr,
                          ToCell(vertical, firstFree))
      ensures positions == old(positions)[id := positions[id]]
      ensures cellIndexPaths == old(cellIndexPaths) + [id]
      ensures Stamped(old(grid), grid, vertical, positions[id], BlockSizeOf(delegate, id), id)
      ensures furthest == MaxPoint(old(furthest), FarCorner(positions[id], BlockSizeOf(delegate, id)))
      ensures old(ExactFootprints(grid, positions, vertical, delegate)) && id !in old(positions) ==>
                ExactFootprints(grid, positions, vertical, delegate)
    {
      var origin := TraversePublicTiles(BlockSizeOf(delegate, id));
      FirstFitPlaceable(grid, vertical, RestrictedDimensionBlockSize(), ToCell(vertical, old(firstFree)).unr,
                        BlockSizeOf(delegate, id), origin);
      FillBlock(id, origin);
      placed := true;
    }

    /**
     One step of either fill driver: place q and, as placement reports
     success, make it the cursor. Items after the cursor are never placed
     yet, so the placement is a first one.
     */
    method PlaceAndRecord(q: IndexPath)
      requires Consistent()
      requires last.Some? ==> LexLt(last.value, q)
      modifies this`firstFree, this`grid, this`positions, this`furthest, this`cellIndexPaths, this`last
      ensures Consistent() && last == Some(q)
      ensures q !in old(positions) && Recorded(vertical, old(Snap()), Snap(), [q])
      ensures PlacedStep(vertical, RestrictedDimensionBlockSize(), delegate, old(Snap()), Snap(), q)
    {
      AfterCursorUnplaced(positions, last, q);
      var placed := PlaceBlockAtIndex(q);
      if placed {
        last := Some(q);
      }
      CursorAdvances(old(positions), positions, old(last), q);
      RecordedOne(vertical, old(Snap()), Snap(), BlockSizeOf(delegate, q), q);
    }

    /**
     The row loop of the index-path driver in section s: places rows lo,
     lo + 1, ... of the section, up to n - 1, stopping before the first row
     past the target by the driver's stop test; `next` is the first row not
     placed.
     */
    method FillRowsToIndexPath(s: nat, lo: nat, n: nat, target: IndexPath, ghost v: bool, ghost extent: int)
      returns (stopped: bool, next: nat, ghost states: seq<Snapshot>, ghost fs: seq<int>)
      requires Consistent() && lo <= n
      requires v == vertical && extent == RestrictedDimensionBlockSize()
      requires last.Some? ==> LexLt(last.value, IndexPath(s, lo))
      modifies this`firstFree, this`grid, this`positions, this`furthest, this`cellIndexPaths, this`last
      ensures Consistent()
      ensures lo <= next <= n && (stopped <==> next < n)
      ensures stopped ==> PastTarget(target, IndexPath(s, next))
      ensures forall x :: lo <= x < next ==> !PastTarget(target, IndexPath(s, x))
      ensures RunPlaced(v, extent, delegate, old(Snap()), Snap(), states, Rows(s, lo, next), fs)
    {
      var r := lo;
      states, fs := [Snap()], [];
      RunPlacedNothing(v, extent, delegate, Snap());
      while r < n
        invariant lo <= r <= n
        invariant Consistent()
        invariant v == vertical && extent == RestrictedDimensionBlockSize()
        invariant forall x :: lo <= x < r ==> !PastTarget(target, IndexPath(s, x))
        invariant RunPlaced(v, extent, delegate, old(Snap()), Snap(), states, Rows(s, lo, r), fs)
        invariant last.Some? ==> LexLt(last.value, IndexPath(s, r))
        decreases n - r
      {
        if s >= target.section && r > target.row {
          return true, r, states, fs;
        }
        var q := IndexPath(s, r);
        ghost var snap := Snap();
        PlaceAndRecord(q);
        var r1 := r + 1;
        RowsSnoc(s, lo, r, r1);
        ghost var f := ToCell(v, firstFree).unr;
        RunPlacedStep(v, extent, delegate, old(Snap()), snap, Snap(), states, Rows(s, lo, r), fs, q, Rows(s, lo, r1), f);
        states, fs := states + [Snap()], fs + [f];
        r := r1;
      }
      return false, r, states, fs;
    }

    /**
     One pass of the index-path driver's section loop at section s, with
     `visited` placed so far out of the walk `full`: a row range that starts
     past the section's count traps; otherwise the section's rows are placed
     from the cursor on, and `run` lists them.
     */
    method FillSectionToIndexPath(s: nat, target: IndexPath, ghost full: Walk, ghost visited: seq<IndexPath>,
                                  ghost v: bool, ghost extent: int)
      returns (trapped: bool, stopped: bool, ghost run: seq<IndexPath>, ghost states: seq<Snapshot>, ghost fs: seq<int>)
      requires Consistent() && s < |itemCounts|
      requires v == vertical && extent == RestrictedDimensionBlockSize()
      requires last.Some? ==> last.value.section <= s
      requires WalkAt(visited, itemCounts, s, last, full)
      requires NonePast(target, visited)
      modifies this`firstFree, this`grid, this`positions, this`furthest, this`cellIndexPaths, this`last
      ensures Consistent()
      ensures trapped ==> run == [] && StopsAtTarget(target, full, visited, true)
      ensures !trapped && !stopped ==> WalkAt(visited + run, itemCounts, s + 1, last, full)
      ensures !trapped && !stopped ==> last.Some? ==> last.value.section <= s + 1
      ensures !trapped && stopped ==> StopsAtTarget(target, full, visited + run, false)
      ensures NonePast(target, visited + run)
      ensures RunPlaced(v, extent, delegate, old(Snap()), Snap(), states, run, fs)
    {
      var n := itemCounts[s];
      var lo := RowStart(last);
      if lo > n {
        WalkAtTrap(visited, itemCounts, s, last, full);
        RunPlacedNothing(v, extent, delegate, Snap());
        return true, false, [], [Snap()], [];
      }
      var next;
      stopped, next, states, fs := FillRowsToIndexPath(s, lo, n, target, v, extent);
      trapped := false;
      run := Rows(s, lo, next);
      RowsNonePast(target, s, lo, next);
      NonePastConcat(target, visited, run);
      CursorAfterRows(old(last), s, lo, next);
      WalkAtStep(visited, itemCounts, s, old(last), full, next);
    }

    /**
     Record the z-index of row r of section s, computed from the number of
     rows n in the section, after rows lo .. r - 1 were stamped over `z0`.
     */
    method StampRow(s: nat, lo: nat, r: nat, r1: nat, n: nat, ghost z0: map<IndexPath, int>)
      requires lo <= r && r1 == r + 1 && s < |itemCounts| && n == itemCounts[s]
      requires zIndex == ZFor(z0, itemCounts, Rows(s, lo, r))
      modifies this`zIndex
      ensures zIndex == ZFor(z0, itemCounts, Rows(s, lo, r1))
    {
      var q := IndexPath(s, r);
      ZForSnoc(z0, itemCounts, Rows(s, lo, r), q);
      RowsSnoc(s, lo, r, r1);
      zIndex := zIndex[q := BaseZIndex + n - r];
    }

    /**
     One step of the row-driven fill at row r of section s, after rows
     lo .. r - 1 were placed since `snap0` and stamped over `z0` through the
     states `states0` with frontiers `fs0`: place the row as PlaceAndRecord
     does, record its z-index, and read the frontier `f` that the stop test
     compares with endRow.
     */
    method FillRowStep(s: nat, lo: nat, r: nat, r1: nat, n: nat, endRow: int,
                       ghost v: bool, ghost extent: int, ghost counts: seq<nat>,
                       ghost snap0: Snapshot, ghost z0: map<IndexPath, int>,
                       ghost states0: seq<Snapshot>, ghost fs0: seq<int>)
      returns (f: int, ghost states: seq<Snapshot>, ghost fs: seq<int>)
      requires Consistent() && lo <= r < n && r1 == r + 1
      requires v == vertical && extent == RestrictedDimensionBlockSize() && counts == itemCounts
      requires s < |itemCounts| && n == itemCounts[s]
      requires last.Some? ==> LexLt(last.value, IndexPath(s, r))
      requires RowFilled(v, extent, delegate, counts, endRow,
                         snap0, z0, Snap(), zIndex, states0, Rows(s, lo, r), fs0, false)
      modifies this`firstFree, this`grid, this`positions, this`furthest, this`cellIndexPaths, this`last, this`zIndex
      ensures Consistent() && last == Some(IndexPath(s, r))
      ensures f == ToCell(vertical, firstFree).unr
      ensures RowFilled(v, extent, delegate, counts, endRow,
                        snap0, z0, Snap(), zIndex, states, Rows(s, lo, r1), fs, f >= endRow)
    {
      ghost var before, zBefore := Snap(), zIndex;
      var q := IndexPath(s, r);
      PlaceAndRecord(q);
      ghost var placed := Snap();
      assert PlacedStep(v, extent, delegate, before, placed, q);
      StampRow(s, lo, r, r1, n, z0);
      assert Snap() == placed;
      f := ToCell(vertical, firstFree).unr;
      assert f == ToCell(v, placed.firstFree).unr;
      RowsSnoc(s, lo, r, r1);
      RowFilledStep(v, extent, delegate, counts, endRow,
                    snap0, z0, before, zBefore, placed, zIndex, states0, Rows(s, lo, r), fs0, q, Rows(s, lo, r1), f);
      states, fs := states0 + [placed], fs0 + [f];
    }

    /**
     The row loop of the row-driven fill in section s: places rows lo,
     lo + 1, ... of the section, up to n - 1, stamps each with its z-index,
     and stops right after the placement that leaves the frontier at or past
     endRow; `next` is the first row not placed, `states` the states the
     placements went through and `fs` the frontier after each placement.
     */
    method FillRowsToUnrestrictedRow(s: nat, lo: nat, n: nat, endRow: int,
                                     ghost v: bool, ghost extent: int, ghost counts: seq<nat>)
      returns (stopped: bool, next: nat, ghost states: seq<Snapshot>, ghost fs: seq<int>)
      requires Consistent() && lo <= n
      requires v == vertical && extent == RestrictedDimensionBlockSize() && counts == itemCounts
      requires s < |itemCounts| && n == itemCounts[s]
      requires last.Some? ==> LexLt(last.value, IndexPath(s, lo))
      modifies this`firstFree, this`grid, this`positions, this`furthest, this`cellIndexPaths, this`last, this`zIndex
      ensures Consistent()
      ensures lo <= next <= n && (!stopped ==> next == n)
      ensures RowFilled(v, extent, delegate, counts, endRow,
                        old(Snap()), old(zIndex), Snap(), zIndex, states, Rows(s, lo, next), fs, stopped)
    {
      var r := lo;
      states, fs := [Snap()], [];
      RowFilledNothing(v, extent, delegate, counts, endRow, Snap(), zIndex);
      while r < n
        invariant lo <= r <= n
        invariant Consistent()
        invariant v == vertical && extent == RestrictedDimensionBlockSize() && counts == itemCounts
        invariant RowFilled(v, extent, delegate, counts, endRow,
                            old(Snap()), old(zIndex), Snap(), zIndex, states, Rows(s, lo, r), fs, false)
        invariant last.Some? ==> LexLt(last.value, IndexPath(s, r))
        decreases n - r
      {
        var r1 := r + 1;
        var f;
        f, states, fs := FillRowStep(s, lo, r, r1, n, endRow, v, extent, counts, old(Snap()), old(zIndex), states, fs);
        r := r1;
        if f >= endRow {
          return true, r, states, fs;
        }
      }
      return false, r, states, fs;
    }

    /**
     One pass of the row-driven fill's section loop at section s, with
     `visited` placed so far out of the walk `full`: a row range that starts
     past the section's count traps; otherwise the section's rows are placed
     and stamped from the cursor on, and `run` lists them.
     */
    method FillSectionToUnrestrictedRow(s: nat, endRow: int, ghost full: Walk, ghost visited: seq<IndexPath>,
                                        ghost v: bool, ghost extent: int, ghost counts: seq<nat>)
      returns (trapped: bool, stopped: bool, ghost run: seq<IndexPath>, ghost states: seq<Snapshot>, ghost fs: seq<int>)
      requires Consistent() && s < |itemCounts|
      requires v == vertical && extent == RestrictedDimensionBlockSize() && counts == itemCounts
      requires last.Some? ==> last.value.section <= s
      requires WalkAt(visited, itemCounts, s, last, full)
      modifies this`firstFree, this`grid, this`positions, this`furthest, this`cellIndexPaths, this`last, this`zIndex
      ensures Consistent()
      ensures trapped ==> run == [] && !stopped && visited == full.paths && full.traps
      ensures !trapped && !stopped ==> WalkAt(visited + run, itemCounts, s + 1, last, full)
      ensures !trapped && !stopped ==> last.Some? ==> last.value.section <= s + 1
      ensures visited + run <= full.paths
      ensures RowFilled(v, extent, delegate, counts, endRow,
                        old(Snap()), old(zIndex), Snap(), zIndex, states, run, fs, stopped)
    {
      var n := itemCounts[s];
      var lo := RowStart(last);
      if lo > n {
        WalkAtTrap(visited, itemCounts, s, last, full);
        RowFilledNothing(v, extent, delegate, counts, endRow, Snap(), zIndex);
        assert visited + [] == visited;
        return true, false, [], [Snap()], [];
      }
      var next;
      stopped, next, states, fs := FillRowsToUnrestrictedRow(s, lo, n, endRow, v, extent, counts);
      trapped := false;
      run := Rows(s, lo, next);
      CursorAfterRows(old(last), s, lo, next);
      WalkAtStep(visited, itemCounts, s, old(last), full, next);
    }

    /**
     One pass of the row-driven fill's section loop, carrying the trace of
     the fill so far: `visited1`, `fs1` and `states1` extend the run,
     frontiers and states by those of section s.
     */
    method FillSectionStep(s: nat, endRow: int, ghost full: Walk,
                           ghost v: bool, ghost extent: int, ghost counts: seq<nat>,
                           ghost snap0: Snapshot, ghost z0: map<IndexPath, int>,
                           ghost visited: seq<IndexPath>, ghost fs0: seq<int>, ghost states0: seq<Snapshot>)
      returns (trapped: bool, stopped: bool, ghost visited1: seq<IndexPath>, ghost fs1: seq<int>, ghost states1: seq<Snapshot>)
      requires Consistent() && s < |itemCounts|
      requires v == vertical && extent == RestrictedDimensionBlockSize() && counts == itemCounts
      requires last.Some? ==> last.value.section <= s
      requires WalkAt(visited, itemCounts, s, last, full)
      requires RowFilled(v, extent, delegate, counts, endRow, snap0, z0, Snap(), zIndex, states0, visited, fs0, false)
      modifies this`firstFree, this`grid, this`positions, this`furthest, this`cellIndexPaths, this`last, this`zIndex
      ensures Consistent()
      ensures trapped ==> !stopped && visited1 == full.paths && full.traps
      ensures !trapped && !stopped ==> WalkAt(visited1, itemCounts, s + 1, last, full)
      ensures !trapped && !stopped ==> last.Some? ==> last.value.section <= s + 1
      ensures visited1 <= full.paths
      ensures RowFilled(v, extent, delegate, counts, endRow, snap0, z0, Snap(), zIndex, states1, visited1, fs1, stopped)
    {
      ghost var snap, z := Snap(), zIndex;
      ghost var run, ss, fs;
      trapped, stopped, run, ss, fs := FillSectionToUnrestrictedRow(s, endRow, full, visited, v, extent, counts);
      RowFilledTrans(v, extent, delegate, counts, endRow,
                     snap0, z0, snap, z, Snap(), zIndex, states0, visited, fs0, ss, run, fs, stopped);
      visited1, fs1, states1 := visited + run, fs0 + fs, states0 + ss[1..];
    }

    /**
     The row-driven fill: places items in canonical order from the cursor
     on, stamping each with its z-index, until the frontier reaches endRow
     after a placement, the items run out, or a section's row range starts
     past its count, which traps. `states` are the states the placements
     went through, one PlacedStep each, and `frontiers` the frontier after
     each of them.
     */
    method FillInBlocksToUnrestrictedRow(endRow: int)
      returns (aborted: bool, ghost visited: seq<IndexPath>, ghost frontiers: seq<int>, ghost states: seq<Snapshot>)
      requires Consistent()
      modifies this`firstFree, this`grid, this`positions, this`furthest, this`cellIndexPaths, this`last, this`zIndex
      ensures Consistent()
      ensures StopsAtRow(endRow, VisitOrder(itemCounts, old(last)), visited, frontiers, aborted)
      ensures ReachedRow(endRow, frontiers) ==> ToCell(vertical, firstFree).unr >= endRow
      ensures RowFilled(old(vertical), old(RestrictedDimensionBlockSize()), delegate, old(itemCounts), endRow,
                        old(Snap()), old(zIndex), Snap(), zIndex, states, visited, frontiers, ReachedRow(endRow, frontiers))
    {
      ghost var full := VisitOrder(itemCounts, last);
      ghost var v, extent, counts := vertical, RestrictedDimensionBlockSize(), itemCounts;
      visited := [];
      frontiers := [];
      states := [Snap()];
      aborted := false;
      var s := FirstSection(last);
      WalkStart(itemCounts, last);
      RowFilledNothing(v, extent, delegate, counts, endRow, Snap(), zIndex);
      if s > |itemCounts| {
        aborted := true;
        return;
      }
      while s < |itemCounts|
        invariant s <= |itemCounts|
        invariant Consistent()
        invariant last.Some? ==> last.value.section <= s
        invariant WalkAt(visited, itemCounts, s, last, full)
        invariant v == vertical && extent == RestrictedDimensionBlockSize() && counts == itemCounts
        invariant RowFilled(v, extent, delegate, counts, endRow,
                            old(Snap()), old(zIndex), Snap(), zIndex, states, visited, frontiers, false)
        decreases |itemCounts| - s
      {
        var trapped, stopped;
        trapped, stopped, visited, frontiers, states :=
          FillSectionStep(s, endRow, full, v, extent, counts, old(Snap()), old(zIndex), visited, frontiers, states);
        if trapped {
          aborted := true;
          return;
        }
        if stopped {
          return;
        }
        var s1 := s + 1;
        WalkAtNext(visited, itemCounts, s, s1, last, full);
        s := s1;
      }
      WalkAtDone(visited, itemCounts, s, last, full);
    }

    /**
     One pass of the index-path driver's section loop, carrying the trace of
     the fill so far: `visited1`, `fs1` and `states1` extend the run,
     frontiers and states by those of section s.
     */
    method FillIndexPathSectionStep(s: nat, target: IndexPath, ghost full: Walk, ghost v: bool, ghost extent: int,
                                    ghost snap0: Snapshot, ghost visited: seq<IndexPath>,
                                    ghost fs0: seq<int>, ghost states0: seq<Snapshot>)
      returns (trapped: bool, stopped: bool, ghost visited1: seq<IndexPath>, ghost fs1: seq<int>, ghost states1: seq<Snapshot>)
      requires Consistent() && s < |itemCounts|
      requires v == vertical && extent == RestrictedDimensionBlockSize()
      requires last.Some? ==> last.value.section <= s
      requires WalkAt(visited, itemCounts, s, last, full)
      requires NonePast(target, visited)
      requires RunPlaced(v, extent, delegate, snap0, Snap(), states0, visited, fs0)
      modifies this`firstFree, this`grid, this`positions, this`furthest, this`cellIndexPaths, this`last
      ensures Consistent()
      ensures trapped ==> visited1 == visited && StopsAtTarget(target, full, visited, true)
      ensures !trapped && !stopped ==> WalkAt(visited1, itemCounts, s + 1, last, full)
      ensures !trapped && !stopped ==> last.Some? ==> last.value.section <= s + 1
      ensures !trapped && stopped ==> StopsAtTarget(target, full, visited1, false)
      ensures NonePast(target, visited1)
      ensures RunPlaced(v, extent, delegate, snap0, Snap(), states1, visited1, fs1)
    {
      ghost var snap := Snap();
      ghost var run, ss, fs;
      trapped, stopped, run, ss, fs := FillSectionToIndexPath(s, target, full, visited, v, extent);
      RunPlacedTrans(v, extent, delegate, snap0, snap, Snap(), states0, visited, fs0, ss, run, fs);
      visited1, fs1, states1 := visited + run, fs0 + fs, states0 + ss[1..];
      if trapped {
        assert visited1 == visited;
      }
    }

    /**
     The index-path driver: places items in canonical order from the cursor
     on until the next one is past the target by the driver's stop test, the
     items run out, or a section's row range starts past its count, which
     traps. `states` are the states the placements went through, one
     PlacedStep each, and `fs` the frontier after each of them.
     */
    method FillInBlocksToIndexPath(target: IndexPath)
      returns (aborted: bool, ghost visited: seq<IndexPath>, ghost states: seq<Snapshot>, ghost fs: seq<int>)
      requires Consistent()
      modifies this`firstFree, this`grid, this`positions, this`furthest, this`cellIndexPaths, this`last
      ensures Consistent()
      ensures StopsAtTarget(target, VisitOrder(itemCounts, old(last)), visited, aborted)
      ensures RunPlaced(vertical, RestrictedDimensionBlockSize(), delegate, old(Snap()), Snap(), states, visited, fs)
    {
      ghost var full := VisitOrder(itemCounts, last);
      ghost var v, extent := vertical, RestrictedDimensionBlockSize();
      visited, states, fs := [], [Snap()], [];
      aborted := false;
      var s := FirstSection(last);
      WalkStart(itemCounts, last);
      RunPlacedNothing(v, extent, delegate, Snap());
      if s > |itemCounts| {
        aborted := true;
        return;
      }
      while s < |itemCounts|
        invariant s <= |itemCounts|
        invariant Consistent()
        invariant v == vertical && extent == RestrictedDimensionBlockSize()
        invariant last.Some? ==> last.value.section <= s
        invariant WalkAt(visited, itemCounts, s, last, full)
        invariant NonePast(target, visited)
        invariant RunPlaced(v, extent, delegate, old(Snap()), Snap(), states, visited, fs)
        decreases |itemCounts| - s
      {
        var trapped, stopped;
        trapped, stopped, visited, fs, states :=
          FillIndexPathSectionStep(s, target, full, v, extent, old(Snap()), visited, fs, states);
        if trapped {
          aborted := true;
          return;
        }
        if stopped {
          return;
        }
        var s1 := s + 1;
        WalkAtNext(visited, itemCounts, s, s1, last, full);
        s := s1;
      }
      WalkAtEnd(visited, itemCounts, s, last, full, target);
    }

    /** The origin reported for an item: its position, or the zero point when it has none. */
    function PositionOrZero(path: IndexPath): Point
      reads this`positions
    {
      if path in positions then positions[path] else Point(0, 0)
    }

    /** The size of a cell along the scroll direction. */
    function UnrestrictedCellSize(): Positive
      reads this`vertical, this`itemBlockSize
    {
      if vertical then itemBlockSize.height else itemBlockSize.width
    }

    /** The pixel frame of an item at its reported origin. */
    function ItemFrame(path: IndexPath): Rect
      reads this`positions, this`vertical, this`itemBlockSize
    {
      Frame(vertical, PositionOrZero(path), BlockSizeOf(delegate, path), itemBlockSize.width, itemBlockSize.height,
            contentWidth, contentHeight, RestrictedDimensionBlockSize())
    }

    /** The attributes reported for an item: its frame less its insets, and its z-index or 0. */
    function AttributesFor(path: IndexPath): Attributes
      reads this`positions, this`vertical, this`itemBlockSize, this`zIndex
    {
      Attributes(path, InsetRect(ItemFrame(path), InsetsOf(delegate, path)),
                 if path in zIndex then zIndex[path] else 0)
    }

    /**
     The origin of an item, filling up to it first when it has none; an
     item the fill does not reach reports the zero point. The fill places
     the item exactly when the walk from the cursor offers it.
     */
    method PositionForIndexPath(path: IndexPath)
      returns (p: Point, ghost visited: seq<IndexPath>, ghost aborted: bool, ghost states: seq<Snapshot>, ghost fs: seq<int>)
      requires Consistent()
      modifies this`firstFree, this`grid, this`positions, this`furthest, this`cellIndexPaths, this`last
      ensures Consistent()
      ensures p == PositionOrZero(path)
      ensures RunPlaced(vertical, RestrictedDimensionBlockSize(), delegate, old(Snap()), Snap(), states, visited, fs)
      ensures path in old(positions) ==> visited == [] && !aborted
      ensures path !in old(positions) ==> StopsAtTarget(path, VisitOrder(itemCounts, old(last)), visited, aborted)
      ensures path in positions <==> path in old(positions) || path in VisitOrder(itemCounts, old(last)).paths
      ensures path !in old(positions) && path in positions ==>
                PlacedByRunAt(vertical, RestrictedDimensionBlockSize(), delegate, states, visited, path, p)
    {
      if path !in positions {
        ghost var full := VisitOrder(itemCounts, last);
        aborted, visited, states, fs := FillInBlocksToIndexPath(path);
        if path in full.paths {
          VisitOrderAscending(itemCounts, old(last));
          StopsAtTargetPlacesTarget(path, full, visited, aborted);
        }
        if path in positions {
          assert path in visited;
          ghost var i :| 0 <= i < |visited| && visited[i] == path;
          RunPlacedOrigin(vertical, RestrictedDimensionBlockSize(), delegate, old(Snap()), Snap(), states, visited, fs, i);
        }
      } else {
        visited, aborted, states, fs := [], false, [Snap()], [];
        RunPlacedNothing(vertical, RestrictedDimensionBlockSize(), delegate, Snap());
      }
      p := if path in positions then positions[path] else Point(0, 0);
    }

    /** The pixel frame of an item, filling up to it first when it has no origin. */
    method FrameForIndexPath(path: IndexPath)
      returns (r: Rect, ghost visited: seq<IndexPath>, ghost aborted: bool, ghost states: seq<Snapshot>, ghost fs: seq<int>)
      requires Consistent()
      modifies this`firstFree, this`grid, this`positions, this`furthest, this`cellIndexPaths, this`last
      ensures Consistent()
      ensures r == ItemFrame(path)
      ensures RunPlaced(vertical, RestrictedDimensionBlockSize(), delegate, old(Snap()), Snap(), states, visited, fs)
      ensures path !in old(positions) && path in positions ==>
                PlacedByRunAt(vertical, RestrictedDimensionBlockSize(), delegate, states, visited, path, positions[path])
      ensures path in old(positions) ==> visited == [] && !aborted
      ensures path !in old(positions) ==> StopsAtTarget(path, VisitOrder(itemCounts, old(last)), visited, aborted)
      ensures path in positions <==> path in old(positions) || path in VisitOrder(itemCounts, old(last)).paths
    {
      var position;
      position, visited, aborted, states, fs := PositionForIndexPath(path);
      r := Frame(vertical, position, BlockSizeOf(delegate, path), itemBlockSize.width, itemBlockSize.height,
                 contentWidth, contentHeight, RestrictedDimensionBlockSize());
    }

    /** The frames of two different placed items share no pixel. */
    lemma PlacedFramesDisjoint(a: IndexPath, b: IndexPath)
      requires Consistent() && a in positions && b in positions && a != b
      ensures !RectsOverlap(ItemFrame(a), ItemFrame(b))
    {
      PlacedBlocksDisjoint(grid, positions, vertical, delegate, a, b);
      FramesOverlapIffBlocksOverlap(vertical, positions[a], BlockSizeOf(delegate, a), positions[b], BlockSizeOf(delegate, b),
                                    itemBlockSize.width, itemBlockSize.height, contentWidth, contentHeight,
                                    RestrictedDimensionBlockSize());
    }

    /** The content size along the scroll direction: one cell past the furthest block point. */
    function CollectionViewContentSize(): (d: Dims)
      reads this`vertical, this`furthest, this`itemBlockSize
      ensures vertical ==> d.width == contentWidth && (0 <= furthest.y ==> itemBlockSize.height <= d.height)
      ensures !vertical ==> d.height == contentHeight && (0 <= furthest.x ==> itemBlockSize.width <= d.width)
    {
      ContentSize(vertical, furthest, itemBlockSize.width, itemBlockSize.height, contentWidth, contentHeight)
    }

    /** The content size reaches the far edge of every placed item's frame along the scroll direction. */
    lemma ContentCoversPlacedFrames(id: IndexPath)
      requires Consistent() && id in positions
      ensures vertical ==> ItemFrame(id).y + ItemFrame(id).height <= CollectionViewContentSize().height
      ensures !vertical ==> ItemFrame(id).x + ItemFrame(id).width <= CollectionViewContentSize().width
    {
      FarCornerWithinFurthest(grid, positions, vertical, delegate, furthest, id);
      ContentCoversFrame(vertical, positions[id], BlockSizeOf(delegate, id), furthest, itemBlockSize.width,
                         itemBlockSize.height, contentWidth, contentHeight, RestrictedDimensionBlockSize());
    }

    /** The attributes of one item: its frame, filling up to it first, less its insets, and its z-index or 0. */
    method LayoutAttributesForItem(path: IndexPath)
      returns (a: Attributes, ghost visited: seq<IndexPath>, ghost aborted: bool,
               ghost states: seq<Snapshot>, ghost fs: seq<int>)
      requires Consistent()
      modifies this`firstFree, this`grid, this`positions, this`furthest, this`cellIndexPaths, this`last
      ensures Consistent()
      ensures a == AttributesFor(path)
      ensures RunPlaced(vertical, RestrictedDimensionBlockSize(), delegate, old(Snap()), Snap(), states, visited, fs)
      ensures path !in old(positions) && path in positions ==>
                PlacedByRunAt(vertical, RestrictedDimensionBlockSize(), delegate, states, visited, path, positions[path])
      ensures path in old(positions) ==> visited == [] && !aborted
      ensures path !in old(positions) ==> StopsAtTarget(path, VisitOrder(itemCounts, old(last)), visited, aborted)
    {
      var insets := InsetsOf(delegate, path);
      var frame;
      frame, visited, aborted, states, fs := FrameForIndexPath(path);
      var z := if path in zIndex then zIndex[path] else 0;
      a := Attributes(path, InsetRect(frame, insets), z);
    }

    /**
     The occupants of rows begin .. end - 1, across every restricted line:
     the walk the visible-rectangle query makes, with the callback that
     collects each occupant and never stops the walk.
     */
    method TraverseTilesBetweenUnrestrictedDimension(begin: int, end: int) returns (items: set<IndexPath>)
      requires begin <= end
      ensures items == ItemsInBand(grid, RestrictedDimensionBlockSize(), begin, end)
    {
      var extent := RestrictedDimensionBlockSize();
      items := {};
      SeenStart(grid, extent, begin);
      var u := begin;
      while u < end
        invariant begin <= u <= end
        invariant items == Seen(grid, extent, begin, u, 0)
        decreases end - u
      {
        var r: int := 0;
        while r < extent
          invariant 0 <= r <= extent
          invariant items == Seen(grid, extent, begin, u, r)
          decreases extent - r
        {
          var p := if vertical then Point(r, u) else Point(u, r);
          var id := IndexPathForPosition(p);
          SeenStep(grid, extent, begin, u, r);
          if id.Some? {
            items := items + {id.value};
          }
          r := r + 1;
        }
        SeenRowEnd(grid, extent, begin, u);
        u := u + 1;
      }
      SeenIsBand(grid, extent, begin, end);
    }

    /** The rows a visible-rectangle query walks, along the scroll direction: the band as written. */
    function QueryBand(rect: Rect): (int, int)
      reads this`vertical, this`itemBlockSize
    {
      if vertical then SourceRowBand(rect.y, rect.height, itemBlockSize.height)
      else SourceRowBand(rect.x, rect.width, itemBlockSize.width)
    }

    /**
     Every placed item whose frame shares a pixel with the query rectangle
     along the scroll direction, and starts no more than the rectangle's
     length past the start of the rectangle's first row, is an occupant of
     the band as written, so the query reports it.
     */
    lemma QueryBandFindsVisibleItems(rect: Rect, id: IndexPath)
      requires Consistent() && id in positions
      requires vertical ==> 0 <= rect.y && 0 < rect.height &&
                            ItemFrame(id).y < rect.y + rect.height && rect.y < ItemFrame(id).y + ItemFrame(id).height &&
                            ItemFrame(id).y <= TruncDiv(rect.y, itemBlockSize.height) * itemBlockSize.height + rect.height
      requires !vertical ==> 0 <= rect.x && 0 < rect.width &&
                             ItemFrame(id).x < rect.x + rect.width && rect.x < ItemFrame(id).x + ItemFrame(id).width &&
                             ItemFrame(id).x <= TruncDiv(rect.x, itemBlockSize.width) * itemBlockSize.width + rect.width
      ensures id in ItemsInBand(grid, RestrictedDimensionBlockSize(), QueryBand(rect).0, QueryBand(rect).1)
    {
      var o, sz, extent := positions[id], BlockSizeOf(delegate, id), RestrictedDimensionBlockSize();
      var c := ToCell(vertical, o);
      var cell := UnrestrictedCellSize();
      var h: Positive := if vertical then sz.height else sz.width;
      var origin, length := if vertical then rect.y else rect.x, if vertical then rect.height else rect.width;
      RunMeetsRow(c.unr, h, cell, origin, length);
      var u := RowOfRun(c.unr, origin, cell);
      ScaleMonotone(TruncDiv(origin, cell), c.unr, cell);
      SourceRowBandCovers(origin, length, cell, u);
      var p := ToPoint(vertical, Cell(c.res, u));
      assert InBlock(o, sz, p);
      assert MeetsBand(vertical, o, sz, extent, QueryBand(rect).0, QueryBand(rect).1);
      ItemsInBandExact(grid, positions, vertical, delegate, extent, QueryBand(rect).0, QueryBand(rect).1, id);
    }

    /**
     With the corrected band, every placed item whose frame shares a pixel
     with the query rectangle along the scroll direction is an occupant of
     the band.
     */
    lemma CorrectedBandFindsVisibleItems(rect: Rect, id: IndexPath)
      requires Consistent() && id in positions
      requires vertical ==> 0 <= rect.y && 0 < rect.height &&
                            ItemFrame(id).y < rect.y + rect.height && rect.y < ItemFrame(id).y + ItemFrame(id).height
      requires !vertical ==> 0 <= rect.x && 0 < rect.width &&
                             ItemFrame(id).x < rect.x + rect.width && rect.x < ItemFrame(id).x + ItemFrame(id).width
      ensures var band := if vertical then RowBand(rect.y, rect.height, itemBlockSize.height)
                          else RowBand(rect.x, rect.width, itemBlockSize.width);
              id in ItemsInBand(grid, RestrictedDimensionBlockSize(), band.0, band.1)
    {
      var o, sz, extent := positions[id], BlockSizeOf(delegate, id), RestrictedDimensionBlockSize();
      var c := ToCell(vertical, o);
      var cell := UnrestrictedCellSize();
      var h: Positive := if vertical then sz.height else sz.width;
      var origin, length := if vertical then rect.y else rect.x, if vertical then rect.height else rect.width;
      var band := RowBand(origin, length, cell);
      RunMeetsRow(c.unr, h, cell, origin, length);
      var u := RowOfRun(c.unr, origin, cell);
      RowBandCovers(origin, length, cell, u);
      var p := ToPoint(vertical, Cell(c.res, u));
      assert InBlock(o, sz, p);
      assert MeetsBand(vertical, o, sz, extent, band.0, band.1);
      ItemsInBandExact(grid, positions, vertical, delegate, extent, band.0, band.1, id);
    }

    /** The attributes of every occupant of the rows begin .. end - 1. */
    function BandAttributes(begin: int, end: int): set<Attributes>
      reads this`grid, this`positions, this`vertical, this`itemBlockSize, this`zIndex
    {
      set id | id in ItemsInBand(grid, RestrictedDimensionBlockSize(), begin, end) :: AttributesFor(id)
    }

    /** The attributes of the occupants of rows begin .. end - 1, found by the band walk and cached. */
    method ReportBand(begin: int, end: int) returns (result: Option<set<Attributes>>)
      requires begin <= end
      modifies this`previousAttributes
      ensures result == Some(BandAttributes(begin, end)) && previousAttributes == result
    {
      var items := TraverseTilesBetweenUnrestrictedDimension(begin, end);
      result := Some(set id | id in items :: AttributesFor(id));
      previousAttributes := result;
    }

    /** The row the visible-rectangle query fills to: the end of its band, or everything. */
    function QueryEndRow(rect: Rect): int
      reads this`vertical, this`itemBlockSize
    {
      if PreLayoutEverything then IntMax else QueryBand(rect).1
    }

    /**
     A visible-rectangle query that misses the cache: record the rectangle,
     fill until the frontier reaches the end of its row band, and report and
     cache the attributes of every occupant of the band. A trap in the fill,
     or a band whose end lies before its start, aborts.
     */
    method QueryVisibleRect(rect: Rect)
      returns (result: Option<set<Attributes>>, aborted: bool,
               fillAborted: bool, ghost visited: seq<IndexPath>, ghost frontiers: seq<int>, ghost states: seq<Snapshot>)
      requires Consistent()
      modifies this`previousRect, this`previousAttributes, this`zIndex
      modifies this`firstFree, this`grid, this`positions, this`furthest, this`cellIndexPaths, this`last
      ensures Consistent()
      ensures Recorded(vertical, old(Snap()), Snap(), visited)
      ensures zIndex == ZFor(old(zIndex), itemCounts, visited)
      ensures previousRect == rect
      ensures StopsAtRow(QueryEndRow(rect), VisitOrder(itemCounts, old(last)), visited, frontiers, fillAborted)
      ensures RowFilled(vertical, RestrictedDimensionBlockSize(), delegate, itemCounts, QueryEndRow(rect),
                          old(Snap()), old(zIndex), Snap(), zIndex, states, visited, frontiers, ReachedRow(QueryEndRow(rect), frontiers))
      ensures aborted <==> fillAborted || QueryBand(rect).1 < QueryBand(rect).0
      ensures aborted ==> result == None
      ensures !aborted ==> result == Some(BandAttributes(QueryBand(rect).0, QueryBand(rect).1)) && previousAttributes == result
    {
      previousRect := rect;
      assert Snap() == old(Snap());
      var band := QueryBand(rect);
      fillAborted, visited, frontiers, states := FillInBlocksToUnrestrictedRow(QueryEndRow(rect));
      if fillAborted || band.1 < band.0 {
        return None, true, fillAborted, visited, frontiers, states;
      }
      ghost var filled, z := Snap(), zIndex;
      result := ReportBand(band.0, band.1);
      assert Snap() == filled && zIndex == z;
      aborted := false;
    }

    /**
     The attributes of the items in a visible rectangle. Without a delegate
     the answer is empty; the rectangle of the previous query gets the
     cached answer, which is absent before any query; any other rectangle
     is queried as QueryVisibleRect describes.
     */
    method LayoutAttributesForElements(rect: Rect)
      returns (result: Option<set<Attributes>>, aborted: bool,
               fillAborted: bool, ghost visited: seq<IndexPath>, ghost frontiers: seq<int>, ghost states: seq<Snapshot>)
      requires Consistent()
      modifies this`previousRect, this`previousAttributes, this`zIndex
      modifies this`firstFree, this`grid, this`positions, this`furthest, this`cellIndexPaths, this`last
      ensures Consistent()
      ensures Recorded(vertical, old(Snap()), Snap(), visited)
      ensures zIndex == ZFor(old(zIndex), itemCounts, visited)
      ensures delegate.None? ==> result == Some({}) && !aborted && visited == [] &&
                                 previousRect == old(previousRect) && previousAttributes == old(previousAttributes)
      ensures delegate.Some? && rect == old(previousRect) ==>
                result == old(previousAttributes) && !aborted && visited == [] &&
                previousAttributes == old(previousAttributes)
      ensures delegate.Some? && rect != old(previousRect) ==>
                previousRect == rect &&
                StopsAtRow(QueryEndRow(rect), VisitOrder(itemCounts, old(last)), visited, frontiers, fillAborted) &&
                RowFilled(vertical, RestrictedDimensionBlockSize(), delegate, itemCounts, QueryEndRow(rect),
                          old(Snap()), old(zIndex), Snap(), zIndex, states, visited, frontiers,
                          ReachedRow(QueryEndRow(rect), frontiers)) &&
                (aborted <==> fillAborted || QueryBand(rect).1 < QueryBand(rect).0)
      ensures delegate.Some? && rect != old(previousRect) && !aborted ==>
                result == Some(BandAttributes(QueryBand(rect).0, QueryBand(rect).1)) && previousAttributes == result
    {
      if delegate.None? {
        RecordedNothing(vertical, Snap());
        return Some({}), false, false, [], [], [Snap()];
      }
      if rect == previousRect {
        RecordedNothing(vertical, Snap());
        return previousAttributes, false, false, [], [], [Snap()];
      }
      result, aborted, fillAborted, visited, frontiers, states := QueryVisibleRect(rect);
    }

    /** The row `prepare()` fills to: one past the row of the visible area's far edge, or everything. */
    function PrepareEndRow(offset: Point, frameSize: Dims): int
      reads this`vertical, this`itemBlockSize
    {
      if PreLayoutEverything then IntMax
      else if vertical then TruncDiv(offset.y + frameSize.height, itemBlockSize.height) + 1
      else TruncDiv(offset.x + frameSize.width, itemBlockSize.width) + 1
    }

    /**
     Layout preparation for the visible area at the content offset: without
     a delegate nothing happens; otherwise the row-driven fill runs to one
     row past the area's far edge.
     */
    method Prepare(offset: Point, frameSize: Dims)
      returns (aborted: bool, ghost visited: seq<IndexPath>, ghost frontiers: seq<int>, ghost states: seq<Snapshot>)
      requires Consistent()
      modifies this`zIndex, this`firstFree, this`grid, this`positions, this`furthest, this`cellIndexPaths, this`last
      ensures Consistent()
      ensures Recorded(vertical, old(Snap()), Snap(), visited)
      ensures zIndex == ZFor(old(zIndex), itemCounts, visited)
      ensures delegate.None? ==> !aborted && visited == []
      ensures delegate.Some? ==>
                StopsAtRow(PrepareEndRow(offset, frameSize), VisitOrder(itemCounts, old(last)), visited, frontiers, aborted)
      ensures delegate.Some? ==>
                RowFilled(vertical, RestrictedDimensionBlockSize(), delegate, itemCounts, PrepareEndRow(offset, frameSize),
                          old(Snap()), old(zIndex), Snap(), zIndex, states, visited, frontiers, ReachedRow(PrepareEndRow(offset, frameSize), frontiers))
    {
      if delegate.None? {
        RecordedNothing(vertical, Snap());
        return false, [], [], [Snap()];
      }
      aborted, visited, frontiers, states := FillInBlocksToUnrestrictedRow(PrepareEndRow(offset, frameSize));
    }

    /**
     The layout's response to one batch-update item: an insert or a move
     fills up to the updated index path, which the item must carry; other
     actions change nothing.
     */
    method PrepareForUpdate(u: UpdateItem)
      returns (aborted: bool, ghost visited: seq<IndexPath>, ghost states: seq<Snapshot>, ghost fs: seq<int>)
      requires Consistent()
      modifies this`firstFree, this`grid, this`positions, this`furthest, this`cellIndexPaths, this`last
      ensures Consistent()
      ensures RunPlaced(vertical, RestrictedDimensionBlockSize(), delegate, old(Snap()), Snap(), states, visited, fs)
      ensures !Fills(u) ==> !aborted && visited == []
      ensures Fills(u) && u.indexPathAfterUpdate.None? ==> aborted && visited == []
      ensures Fills(u) && u.indexPathAfterUpdate.Some? ==>
                StopsAtTarget(u.indexPathAfterUpdate.value, VisitOrder(itemCounts, old(last)), visited, aborted)
      ensures Fills(u) && u.indexPathAfterUpdate.Some? &&
              u.indexPathAfterUpdate.value in VisitOrder(itemCounts, old(last)).paths ==>
                u.indexPathAfterUpdate.value in positions &&
                PlacedByRunAt(vertical, RestrictedDimensionBlockSize(), delegate, states, visited,
                              u.indexPathAfterUpdate.value, positions[u.indexPathAfterUpdate.value])
    {
      if !Fills(u) || u.indexPathAfterUpdate.None? {
        RunPlacedNothing(vertical, RestrictedDimensionBlockSize(), delegate, Snap());
        return Fills(u), [], [Snap()], [];
      }
      var target := u.indexPathAfterUpdate.value;
      ghost var full := VisitOrder(itemCounts, last);
      aborted, visited, states, fs := FillInBlocksToIndexPath(target);
      if target in full.paths {
        VisitOrderAscending(itemCounts, old(last));
        StopsAtTargetPlacesTarget(target, full, visited, aborted);
        ghost var i :| 0 <= i < |visited| && visited[i] == target;
        RunPlacedOrigin(vertical, RestrictedDimensionBlockSize(), delegate, old(Snap()), Snap(), states, visited, fs, i);
      }
    }

    /**
     The layout's response to a batch of updates: each item in turn, as
     PrepareForUpdate describes, until one aborts. `visited` lists every
     item placed, in order.
     */
    method PrepareForCollectionViewUpdates(updates: seq<UpdateItem>)
      returns (aborted: bool, ghost visited: seq<IndexPath>, ghost states: seq<Snapshot>, ghost fs: seq<int>)
      requires Consistent()
      modifies this`firstFree, this`grid, this`positions, this`furthest, this`cellIndexPaths, this`last
      ensures Consistent()
      ensures RunPlaced(vertical, RestrictedDimensionBlockSize(), delegate, old(Snap()), Snap(), states, visited, fs)
      ensures (forall i | 0 <= i < |updates| :: !Fills(updates[i])) ==> !aborted && visited == []
      ensures !aborted ==> forall i | 0 <= i < |updates| && Fills(updates[i]) :: updates[i].indexPathAfterUpdate.Some?
    {
      ghost var v, extent := vertical, RestrictedDimensionBlockSize();
      aborted, visited, states, fs := false, [], [Snap()], [];
      RunPlacedNothing(v, extent, delegate, Snap());
      var i := 0;
      while i < |updates|
        invariant 0 <= i <= |updates|
        invariant Consistent()
        invariant v == vertical && extent == RestrictedDimensionBlockSize()
        invariant RunPlaced(v, extent, delegate, old(Snap()), Snap(), states, visited, fs)
        invariant (forall j | 0 <= j < i :: !Fills(updates[j])) ==> visited == []
        invariant forall j | 0 <= j < i && Fills(updates[j]) :: updates[j].indexPathAfterUpdate.Some?
        decreases |updates| - i
      {
        ghost var snap := Snap();
        var stepAborted;
        ghost var run, ss, fs1;
        stepAborted, run, ss, fs1 := PrepareForUpdate(updates[i]);
        RunPlacedTrans(v, extent, delegate, old(Snap()), snap, Snap(), states, visited, fs, ss, run, fs1);
        if !Fills(updates[i]) {
          assert visited + run == visited;
        }
        visited, states, fs := visited + run, states + ss[1..], fs + fs1;
        if stepAborted {
          return true, visited, states, fs;
        }
        i := i + 1;
      }
    }
  }

  /**
   The band as written leaves out a placed item the query rectangle shows:
   four one-cell items stacked in column 0 of a one-column vertical layout
   with 314-pixel cells, queried with the rectangle 300 pixels down and 800
   high. The frame of the fourth item, rows 942 .. 1255, meets the
   rectangle, yet the band as written stops before row 3, which holds it.
   */
  lemma SourceQueryMissesPlacedItem()
    ensures var g := map[Cell(0, 0) := IndexPath(0, 0), Cell(0, 1) := IndexPath(0, 1),
                         Cell(0, 2) := IndexPath(0, 2), Cell(0, 3) := IndexPath(0, 3)];
            var pos := map[IndexPath(0, 0) := Point(0, 0), IndexPath(0, 1) := Point(0, 1),
                           IndexPath(0, 2) := Point(0, 2), IndexPath(0, 3) := Point(0, 3)];
            var f := Frame(true, pos[IndexPath(0, 3)], BlockSizeOf(None, IndexPath(0, 3)), 314, 314, 314, 1256, 1);
            var band := SourceRowBand(300, 800, 314);
            Indexed(g, pos, true) && ExactFootprints(g, pos, true, None) &&
            f.y < 300 + 800 && 300 < f.y + f.height &&
            IndexPath(0, 3) in pos && IndexPath(0, 3) !in ItemsInBand(g, 1, band.0, band.1)
  {
    var g := map[Cell(0, 0) := IndexPath(0, 0), Cell(0, 1) := IndexPath(0, 1),
                 Cell(0, 2) := IndexPath(0, 2), Cell(0, 3) := IndexPath(0, 3)];
    var pos := map[IndexPath(0, 0) := Point(0, 0), IndexPath(0, 1) := Point(0, 1),
                   IndexPath(0, 2) := Point(0, 2), IndexPath(0, 3) := Point(0, 3)];
    forall id, p | id in pos && InBlock(pos[id], BlockSizeOf(None, id), p)
      ensures ToCell(true, p) in g && g[ToCell(true, p)] == id
    {
      assert p == pos[id];
    }
    SourceRowBandMissesRow();
    forall c | c in g && c.unr < 3
      ensures g[c] != IndexPath(0, 3)
    {
    }
  }
}
