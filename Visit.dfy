/**
 The order in which the two fill drivers offer items to the block placer.

 Both drivers walk sections from the cursor's section to the last one and,
 in every section, rows from "cursor row + 1" (0 when there is no cursor) to
 the section's item count. The cursor is read afresh for each section, and
 every placement succeeds and moves the cursor, so a section after the first
 starts at the previous section's item count rather than at 0. A row range
 whose start exceeds its end makes Swift trap; `traps` records that the walk
 ends in such a trap.
 */
module Visit {
  import opened Items

  datatype Walk = Walk(paths: seq<IndexPath>, traps: bool)

  /** The first row a driver visits in a section, given the cursor at that time. */
  function RowStart(cursor: Option<IndexPath>): nat
  {
    if cursor.None? then 0 else cursor.value.row + 1
  }

  /** Rows lo, lo + 1, ..., hi - 1 of one section. */
  function Rows(section: nat, lo: nat, hi: nat): (r: seq<IndexPath>)
    requires lo <= hi
    decreases hi - lo
    ensures |r| == hi - lo
  {
    if lo == hi then [] else [IndexPath(section, lo)] + Rows(section, lo + 1, hi)
  }

  /** The i-th item of a run of rows is row lo + i. */
  lemma {:induction false} RowsIndex(section: nat, lo: nat, hi: nat)
    requires lo <= hi
    ensures forall i :: 0 <= i < hi - lo ==> Rows(section, lo, hi)[i] == IndexPath(section, lo + i)
    decreases hi - lo
  {
    if lo < hi {
      RowsIndex(section, lo + 1, hi);
      forall i | 0 <= i < hi - lo
        ensures Rows(section, lo, hi)[i] == IndexPath(section, lo + i)
      {
        if i > 0 {
          assert Rows(section, lo, hi)[i] == Rows(section, lo + 1, hi)[i - 1];
        }
      }
    }
  }

  /** A run of rows grows by one row, hi, at its end. */
  lemma RowsSnoc(section: nat, lo: nat, hi: nat, hi1: nat)
    requires lo <= hi && hi1 == hi + 1
    ensures Rows(section, lo, hi1) == Rows(section, lo, hi) + [IndexPath(section, hi)]
  {
    RowsSplit(section, lo, hi, hi1);
  }

  /** A run of rows splits at any row in between. */
  lemma RowsSplit(section: nat, lo: nat, mid: nat, hi: nat)
    requires lo <= mid <= hi
    ensures Rows(section, lo, hi) == Rows(section, lo, mid) + Rows(section, mid, hi)
  {
    RowsIndex(section, lo, hi);
    RowsIndex(section, lo, mid);
    RowsIndex(section, mid, hi);
    var a, b := Rows(section, lo, hi), Rows(section, lo, mid) + Rows(section, mid, hi);
    forall i | 0 <= i < |a|
      ensures a[i] == b[i]
    {
      if i >= mid - lo {
        assert b[i] == Rows(section, mid, hi)[i - (mid - lo)];
      }
    }
  }

  /** The cursor after a section's rows lo .. n - 1 are placed: the last of them, if any. */
  function NextCursor(s: nat, lo: nat, n: nat, cursor: Option<IndexPath>): Option<IndexPath>
  {
    if lo < n then Some(IndexPath(s, n - 1)) else cursor
  }

  /** The walk over sections s, s + 1, ..., given the cursor on reaching section s. */
  function SectionsFrom(counts: seq<nat>, s: nat, cursor: Option<IndexPath>): Walk
    decreases |counts| - s
  {
    if s >= |counts| then Walk([], false)
    else
      var lo := RowStart(cursor);
      if lo > counts[s] then Walk([], true)
      else
        var rest := SectionsFrom(counts, s + 1, NextCursor(s, lo, counts[s], cursor));
        Walk(Rows(s, lo, counts[s]) + rest.paths, rest.traps)
  }

  /** Where a driver sits in a walk: `visited` placed, the walk from section s still to come. */
  ghost predicate WalkAt(visited: seq<IndexPath>, counts: seq<nat>, s: nat, cursor: Option<IndexPath>, full: Walk)
  {
    visited + SectionsFrom(counts, s, cursor).paths == full.paths && SectionsFrom(counts, s, cursor).traps == full.traps
  }

  /** WalkAt at section s + 1, restated for a variable holding s + 1. */
  lemma WalkAtNext(visited: seq<IndexPath>, counts: seq<nat>, s: nat, s1: nat, cursor: Option<IndexPath>, full: Walk)
    requires WalkAt(visited, counts, s + 1, cursor, full) && s1 == s + 1
    ensures WalkAt(visited, counts, s1, cursor, full)
  {
  }

  /** Past the last section the walk is finished: everything was visited. */
  lemma WalkAtEnd(visited: seq<IndexPath>, counts: seq<nat>, s: nat, cursor: Option<IndexPath>, full: Walk, target: IndexPath)
    requires WalkAt(visited, counts, s, cursor, full) && s >= |counts| && NonePast(target, visited)
    ensures visited == full.paths && !full.traps
    ensures StopsAtTarget(target, full, visited, false)
  {
    assert visited + [] == visited;
  }

  /** Past the last section the walk is complete and did not trap. */
  lemma WalkAtDone(visited: seq<IndexPath>, counts: seq<nat>, s: nat, cursor: Option<IndexPath>, full: Walk)
    requires WalkAt(visited, counts, s, cursor, full) && s >= |counts|
    ensures visited == full.paths && !full.traps
  {
    assert visited + [] == visited;
  }

  /** A row range that starts past its end ends the walk in a trap. */
  lemma WalkAtTrap(visited: seq<IndexPath>, counts: seq<nat>, s: nat, cursor: Option<IndexPath>, full: Walk)
    requires WalkAt(visited, counts, s, cursor, full) && s < |counts| && RowStart(cursor) > counts[s]
    ensures visited == full.paths && full.traps
  {
    assert visited + [] == visited;
  }

  /**
   Inside section s, after rows lo .. next - 1: those rows extend the visited
   prefix, row `next` comes right after it when there is one, and once the
   whole section is done the walk goes on at section s + 1.
   */
  lemma WalkAtStep(visited: seq<IndexPath>, counts: seq<nat>, s: nat, cursor: Option<IndexPath>, full: Walk, next: nat)
    requires WalkAt(visited, counts, s, cursor, full) && s < |counts|
    requires RowStart(cursor) <= next <= counts[s]
    ensures visited + Rows(s, RowStart(cursor), next) <= full.paths
    ensures next < counts[s] ==>
              |visited + Rows(s, RowStart(cursor), next)| < |full.paths| &&
              full.paths[|visited + Rows(s, RowStart(cursor), next)|] == IndexPath(s, next)
    ensures next == counts[s] ==>
              WalkAt(visited + Rows(s, RowStart(cursor), next), counts, s + 1, NextCursor(s, RowStart(cursor), next, cursor), full)
  {
    var lo, n := RowStart(cursor), counts[s];
    var w := SectionsFrom(counts, s + 1, NextCursor(s, lo, n, cursor));
    assert visited + ((Rows(s, lo, next) + Rows(s, next, n)) + w.paths) == full.paths by {
      RowsSplit(s, lo, next, n);
    }
    SplitAt(visited, Rows(s, lo, next), Rows(s, next, n), w.paths, full.paths);
    if next < n {
      assert Rows(s, next, n)[0] == IndexPath(s, next);
    } else {
      assert Rows(s, next, n) == [];
    }
  }

  /** A sequence laid out as visited, placed, after, rest: what follows the first two parts. */
  lemma SplitAt<T>(visited: seq<T>, placed: seq<T>, after: seq<T>, rest: seq<T>, full: seq<T>)
    requires visited + ((placed + after) + rest) == full
    ensures visited + placed <= full
    ensures after != [] ==> |visited + placed| < |full| && full[|visited + placed|] == after[0]
    ensures after == [] ==> (visited + placed) + rest == full
  {
    assert visited + ((placed + after) + rest) == (visited + placed) + (after + rest);
    assert full[..|visited + placed|] == visited + placed;
    if after == [] {
      assert after + rest == rest;
    }
  }

  /** Everything a driver would visit from `cursor` if it never stopped early. */
  function VisitOrder(counts: seq<nat>, cursor: Option<IndexPath>): Walk
  {
    var s0 := FirstSection(cursor);
    if s0 > |counts| then Walk([], true) else SectionsFrom(counts, s0, cursor)
  }

  /** The section a driver starts from: the cursor's, or 0 without a cursor. */
  function FirstSection(cursor: Option<IndexPath>): nat
  {
    if cursor.None? then 0 else cursor.value.section
  }

  /** A driver starts with nothing visited, or, past the last section, traps at once. */
  lemma WalkStart(counts: seq<nat>, cursor: Option<IndexPath>)
    ensures FirstSection(cursor) <= |counts| ==>
              WalkAt([], counts, FirstSection(cursor), cursor, VisitOrder(counts, cursor))
    ensures FirstSection(cursor) > |counts| ==> VisitOrder(counts, cursor) == Walk([], true)
  {
    if FirstSection(cursor) <= |counts| {
      assert [] + SectionsFrom(counts, FirstSection(cursor), cursor).paths == SectionsFrom(counts, FirstSection(cursor), cursor).paths;
    }
  }

  /** The index-path driver's stop test: not a lexicographic comparison. */
  predicate PastTarget(target: IndexPath, q: IndexPath)
  {
    q.section >= target.section && q.row > target.row
  }

  /** An item that the data source reports. */
  predicate Exists(counts: seq<nat>, q: IndexPath)
  {
    q.section < |counts| && q.row < counts[q.section]
  }

  /** Offered from section s on, after the cursor, and reported by the data source. */
  predicate OfferedAfter(counts: seq<nat>, s: nat, cursor: Option<IndexPath>, q: IndexPath)
  {
    Exists(counts, q) && s <= q.section && (cursor.Some? ==> LexLt(cursor.value, q))
  }

  predicate Increasing(paths: seq<IndexPath>)
  {
    forall i, j :: 0 <= i < j < |paths| ==> LexLt(paths[i], paths[j])
  }

  lemma {:induction false} SectionsAscending(counts: seq<nat>, s: nat, cursor: Option<IndexPath>)
    requires cursor.None? || cursor.value.section <= s
    ensures forall q :: q in SectionsFrom(counts, s, cursor).paths ==> OfferedAfter(counts, s, cursor, q)
    ensures Increasing(SectionsFrom(counts, s, cursor).paths)
    decreases |counts| - s
  {
    if s < |counts| {
      var lo := RowStart(cursor);
      if lo <= counts[s] {
        var next := NextCursor(s, lo, counts[s], cursor);
        SectionsAscending(counts, s + 1, next);
        var rows := Rows(s, lo, counts[s]);
        RowsIndex(s, lo, counts[s]);
        var rest := SectionsFrom(counts, s + 1, next);
        var w := SectionsFrom(counts, s, cursor);
        assert w.paths == rows + rest.paths;
        forall q | q in w.paths
          ensures OfferedAfter(counts, s, cursor, q)
        {
          if q in rest.paths {
            assert OfferedAfter(counts, s + 1, next, q);
          } else {
            assert q in rows;
          }
        }
        forall i, j | 0 <= i < j < |w.paths|
          ensures LexLt(w.paths[i], w.paths[j])
        {
          if j < |rows| {
            assert w.paths[i] == rows[i] && w.paths[j] == rows[j];
          } else if i < |rows| {
            assert w.paths[i] == rows[i];
            assert w.paths[j] == rest.paths[j - |rows|];
            assert w.paths[j] in rest.paths;
            assert OfferedAfter(counts, s + 1, next, w.paths[j]);
          } else {
            assert w.paths[i] == rest.paths[i - |rows|];
            assert w.paths[j] == rest.paths[j - |rows|];
          }
        }
      }
    }
  }

  /**
   Drivers offer only items the data source reports, strictly after the
   cursor and in strictly increasing canonical order: no item is offered
   twice between invalidations.
   */
  lemma VisitOrderAscending(counts: seq<nat>, cursor: Option<IndexPath>)
    ensures forall q :: q in VisitOrder(counts, cursor).paths ==>
              Exists(counts, q) && (cursor.Some? ==> LexLt(cursor.value, q))
    ensures Increasing(VisitOrder(counts, cursor).paths)
  {
    var s0 := FirstSection(cursor);
    if s0 <= |counts| {
      SectionsAscending(counts, s0, cursor);
      assert VisitOrder(counts, cursor) == SectionsFrom(counts, s0, cursor);
    }
  }

  /** With a single section, a driver resumes right after the cursor and reaches every later row. */
  lemma SingleSectionResumes(n: nat, cursor: Option<IndexPath>)
    requires cursor.Some? ==> cursor.value.section == 0 && cursor.value.row < n
    ensures VisitOrder([n], cursor) == Walk(Rows(0, RowStart(cursor), n), false)
  {
    var lo := RowStart(cursor);
    var next := if lo < n then Some(IndexPath(0, n - 1)) else cursor;
    assert SectionsFrom([n], 1, next) == Walk([], false);
    assert Rows(0, lo, n) + [] == Rows(0, lo, n);
  }

  /**
   The second section's walk starts at the first section's item count, so
   its leading rows are never offered when starting from no cursor.
   */
  lemma LaterSectionSkipsLeadingRows(counts: seq<nat>)
    requires |counts| >= 2 && 0 < counts[0] <= counts[1]
    ensures forall r :: r < counts[0] ==> IndexPath(1, r) !in VisitOrder(counts, None).paths
    ensures counts[0] < counts[1] ==> IndexPath(1, counts[0]) in VisitOrder(counts, None).paths
  {
    var c1 := Some(IndexPath(0, counts[0] - 1));
    var rows0 := Rows(0, 0, counts[0]);
    var rows1 := Rows(1, counts[0], counts[1]);
    var next := if counts[0] < counts[1] then Some(IndexPath(1, counts[1] - 1)) else c1;
    var rest := SectionsFrom(counts, 2, next);
    RowsIndex(0, 0, counts[0]);
    RowsIndex(1, counts[0], counts[1]);
    SectionsAscending(counts, 2, next);
    assert SectionsFrom(counts, 1, c1) == Walk(rows1 + rest.paths, rest.traps);
    var w := VisitOrder(counts, None);
    assert w.paths == rows0 + (rows1 + rest.paths);
    if counts[0] < counts[1] {
      assert w.paths[|rows0|] == IndexPath(1, counts[0]);
    }
  }

  /** Two sections where the first is longer: the second section's row range traps. */
  lemma DecreasingSectionTraps(counts: seq<nat>)
    requires |counts| >= 2 && counts[0] > counts[1]
    ensures VisitOrder(counts, None).traps
    ensures VisitOrder(counts, None).paths == Rows(0, 0, counts[0])
  {
    var c1 := Some(IndexPath(0, counts[0] - 1));
    assert SectionsFrom(counts, 1, c1) == Walk([], true);
    assert Rows(0, 0, counts[0]) + [] == Rows(0, 0, counts[0]);
  }

  /** No item of qs is past the target by the index-path driver's stop test. */
  ghost predicate NonePast(target: IndexPath, qs: seq<IndexPath>)
  {
    forall q :: q in qs ==> !PastTarget(target, q)
  }

  lemma NonePastConcat(target: IndexPath, a: seq<IndexPath>, b: seq<IndexPath>)
    requires NonePast(target, a) && NonePast(target, b)
    ensures NonePast(target, a + b)
  {
  }

  /** Rows lo .. next - 1 of a section, none of them past the target. */
  lemma RowsNonePast(target: IndexPath, s: nat, lo: nat, next: nat)
    requires lo <= next
    requires forall x :: lo <= x < next ==> !PastTarget(target, IndexPath(s, x))
    ensures NonePast(target, Rows(s, lo, next))
  {
    RowsIndex(s, lo, next);
    forall q | q in Rows(s, lo, next)
      ensures !PastTarget(target, q)
    {
      var i :| 0 <= i < next - lo && Rows(s, lo, next)[i] == q;
    }
  }

  /**
   How the index-path driver ends on the walk `full`: it placed a prefix of
   the walk, none of it past the target, and stopped either at the first item
   past the target or at the walk's end, where it aborts exactly if the walk
   traps.
   */
  ghost predicate StopsAtTarget(target: IndexPath, full: Walk, visited: seq<IndexPath>, aborted: bool)
  {
    visited <= full.paths && NonePast(target, visited) &&
    (|visited| < |full.paths| ==> !aborted && PastTarget(target, full.paths[|visited|])) &&
    (|visited| == |full.paths| ==> aborted == full.traps)
  }

  /** Every frontier but the last is below endRow. */
  predicate BelowUntilLast(endRow: int, fs: seq<int>)
  {
    forall i :: 0 <= i < |fs| - 1 ==> fs[i] < endRow
  }

  /** The row-driven stop test fired after the last placement. */
  predicate ReachedRow(endRow: int, fs: seq<int>)
  {
    fs != [] && fs[|fs| - 1] >= endRow
  }

  /**
   The frontiers a row-driven fill saw, one after each placement: the stop
   test fired on the last one exactly when `stopped`, and on no other; `now`
   is the current frontier.
   */
  predicate Frontiers(endRow: int, fs: seq<int>, stopped: bool, now: int)
  {
    BelowUntilLast(endRow, fs) && (stopped <==> ReachedRow(endRow, fs)) && (fs != [] ==> fs[|fs| - 1] == now)
  }

  lemma FrontiersSnoc(endRow: int, fs: seq<int>, now: int, f: int)
    requires Frontiers(endRow, fs, false, now)
    ensures Frontiers(endRow, fs + [f], f >= endRow, f)
  {
    var fs' := fs + [f];
    forall i | 0 <= i < |fs'| - 1
      ensures fs'[i] < endRow
    {
      assert fs'[i] == fs[i];
      if i == |fs| - 1 {
        assert !ReachedRow(endRow, fs);
      }
    }
  }

  lemma FrontiersConcat(endRow: int, a: seq<int>, b: seq<int>, stopped: bool, now0: int, now: int)
    requires Frontiers(endRow, a, false, now0) && Frontiers(endRow, b, stopped, now)
    requires b == [] ==> now == now0
    ensures Frontiers(endRow, a + b, stopped, now)
  {
    if b == [] {
      assert a + b == a;
    } else {
      var c := a + b;
      assert c[|c| - 1] == b[|b| - 1];
      forall i | 0 <= i < |c| - 1
        ensures c[i] < endRow
      {
        if i < |a| {
          assert c[i] == a[i];
          if i == |a| - 1 {
            assert !ReachedRow(endRow, a);
          }
        } else {
          assert c[i] == b[i - |a|];
        }
      }
    }
  }

  /**
   How the row-driven driver ends on the walk `full`: it placed a prefix of
   the walk, with one frontier per placement; it stopped early only right
   after the frontier reached endRow, and otherwise went through the whole
   walk, aborting exactly if the walk traps.
   */
  ghost predicate StopsAtRow(endRow: int, full: Walk, visited: seq<IndexPath>, fs: seq<int>, aborted: bool)
  {
    visited <= full.paths && |fs| == |visited| && BelowUntilLast(endRow, fs) &&
    (ReachedRow(endRow, fs) ==> !aborted) &&
    (!ReachedRow(endRow, fs) ==> visited == full.paths && aborted == full.traps)
  }

  /**
   A row-driven fill whose walk offers any item places at least the first
   of them, whatever the frontier already is: a repeated fill to the same
   row is not idempotent.
   */
  lemma StopsAtRowPlacesFirst(endRow: int, full: Walk, visited: seq<IndexPath>, fs: seq<int>, aborted: bool)
    requires StopsAtRow(endRow, full, visited, fs, aborted) && full.paths != []
    ensures visited != [] && visited[0] == full.paths[0]
  {
  }

  /** The stop test fires only on items after the target in canonical order. */
  lemma PastTargetIsAfter(target: IndexPath, q: IndexPath)
    requires PastTarget(target, q)
    ensures LexLt(target, q)
  {
  }

  /**
   On an ascending walk, the index-path driver places its target whenever
   the walk offers it: the stop test never fires on the target itself or
   on anything before it.
   */
  lemma StopsAtTargetPlacesTarget(target: IndexPath, full: Walk, visited: seq<IndexPath>, aborted: bool)
    requires StopsAtTarget(target, full, visited, aborted) && Increasing(full.paths)
    requires target in full.paths
    ensures target in visited
  {
    var j :| 0 <= j < |full.paths| && full.paths[j] == target;
    if |visited| < |full.paths| {
      PastTargetIsAfter(target, full.paths[|visited|]);
    }
    assert visited[j] == full.paths[j];
  }
}
