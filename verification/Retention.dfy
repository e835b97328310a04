/** Keeping the newest rows of each partition: the chunked prunes of the control plane
    (`crates/iac-controlplane/src/retention.rs`) and the agent's insert-then-trim (`crates/iac-agent/src/store.rs`).
    A table is the set of its rows; `stamp` is the place of `observed_at` in the column's order, constant where the
    query orders by id alone. */
module Retention {
  import opened Common

  const CHUNK_SIZE: nat := 5_000
  const AGENT_OBSERVATION_HISTORY_CAP: nat := 10

  /** What rows are partitioned by; the agent field is left blank where the resource alone decides. */
  datatype Part = Part(agent: string, resource: string)

  datatype Row = Row(id: nat, part: Part, stamp: int, data: string)

  type Table = set<Row>

  /** `id` is the primary key. */
  ghost predicate UniqueIds(t: Table) {
    forall a, b | a in t && b in t && a.id == b.id :: a == b
  }

  predicate Newer(a: Row, b: Row) {
    a.stamp > b.stamp || (a.stamp == b.stamp && a.id > b.id)
  }

  /** The rows before `r` in its partition: `ROW_NUMBER` is one more than their number. */
  function Ahead(t: Table, r: Row): Table {
    set x | x in t && x.part == r.part && Newer(x, r)
  }

  function OverCap(t: Table, max: nat): Table {
    set r | r in t && |Ahead(t, r)| >= max
  }

  /** The one-shot result. */
  function Kept(t: Table, max: nat): Table {
    t - OverCap(t, max)
  }

  function InPart(t: Table, p: Part): Table {
    set r | r in t && r.part == p
  }

  // ---- the one-shot result is the newest `max` of each partition ----

  /** Ahead of any row over the cap there are `max` rows that are not. */
  lemma {:induction false} EnoughKeptAhead(t: Table, r: Row, max: nat)
    requires |Ahead(t, r)| >= max
    ensures |Ahead(Kept(t, max), r)| >= max
    decreases |Ahead(t, r)|
  {
    if x :| x in Ahead(t, r) && x in OverCap(t, max) {
      assert x !in Ahead(t, x) && Ahead(t, x) <= Ahead(t, r);
      SubsetSize(Ahead(t, x) + {x}, Ahead(t, r));
      EnoughKeptAhead(t, x, max);
      assert Ahead(Kept(t, max), x) <= Ahead(Kept(t, max), r);
      SubsetSize(Ahead(Kept(t, max), x), Ahead(Kept(t, max), r));
    } else {
      assert Ahead(Kept(t, max), r) == Ahead(t, r);
    }
  }

  /** Of two rows of a partition the one that is kept is the newer, by stamp and then by id. */
  lemma KeptIsNewer(t: Table, max: nat, kept: Row, gone: Row)
    requires UniqueIds(t) && kept in Kept(t, max) && gone in t - Kept(t, max) && kept.part == gone.part
    ensures kept.stamp > gone.stamp || (kept.stamp == gone.stamp && kept.id > gone.id)
  {
    if !Newer(kept, gone) {
      assert Newer(gone, kept);
      assert Ahead(t, gone) <= Ahead(t, kept);
      SubsetSize(Ahead(t, gone), Ahead(t, kept));
    }
  }

  lemma {:induction false} Oldest(s: Table) returns (r: Row)
    requires s != {} && UniqueIds(s)
    ensures r in s && forall x | x in s && x != r :: Newer(x, r)
    decreases |s|
  {
    r :| r in s;
    if x :| x in s && x != r && !Newer(x, r) {
      var first, rest := r, s - {r};
      SubsetSize(rest, s);
      r := Oldest(rest);
      assert Newer(first, x) && (x == r || Newer(x, r));
    }
  }

  /** Exactly `max` rows of a partition are kept, or all if there are fewer. */
  lemma KeptCount(t: Table, max: nat, p: Part)
    requires UniqueIds(t)
    ensures |InPart(Kept(t, max), p)| == Min(max, |InPart(t, p)|)
  {
    var kept, all := InPart(Kept(t, max), p), InPart(t, p);
    SubsetSize(kept, all);
    AtMostCap(t, max, p);
    if gone :| gone in all && gone in OverCap(t, max) {
      EnoughKeptAhead(t, gone, max);
      assert Ahead(Kept(t, max), gone) <= kept;
      SubsetSize(Ahead(Kept(t, max), gone), kept);
    } else {
      assert kept == all;
    }
  }

  /** `rows` is, of each partition of `ever`, the `max` rows with the largest stamps, ties by id, or all if fewer. */
  ghost predicate NewestOfEach(rows: Table, ever: Table, max: nat) {
    && rows <= ever
    && (forall a, b | a in rows && b in ever - rows && a.part == b.part ::
          a.stamp > b.stamp || (a.stamp == b.stamp && a.id > b.id))
    && (forall p :: AsManyAsAllowed(rows, ever, max, p))
  }

  ghost predicate AsManyAsAllowed(rows: Table, ever: Table, max: nat, p: Part) {
    |set r | r in rows && r.part == p| == Min(max, |set r | r in ever && r.part == p|)
  }

  lemma KeptIsNewest(t: Table, max: nat)
    requires UniqueIds(t)
    ensures NewestOfEach(Kept(t, max), t, max)
  {
    forall a, b | a in Kept(t, max) && b in t - Kept(t, max) && a.part == b.part
      ensures a.stamp > b.stamp || (a.stamp == b.stamp && a.id > b.id)
    {
      KeptIsNewer(t, max, a, b);
    }
    forall p
      ensures AsManyAsAllowed(Kept(t, max), t, max, p)
    {
      KeptCount(t, max, p);
      assert InPart(Kept(t, max), p) == set r | r in Kept(t, max) && r.part == p;
      assert InPart(t, p) == set r | r in t && r.part == p;
    }
  }

  lemma AtMostCap(t: Table, max: nat, p: Part)
    requires UniqueIds(t)
    ensures |InPart(Kept(t, max), p)| <= max
  {
    var kept := InPart(Kept(t, max), p);
    if kept != {} {
      var last := Oldest(kept);
      assert kept - {last} <= Ahead(t, last);
      SubsetSize({last}, kept);
      SubsetSize(kept - {last}, Ahead(t, last));
    }
  }

  // ---- a table some of whose over-cap rows are already gone ----

  /** `rows` is what is left of `ever`: everything the cap allows, and perhaps more. */
  ghost predicate Covers(rows: Table, ever: Table, max: nat) {
    Kept(ever, max) <= rows <= ever
  }

  /** A row is over the cap among those left exactly when it is among all. */
  lemma OverCapAmongRows(rows: Table, ever: Table, max: nat)
    requires Covers(rows, ever, max)
    ensures OverCap(rows, max) == OverCap(ever, max) * rows
    ensures Kept(rows, max) == Kept(ever, max)
  {
    forall r | r in rows
      ensures r in OverCap(rows, max) <==> r in OverCap(ever, max)
    {
      assert Ahead(rows, r) <= Ahead(ever, r);
      SubsetSize(Ahead(rows, r), Ahead(ever, r));
      if r in OverCap(ever, max) {
        EnoughKeptAhead(ever, r, max);
        assert Ahead(Kept(ever, max), r) <= Ahead(rows, r);
        SubsetSize(Ahead(Kept(ever, max), r), Ahead(rows, r));
      }
    }
  }

  lemma DeletingKeepsCovers(rows: Table, ever: Table, gone: Table, max: nat)
    requires Covers(rows, ever, max) && gone <= OverCap(rows, max)
    ensures Covers(rows - gone, ever, max)
  {
    OverCapAmongRows(rows, ever, max);
  }

  lemma InsertingKeepsCovers(rows: Table, ever: Table, more: Table, max: nat)
    requires Covers(rows, ever, max)
    ensures Covers(rows + more, ever + more, max)
  {
    OverCapStays(ever, more, max);
  }

  /** More rows only push a row further down. */
  lemma OverCapStays(t: Table, more: Table, max: nat)
    ensures OverCap(t, max) <= OverCap(t + more, max)
  {
    forall r | r in OverCap(t, max)
      ensures r in OverCap(t + more, max)
    {
      assert Ahead(t, r) <= Ahead(t + more, r);
      SubsetSize(Ahead(t, r), Ahead(t + more, r));
    }
  }

  // ---- runs: inserts and chunks in any order ----

  /** A chunk deletes some of the rows over the cap, whichever the database picks. */
  datatype Event = Insert(row: Row) | Chunk(gone: Table)

  ghost function Ever(events: seq<Event>): Table {
    if events == [] then {}
    else
      var last := events[|events| - 1];
      Ever(events[..|events| - 1]) + (if last.Insert? then {last.row} else {})
  }

  ghost function RowsAfter(events: seq<Event>): Table {
    if events == [] then {}
    else
      var last, before := events[|events| - 1], RowsAfter(events[..|events| - 1]);
      if last.Insert? then before + {last.row} else before - last.gone
  }

  ghost predicate Legal(events: seq<Event>, max: nat) {
    forall i | 0 <= i < |events| && events[i].Chunk? :: events[i].gone <= OverCap(RowsAfter(events[..i]), max)
  }

  /** At every moment of every run all rows that are among the newest `max` of those ever inserted are still there. */
  lemma {:induction false} NewestAreNeverDeleted(events: seq<Event>, max: nat)
    requires Legal(events, max)
    ensures Covers(RowsAfter(events), Ever(events), max)
    decreases |events|
  {
    if events != [] {
      var n := |events| - 1;
      var before, last := events[..n], events[n];
      LegalPrefix(events, max);
      NewestAreNeverDeleted(before, max);
      if last.Insert? {
        InsertingKeepsCovers(RowsAfter(before), Ever(before), {last.row}, max);
      } else {
        DeletingKeepsCovers(RowsAfter(before), Ever(before), last.gone, max);
        assert Ever(events) == Ever(before);
      }
    }
  }

  lemma LegalPrefix(events: seq<Event>, max: nat)
    requires Legal(events, max) && events != []
    ensures Legal(events[..|events| - 1], max)
  {
    var before := events[..|events| - 1];
    forall i | 0 <= i < |before| && before[i].Chunk?
      ensures before[i].gone <= OverCap(RowsAfter(before[..i]), max)
    {
      assert before[..i] == events[..i];
    }
  }

  /** Once no row is over the cap the table is the newest `max` of each partition of all rows ever inserted. */
  lemma QuietRunIsTheOneShot(events: seq<Event>, max: nat)
    requires Legal(events, max)
    ensures OverCap(RowsAfter(events), max) == {} <==> RowsAfter(events) == Kept(Ever(events), max)
  {
    NewestAreNeverDeleted(events, max);
    OverCapAmongRows(RowsAfter(events), Ever(events), max);
  }

  // ---- the chunked prune ----

  ghost function AllOf(sets: seq<Table>): Table {
    if sets == [] then {} else AllOf(sets[..|sets| - 1]) + sets[|sets| - 1]
  }

  /** The rows that other writers insert are new ones. */
  ghost predicate Arrive(rows: Table, arrivals: seq<Table>) {
    forall k | 0 <= k < |arrivals| :: arrivals[k] !! (rows + AllOf(arrivals[..k]))
  }

  /** The `LIMIT` of a query without an order. */
  method PickSome(candidates: Table, limit: nat) returns (picked: Table)
    ensures picked <= candidates && |picked| == Min(limit, |candidates|)
  {
    picked := {};
    while |picked| < limit && picked != candidates
      invariant picked <= candidates && |picked| <= limit
      decreases limit - |picked|
    {
      SubsetSize(picked, candidates);
      var r :| r in candidates - picked;
      picked := picked + {r};
    }
    SubsetSize(picked, candidates);
  }

  /** A row with the largest stamp. */
  method NewestOf(rows: Table) returns (last: Option<Row>)
    ensures last.None? <==> rows == {}
    ensures last.Some? ==> last.value in rows && forall r | r in rows :: r.stamp <= last.value.stamp
  {
    last := None;
    var rest := rows;
    while rest != {}
      invariant rest <= rows
      invariant last.None? ==> rest == rows
      invariant last.Some? ==> last.value in rows && forall r | r in rows - rest :: r.stamp <= last.value.stamp
      decreases |rest|
    {
      var r :| r in rest;
      if last.None? || r.stamp > last.value.stamp {
        last := Some(r);
      }
      rest := rest - {r};
    }
  }

  class PartitionedTable {
    var rows: Table

    /** One `DELETE`: at most `limit` of the rows over the cap; which ones is not said. */
    method DeleteChunk(max: nat, limit: nat) returns (n: nat)
      modifies this
      ensures old(rows) - rows <= OverCap(old(rows), max) && rows <= old(rows)
      ensures n == |old(rows)| - |rows| == Min(limit, |OverCap(old(rows), max)|)
    {
      var picked := PickSome(OverCap(rows, max), limit);
      SubsetSize(picked, rows);
      rows := rows - picked;
      n := |picked|;
    }

    /** Delete in chunks until a short one. `arrivals` are the rows that other writers insert in the pauses; `used` of
        them came before the last chunk. Then the table is the newest `max` of each partition of all rows there ever
        were, and `total` counts the rows removed. */
    method PrunePerResource(max: nat, arrivals: seq<Table>) returns (total: nat, ghost used: nat)
      requires Arrive(rows, arrivals)
      modifies this
      ensures used <= |arrivals|
      ensures
        var ever := old(rows) + AllOf(arrivals[..used]);
        && rows == Kept(ever, max) && total + |rows| == |ever|
        && (UniqueIds(ever) ==> NewestOfEach(rows, ever, max))
    {
      total, used := 0, 0;
      var pause := 0;
      ghost var ever := rows;
      assert arrivals[..0] == [] && Covers(rows, ever, max);
      while true
        invariant pause == used <= |arrivals| && ever == old(rows) + AllOf(arrivals[..used])
        invariant Covers(rows, ever, max) && total + |rows| == |ever|
        decreases |arrivals| - used, |rows|
      {
        ghost var before := rows;
        var n := DeleteChunk(max, CHUNK_SIZE);
        ChunkStep(before, rows, ever, max, n);
        if UniqueIds(ever) {
          KeptIsNewest(ever, max);
        }
        total := total + n;
        if n < CHUNK_SIZE {
          break;
        }
        if pause < |arrivals| {
          ArrivalStep(old(rows), arrivals, pause, ever);
          InsertingKeepsCovers(rows, ever, arrivals[pause], max);
          rows := rows + arrivals[pause];
          ever := ever + arrivals[pause];
          pause, used := pause + 1, used + 1;
        }
      }
    }
  }

  lemma ChunkStep(before: Table, after: Table, ever: Table, max: nat, n: nat)
    requires Covers(before, ever, max) && after <= before && before - after <= OverCap(before, max)
    requires n == |before| - |after| == Min(CHUNK_SIZE, |OverCap(before, max)|)
    ensures Covers(after, ever, max)
    ensures n < CHUNK_SIZE ==> after == Kept(ever, max)
  {
    var gone := before - after;
    assert after == before - gone;
    DeletingKeepsCovers(before, ever, gone, max);
    SubsetSize(after, before);
    SubsetSize(gone, OverCap(before, max));
    OverCapAmongRows(before, ever, max);
  }

  lemma ArrivalStep(start: Table, arrivals: seq<Table>, k: nat, ever: Table)
    requires Arrive(start, arrivals) && k < |arrivals| && ever == start + AllOf(arrivals[..k])
    ensures ever !! arrivals[k] && |ever + arrivals[k]| == |ever| + |arrivals[k]|
    ensures ever + arrivals[k] == start + AllOf(arrivals[..k + 1])
  {
    assert arrivals[..k + 1][..k] == arrivals[..k];
  }

  // ---- the agent's table ----

  /** Trimming only the partition that got the new row leaves what trimming every partition would. */
  lemma TrimOnePart(ever: Table, row: Row, max: nat)
    ensures
      var rows := Kept(ever, max) + {row};
      rows - (set r | r in rows && r.part == row.part && |Ahead(rows, r)| >= max) == Kept(ever + {row}, max)
  {
    var rows := Kept(ever, max) + {row};
    OverCapAmongRows(Kept(ever, max), ever, max);
    InsertingKeepsCovers(Kept(ever, max), ever, {row}, max);
    OverCapAmongRows(rows, ever + {row}, max);
    forall r | r in rows && r.part != row.part
      ensures |Ahead(rows, r)| < max
    {
      assert r !in OverCap(Kept(ever, max), max);
      assert Ahead(rows, r) == Ahead(Kept(ever, max), r);
    }
  }

  class ObservationStore {
    var rows: Table
    var nextId: nat
    ghost var ever: Table

    /** The table is the ten newest rows per resource of all that were ever recorded. */
    ghost predicate Valid()
      reads this
    {
      && (forall r | r in ever :: r.id < nextId)
      && UniqueIds(ever)
      && rows == Kept(ever, AGENT_OBSERVATION_HISTORY_CAP)
    }

    constructor ()
      ensures Valid() && ever == {}
    {
      rows, nextId, ever := {}, 0, {};
    }

    /** Insert, then trim the resource that got the row. */
    method RecordObservation(resource: string, observedAt: int, data: string)
      requires Valid()
      modifies this
      ensures Valid()
      ensures ever == old(ever) + {Row(old(nextId), Part("", resource), observedAt, data)}
      ensures NewestOfEach(rows, ever, 10)
    {
      var row := Row(nextId, Part("", resource), observedAt, data);
      TrimOnePart(ever, row, AGENT_OBSERVATION_HISTORY_CAP);
      nextId := nextId + 1;
      rows := rows + {row};
      rows := rows - (set r | r in rows && r.part == row.part && |Ahead(rows, r)| >= AGENT_OBSERVATION_HISTORY_CAP);
      ever := ever + {row};
      KeptIsNewest(ever, AGENT_OBSERVATION_HISTORY_CAP);
    }

    /** Some row with the newest stamp: of all rows ever recorded for the resource none is newer. */
    method LastObservation(resource: string) returns (last: Option<Row>)
      requires Valid()
      ensures last.None? <==> InPart(ever, Part("", resource)) == {}
      ensures last.Some? ==>
                && last.value in InPart(ever, Part("", resource))
                && forall r | r in InPart(ever, Part("", resource)) :: r.stamp <= last.value.stamp
    {
      NewestSurvives(ever, Part("", resource), AGENT_OBSERVATION_HISTORY_CAP);
      last := NewestOf(InPart(rows, Part("", resource)));
    }
  }

  /** Every row has one at least as new among those kept. */
  lemma NewestSurvives(ever: Table, p: Part, max: nat)
    requires max > 0
    ensures InPart(Kept(ever, max), p) == {} <==> InPart(ever, p) == {}
    ensures forall r | r in InPart(ever, p) :: exists k :: k in InPart(Kept(ever, max), p) && k.stamp >= r.stamp
  {
    forall r | r in InPart(ever, p)
      ensures exists k :: k in InPart(Kept(ever, max), p) && k.stamp >= r.stamp
    {
      if r in OverCap(ever, max) {
        EnoughKeptAhead(ever, r, max);
        var k :| k in Ahead(Kept(ever, max), r);
        assert k in InPart(Kept(ever, max), p);
      } else {
        assert r in InPart(Kept(ever, max), p);
      }
    }
  }
}
