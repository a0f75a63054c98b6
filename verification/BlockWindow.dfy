/** The rolling table of recent blocks and the lookup of the latest batch of blocks in it. */
module BlockWindow {
  import opened Arithmetic
  import opened Common

  const ROLLING_WINDOW_SIZE := 10

  datatype BlockRow = BlockRow(version: nat, timestamp: nat)

  type Blocks = map<nat, BlockRow>

  // ---- Recording a block ----

  function LastPrunable(height: nat): nat {
    (if height < ROLLING_WINDOW_SIZE then ROLLING_WINDOW_SIZE else height) - ROLLING_WINDOW_SIZE
  }

  /** Erasing rows from the lowest height on, up to the limit and at most so many. */
  ghost function Prune(rows: Blocks, limit: nat, count: nat): Blocks {
    if count == 0 || rows == map[] || limit < Least(rows.Keys) then rows
    else Prune(rows - {Least(rows.Keys)}, limit, count - 1)
  }

  ghost function AddBlock(rows: Blocks, height: nat, timestamp: nat): Option<Blocks> {
    if height in rows then None
    else Some(Prune(rows[height := BlockRow(0, timestamp)], LastPrunable(height), 2))
  }

  class BlockTable {
    var rows: Blocks

    constructor ()
      ensures rows == map[]
    {
      rows := map[];
    }

    /** Records the block after the given one; a height that is recorded already makes the insertion fail. */
    method AddToBlockInfoTable(previousHeight: nat, timestamp: nat) returns (ok: bool)
      requires previousHeight < TWO_32
      modifies this
      ensures var result := AddBlock(old(rows), (previousHeight + 1) % TWO_32, timestamp);
        ok == result.Some? && rows == if ok then result.value else old(rows)
    {
      var height := (previousHeight + 1) % TWO_32;
      if height in rows { return false; }
      rows := rows[height := BlockRow(0, timestamp)];
      var limit := (if height < ROLLING_WINDOW_SIZE then ROLLING_WINDOW_SIZE else height) - ROLLING_WINDOW_SIZE;
      EraseUpTo(limit, 2);
      return true;
    }

    /** The erase loop: from the lowest height on, up to the limit, and at most so many rows. */
    method EraseUpTo(limit: nat, most: nat)
      modifies this
      ensures rows == Prune(old(rows), limit, most)
    {
      ghost var full := rows;
      var count := most;
      while rows != map[] && (exists h :: h in rows && h <= limit) && 0 < count
        invariant 0 <= count && Prune(rows, limit, count) == Prune(full, limit, most)
        decreases count
      {
        var h := FirstHeight();
        rows := rows - {h};
        count := count - 1;
      }
    }

    /** Where the table begins. */
    method FirstHeight() returns (h: nat)
      requires rows != map[]
      ensures h in rows && forall g :: g in rows ==> h <= g
    {
      LeastExists(rows.Keys);
      h :| h in rows && forall g :: g in rows ==> h <= g;
    }
  }

  /** What pruning does: it keeps every row above the limit, changes none, and erases one if any may go. */
  lemma {:induction false} PruneKeeps(rows: Blocks, limit: nat, count: nat)
    ensures var kept := Prune(rows, limit, count);
      && (forall h :: h in kept ==> h in rows && kept[h] == rows[h])
      && (forall h :: h in rows && limit < h ==> h in kept)
      && |kept| <= |rows|
      && (0 < count && (exists h :: h in rows && h <= limit) ==> |kept| < |rows|)
    decreases count
  {
    if !(count == 0 || rows == map[] || limit < Least(rows.Keys)) {
      var rest := rows - {Least(rows.Keys)};
      assert rest.Keys == rows.Keys - {Least(rows.Keys)};
      PruneKeeps(rest, limit, count - 1);
    }
  }

  ghost function Within(rows: Blocks, limit: nat): set<nat> {
    set h | h in rows && h <= limit
  }

  /** When no more rows lie within the limit than may be erased, exactly the rows above it stay. */
  lemma {:induction false} PruneExact(rows: Blocks, limit: nat, count: nat)
    requires |Within(rows, limit)| <= count
    ensures Prune(rows, limit, count) == map h | h in rows && limit < h :: rows[h]
    decreases count
  {
    var low := Within(rows, limit);
    if count == 0 {
      assert low == {};
      assert forall h :: h in rows ==> h !in low;
    } else if rows != map[] && Least(rows.Keys) <= limit {
      var l := Least(rows.Keys);
      var rest := rows - {l};
      assert Within(rest, limit) == low - {l};
      PruneExact(rest, limit, count - 1);
    }
  }

  /** Of the rows within the limit, pruning erases as many as it may. */
  lemma {:induction false} PruneCount(rows: Blocks, limit: nat, count: nat)
    ensures var low := Within(rows, limit);
      |Prune(rows, limit, count)| == |rows| - if |low| < count then |low| else count
    decreases count
  {
    var low := Within(rows, limit);
    if count == 0 || rows == map[] || limit < Least(rows.Keys) {
      assert count == 0 || low == {};
    } else {
      var l := Least(rows.Keys);
      var rest := rows - {l};
      assert rest.Keys == rows.Keys - {l} && Within(rest, limit) == low - {l};
      PruneCount(rest, limit, count - 1);
    }
  }

  /** They are the lowest ones. */
  lemma {:induction false} PruneLowest(rows: Blocks, limit: nat, count: nat, h: nat)
    requires h in rows && h !in Prune(rows, limit, count)
    ensures h <= limit && forall g :: g in Prune(rows, limit, count) ==> h < g
    decreases count
  {
    var l := Least(rows.Keys);
    PruneKeeps(rows - {l}, limit, count - 1);
    if h != l { PruneLowest(rows - {l}, limit, count - 1, h); }
  }

  /** A block is recorded exactly at a new height. Then of the rows ten or more below it, and of any at height zero, the
      lowest two go, or all if there are fewer; every other row is as it was. */
  lemma AddBlockIsExact(rows: Blocks, height: nat, timestamp: nat)
    ensures AddBlock(rows, height, timestamp).Some? <==> height !in rows
    ensures height !in rows ==>
      var full, kept := rows[height := BlockRow(0, timestamp)], AddBlock(rows, height, timestamp).value;
      var past := set h | h in full && (h == 0 || h + 10 <= height);
      && |kept| == |full| - (if |past| < 2 then |past| else 2)
      && (forall h :: h in kept ==> h in full && kept[h] == full[h])
      && (forall h, g :: h in full && h !in kept && g in kept ==> h < g)
      && (forall h :: h in full && h !in kept ==> h in past)
  {
    if height !in rows {
      var full := rows[height := BlockRow(0, timestamp)];
      PruneKeeps(full, LastPrunable(height), 2);
      PruneCount(full, LastPrunable(height), 2);
      forall h | h in full && h !in Prune(full, LastPrunable(height), 2)
        ensures h <= LastPrunable(height) && forall g :: g in Prune(full, LastPrunable(height), 2) ==> h < g
      {
        PruneLowest(full, LastPrunable(height), 2, h);
      }
      assert Within(full, LastPrunable(height)) == set h | h in full && (h == 0 || h + 10 <= height);
    }
  }

  lemma {:induction false} Interval(s: set<nat>, lo: nat, n: nat)
    requires forall h :: h in s ==> lo < h <= lo + n
    ensures |s| <= n
  {
    if n > 0 {
      Interval(s - {lo + n}, lo, n - 1);
      if lo + n !in s { assert s - {lo + n} == s; }
    } else {
      assert s == {};
    }
  }

  /** The row just recorded stays exactly when its height is not zero. */
  lemma NewRowStaysIff(rows: Blocks, height: nat, timestamp: nat)
    requires height !in rows
    ensures height in AddBlock(rows, height, timestamp).value <==> 0 < height
  {
    var full := rows[height := BlockRow(0, timestamp)];
    PruneKeeps(full, LastPrunable(height), 2);
    if height == 0 {
      assert 0 in full.Keys && Least(full.Keys) == 0;
      assert Prune(full, 0, 2) == Prune(full - {0}, 0, 1);
      PruneKeeps(full - {0}, 0, 1);
    }
  }

  // ---- Runs ----

  /** Blocks recorded one after the other in an empty table, at strictly increasing heights; gaps are allowed. */
  ghost predicate Run(states: seq<Blocks>, heights: seq<nat>, times: seq<nat>) {
    && |states| == |heights| + 1 && |times| == |heights|
    && states[0] == map[]
    && (forall i, j :: 0 <= i < j < |heights| ==> heights[i] < heights[j])
    && (forall i :: 0 <= i < |heights| ==> Some(states[i + 1]) == AddBlock(states[i], heights[i], times[i]))
  }

  lemma {:induction false} OnlyRecorded(states: seq<Blocks>, heights: seq<nat>, times: seq<nat>, i: nat, h: nat)
    requires Run(states, heights, times) && i < |states| && h in states[i]
    ensures exists j :: 0 <= j < i && heights[j] == h
  {
    var before, top := states[i - 1], heights[i - 1];
    PruneKeeps(before[top := BlockRow(0, times[i - 1])], LastPrunable(top), 2);
    if h != top { OnlyRecorded(states, heights, times, i - 1, h); }
  }

  /** A full table that gets a block above all its rows is pruned, because eleven heights do not fit into ten. */
  lemma StepKeepsSize(before: Blocks, top: nat, timestamp: nat)
    requires |before| <= ROLLING_WINDOW_SIZE && forall h :: h in before ==> h < top
    ensures |AddBlock(before, top, timestamp).value| <= ROLLING_WINDOW_SIZE
  {
    var full := before[top := BlockRow(0, timestamp)];
    PruneKeeps(full, LastPrunable(top), 2);
    if forall h :: h in full ==> LastPrunable(top) < h {
      Interval(full.Keys, LastPrunable(top), ROLLING_WINDOW_SIZE);
      assert |full| == |full.Keys|;
    }
  }

  /** A step keeps every row, the new one included, that is above the limit of what may be erased. */
  lemma StepKeepsRow(before: Blocks, top: nat, timestamp: nat, h: nat)
    requires top !in before && LastPrunable(top) < h && (h == top || h in before)
    ensures var after := AddBlock(before, top, timestamp).value;
      h in after && after[h] == if h == top then BlockRow(0, timestamp) else before[h]
  {
    PruneKeeps(before[top := BlockRow(0, timestamp)], LastPrunable(top), 2);
  }

  lemma {:induction false} RecordedBlockStays(states: seq<Blocks>, heights: seq<nat>, times: seq<nat>, i: nat, j: nat)
    requires Run(states, heights, times) && j < i < |states|
    requires 0 < heights[j] && heights[i - 1] < heights[j] + ROLLING_WINDOW_SIZE
    ensures heights[j] in states[i] && states[i][heights[j]] == BlockRow(0, times[j])
  {
    if j < i - 1 {
      assert heights[j] <= heights[i - 2] < heights[i - 1];
      RecordedBlockStays(states, heights, times, i - 1, j);
    }
    assert Some(states[i - 1 + 1]) == AddBlock(states[i - 1], heights[i - 1], times[i - 1]);
    StepKeepsRow(states[i - 1], heights[i - 1], times[i - 1], heights[j]);
  }

  /** After every step the table has at most ten rows, only of recorded blocks, and of the recorded blocks it
      has lost none that is among the last ten heights; height zero alone is never kept. */
  lemma {:induction false} WindowHolds(states: seq<Blocks>, heights: seq<nat>, times: seq<nat>, i: nat)
    requires Run(states, heights, times) && i < |states|
    ensures |states[i]| <= 10
    ensures forall h :: h in states[i] ==> exists j :: 0 <= j < i && heights[j] == h
    ensures forall j :: 0 <= j < i && 0 < heights[j] && heights[i - 1] < heights[j] + 10 ==>
      heights[j] in states[i] && states[i][heights[j]] == BlockRow(0, times[j])
  {
    if i > 0 {
      WindowHolds(states, heights, times, i - 1);
      var before := states[i - 1];
      assert forall h :: h in before ==> h < heights[i - 1];
      StepKeepsSize(before, heights[i - 1], times[i - 1]);
    }
    forall h | h in states[i] ensures exists j :: 0 <= j < i && heights[j] == h {
      OnlyRecorded(states, heights, times, i, h);
    }
    forall j | 0 <= j < i && 0 < heights[j] && heights[i - 1] < heights[j] + 10
      ensures heights[j] in states[i] && states[i][heights[j]] == BlockRow(0, times[j])
    {
      RecordedBlockStays(states, heights, times, i, j);
    }
  }

  /** The lowest height that a window from the first block on shows; height zero is never kept. */
  function Lowest(first: nat, last: nat): nat {
    if first + ROLLING_WINDOW_SIZE <= last then last - ROLLING_WINDOW_SIZE + 1
    else if first == 0 then 1
    else first
  }

  /** Without gaps the table is exactly the last ten blocks, or all of them while there are fewer,
      although a step erases two rows at most. */
  lemma {:induction false} ConsecutiveWindow(states: seq<Blocks>, heights: seq<nat>, times: seq<nat>, i: nat)
    requires Run(states, heights, times) && 0 < i < |states|
    requires forall j :: 0 <= j < |heights| ==> heights[j] == heights[0] + j
    ensures forall h: nat :: h in states[i] <==> Lowest(heights[0], heights[i - 1]) <= h <= heights[i - 1]
  {
    var before, top := states[i - 1], heights[i - 1];
    var full := before[top := BlockRow(0, times[i - 1])];
    var limit := LastPrunable(top);
    if i > 1 { ConsecutiveWindow(states, heights, times, i - 1); }
    var low := Within(full, limit);
    if i > 1 {
      assert forall h :: h in full <==> Lowest(heights[0], top - 1) <= h <= top;
    } else {
      assert forall h :: h in full <==> h == top;
    }
    assert low <= {limit};
    Singleton(low, limit);
    PruneExact(full, limit, 2);
  }

  lemma Singleton(s: set<nat>, x: nat)
    requires s <= {x}
    ensures |s| <= 1
  {
    if x in s { assert s == {x}; } else { assert s == {}; }
  }

  // ---- The batch lookup ----

  datatype BatchInfo = BatchInfo(startHeight: nat, startTime: nat, endHeight: nat, endTime: nat)

  datatype ErrorCode = InvalidInput | UnsupportedVersion | InsufficientData

  datatype BatchResult = Found(info: BatchInfo) | Failed(error: ErrorCode)

  ghost function Latest(rows: Blocks): (h: nat)
    requires rows != map[]
    ensures h in rows && forall g :: g in rows ==> g <= h
  {
    GreatestExists(rows.Keys);
    var h :| h in rows && forall g :: g in rows ==> g <= h;
    h
  }

  lemma GreatestExists(s: set<nat>)
    requires s != {}
    ensures exists m :: m in s && forall x :: x in s ==> x <= m
    decreases s
  {
    var y :| y in s;
    if x :| x in s && y < x {
      var larger := set z | z in s && y < z;
      assert x in larger && y !in larger && larger < s;
      GreatestExists(larger);
      var m :| m in larger && forall z :: z in larger ==> z <= m;
      assert forall z :: z in s ==> z in larger || z <= y;
      assert m in s && forall z :: z in s ==> z <= m;
    }
  }

  ghost function GetLatestBlockBatchInfo(rows: Blocks, offset: nat, batchSize: nat): BatchResult {
    if batchSize == 0 then Failed(InvalidInput)
    else if rows == map[] then Failed(InsufficientData)
    else
      var end := Latest(rows);
      if rows[end].version != 0 then Failed(UnsupportedVersion)
      else if end < offset then Failed(InsufficientData)
      else
        var start := end - (end - offset) % batchSize;
        if start == end then Found(BatchInfo(start, rows[end].timestamp, end, rows[end].timestamp))
        else if start !in rows then Failed(InsufficientData)
        else if rows[start].version != 0 then Failed(UnsupportedVersion)
        else Found(BatchInfo(start, rows[start].timestamp, end, rows[end].timestamp))
  }

  /** A height that starts a batch: a whole number of batches after the offset. */
  ghost predicate StartsBatch(h: nat, offset: nat, batchSize: nat) {
    0 < batchSize && offset <= h && (h - offset) % batchSize == 0
  }

  lemma BatchStartUnique(end: nat, offset: nat, batchSize: nat, h: nat)
    requires 0 < batchSize && offset <= end
    ensures h == end - (end - offset) % batchSize
       <==> StartsBatch(h, offset, batchSize) && h <= end < h + batchSize
  {
    var q, r := (end - offset) / batchSize, (end - offset) % batchSize;
    assert end - offset == q * batchSize + r;
    assert 0 <= q * batchSize;
    QuotientUnique(end - r - offset, batchSize, q, 0);
    if StartsBatch(h, offset, batchSize) && h <= end < h + batchSize {
      SameResidue(h - offset, end - r - offset, batchSize);
    }
  }

  /** The batch that a lookup asks for is there from this start on: the start's row and the latest row exist in a
      supported version, and the start is the last one not after the latest row. */
  ghost predicate BatchThere(rows: Blocks, offset: nat, batchSize: nat, start: nat) {
    && rows != map[]
    && StartsBatch(start, offset, batchSize) && start <= Latest(rows) < start + batchSize
    && start in rows && rows[start].version == 0 && rows[Latest(rows)].version == 0
  }

  /** Whatever is asked for, the lookup returns exactly the batch that is there, with the times of its two rows, and
      fails exactly when there is none. */
  lemma LookupIsExact(rows: Blocks, offset: nat, batchSize: nat)
    ensures var r := GetLatestBlockBatchInfo(rows, offset, batchSize);
      && (r.Found? <==> exists start :: BatchThere(rows, offset, batchSize, start))
      && (forall start :: BatchThere(rows, offset, batchSize, start) ==>
           r == Found(BatchInfo(start, rows[start].timestamp, Latest(rows), rows[Latest(rows)].timestamp)))
  {
    if 0 < batchSize && rows != map[] && offset <= Latest(rows) {
      var end := Latest(rows);
      var start := end - (end - offset) % batchSize;
      BatchStartUnique(end, offset, batchSize, start);
      forall h | BatchThere(rows, offset, batchSize, h) ensures h == start {
        BatchStartUnique(end, offset, batchSize, h);
      }
      assert start in rows && rows[start].version == 0 && rows[end].version == 0
        <==> BatchThere(rows, offset, batchSize, start);
    }
  }

  /** The error code tells why there is no batch: a size of zero, a row of another version where one is needed,
      or too few rows. */
  lemma LookupErrorsAreExact(rows: Blocks, offset: nat, batchSize: nat)
    ensures var r := GetLatestBlockBatchInfo(rows, offset, batchSize);
      && (r == Failed(InvalidInput) <==> batchSize == 0)
      && (r == Failed(UnsupportedVersion) <==>
           && 0 < batchSize && rows != map[]
           && (|| rows[Latest(rows)].version != 0
               || exists start: nat :: StartsBatch(start, offset, batchSize) && start <= Latest(rows) < start + batchSize
                    && start in rows && rows[start].version != 0))
  {
    if 0 < batchSize && rows != map[] && offset <= Latest(rows) {
      var end := Latest(rows);
      var start := end - (end - offset) % batchSize;
      BatchStartUnique(end, offset, batchSize, start);
      forall h: nat | StartsBatch(h, offset, batchSize) && h <= end < h + batchSize ensures h == start {
        BatchStartUnique(end, offset, batchSize, h);
      }
    }
  }

  /** On a full window of ten consecutive blocks every lookup with a batch of at most ten succeeds. */
  lemma FullWindowAlwaysFound(rows: Blocks, last: nat, offset: nat, batchSize: nat)
    requires 9 <= last && forall h: nat :: h in rows <==> last - 9 <= h <= last
    requires forall h :: h in rows ==> rows[h].version == 0
    requires 1 <= batchSize <= ROLLING_WINDOW_SIZE && offset <= last
    ensures var r := GetLatestBlockBatchInfo(rows, offset, batchSize);
      && r.Found? && r.info.endHeight == last && r.info.endTime == rows[last].timestamp
      && StartsBatch(r.info.startHeight, offset, batchSize) && r.info.startHeight <= last < r.info.startHeight + batchSize
      && r.info.startHeight in rows && r.info.startTime == rows[r.info.startHeight].timestamp
  {
    assert last in rows;
    assert Latest(rows) == last;
    var start := last - (last - offset) % batchSize;
    BatchStartUnique(last, offset, batchSize, start);
    assert start in rows;
    assert BatchThere(rows, offset, batchSize, start);
    LookupIsExact(rows, offset, batchSize);
  }

  /** The block height at the front of a block id, in big-endian bytes. */
  function BlockHeightFromId(b0: bv8, b1: bv8, b2: bv8, b3: bv8): bv32 {
    (b0 as bv32 << 24) | (b1 as bv32 << 16) | (b2 as bv32 << 8) | b3 as bv32
  }

  /** Every 32-bit height is read back from the bytes that encode it. */
  lemma HeightRoundTrip(h: bv32)
    ensures BlockHeightFromId(((h >> 24) & 0xff) as bv8, ((h >> 16) & 0xff) as bv8, ((h >> 8) & 0xff) as bv8, (h & 0xff) as bv8) == h
  {
  }
}
