/**
 * The selection state of `src/App.tsx`: the table window, the source and
 * destination BPMs, the lookup of the selected cell, and the commit handlers
 * that clamp parsed input into the supported BPM range.
 */
module App {
  import opened Wrappers
  import opened Bpm

  /** `BPM_MIN` and `BPM_MAX`: the BPMs the inputs accept. */
  const BpmMin: int := 40
  const BpmMax: int := 300

  /** `clamp`: `Math.min(Math.max(value, min), max)`. */
  function Clamp(value: int, min: int, max: int): (r: int)
    ensures min <= max ==> min <= r <= max
    ensures min <= value <= max ==> r == value
    ensures min <= max && value < min ==> r == min
    ensures value > max ==> r == max
  {
    var atLeast := if value > min then value else min;
    if atLeast < max then atLeast else max
  }

  /**
   * `getCell`: the selectable cell from `src` to `dest`, or nothing when
   * either lies outside the table's BPMs, the row or the cell is missing, or
   * the cell is not selectable. (With no BPMs at all the window bounds are
   * `undefined` in the source and the row lookup fails.)
   */
  function GetCell(data: TableData, src: int, dest: int): (r: Option<TableCell>)
    ensures r.Some? ==> r.value.selectable
    ensures |data.bpms| > 0 && (src < data.bpms[0] || dest < data.bpms[0]) ==> r.None?
    ensures |data.bpms| > 0 && (src > data.bpms[|data.bpms| - 1] || dest > data.bpms[|data.bpms| - 1]) ==> r.None?
  {
    if |data.bpms| == 0 then None
    else
      var min := data.bpms[0];
      var max := data.bpms[|data.bpms| - 1];
      if src < min || src > max || dest < min || dest > max then None
      else if src - min >= |data.rows| then None
      else
        var row := data.rows[src - min];
        if dest - min >= |row.cells| then None
        else
          var cell := row.cells[dest - min];
          if !cell.selectable then None else Some(cell)
  }

  /**
   * On a table with the shape of the window at `bpmMin`, `getCell` finds a
   * cell exactly for a pair of different BPMs inside the window, and then the
   * one whose source and destination are that pair.
   */
  lemma WindowLookup(data: TableData, bpmMin: int, src: int, dest: int)
    requires IsWindow(data, bpmMin)
    ensures var r := GetCell(data, src, dest);
      && (r.Some? <==> bpmMin <= src <= bpmMin + Range && bpmMin <= dest <= bpmMin + Range && src != dest)
      && (r.Some? ==> r.value.src == src && r.value.dest == dest)
  {
    if bpmMin <= src <= bpmMin + Range && bpmMin <= dest <= bpmMin + Range {
      assert WindowCell(data, bpmMin, src - bpmMin, dest - bpmMin);
    }
  }

  /** On such a table the lookup of `bpmMin + i` to `bpmMin + j` is the cell at row `i`, column `j`, off the diagonal. */
  lemma WindowLookupAt(data: TableData, bpmMin: int, i: nat, j: nat, cell: TableCell)
    requires IsWindow(data, bpmMin) && i < Size && j < Size
    requires i < |data.rows| && j < |data.rows[i].cells| && data.rows[i].cells[j] == cell
    ensures GetCell(data, bpmMin + i, bpmMin + j) == if i != j then Some(cell) else None
  {
    assert WindowCell(data, bpmMin, i, j);
  }

  /** On a table built by `buildTable`, `getCell` finds a cell exactly for two different BPMs of the window. */
  lemma GetCellOfTable(bpmMin: int, pitchScaled: int, src: int, dest: int)
    ensures var r := GetCell(Table(bpmMin, pitchScaled), src, dest);
      && (r.Some? <==> bpmMin <= src <= bpmMin + Range && bpmMin <= dest <= bpmMin + Range && src != dest)
      && (r.Some? ==> r.value.src == src && r.value.dest == dest)
  {
    TableIsWindow(bpmMin, pitchScaled);
    WindowLookup(Table(bpmMin, pitchScaled), bpmMin, src, dest);
  }

  /** On a table built by `buildTable` the lookup of `bpmMin + i` to `bpmMin + j` is the cell of (i, j), off the diagonal. */
  lemma GetCellAt(bpmMin: int, pitchScaled: int, i: nat, j: nat)
    requires i < Size && j < Size
    ensures GetCell(Table(bpmMin, pitchScaled), bpmMin + i, bpmMin + j) == if i != j then Some(Cell(bpmMin, pitchScaled, i, j)) else None
  {
    TableIsWindow(bpmMin, pitchScaled);
    TableHasCell(bpmMin, pitchScaled, i, j);
    WindowLookupAt(Table(bpmMin, pitchScaled), bpmMin, i, j, Cell(bpmMin, pitchScaled, i, j));
  }

  /** The destination `commitBpmMin` picks: one above the new minimum, or one below at the top of the range. */
  function DestAfterBpmMin(next: int): int {
    Clamp(if next < BpmMax then next + 1 else next - 1, BpmMin, BpmMax)
  }

  /** After `commitBpmMin` source and destination differ and both are accepted BPMs. */
  lemma DestAfterBpmMinInRange(next: int)
    requires BpmMin <= next <= BpmMax
    ensures var dest := DestAfterBpmMin(next);
      BpmMin <= dest <= BpmMax && dest != next && dest == (if next < BpmMax then next + 1 else next - 1)
  {
  }

  /** Below the top of the range the pair `commitBpmMin` selects is a selectable cell of the new table. */
  lemma CommitBpmMinSelectsCell(next: int, pitchScaled: int)
    requires BpmMin <= next < BpmMax
    ensures GetCell(Table(next, pitchScaled), next, DestAfterBpmMin(next)).Some?
  {
    GetCellOfTable(next, pitchScaled, next, next + 1);
  }

  /** At the top of the range the destination one below lies outside the new table, so nothing is selected. */
  lemma CommitBpmMinAtTop(pitchScaled: int)
    ensures GetCell(Table(BpmMax, pitchScaled), BpmMax, DestAfterBpmMin(BpmMax)).None?
  {
    GetCellOfTable(BpmMax, pitchScaled, BpmMax, BpmMax - 1);
  }

  /**
   * The state behind the page: the first BPM of the table, the in-range
   * threshold in tenths of a percent, and the selected source and
   * destination BPMs.
   */
  class AppState {
    var bpmMin: int
    var pitchScaled: int
    var sourceBpm: int
    var destBpm: int

    /** The initial state: table from 120, threshold 6.0%, 120 -> 121 selected. */
    constructor ()
      ensures bpmMin == 120 && pitchScaled == 60 && sourceBpm == 120 && destBpm == 121
      ensures Valid() && CurrentCell() == Some(Cell(bpmMin, pitchScaled, 0, 1))
    {
      bpmMin := 120;
      pitchScaled := 60;
      sourceBpm := 120;
      destBpm := 121;
      new;
      GetCellAt(bpmMin, pitchScaled, 0, 1);
      assert CurrentCell() == GetCell(Table(bpmMin, pitchScaled), bpmMin + 0, bpmMin + 1);
    }

    /** The table window lies inside the accepted BPMs. */
    predicate Valid()
      reads this
    {
      BpmMin <= bpmMin <= BpmMax
    }

    /** `data`: the table of the current window. */
    function Data(): TableData
      reads this
    {
      Table(bpmMin, pitchScaled)
    }

    /** `currentCell`: the table's cell for the current selection, if it has one. */
    function CurrentCell(): Option<TableCell>
      reads this
    {
      GetCell(Data(), sourceBpm, destBpm)
    }

    /**
     * `commitBpmMin`: a parsed BPM, clamped, becomes the table's first BPM and
     * the source; the destination is the BPM next to it. Nothing changes when
     * the input does not parse.
     */
    method CommitBpmMin(parsed: Option<int>)
      requires Valid()
      modifies this
      ensures Valid()
      ensures parsed.None? ==> bpmMin == old(bpmMin) && sourceBpm == old(sourceBpm) && destBpm == old(destBpm)
      ensures parsed.Some? ==>
        var next := Clamp(parsed.value, BpmMin, BpmMax);
        bpmMin == next && sourceBpm == next && destBpm == DestAfterBpmMin(next)
      ensures pitchScaled == old(pitchScaled)
      ensures parsed.Some? && bpmMin < BpmMax ==> CurrentCell().Some?
    {
      if parsed.None? {
        return;
      }
      var next := Clamp(parsed.value, BpmMin, BpmMax);
      var nextDest := if next < BpmMax then next + 1 else next - 1;
      bpmMin := next;
      sourceBpm := next;
      destBpm := Clamp(nextDest, BpmMin, BpmMax);
      if next < BpmMax {
        CommitBpmMinSelectsCell(next, pitchScaled);
      }
    }

    /** `commitSource`: a parsed BPM, clamped, becomes the source; nothing else changes. */
    method CommitSource(parsed: Option<int>)
      requires Valid()
      modifies this
      ensures Valid()
      ensures sourceBpm == if parsed.Some? then Clamp(parsed.value, BpmMin, BpmMax) else old(sourceBpm)
      ensures bpmMin == old(bpmMin) && pitchScaled == old(pitchScaled) && destBpm == old(destBpm)
    {
      if parsed.None? {
        return;
      }
      sourceBpm := Clamp(parsed.value, BpmMin, BpmMax);
    }

    /** `commitDest`: a parsed BPM, clamped, becomes the destination; nothing else changes. */
    method CommitDest(parsed: Option<int>)
      requires Valid()
      modifies this
      ensures Valid()
      ensures destBpm == if parsed.Some? then Clamp(parsed.value, BpmMin, BpmMax) else old(destBpm)
      ensures bpmMin == old(bpmMin) && pitchScaled == old(pitchScaled) && sourceBpm == old(sourceBpm)
    {
      if parsed.None? {
        return;
      }
      destBpm := Clamp(parsed.value, BpmMin, BpmMax);
    }

    /**
     * `handleTableSelect`: the selected cell's BPMs become source and
     * destination as they are, unclamped, so a selected pair can reach
     * `BpmMax + Range`.
     */
    method HandleTableSelect(next: Selection)
      requires Valid()
      modifies this
      ensures Valid()
      ensures sourceBpm == next.src && destBpm == next.dest
      ensures bpmMin == old(bpmMin) && pitchScaled == old(pitchScaled)
      ensures CurrentCell().Some?
        <==> bpmMin <= next.src <= bpmMin + Range && bpmMin <= next.dest <= bpmMin + Range && next.src != next.dest
      ensures CurrentCell().Some? ==> BpmMin <= sourceBpm <= BpmMax + Range && BpmMin <= destBpm <= BpmMax + Range
    {
      sourceBpm := next.src;
      destBpm := next.dest;
      GetCellOfTable(bpmMin, pitchScaled, next.src, next.dest);
    }
  }
}
