/**
 * The lane layout of the day view: each record is clipped to a half-day
 * window, the clipped blocks are stably sorted by clipped start, each block
 * takes the first column not used by an overlapping block placed before it,
 * and each block learns how many blocks overlap it.
 */
module Timeline {
  import opened Records
  import opened Intervals
  import opened Sorting

  /** A record clipped to the window shown in one column of the day view. */
  datatype Block = Block(rec: Record, clippedStart: int, clippedEnd: int)

  /** The clip of every record that keeps a non-empty part inside [ws, we), in record order. */
  function Clip(rs: seq<Record>, ws: int, we: int): (bs: seq<Block>)
    ensures |bs| <= |rs|
    ensures forall b :: b in bs ==>
      b.rec in rs && b.clippedStart == Max(b.rec.startTime, ws) && b.clippedEnd == Min(b.rec.endTime, we)
      && ws <= b.clippedStart < b.clippedEnd <= we
  {
    if rs == [] then []
    else
      var r := rs[0];
      var s, e := Max(r.startTime, ws), Min(r.endTime, we);
      (if e <= s then [] else [Block(r, s, e)]) + Clip(rs[1..], ws, we)
  }

  /** Clipping goes record by record: the blocks of a concatenation are the blocks of each part, in order. */
  lemma {:induction false} ClipAppend(a: seq<Record>, b: seq<Record>, ws: int, we: int)
    ensures Clip(a + b, ws, we) == Clip(a, ws, we) + Clip(b, ws, we)
  {
    if a != [] {
      assert (a + b)[0] == a[0] && (a + b)[1..] == a[1..] + b;
      ClipAppend(a[1..], b, ws, we);
    } else {
      assert a + b == b;
    }
  }

  /** A record gets a block exactly when it and the window are non-empty and overlap. */
  lemma {:induction false} ClipKeepsOverlapping(rs: seq<Record>, ws: int, we: int, r: Record)
    requires r in rs
    ensures (exists b :: b in Clip(rs, ws, we) && b.rec == r)
      <==> r.startTime < r.endTime && ws < we && r.startTime < we && ws < r.endTime
  {
    var s, e := Max(r.startTime, ws), Min(r.endTime, we);
    if r.startTime < r.endTime && ws < we && r.startTime < we && ws < r.endTime {
      assert s < e;
      var s0, e0 := Max(rs[0].startTime, ws), Min(rs[0].endTime, we);
      var head := if e0 <= s0 then [] else [Block(rs[0], s0, e0)];
      assert Clip(rs, ws, we) == head + Clip(rs[1..], ws, we);
      if rs[0] == r {
        assert Block(r, s, e) in Clip(rs, ws, we);
      } else {
        ClipKeepsOverlapping(rs[1..], ws, we, r);
        var b :| b in Clip(rs[1..], ws, we) && b.rec == r;
        assert b in Clip(rs, ws, we);
      }
    }
  }

  /** The total clipped length of the blocks. */
  function Len(bs: seq<Block>): int {
    if bs == [] then 0 else (bs[0].clippedEnd - bs[0].clippedStart) + Len(bs[1..])
  }

  /**
   * A record inside one day is split exactly between the morning column
   * [dayStart, noon) and the afternoon column [noon, dayEnd): the lengths
   * of its blocks in the two columns add up to its length.
   */
  lemma ClipSplitsAtNoon(r: Record, dayStart: int, noon: int, dayEnd: int)
    requires dayStart <= noon <= dayEnd
    requires dayStart <= r.startTime <= r.endTime <= dayEnd
    ensures Len(Clip([r], dayStart, noon)) + Len(Clip([r], noon, dayEnd)) == r.endTime - r.startTime
  {
    assert [r][1..] == [];
  }

  function StartKey(b: Block): int { b.clippedStart }

  /** `!(other.clippedEnd <= record.clippedStart || other.clippedStart >= record.clippedEnd)` */
  predicate BlocksOverlap(b: Block, other: Block) {
    !(other.clippedEnd <= b.clippedStart || other.clippedStart >= b.clippedEnd)
  }

  /** Two blocks overlap exactly when their clipped intervals overlap as half-open intervals. */
  lemma BlocksOverlapIsOverlap(a: Block, b: Block)
    requires a.clippedStart < a.clippedEnd && b.clippedStart < b.clippedEnd
    ensures BlocksOverlap(a, b) <==> Overlaps(a.clippedStart, a.clippedEnd, b.clippedStart, b.clippedEnd)
  {
  }

  /**
   * `usedColumns` of a block: the columns of the placed blocks `before`
   * (whose columns are `cols`) that overlap it, in order.
   */
  function Used(b: Block, before: seq<Block>, cols: seq<int>): (used: seq<int>)
    requires |cols| == |before|
    ensures |used| == OverlapCount(before, b)
    ensures forall c :: c in used <==> exists k :: 0 <= k < |before| && BlocksOverlap(b, before[k]) && cols[k] == c
  {
    if before == [] then []
    else
      var n := |before| - 1;
      var prev := Used(b, before[..n], cols[..n]);
      assert forall k :: 0 <= k < n ==> before[..n][k] == before[k] && cols[..n][k] == cols[k];
      prev + (if BlocksOverlap(b, before[n]) then [cols[n]] else [])
  }

  /** How many of the blocks overlap b. */
  function OverlapCount(bs: seq<Block>, b: Block): nat {
    if bs == [] then 0
    else OverlapCount(bs[..|bs| - 1], b) + (if BlocksOverlap(b, bs[|bs| - 1]) then 1 else 0)
  }

  /** How many entries of s are at least c. */
  function AtLeastCount(s: seq<int>, c: int): nat {
    if s == [] then 0 else AtLeastCount(s[..|s| - 1], c) + (if s[|s| - 1] >= c then 1 else 0)
  }

  lemma {:induction false} AtLeastCountDrops(s: seq<int>, c: int)
    ensures AtLeastCount(s, c + 1) <= AtLeastCount(s, c)
    ensures c in s ==> AtLeastCount(s, c + 1) < AtLeastCount(s, c)
  {
    if s != [] {
      var init := s[..|s| - 1];
      AtLeastCountDrops(init, c);
      assert s == init + [s[|s| - 1]];
    }
  }

  /** The smallest column from c on that is not in use (`while (usedColumns.includes(col)) col++`). */
  function FirstFree(used: seq<int>, c: int): (r: int)
    ensures c <= r && r !in used
    ensures forall x :: c <= x < r ==> x in used
    decreases AtLeastCount(used, c)
  {
    if c in used then
      AtLeastCountDrops(used, c);
      FirstFree(used, c + 1)
    else c
  }

  /** The columns of the sorted blocks, assigned in order. */
  function Columns(bs: seq<Block>): (cols: seq<int>)
    ensures |cols| == |bs|
    ensures forall k :: 0 <= k < |cols| ==> cols[k] >= 0
  {
    if bs == [] then []
    else
      var n := |bs| - 1;
      var init := Columns(bs[..n]);
      init + [FirstFree(Used(bs[n], bs[..n], init), 0)]
  }

  lemma {:induction false} ColumnsPrefix(bs: seq<Block>, i: nat)
    requires i <= |bs|
    ensures Columns(bs[..i]) == Columns(bs)[..i]
    decreases |bs|
  {
    if i < |bs| {
      var n := |bs| - 1;
      assert bs[..n][..i] == bs[..i];
      ColumnsPrefix(bs[..n], i);
    } else {
      assert bs[..i] == bs;
    }
  }

  /** The column of block i as the source assigns it: first fit among the earlier overlapping blocks. */
  lemma ColumnAt(bs: seq<Block>, i: nat)
    requires i < |bs|
    ensures Columns(bs)[i] == FirstFree(Used(bs[i], bs[..i], Columns(bs)[..i]), 0)
  {
    var pre := bs[..i + 1];
    ColumnsPrefix(bs, i + 1);
    ColumnsPrefix(bs, i);
    assert pre[..i] == bs[..i] && pre[i] == bs[i];
    var init := Columns(bs[..i]);
    var c := FirstFree(Used(bs[i], bs[..i], init), 0);
    assert Columns(pre) == init + [c];
    assert Columns(bs)[i] == Columns(pre)[i] == c;
  }

  /** Some block before block i overlaps it and has column c. */
  predicate TakenBefore(bs: seq<Block>, cols: seq<int>, i: nat, c: int)
    requires i < |bs| && i <= |cols|
  {
    exists j :: 0 <= j < i && BlocksOverlap(bs[i], bs[j]) && cols[j] == c
  }

  /** First fit, first half: a block's column is non-negative and not used by an earlier overlapping block. */
  lemma ColumnsFree(bs: seq<Block>, i: nat)
    requires i < |bs|
    ensures Columns(bs)[i] >= 0
    ensures !TakenBefore(bs, Columns(bs), i, Columns(bs)[i])
  {
    ColumnAt(bs, i);
    var cols := Columns(bs);
    var used := Used(bs[i], bs[..i], cols[..i]);
    forall j | 0 <= j < i && BlocksOverlap(bs[i], bs[j]) ensures cols[j] != cols[i] {
      assert bs[..i][j] == bs[j] && cols[..i][j] == cols[j];
      assert cols[j] in used;
    }
  }

  /** First fit, second half: every smaller column is taken by an earlier block overlapping it. */
  lemma ColumnsMinimal(bs: seq<Block>, i: nat)
    requires i < |bs|
    ensures forall c :: 0 <= c < Columns(bs)[i] ==> TakenBefore(bs, Columns(bs), i, c)
  {
    ColumnAt(bs, i);
    var cols := Columns(bs);
    var used := Used(bs[i], bs[..i], cols[..i]);
    forall c | 0 <= c < cols[i] ensures TakenBefore(bs, cols, i, c) {
      assert c in used;
      var k :| 0 <= k < i && BlocksOverlap(bs[i], bs[..i][k]) && cols[..i][k] == c;
      assert bs[..i][k] == bs[k] && cols[..i][k] == cols[k];
    }
  }

  /** Two overlapping blocks never share a column. */
  lemma OverlappingBlocksDiffer(bs: seq<Block>, i: nat, j: nat)
    requires i < |bs| && j < |bs| && i != j
    requires BlocksOverlap(bs[i], bs[j])
    ensures Columns(bs)[i] != Columns(bs)[j]
  {
    assert BlocksOverlap(bs[j], bs[i]);
    if j < i { ColumnsFree(bs, i); } else { ColumnsFree(bs, j); }
  }

  /** The columns 0 .. n-1. */
  function Below(n: nat): (b: set<int>)
    ensures |b| == n
    ensures forall x :: x in b <==> 0 <= x < n
  {
    if n == 0 then {} else Below(n - 1) + {n - 1}
  }

  lemma {:induction false} SetOfSeqCard(s: seq<int>)
    ensures |set x | x in s| <= |s|
  {
    if s != [] {
      var init := s[..|s| - 1];
      SetOfSeqCard(init);
      assert (set x | x in s) == (set x | x in init) + {s[|s| - 1]};
    }
  }

  lemma SubsetCard(a: set<int>, b: set<int>)
    requires a <= b
    ensures |a| <= |b|
  {
    assert b == a + (b - a);
  }

  /** A first free column is at most the number of columns in use. */
  lemma FirstFreeAtMostUsed(used: seq<int>)
    ensures FirstFree(used, 0) <= |used|
  {
    var r := FirstFree(used, 0);
    SetOfSeqCard(used);
    SubsetCard(Below(r), set x | x in used);
  }

  lemma {:induction false} OverlapCountPrefix(bs: seq<Block>, i: nat, b: Block)
    requires i <= |bs|
    ensures OverlapCount(bs[..i], b) <= OverlapCount(bs, b)
  {
    if i < |bs| {
      var n := |bs| - 1;
      assert bs[..n][..i] == bs[..i];
      OverlapCountPrefix(bs[..n], i, b);
    } else {
      assert bs[..i] == bs;
    }
  }

  /** `totalColumnsInSlot`: every block overlapping this one, itself included. */
  function SlotCount(bs: seq<Block>, i: nat): nat
    requires i < |bs|
  {
    OverlapCount(bs, bs[i])
  }

  /**
   * With non-empty blocks a block counts itself, so its slot holds at least
   * one column, and its column is below the slot count.
   */
  lemma ColumnBelowSlotCount(bs: seq<Block>, i: nat)
    requires i < |bs|
    requires bs[i].clippedStart < bs[i].clippedEnd
    ensures 1 <= SlotCount(bs, i)
    ensures Columns(bs)[i] < SlotCount(bs, i)
  {
    ColumnAt(bs, i);
    var used := Used(bs[i], bs[..i], Columns(bs)[..i]);
    FirstFreeAtMostUsed(used);
    assert bs[..i + 1][..i] == bs[..i];
    assert OverlapCount(bs[..i + 1], bs[i]) == OverlapCount(bs[..i], bs[i]) + 1;
    OverlapCountPrefix(bs, i + 1, bs[i]);
  }

  /** The blocks of one column: the clipped blocks, sorted stably by clipped start. */
  function Layout(rs: seq<Record>, ws: int, we: int): (bs: seq<Block>)
    ensures multiset(bs) == multiset(Clip(rs, ws, we))
    ensures forall i, j :: 0 <= i < j < |bs| ==> bs[i].clippedStart <= bs[j].clippedStart
  {
    SortByFacts(Clip(rs, ws, we), StartKey);
    SortBy(Clip(rs, ws, we), StartKey)
  }

  /**
   * The running record, put in front of the day's records, comes first among
   * the blocks that start where it does: the sort has no other tie-break.
   */
  lemma ActiveRecordFirstAmongTies(active: Record, rs: seq<Record>, ws: int, we: int)
    requires Max(active.startTime, ws) < Min(active.endTime, we)
    ensures var b := Block(active, Max(active.startTime, ws), Min(active.endTime, we));
      var ties := WithKey(Layout([active] + rs, ws, we), StartKey, b.clippedStart);
      ties != [] && ties[0] == b
  {
    var all := [active] + rs;
    assert all[0] == active && all[1..] == rs;
    var clipped := Clip(all, ws, we);
    FirstOfKeyStaysFirst(clipped, StartKey);
  }

  /** A block whose `column` has not been assigned yet (`column === undefined`). */
  const Undefined: int := -1

  /**
   * The first `forEach` of the layout: blocks in sorted order, each taking
   * the first column that no overlapping block with a column already uses.
   */
  method AssignColumns(bs: seq<Block>) returns (cols: seq<int>)
    ensures cols == Columns(bs)
  {
    var column := seq(|bs|, _ => Undefined);
    for i := 0 to |bs|
      invariant |column| == |bs|
      invariant column[..i] == Columns(bs[..i])
      invariant forall k :: i <= k < |bs| ==> column[k] == Undefined
    {
      var used := UsedColumns(bs, column, i);
      var col := FirstFreeColumn(used);
      assert bs[..i + 1][..i] == bs[..i];
      column := column[i := col];
      assert column[..i + 1] == column[..i] + [col];
    }
    assert bs[..|bs|] == bs;
    cols := column;
  }

  /**
   * `usedColumns` of block i: the columns of the other blocks that overlap
   * it and already have one, which are exactly the blocks before it.
   */
  method UsedColumns(bs: seq<Block>, column: seq<int>, i: nat) returns (used: seq<int>)
    requires i < |bs| && |column| == |bs|
    requires column[..i] == Columns(bs[..i])
    requires forall k :: i <= k < |bs| ==> column[k] == Undefined
    ensures used == Used(bs[i], bs[..i], column[..i])
  {
    used := [];
    ghost var earlier := Columns(bs[..i]);
    assert forall k :: 0 <= k < i ==> column[k] == earlier[k] && earlier[k] >= 0;
    for j := 0 to |bs|
      invariant used == Used(bs[i], bs[..Min(j, i)], column[..Min(j, i)])
    {
      var other := bs[j];
      if j < i {
        assert bs[..j + 1][..j] == bs[..j] && column[..j + 1][..j] == column[..j];
        assert column[j] == Columns(bs[..i])[j];
      }
      if j != i && BlocksOverlap(bs[i], other) && column[j] != Undefined {
        used := used + [column[j]];
      }
    }
  }

  /** `let col = 0; while (usedColumns.includes(col)) col++;` */
  method FirstFreeColumn(used: seq<int>) returns (col: int)
    ensures col == FirstFree(used, 0)
  {
    col := 0;
    while col in used
      invariant 0 <= col && FirstFree(used, col) == FirstFree(used, 0)
      decreases AtLeastCount(used, col)
    {
      AtLeastCountDrops(used, col);
      col := col + 1;
    }
  }

  /** The second `forEach`: each block's `totalColumnsInSlot`. */
  method CountSlots(bs: seq<Block>) returns (totals: seq<nat>)
    ensures |totals| == |bs|
    ensures forall i :: 0 <= i < |bs| ==> totals[i] == SlotCount(bs, i)
  {
    totals := [];
    for i := 0 to |bs|
      invariant |totals| == i
      invariant forall k :: 0 <= k < i ==> totals[k] == SlotCount(bs, k)
    {
      var n := 0;
      for j := 0 to |bs|
        invariant n == OverlapCount(bs[..j], bs[i])
      {
        assert bs[..j + 1][..j] == bs[..j];
        if BlocksOverlap(bs[i], bs[j]) {
          n := n + 1;
        }
      }
      assert bs[..|bs|] == bs;
      totals := totals + [n];
    }
  }

  /**
   * The layout of one column of the day view: the blocks in display order,
   * their first-fit columns and their slot counts. Overlapping blocks get
   * different columns, and each column is below its slot count.
   */
  method LayoutColumn(rs: seq<Record>, ws: int, we: int) returns (blocks: seq<Block>, cols: seq<int>, totals: seq<nat>)
    ensures blocks == Layout(rs, ws, we)
    ensures |cols| == |blocks| && |totals| == |blocks|
    ensures forall i :: 0 <= i < |blocks| ==> 0 <= cols[i] < totals[i]
    ensures forall i, j :: 0 <= i < |blocks| && 0 <= j < |blocks| && i != j && BlocksOverlap(blocks[i], blocks[j]) ==>
      cols[i] != cols[j]
    ensures cols == Columns(blocks)
    ensures forall i :: 0 <= i < |blocks| ==> totals[i] == SlotCount(blocks, i)
  {
    var clipped := Clip(rs, ws, we);
    blocks := SortBy(clipped, StartKey);
    cols := AssignColumns(blocks);
    totals := CountSlots(blocks);
    assert blocks == Layout(rs, ws, we);
    forall i | 0 <= i < |blocks| ensures 0 <= cols[i] < totals[i] {
      assert blocks[i] in multiset(clipped);
      ColumnsFree(blocks, i);
      ColumnBelowSlotCount(blocks, i);
    }
    forall i, j | 0 <= i < |blocks| && 0 <= j < |blocks| && i != j && BlocksOverlap(blocks[i], blocks[j])
      ensures cols[i] != cols[j]
    {
      OverlappingBlocksDiffer(blocks, i, j);
    }
  }

  /**
   * Three mutually overlapping blocks (09:00-10:00, 09:30-10:30, 09:45-10:15,
   * in milliseconds) take columns 0, 1 and 2 and share a slot of three; a
   * later disjoint block (11:00-11:30) reuses column 0 alone.
   */
  lemma FirstFitOfFour(r1: Record, r2: Record, r3: Record, r4: Record)
    ensures Columns([Block(r1, 32400000, 36000000), Block(r2, 34200000, 37800000),
                     Block(r3, 35100000, 36900000), Block(r4, 39600000, 41400000)]) == [0, 1, 2, 0]
  {
    var a, b, c, d := Block(r1, 32400000, 36000000), Block(r2, 34200000, 37800000),
      Block(r3, 35100000, 36900000), Block(r4, 39600000, 41400000);
    SecondColumn(a, b);
    ThirdColumn(a, b, c);
    FourthColumn(a, b, c, d);
  }

  /** A block overlapping the first one takes column 1. */
  lemma SecondColumn(a: Block, b: Block)
    requires BlocksOverlap(b, a)
    ensures Columns([a, b]) == [0, 1]
  {
    assert [a, b][..1] == [a] && [a][..0] == [];
    assert Columns([a]) == [0];
    assert Used(b, [a], [0]) == [0];
  }

  /** A block overlapping both blocks in columns 0 and 1 takes column 2. */
  lemma ThirdColumn(a: Block, b: Block, c: Block)
    requires Columns([a, b]) == [0, 1]
    requires BlocksOverlap(c, a) && BlocksOverlap(c, b)
    ensures Columns([a, b, c]) == [0, 1, 2]
  {
    assert [a, b, c][..2] == [a, b] && [a, b][..1] == [a] && [0, 1][..1] == [0] && [a][..0] == [];
    assert Used(c, [a], [0]) == [0];
    assert Used(c, [a, b], [0, 1]) == [0, 1];
    assert FirstFree([0, 1], 0) == 2;
  }

  /** The block after three earlier ones it does not overlap takes column 0. */
  lemma FourthColumn(a: Block, b: Block, c: Block, d: Block)
    requires Columns([a, b, c]) == [0, 1, 2]
    requires a.clippedEnd <= d.clippedStart && b.clippedEnd <= d.clippedStart && c.clippedEnd <= d.clippedStart
    ensures Columns([a, b, c, d]) == [0, 1, 2, 0]
  {
    assert [a, b, c, d][..3] == [a, b, c] && [a, b, c][..2] == [a, b] && [a, b][..1] == [a] && [a][..0] == [];
    assert [0, 1, 2][..2] == [0, 1] && [0, 1][..1] == [0] && [0][..0] == [];
    assert Used(d, [a], [0]) == [];
    assert Used(d, [a, b], [0, 1]) == [];
    assert Used(d, [a, b, c], [0, 1, 2]) == [];
    assert FirstFree([], 0) == 0;
  }

  lemma SlotsOfFour(r1: Record, r2: Record, r3: Record, r4: Record)
    ensures var bs := [Block(r1, 32400000, 36000000), Block(r2, 34200000, 37800000),
                       Block(r3, 35100000, 36900000), Block(r4, 39600000, 41400000)];
      SlotCount(bs, 0) == 3 && SlotCount(bs, 1) == 3 && SlotCount(bs, 2) == 3 && SlotCount(bs, 3) == 1
  {
    var a, b, c, d := Block(r1, 32400000, 36000000), Block(r2, 34200000, 37800000),
      Block(r3, 35100000, 36900000), Block(r4, 39600000, 41400000);
    var bs := [a, b, c, d];
    assert bs[..3] == [a, b, c] && [a, b, c][..2] == [a, b] && [a, b][..1] == [a] && [a][..0] == [];
    assert OverlapCount([a], a) == 1 && OverlapCount([a, b], a) == 2 && OverlapCount([a, b, c], a) == 3;
    assert OverlapCount([a], b) == 1 && OverlapCount([a, b], b) == 2 && OverlapCount([a, b, c], b) == 3;
    assert OverlapCount([a], c) == 1 && OverlapCount([a, b], c) == 2 && OverlapCount([a, b, c], c) == 3;
    assert OverlapCount([a], d) == 0 && OverlapCount([a, b], d) == 0 && OverlapCount([a, b, c], d) == 0;
  }

  /**
   * The morning column with records 09:00-10:00, 09:30-10:30, 09:45-10:15
   * and 11:00-11:30: the first three take columns 0, 1 and 2 and share a slot
   * of three, and the last one reuses column 0 alone.
   */
  lemma ThreeWayOverlapExample(r1: Record, r2: Record, r3: Record, r4: Record)
    requires r1.startTime == 32400000 && r1.endTime == 36000000
    requires r2.startTime == 34200000 && r2.endTime == 37800000
    requires r3.startTime == 35100000 && r3.endTime == 36900000
    requires r4.startTime == 39600000 && r4.endTime == 41400000
    ensures var bs := Layout([r1, r2, r3, r4], 0, 43200000);
      && bs == [Block(r1, r1.startTime, r1.endTime), Block(r2, r2.startTime, r2.endTime),
                Block(r3, r3.startTime, r3.endTime), Block(r4, r4.startTime, r4.endTime)]
      && Columns(bs) == [0, 1, 2, 0]
      && SlotCount(bs, 0) == 3 && SlotCount(bs, 1) == 3 && SlotCount(bs, 2) == 3 && SlotCount(bs, 3) == 1
  {
    var a, b, c, d := Block(r1, r1.startTime, r1.endTime), Block(r2, r2.startTime, r2.endTime),
      Block(r3, r3.startTime, r3.endTime), Block(r4, r4.startTime, r4.endTime);
    var rs := [r1, r2, r3, r4];
    assert rs[1..] == [r2, r3, r4] && rs[1..][1..] == [r3, r4] && rs[1..][1..][1..] == [r4] && [r4][1..] == [];
    assert Clip([r4], 0, 43200000) == [d];
    assert Clip([r3, r4], 0, 43200000) == [c, d];
    assert Clip([r2, r3, r4], 0, 43200000) == [b, c, d];
    assert Clip(rs, 0, 43200000) == [a, b, c, d];
    assert [a, b, c, d][1..] == [b, c, d] && [b, c, d][1..] == [c, d] && [c, d][1..] == [d] && [d][1..] == [];
    assert SortBy([d], StartKey) == [d];
    assert SortBy([c, d], StartKey) == [c, d];
    assert SortBy([b, c, d], StartKey) == [b, c, d];
    assert SortBy([a, b, c, d], StartKey) == [a, b, c, d];
    FirstFitOfFour(r1, r2, r3, r4);
    SlotsOfFour(r1, r2, r3, r4);
  }
}
