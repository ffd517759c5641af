/**
 * The conflict engine of the data manager: which stored records overlap a
 * candidate interval (detectConflicts), and how an edited record is cut
 * around one conflicting record (splitRecordToRemoveOverlap).
 */
module Conflicts {
  import opened Intervals
  import opened Records

  /** A stored record overlapping the candidate, with the shared part and its rounded length in seconds. */
  datatype Conflict = Conflict(record: Record, overlapStart: int, overlapEnd: int, overlapDuration: int)

  /** detectConflicts skips the record with the edited id and keeps those passing the half-open test. */
  predicate Reported(r: Record, recordId: Id, start: int, end: int) {
    r.id != recordId && Overlaps(start, end, r.startTime, r.endTime)
  }

  function ConflictWith(r: Record, start: int, end: int): Conflict {
    var lo := Max(start, r.startTime);
    var hi := Min(end, r.endTime);
    Conflict(r, lo, hi, RoundSeconds(hi - lo))
  }

  /**
   * The list detectConflicts builds, in store order; ConflictsInAtIndices
   * pins it entry by entry. Written as a fold from the front so that each
   * loop step appends.
   */
  function ConflictsIn(rs: seq<Record>, recordId: Id, start: int, end: int): (cs: seq<Conflict>)
    ensures |cs| <= |rs|
    ensures forall c :: c in cs ==>
      c.record in rs && Reported(c.record, recordId, start, end) && c == ConflictWith(c.record, start, end)
    ensures forall r :: r in rs && Reported(r, recordId, start, end) ==> ConflictWith(r, start, end) in cs
  {
    if rs == [] then []
    else
      var init, last := rs[..|rs| - 1], rs[|rs| - 1];
      assert rs == init + [last];
      ConflictsIn(init, recordId, start, end)
        + (if Reported(last, recordId, start, end) then [ConflictWith(last, start, end)] else [])
  }

  /** The indices of the reported records, in increasing order. */
  function ReportedIndices(rs: seq<Record>, recordId: Id, start: int, end: int): (idx: seq<nat>)
    ensures forall k :: 0 <= k < |idx| ==> idx[k] < |rs| && Reported(rs[idx[k]], recordId, start, end)
    ensures forall k, l :: 0 <= k < l < |idx| ==> idx[k] < idx[l]
    ensures forall i :: 0 <= i < |rs| && Reported(rs[i], recordId, start, end) ==> i in idx
  {
    if rs == [] then []
    else
      var n := |rs| - 1;
      var init := rs[..n];
      var prev := ReportedIndices(init, recordId, start, end);
      assert forall k :: 0 <= k < |prev| ==> init[prev[k]] == rs[prev[k]];
      assert forall i :: 0 <= i < n ==> init[i] == rs[i];
      prev + (if Reported(rs[n], recordId, start, end) then [n] else [])
  }

  /**
   * The detected list, entry by entry: the k-th conflict is the conflict with
   * the k-th reported record, so there is exactly one entry per reported
   * record and the entries follow store order.
   */
  lemma {:induction false} ConflictsInAtIndices(rs: seq<Record>, recordId: Id, start: int, end: int)
    ensures var cs, idx := ConflictsIn(rs, recordId, start, end), ReportedIndices(rs, recordId, start, end);
      |cs| == |idx| && forall k :: 0 <= k < |cs| ==> cs[k] == ConflictWith(rs[idx[k]], start, end)
  {
    if rs != [] {
      var n := |rs| - 1;
      var init := rs[..n];
      ConflictsInAtIndices(init, recordId, start, end);
      var prev, cs0 := ReportedIndices(init, recordId, start, end), ConflictsIn(init, recordId, start, end);
      var cs, idx := ConflictsIn(rs, recordId, start, end), ReportedIndices(rs, recordId, start, end);
      var hit := Reported(rs[n], recordId, start, end);
      assert cs == cs0 + (if hit then [ConflictWith(rs[n], start, end)] else []);
      assert idx == prev + (if hit then [n] else []);
      forall k | 0 <= k < |cs| ensures cs[k] == ConflictWith(rs[idx[k]], start, end) {
        if k < |cs0| {
          assert cs[k] == cs0[k] && idx[k] == prev[k];
          assert init[prev[k]] == rs[prev[k]];
        }
      }
    }
  }

  /**
   * The conflict shown to the user and resolved first (`conflicts[0]`) is the
   * one with the first reported record in store order.
   */
  lemma FirstConflictIsFirstReported(rs: seq<Record>, recordId: Id, start: int, end: int, k: nat)
    requires k < |rs| && Reported(rs[k], recordId, start, end)
    requires forall j :: 0 <= j < k ==> !Reported(rs[j], recordId, start, end)
    ensures ConflictsIn(rs, recordId, start, end) != []
    ensures ConflictsIn(rs, recordId, start, end)[0] == ConflictWith(rs[k], start, end)
  {
    var idx := ReportedIndices(rs, recordId, start, end);
    ConflictsInAtIndices(rs, recordId, start, end);
    assert k in idx;
    var m :| 0 <= m < |idx| && idx[m] == k;
    assert idx[0] <= k;
    assert Reported(rs[idx[0]], recordId, start, end);
  }

  /**
   * Every reported conflict carries the intersection of the two intervals as a
   * non-empty half-open interval, and its rounded length.
   */
  lemma ConflictBounds(rs: seq<Record>, recordId: Id, start: int, end: int, c: Conflict)
    requires c in ConflictsIn(rs, recordId, start, end)
    ensures c.overlapStart == Max(start, c.record.startTime)
    ensures c.overlapEnd == Min(end, c.record.endTime)
    ensures c.overlapDuration == RoundSeconds(c.overlapEnd - c.overlapStart)
    ensures start < end && c.record.startTime < c.record.endTime ==>
      c.overlapStart < c.overlapEnd && c.overlapDuration >= 0
    ensures start <= c.overlapStart && c.overlapEnd <= end
  {
  }

  /**
   * Records that only touch the candidate interval, or lie wholly outside it,
   * never conflict: detection on such a store reports nothing.
   */
  lemma {:induction false} DisjointStoreHasNoConflicts(rs: seq<Record>, recordId: Id, start: int, end: int)
    requires forall i :: 0 <= i < |rs| ==> rs[i].endTime <= start || rs[i].startTime >= end
    ensures ConflictsIn(rs, recordId, start, end) == []
  {
    if rs != [] {
      var init := rs[..|rs| - 1];
      assert forall i :: 0 <= i < |init| ==> init[i] == rs[i];
      DisjointStoreHasNoConflicts(init, recordId, start, end);
    }
  }

  // ---------------------------------------------------------------------
  // Splitting the edited record around one conflicting record.

  /** A copy of the edited record over [s, e) with a fresh id and its recomputed duration. */
  function Fragment(r: Record, id: Id, s: int, e: int): Record {
    r.(id := id, startTime := s, endTime := e, duration := RoundSeconds(e - s))
  }

  /**
   * A piece of r cut by c: r's description and tags under one of the new ids,
   * over the non-empty part of r before c (`[start, cStart)`) or after it
   * (`[cEnd, end)`), with its duration recomputed.
   */
  predicate PieceOf(f: Record, r: Record, c: Record, id1: Id, id2: Id) {
    && f.description == r.description && f.tags == r.tags
    && (f.id == id1 || f.id == id2)
    && DurationConsistent(f)
    && f.startTime < f.endTime
    && ((f.startTime == r.startTime && f.endTime == c.startTime)
        || (f.startTime == c.endTime && f.endTime == r.endTime))
  }

  /**
   * The four positional cases of splitRecordToRemoveOverlap, as written: a
   * conflict strictly inside gives two pieces, one over the start or over the
   * end gives one, and every other position gives none.
   */
  function Pieces(r: Record, c: Record, id1: Id, id2: Id): (ps: seq<Record>)
    ensures |ps| <= 2
    ensures forall f :: f in ps ==> PieceOf(f, r, c, id1, id2)
    ensures |ps| == 2 ==> ps[0].id == id1 && ps[1].id == id2 && ps[0].startTime == r.startTime && ps[1].endTime == r.endTime
  {
    var s, e, cs, ce := r.startTime, r.endTime, c.startTime, c.endTime;
    if cs > s && ce < e then [Fragment(r, id1, s, cs), Fragment(r, id2, ce, e)]
    else if cs <= s && ce > s && ce < e then [Fragment(r, id1, ce, e)]
    else if cs > s && cs < e && ce >= e then [Fragment(r, id1, s, cs)]
    else []
  }

  /** `newRecords.filter(r => r.duration > 0)`. */
  function KeepPositive(fs: seq<Record>): (kept: seq<Record>)
    ensures forall f :: f in kept <==> f in fs && f.duration > 0
    ensures |kept| <= |fs|
  {
    if fs == [] then []
    else (if fs[0].duration > 0 then [fs[0]] else []) + KeepPositive(fs[1..])
  }

  /** The filter keeps the order of the fragments: filtering a concatenation filters each part. */
  lemma {:induction false} KeepPositiveAppend(a: seq<Record>, b: seq<Record>)
    ensures KeepPositive(a + b) == KeepPositive(a) + KeepPositive(b)
  {
    if a != [] {
      assert (a + b)[0] == a[0] && (a + b)[1..] == a[1..] + b;
      KeepPositiveAppend(a[1..], b);
    } else {
      assert a + b == b;
    }
  }

  /** The replacement list splitRecordToRemoveOverlap saves, exactly as the source computes it. */
  function SplitAsWritten(r: Record, c: Record, id1: Id, id2: Id): (res: seq<Record>)
    ensures |res| <= 2
    ensures forall f :: f in res ==> PieceOf(f, r, c, id1, id2) && f.duration > 0
  {
    KeepPositive(Pieces(r, c, id1, id2))
  }

  /**
   * The replacement list with the discrepancy repaired: a conflicting record
   * that does not overlap the stored interval leaves the record as it is.
   */
  function Split(r: Record, c: Record, id1: Id, id2: Id): (res: seq<Record>)
    ensures !Overlaps(r.startTime, r.endTime, c.startTime, c.endTime) ==> res == [r]
    ensures Overlaps(r.startTime, r.endTime, c.startTime, c.endTime) ==>
      |res| <= 2 && forall f :: f in res ==> PieceOf(f, r, c, id1, id2) && f.duration > 0
  {
    if Overlaps(r.startTime, r.endTime, c.startTime, c.endTime) then SplitAsWritten(r, c, id1, id2)
    else [r]
  }

  /**
   * Every kept fragment lies inside the edited interval, no longer overlaps
   * the conflicting record, has a positive recomputed duration and copies the
   * original's description and tags under one of the new ids.
   */
  lemma SplitAsWrittenFragments(r: Record, c: Record, id1: Id, id2: Id)
    requires c.startTime < c.endTime
    ensures |SplitAsWritten(r, c, id1, id2)| <= 2
    ensures forall f :: f in SplitAsWritten(r, c, id1, id2) ==>
      && r.startTime <= f.startTime < f.endTime <= r.endTime
      && !Overlaps(f.startTime, f.endTime, c.startTime, c.endTime)
      && f.duration > 0 && DurationConsistent(f)
      && f.description == r.description && f.tags == r.tags
      && (f.id == id1 || f.id == id2)
  {
    var ps := Pieces(r, c, id1, id2);
    forall f | f in SplitAsWritten(r, c, id1, id2)
      ensures r.startTime <= f.startTime < f.endTime <= r.endTime
      ensures !Overlaps(f.startTime, f.endTime, c.startTime, c.endTime)
    {
      assert f in ps && f.duration > 0;
    }
  }

  /**
   * When the two well-formed intervals overlap, the kept fragments cover the
   * part of the edited interval outside the conflict exactly, except a
   * leftover piece shorter than half a second, whose rounded duration is 0.
   */
  lemma SplitAsWrittenCovers(r: Record, c: Record, id1: Id, id2: Id, t: int)
    requires r.startTime < r.endTime && c.startTime < c.endTime
    requires Overlaps(r.startTime, r.endTime, c.startTime, c.endTime)
    requires Within(t, r.startTime, r.endTime) && !Within(t, c.startTime, c.endTime)
    ensures t < c.startTime ==>
      ((exists f :: f in SplitAsWritten(r, c, id1, id2) && Within(t, f.startTime, f.endTime))
         <==> c.startTime - r.startTime >= 500)
    ensures t >= c.endTime ==>
      ((exists f :: f in SplitAsWritten(r, c, id1, id2) && Within(t, f.startTime, f.endTime))
         <==> r.endTime - c.endTime >= 500)
  {
    var s, e, cs, ce := r.startTime, r.endTime, c.startTime, c.endTime;
    var out := SplitAsWritten(r, c, id1, id2);
    if t < cs {
      var f := Fragment(r, id1, s, cs);
      if cs - s >= 500 { assert f in out; }
    } else {
      var f := if cs > s then Fragment(r, id2, ce, e) else Fragment(r, id1, ce, e);
      if e - ce >= 500 { assert f in out; }
    }
  }

  /**
   * The discrepancy: a conflicting record that does not overlap the edited
   * record at all still removes it, since no case matches and the edited
   * record is filtered out with nothing to replace it.
   */
  lemma SplitAsWrittenDropsDisjointRecord(r: Record, c: Record, id1: Id, id2: Id)
    requires r.startTime < r.endTime && c.startTime < c.endTime
    requires !Overlaps(r.startTime, r.endTime, c.startTime, c.endTime)
    ensures SplitAsWritten(r, c, id1, id2) == []
  {
  }

  /** A concrete instance: a 09:00-10:00 record "split" around an 11:00-12:00 one vanishes. */
  lemma SplitAsWrittenExample()
    ensures var hour := 3600000;
      SplitAsWritten(Record("a", "", [], 9 * hour, 10 * hour, 3600),
                     Record("b", "", [], 11 * hour, 12 * hour, 3600), "x", "y") == []
  {
  }

  /**
   * The repaired split: for every pair of well-formed records, what is kept
   * is exactly the edited interval minus the conflicting one, up to leftover
   * pieces shorter than half a second; nothing kept overlaps the conflict.
   */
  lemma SplitCovers(r: Record, c: Record, id1: Id, id2: Id, t: int)
    requires r.startTime < r.endTime && c.startTime < c.endTime
    requires Within(t, r.startTime, r.endTime)
    ensures Within(t, c.startTime, c.endTime) ==>
      forall f :: f in Split(r, c, id1, id2) ==> !Within(t, f.startTime, f.endTime)
    ensures !Within(t, c.startTime, c.endTime) && t < c.startTime && c.startTime - r.startTime >= 500 ==>
      exists f :: f in Split(r, c, id1, id2) && Within(t, f.startTime, f.endTime)
    ensures !Within(t, c.startTime, c.endTime) && t >= c.endTime && r.endTime - c.endTime >= 500 ==>
      exists f :: f in Split(r, c, id1, id2) && Within(t, f.startTime, f.endTime)
  {
    if Overlaps(r.startTime, r.endTime, c.startTime, c.endTime) {
      SplitAsWrittenFragments(r, c, id1, id2);
      if !Within(t, c.startTime, c.endTime) {
        SplitAsWrittenCovers(r, c, id1, id2, t);
      }
    } else {
      assert r in Split(r, c, id1, id2);
    }
  }

  /** A containment example: 09:00-12:00 split around 10:00-11:00 gives 09:00-10:00 and 11:00-12:00, 3600 s each. */
  lemma ContainmentExample()
    ensures var hour := 3600000;
      var r := Record("e", "d", ["t"], 9 * hour, 12 * hour, 10800);
      Split(r, Record("c", "", [], 10 * hour, 11 * hour, 3600), "x", "y")
        == [r.(id := "x", endTime := 10 * hour, duration := 3600),
            r.(id := "y", startTime := 11 * hour, duration := 3600)]
  {
  }

  /** Full cover deletes: 10:00-10:30 against 09:00-12:00 leaves no fragment. */
  lemma FullCoverExample()
    ensures var hour := 3600000;
      Split(Record("e", "", [], 10 * hour, 10 * hour + hour / 2, 1800),
            Record("c", "", [], 9 * hour, 12 * hour, 10800), "x", "y") == []
  {
  }
}
