/**
 * Aggregation of record durations: the per-tag statistics of the data
 * manager (getStatsByTags) and the report statistics of the application
 * (getFilteredStats), which leave records carrying an excluded tag out of the
 * total but still count their time per tag.
 */
module Stats {
  import opened Records
  import opened Sorting

  /** A contribution: a tag id and the duration of one record carrying it. */
  type Contribution = (Id, int)

  /** The contributions of one record, one per entry of its tag list. */
  function Pairs(r: Record): (ps: seq<Contribution>)
    ensures |ps| == |r.tags|
    ensures forall k :: 0 <= k < |ps| ==> ps[k] == (r.tags[k], r.duration)
  {
    seq(|r.tags|, k requires 0 <= k < |r.tags| => (r.tags[k], r.duration))
  }

  /** All contributions, record by record, in store order. */
  function Contributions(rs: seq<Record>): seq<Contribution> {
    if rs == [] then [] else Contributions(rs[..|rs| - 1]) + Pairs(rs[|rs| - 1])
  }

  /** Sum of the contributions of one tag id. */
  function SumFor(cs: seq<Contribution>, id: Id): int {
    if cs == [] then 0
    else SumFor(cs[..|cs| - 1], id) + (if cs[|cs| - 1].0 == id then cs[|cs| - 1].1 else 0)
  }

  /** Number of contributions of one tag id. */
  function CountFor(cs: seq<Contribution>, id: Id): nat {
    if cs == [] then 0
    else CountFor(cs[..|cs| - 1], id) + (if cs[|cs| - 1].0 == id then 1 else 0)
  }

  /** How many times a tag list names a tag. */
  function Occurrences(tags: seq<Id>, id: Id): nat {
    if tags == [] then 0 else Occurrences(tags[..|tags| - 1], id) + (if tags[|tags| - 1] == id then 1 else 0)
  }

  /** Reference definition of a tag's time: each record's duration once per mention of the tag. */
  function TagTime(rs: seq<Record>, id: Id): int {
    if rs == [] then 0
    else TagTime(rs[..|rs| - 1], id) + rs[|rs| - 1].duration * Occurrences(rs[|rs| - 1].tags, id)
  }

  /** `totalDuration` of getStatsByTags: every record's duration. */
  function TotalDuration(rs: seq<Record>): int {
    if rs == [] then 0 else TotalDuration(rs[..|rs| - 1]) + rs[|rs| - 1].duration
  }

  lemma {:induction false} SumForAppend(a: seq<Contribution>, b: seq<Contribution>, id: Id)
    ensures SumFor(a + b, id) == SumFor(a, id) + SumFor(b, id)
  {
    if b != [] {
      assert (a + b)[..|a + b| - 1] == a + b[..|b| - 1];
      SumForAppend(a, b[..|b| - 1], id);
    } else {
      assert a + b == a;
    }
  }

  lemma {:induction false} SumForPairs(tags: seq<Id>, r: Record, id: Id)
    requires tags == r.tags
    ensures SumFor(Pairs(r), id) == r.duration * Occurrences(tags, id)
  {
    SumForPairsPrefix(r, |r.tags|, id);
    assert Pairs(r)[..|r.tags|] == Pairs(r);
    assert r.tags[..|r.tags|] == r.tags;
  }

  lemma {:induction false} SumForPairsPrefix(r: Record, n: nat, id: Id)
    requires n <= |r.tags|
    ensures SumFor(Pairs(r)[..n], id) == r.duration * Occurrences(r.tags[..n], id)
  {
    if n > 0 {
      SumForPairsPrefix(r, n - 1, id);
      assert Pairs(r)[..n][..n - 1] == Pairs(r)[..n - 1];
      assert r.tags[..n][..n - 1] == r.tags[..n - 1];
    }
  }

  /** The flattened sum agrees with the reference definition of a tag's time. */
  lemma {:induction false} SumForIsTagTime(rs: seq<Record>, id: Id)
    ensures SumFor(Contributions(rs), id) == TagTime(rs, id)
  {
    if rs != [] {
      var init, last := rs[..|rs| - 1], rs[|rs| - 1];
      SumForIsTagTime(init, id);
      SumForAppend(Contributions(init), Pairs(last), id);
      SumForPairs(last.tags, last, id);
    }
  }

  /** Tag lists without repeats mention a tag at most once. */
  predicate NoRepeats(tags: seq<Id>) {
    forall i, j :: 0 <= i < j < |tags| ==> tags[i] != tags[j]
  }

  lemma {:induction false} OccurrencesAtMostOne(tags: seq<Id>, id: Id)
    requires NoRepeats(tags)
    ensures Occurrences(tags, id) <= 1
    ensures Occurrences(tags, id) == 1 <==> id in tags
  {
    if tags != [] {
      var init := tags[..|tags| - 1];
      assert tags == init + [tags[|tags| - 1]];
      assert NoRepeats(init) by {
        forall i, j | 0 <= i < j < |init| ensures init[i] != init[j] {
          assert init[i] == tags[i] && init[j] == tags[j];
        }
      }
      OccurrencesAtMostOne(init, id);
      if tags[|tags| - 1] == id {
        forall i | 0 <= i < |init| ensures init[i] != id {
          assert tags[i] != tags[|tags| - 1];
        }
      }
    }
  }

  /**
   * With non-negative durations and no repeated tag in a record, no tag's
   * time exceeds the total, so its share of the total is at most 100%.
   */
  lemma {:induction false} TagTimeAtMostTotal(rs: seq<Record>, id: Id)
    requires forall i :: 0 <= i < |rs| ==> rs[i].duration >= 0 && NoRepeats(rs[i].tags)
    ensures 0 <= TagTime(rs, id) <= TotalDuration(rs)
  {
    if rs != [] {
      var init, last := rs[..|rs| - 1], rs[|rs| - 1];
      assert forall i :: 0 <= i < |init| ==> init[i] == rs[i];
      TagTimeAtMostTotal(init, id);
      OccurrencesAtMostOne(last.tags, id);
    }
  }

  // ---------------------------------------------------------------------
  // getStatsByTags

  /** One entry of getStatsByTags' `byTag`: the tag, its summed duration and its record count. */
  datatype TagStat = TagStat(tag: Tag, duration: int, count: nat)

  /** No tag after index i carries the id of tags[i]. */
  predicate LastWithId(tags: seq<Tag>, i: nat)
    requires i < |tags|
  {
    forall j :: i < j < |tags| ==> tags[j].id != tags[i].id
  }

  /** No tag before index i carries the id of tags[i]. */
  predicate FirstWithId(tags: seq<Tag>, i: nat)
    requires i < |tags|
  {
    forall j :: 0 <= j < i ==> tags[j].id != tags[i].id
  }

  /** Every known tag starts at zero; a later tag with the same id replaces an earlier one. */
  function InitialStats(tags: seq<Tag>): (m: map<Id, TagStat>)
    ensures m.Keys == set t | t in tags :: t.id
    ensures forall id :: id in m ==> m[id].duration == 0 && m[id].count == 0 && m[id].tag in tags && m[id].tag.id == id
  {
    if tags == [] then map[]
    else
      var init, last := tags[..|tags| - 1], tags[|tags| - 1];
      assert tags == init + [last];
      InitialStats(init)[last.id := TagStat(last, 0, 0)]
  }

  /** `stats[tag.id] = …` keeps the last tag with each id. */
  lemma {:induction false} InitialStatsLastWins(tags: seq<Tag>, i: nat)
    requires i < |tags| && LastWithId(tags, i)
    ensures InitialStats(tags)[tags[i].id].tag == tags[i]
  {
    var n := |tags| - 1;
    var init := tags[..n];
    assert InitialStats(tags) == InitialStats(init)[tags[n].id := TagStat(tags[n], 0, 0)];
    if i < n {
      assert init[i] == tags[i];
      assert LastWithId(init, i) by {
        forall j | i < j < |init| ensures init[j].id != init[i].id {
          assert init[j] == tags[j];
        }
      }
      assert tags[n].id != tags[i].id;
      InitialStatsLastWins(init, i);
    }
  }

  /** One contribution: a known tag gains the duration and one more record; unknown ids are ignored. */
  function TallyStep(m: map<Id, TagStat>, c: Contribution): map<Id, TagStat> {
    if c.0 in m then m[c.0 := m[c.0].(duration := m[c.0].duration + c.1, count := m[c.0].count + 1)] else m
  }

  function Tally(m: map<Id, TagStat>, cs: seq<Contribution>): map<Id, TagStat> {
    if cs == [] then m else TallyStep(Tally(m, cs[..|cs| - 1]), cs[|cs| - 1])
  }

  lemma {:induction false} TallyAppend(m: map<Id, TagStat>, a: seq<Contribution>, b: seq<Contribution>)
    ensures Tally(m, a + b) == Tally(Tally(m, a), b)
  {
    if b == [] {
      assert a + b == a;
    } else {
      assert (a + b)[..|a + b| - 1] == a + b[..|b| - 1];
      TallyAppend(m, a, b[..|b| - 1]);
    }
  }

  /** The tally keeps the known tags and adds to each exactly its own contributions. */
  lemma {:induction false} TallyAdds(m: map<Id, TagStat>, cs: seq<Contribution>)
    ensures Tally(m, cs).Keys == m.Keys
    ensures forall id :: id in m ==>
      Tally(m, cs)[id] == TagStat(m[id].tag, m[id].duration + SumFor(cs, id), m[id].count + CountFor(cs, id))
  {
    if cs != [] {
      TallyAdds(m, cs[..|cs| - 1]);
    }
  }

  /** getStatsByTags: the known tags with their time and record counts, and the total of all durations. */
  lemma StatsByTagsMeaning(tags: seq<Tag>, rs: seq<Record>)
    ensures var byTag := Tally(InitialStats(tags), Contributions(rs));
      && byTag.Keys == (set t | t in tags :: t.id)
      && forall id :: id in byTag ==>
           byTag[id].duration == TagTime(rs, id) && byTag[id].count == CountFor(Contributions(rs), id)
           && byTag[id].tag in tags && byTag[id].tag.id == id
  {
    TallyAdds(InitialStats(tags), Contributions(rs));
    forall id | id in InitialStats(tags) ensures SumFor(Contributions(rs), id) == TagTime(rs, id) {
      SumForIsTagTime(rs, id);
    }
  }

  // ---------------------------------------------------------------------
  // getFilteredStats

  /** The tags with `isExcluded` together with the ones the user excluded by hand. */
  function ExcludedIds(tags: seq<Tag>, manual: seq<Id>): set<Id> {
    (set t | t in tags && t.isExcluded :: t.id) + (set id | id in manual)
  }

  predicate HasExcludedTag(r: Record, excluded: set<Id>) {
    exists k :: 0 <= k < |r.tags| && r.tags[k] in excluded
  }

  /** `total` of getFilteredStats: the full duration of each record with no excluded tag. */
  function IncludedTotal(rs: seq<Record>, excluded: set<Id>): (t: int)
    ensures (forall i :: 0 <= i < |rs| ==> rs[i].duration >= 0) ==> 0 <= t <= TotalDuration(rs)
  {
    if rs == [] then 0
    else
      var init, last := rs[..|rs| - 1], rs[|rs| - 1];
      assert forall i :: 0 <= i < |init| ==> init[i] == rs[i];
      IncludedTotal(init, excluded) + (if HasExcludedTag(last, excluded) then 0 else last.duration)
  }

  /** The time of the records that do carry an excluded tag. */
  function ExcludedTotal(rs: seq<Record>, excluded: set<Id>): int {
    if rs == [] then 0
    else
      var last := rs[|rs| - 1];
      ExcludedTotal(rs[..|rs| - 1], excluded) + (if HasExcludedTag(last, excluded) then last.duration else 0)
  }

  /**
   * Exclusion is all or nothing per record: every record's full duration is
   * counted in exactly one of the two totals, never pro-rated.
   */
  lemma {:induction false} ExclusionPartitionsTotal(rs: seq<Record>, excluded: set<Id>)
    ensures IncludedTotal(rs, excluded) + ExcludedTotal(rs, excluded) == TotalDuration(rs)
  {
    if rs != [] {
      ExclusionPartitionsTotal(rs[..|rs| - 1], excluded);
    }
  }

  /** Excluding nothing counts everything. */
  lemma {:induction false} NothingExcludedCountsAll(rs: seq<Record>, excluded: set<Id>)
    requires forall i, k :: 0 <= i < |rs| && 0 <= k < |rs[i].tags| ==> rs[i].tags[k] !in excluded
    ensures IncludedTotal(rs, excluded) == TotalDuration(rs)
  {
    if rs != [] {
      var init := rs[..|rs| - 1];
      assert forall i :: 0 <= i < |init| ==> init[i] == rs[i];
      NothingExcludedCountsAll(init, excluded);
    }
  }

  /** The accumulation of `tagStats`: sums per id, ids in order of first appearance (object key order). */
  datatype Accumulated = Accumulated(sums: map<Id, int>, order: seq<Id>)

  function AccumulateStep(a: Accumulated, c: Contribution): Accumulated {
    if c.0 in a.sums then Accumulated(a.sums[c.0 := a.sums[c.0] + c.1], a.order)
    else Accumulated(a.sums[c.0 := c.1], a.order + [c.0])
  }

  function Accumulate(cs: seq<Contribution>): (a: Accumulated)
    ensures forall id :: id in a.order <==> id in a.sums
  {
    if cs == [] then Accumulated(map[], []) else AccumulateStep(Accumulate(cs[..|cs| - 1]), cs[|cs| - 1])
  }

  lemma AccumulateSnoc(cs: seq<Contribution>, c: Contribution)
    ensures Accumulate(cs + [c]) == AccumulateStep(Accumulate(cs), c)
  {
    assert (cs + [c])[..|cs|] == cs;
  }

  predicate Distinct(ids: seq<Id>) {
    forall i, j :: 0 <= i < j < |ids| ==> ids[i] != ids[j]
  }

  /**
   * The accumulated sums are the per-tag sums; the key order lists each
   * contributed id once, and nothing else.
   */
  lemma {:induction false} AccumulateMeaning(cs: seq<Contribution>)
    ensures Distinct(Accumulate(cs).order)
    ensures forall id :: id in Accumulate(cs).sums <==> exists k :: 0 <= k < |cs| && cs[k].0 == id
    ensures forall id :: id in Accumulate(cs).sums ==> Accumulate(cs).sums[id] == SumFor(cs, id)
  {
    if cs != [] {
      var init, c := cs[..|cs| - 1], cs[|cs| - 1];
      AccumulateMeaning(init);
      var a := Accumulate(init);
      assert forall k :: 0 <= k < |init| ==> init[k] == cs[k];
      forall id | id !in a.sums ensures SumFor(init, id) == 0 {
        SumForAbsent(init, id);
      }
      forall id ensures id in Accumulate(cs).sums ==> exists k :: 0 <= k < |cs| && cs[k].0 == id {
        if id in Accumulate(cs).sums && id != c.0 {
          var k :| 0 <= k < |init| && init[k].0 == id;
          assert cs[k].0 == id;
        }
      }
    }
  }

  lemma {:induction false} SumForAbsent(cs: seq<Contribution>, id: Id)
    requires forall k :: 0 <= k < |cs| ==> cs[k].0 != id
    ensures SumFor(cs, id) == 0
  {
    if cs != [] {
      var init := cs[..|cs| - 1];
      assert forall k :: 0 <= k < |init| ==> init[k] == cs[k];
      SumForAbsent(init, id);
    }
  }

  /** The tag shown for an entry: the first tag with the id, or the "unknown" placeholder. */
  datatype StatTag = Known(tag: Tag) | Unknown(name: string, color: string)

  /** The placeholder of getFilteredStats for a dangling tag id: the name for "unknown", grey. */
  const UnknownTag: StatTag := Unknown("\U{672A}\U{77E5}", "#666")

  function LookupTag(tags: seq<Tag>, id: Id): (st: StatTag)
    ensures st.Known? ==> st.tag in tags && st.tag.id == id
    ensures st.Unknown? <==> forall t :: t in tags ==> t.id != id
    ensures forall i :: 0 <= i < |tags| && tags[i].id == id && FirstWithId(tags, i) ==> st == Known(tags[i])
  {
    if tags == [] then UnknownTag
    else if tags[0].id == id then Known(tags[0])
    else
      assert forall i :: 1 <= i < |tags| ==> tags[1..][i - 1] == tags[i];
      assert forall i :: 1 <= i < |tags| && FirstWithId(tags, i) ==> FirstWithId(tags[1..], i - 1);
      LookupTag(tags[1..], id)
  }

  /** One entry of the report's `byTag` (its `percent` is left out); `tagId` names the entry. */
  datatype TagEntry = TagEntry(tagId: Id, tag: StatTag, duration: int)

  /** `.filter(not excluded).map(...)` over the accumulated entries, in key order. */
  function Entries(tags: seq<Tag>, a: Accumulated, excluded: set<Id>): (es: seq<TagEntry>)
    requires forall id :: id in a.order ==> id in a.sums
    ensures forall e :: e in es ==>
      e.tagId in a.order && e.tagId !in excluded && e.duration == a.sums[e.tagId] && e.tag == LookupTag(tags, e.tagId)
    ensures forall id :: id in a.order && id !in excluded ==> exists e :: e in es && e.tagId == id
    ensures Distinct(a.order) ==> DistinctBy(es, EntryId)
    decreases |a.order|
  {
    if a.order == [] then []
    else
      var id := a.order[0];
      var rest := Entries(tags, Accumulated(a.sums, a.order[1..]), excluded);
      var head := if id in excluded then [] else [TagEntry(id, LookupTag(tags, id), a.sums[id])];
      assert forall x :: x in a.order ==> x == id || x in a.order[1..];
      assert forall e :: e in head + rest <==> e in head || e in rest;
      assert Distinct(a.order) ==> forall e :: e in rest ==> e.tagId != id;
      head + rest
  }

  function EntryId(e: TagEntry): Id { e.tagId }

  function ByDurationDescending(e: TagEntry): int { -e.duration }

  /** The report's `byTag`: the entries sorted by non-increasing duration, ties in key order. */
  function ByTag(tags: seq<Tag>, rs: seq<Record>, excluded: set<Id>): (es: seq<TagEntry>)
    ensures multiset(es) == multiset(Entries(tags, Accumulate(Contributions(rs)), excluded))
    ensures forall i, j :: 0 <= i < j < |es| ==> es[i].duration >= es[j].duration
  {
    var entries := Entries(tags, Accumulate(Contributions(rs)), excluded);
    SortByFacts(entries, ByDurationDescending);
    SortBy(entries, ByDurationDescending)
  }

  /** The report's per-tag list names each tag id at most once. */
  lemma ByTagDistinct(tags: seq<Tag>, rs: seq<Record>, excluded: set<Id>)
    ensures DistinctBy(ByTag(tags, rs, excluded), EntryId)
  {
    AccumulateMeaning(Contributions(rs));
    SortByDistinct(Entries(tags, Accumulate(Contributions(rs)), excluded), ByDurationDescending, EntryId);
  }

  /** The entries of the per-tag list are exactly the unsorted entries. */
  lemma ByTagMembers(tags: seq<Tag>, rs: seq<Record>, excluded: set<Id>, e: TagEntry)
    ensures e in ByTag(tags, rs, excluded) <==> e in Entries(tags, Accumulate(Contributions(rs)), excluded)
  {
    var entries := Entries(tags, Accumulate(Contributions(rs)), excluded);
    SortByFacts(entries, ByDurationDescending);
    assert e in ByTag(tags, rs, excluded) <==> e in multiset(ByTag(tags, rs, excluded));
    assert e in entries <==> e in multiset(entries);
  }

  /**
   * Each entry is a non-excluded tag with that tag's full time (excluded
   * records included) and the tag found for its id, or the placeholder.
   */
  lemma ByTagEntries(tags: seq<Tag>, rs: seq<Record>, excluded: set<Id>)
    ensures forall e :: e in ByTag(tags, rs, excluded) ==>
      e.tagId !in excluded && e.duration == TagTime(rs, e.tagId) && e.tag == LookupTag(tags, e.tagId)
  {
    AccumulateMeaning(Contributions(rs));
    forall e | e in ByTag(tags, rs, excluded)
      ensures e.tagId !in excluded && e.duration == TagTime(rs, e.tagId) && e.tag == LookupTag(tags, e.tagId)
    {
      ByTagMembers(tags, rs, excluded, e);
      SumForIsTagTime(rs, e.tagId);
    }
  }

  /** Every non-excluded tag id that some record carries has an entry. */
  lemma ByTagComplete(tags: seq<Tag>, rs: seq<Record>, excluded: set<Id>, i: nat, k: nat)
    requires i < |rs| && k < |rs[i].tags| && rs[i].tags[k] !in excluded
    ensures exists e :: e in ByTag(tags, rs, excluded) && e.tagId == rs[i].tags[k]
  {
    var cs := Contributions(rs);
    AccumulateMeaning(cs);
    ContributionOf(rs, i, k);
    var p :| 0 <= p < |cs| && cs[p].0 == rs[i].tags[k];
    assert rs[i].tags[k] in Accumulate(cs).sums;
    var id := rs[i].tags[k];
    var entries := Entries(tags, Accumulate(cs), excluded);
    assert id in Accumulate(cs).order && id !in excluded;
    assert exists e :: e in entries && e.tagId == id;
    var e :| e in Entries(tags, Accumulate(cs), excluded) && e.tagId == rs[i].tags[k];
    ByTagMembers(tags, rs, excluded, e);
  }

  /** A tag carried by a record contributes to the flattened list. */
  lemma {:induction false} ContributionOf(rs: seq<Record>, i: nat, k: nat)
    requires i < |rs| && k < |rs[i].tags|
    ensures exists p :: 0 <= p < |Contributions(rs)| && Contributions(rs)[p].0 == rs[i].tags[k]
  {
    var init, last := rs[..|rs| - 1], rs[|rs| - 1];
    var cs := Contributions(rs);
    assert cs == Contributions(init) + Pairs(last);
    if i == |rs| - 1 {
      assert cs[|Contributions(init)| + k] == Pairs(last)[k];
    } else {
      assert init[i] == rs[i];
      ContributionOf(init, i, k);
      var p :| 0 <= p < |Contributions(init)| && Contributions(init)[p].0 == rs[i].tags[k];
      assert cs[p] == Contributions(init)[p];
    }
  }

  /**
   * The report example: work 3600 s and game 1800 s with game excluded gives
   * a total of 3600 s, and the per-tag list has work's entry but not game's.
   */
  lemma ExcludedTagExample()
    ensures var work := Tag("w", "work", "#7dd3fc", false);
      var game := Tag("g", "game", "#34d399", true);
      var rs := [Record("r1", "", ["w"], 0, 3600000, 3600), Record("r2", "", ["g"], 0, 1800000, 1800)];
      var excluded := ExcludedIds([work, game], []);
      && IncludedTotal(rs, excluded) == 3600 && TagTime(rs, "g") == 1800
      && (forall e :: e in ByTag([work, game], rs, excluded) ==> e.tagId != "g")
      && (exists e :: e in ByTag([work, game], rs, excluded) && e.tagId == "w")
  {
    var work := Tag("w", "work", "#7dd3fc", false);
    var game := Tag("g", "game", "#34d399", true);
    var rs := [Record("r1", "", ["w"], 0, 3600000, 3600), Record("r2", "", ["g"], 0, 1800000, 1800)];
    var excluded := ExcludedIds([work, game], []);
    assert game in [work, game];
    assert "g" in excluded && "w" !in excluded;
    assert rs[..1] == [rs[0]] && [rs[0]][..0] == [];
    assert HasExcludedTag(rs[1], excluded) by { assert rs[1].tags[0] in excluded; }
    assert !HasExcludedTag(rs[0], excluded);
    assert IncludedTotal([rs[0]], excluded) == 3600;
    assert ["g"][..0] == [] && ["w"][..0] == [];
    assert Occurrences(["g"], "g") == 1 && Occurrences(["w"], "g") == 0;
    assert TagTime([rs[0]], "g") == 0;
    ByTagEntries([work, game], rs, excluded);
    assert rs[0].tags[0] == "w";
    ByTagComplete([work, game], rs, excluded, 0, 0);
  }
}
