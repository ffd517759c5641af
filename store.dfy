/**
 * The data manager's record and tag store. The two stored lists (each read
 * and written whole in the source) are the fields of one object; every
 * operation reads them, and the editing operations assign them.
 */
module Store {
  import opened Options
  import opened Intervals
  import opened Records
  import opened Conflicts
  import opened Merge
  import opened Stats

  class RecordStore {
    var records: seq<Record>
    var tags: seq<Tag>

    constructor (records0: seq<Record>, tags0: seq<Tag>)
      ensures records == records0 && tags == tags0
    {
      records := records0;
      tags := tags0;
    }

    /** addRecord: appends a copy of the given fields under a new id and returns it. */
    method AddRecord(newId: Id, description: string, recordTags: seq<Id>, startTime: int, endTime: int, duration: int)
      returns (added: Record)
      modifies this
      ensures added == Record(newId, description, recordTags, startTime, endTime, duration)
      ensures records == old(records) + [added]
      ensures tags == old(tags)
    {
      added := Record(newId, description, recordTags, startTime, endTime, duration);
      records := records + [added];
    }

    /** deleteRecord: keeps every record whose id differs. */
    method DeleteRecord(id: Id)
      modifies this
      ensures records == Without(old(records), id)
      ensures tags == old(tags)
    {
      records := Without(records, id);
    }

    /** getRecordById: the first record with the id, if any. */
    method GetRecordById(id: Id) returns (found: Option<Record>)
      ensures found.None? <==> !HasId(records, id)
      ensures found.Some? ==> found.value.id == id && found.value == records[FirstIndex(records, id)]
    {
      var index := FirstIndex(records, id);
      if index == -1 {
        found := None;
      } else {
        found := Some(records[index]);
      }
    }

    /**
     * updateRecord: overwrites the given fields of the first record with the
     * id (recomputing the duration when a bound is given) and returns it;
     * with no such record it returns nothing and saves nothing.
     */
    method UpdateRecord(id: Id, updates: RecordUpdate) returns (updated: Option<Record>)
      modifies this
      ensures !HasId(old(records), id) ==> updated.None? && records == old(records)
      ensures HasId(old(records), id) ==>
        var index := FirstIndex(old(records), id);
        updated == Some(ApplyUpdate(old(records)[index], updates))
        && records == old(records)[index := updated.value]
      ensures tags == old(tags)
    {
      var index := FirstIndex(records, id);
      if index != -1 {
        var r := ApplyUpdate(records[index], updates);
        records := records[index := r];
        updated := Some(r);
      } else {
        updated := None;
      }
    }

    /** detectConflicts: one entry per stored record overlapping [start, end), the edited id skipped. */
    method DetectConflicts(recordId: Id, start: int, end: int) returns (conflicts: seq<Conflict>)
      ensures conflicts == ConflictsIn(records, recordId, start, end)
    {
      conflicts := [];
      for i := 0 to |records|
        invariant conflicts == ConflictsIn(records[..i], recordId, start, end)
      {
        var record := records[i];
        assert records[..i + 1][..i] == records[..i];
        if record.id != recordId && start < record.endTime && end > record.startTime {
          var overlapStart := Max(start, record.startTime);
          var overlapEnd := Min(end, record.endTime);
          var overlapDuration := RoundSeconds(overlapEnd - overlapStart);
          conflicts := conflicts + [Conflict(record, overlapStart, overlapEnd, overlapDuration)];
        }
      }
      assert records[..|records|] == records;
    }

    /**
     * splitRecordToRemoveOverlap, corrected: with either id missing nothing
     * happens; when the two stored intervals overlap, the edited record is
     * replaced by its fragments with positive duration, after every other
     * record; when they do not, the record is kept as it is.
     */
    method SplitRecordToRemoveOverlap(recordId: Id, conflictId: Id, id1: Id, id2: Id)
      returns (kept: Option<seq<Record>>)
      modifies this
      ensures !HasId(old(records), recordId) || !HasId(old(records), conflictId) ==>
        kept.None? && records == old(records)
      ensures HasId(old(records), recordId) && HasId(old(records), conflictId) ==>
        var record := old(records)[FirstIndex(old(records), recordId)];
        var conflict := old(records)[FirstIndex(old(records), conflictId)];
        kept == Some(Split(record, conflict, id1, id2))
        && records == (if Overlaps(record.startTime, record.endTime, conflict.startTime, conflict.endTime)
                       then Without(old(records), recordId) + kept.value
                       else old(records))
      ensures tags == old(tags)
    {
      var ri := FirstIndex(records, recordId);
      var ci := FirstIndex(records, conflictId);
      if ri == -1 || ci == -1 {
        return None;
      }
      var record, conflict := records[ri], records[ci];
      if !Overlaps(record.startTime, record.endTime, conflict.startTime, conflict.endTime) {
        return Some([record]);
      }
      var filtered := Without(records, recordId);
      var valid := SplitAsWritten(record, conflict, id1, id2);
      records := filtered + valid;
      kept := Some(valid);
    }

    /**
     * importDataMerge: merges the imported tags by case-insensitive name,
     * appends the imported records whose ids were not stored (tags remapped),
     * and returns how many records and tags were added.
     */
    method ImportDataMerge(importTags: seq<Tag>, importRecords: seq<Record>)
      returns (addedRecords: nat, addedTags: nat)
      modifies this
      ensures tags == MergeTags(old(tags), importTags).tags
      ensures addedTags == MergeTags(old(tags), importTags).added
      ensures records == old(records)
        + MergeRecords(RecordIds(old(records)), MergeTags(old(tags), importTags).mapping, importRecords)
      ensures addedRecords
        == |MergeRecords(RecordIds(old(records)), MergeTags(old(tags), importTags).mapping, importRecords)|
    {
      var existingRecords := records;
      var existingTags := tags;
      var existingRecordIds := RecordIds(records);
      var byName := IndexByName(existingTags);
      var mapping;
      existingTags, byName, mapping, addedTags := MergeTagLoop(existingTags, byName, importTags);
      var appended;
      appended, addedRecords := MergeRecordLoop(existingRecordIds, mapping, importRecords);
      existingRecords := existingRecords + appended;
      records := existingRecords;
      tags := existingTags;
    }

    /** getStatsByTags: per known tag its time and record count, and the total of all durations. */
    method GetStatsByTags(rs: seq<Record>) returns (byTag: map<Id, TagStat>, total: int)
      ensures byTag == Tally(InitialStats(tags), Contributions(rs))
      ensures total == TotalDuration(rs)
    {
      var stats := ZeroStats(tags);
      ghost var initial := stats;
      total := 0;
      for i := 0 to |rs|
        invariant stats == Tally(initial, Contributions(rs[..i]))
        invariant total == TotalDuration(rs[..i])
      {
        var record := rs[i];
        assert rs[..i + 1][..i] == rs[..i];
        total := total + record.duration;
        TallyAppend(initial, Contributions(rs[..i]), Pairs(record));
        stats := TallyRecord(stats, record);
      }
      assert rs[..|rs|] == rs;
      byTag := stats;
    }
  }

  /** The first loop of getStatsByTags: every tag at zero. */
  method ZeroStats(tags: seq<Tag>) returns (stats: map<Id, TagStat>)
    ensures stats == InitialStats(tags)
  {
    stats := map[];
    for i := 0 to |tags|
      invariant stats == InitialStats(tags[..i])
    {
      assert tags[..i + 1][..i] == tags[..i];
      stats := stats[tags[i].id := TagStat(tags[i], 0, 0)];
    }
    assert tags[..|tags|] == tags;
  }

  /** The inner loop of getStatsByTags: one record's tags, unknown ids ignored. */
  method TallyRecord(stats0: map<Id, TagStat>, record: Record) returns (stats: map<Id, TagStat>)
    ensures stats == Tally(stats0, Pairs(record))
  {
    stats := stats0;
    for j := 0 to |record.tags|
      invariant stats == Tally(stats0, Pairs(record)[..j])
    {
      var tagId := record.tags[j];
      assert Pairs(record)[..j + 1][..j] == Pairs(record)[..j];
      if tagId in stats {
        stats := stats[tagId := stats[tagId].(duration := stats[tagId].duration + record.duration,
                                              count := stats[tagId].count + 1)];
      }
    }
    assert Pairs(record)[..|record.tags|] == Pairs(record);
  }

  /** `existingTagsByName`: the lowercased name of each tag, the last tag winning. */
  method IndexByName(existingTags: seq<Tag>) returns (byName: map<string, Tag>)
    ensures byName == NameIndex(existingTags)
  {
    byName := map[];
    for i := 0 to |existingTags|
      invariant byName == NameIndex(existingTags[..i])
    {
      NameIndexStep(existingTags, i);
      byName := byName[Lower(existingTags[i].name) := existingTags[i]];
    }
    assert existingTags[..|existingTags|] == existingTags;
  }

  /** The tag loop of importDataMerge, from the existing tags and their name index. */
  method MergeTagLoop(existingTags: seq<Tag>, byName0: map<string, Tag>, importTags: seq<Tag>)
    returns (tags: seq<Tag>, byName: map<string, Tag>, mapping: map<Id, Id>, addedTags: nat)
    requires byName0 == NameIndex(existingTags)
    ensures TagMerge(tags, byName, mapping, addedTags) == MergeTags(existingTags, importTags)
  {
    tags, byName, mapping, addedTags := existingTags, byName0, map[], 0;
    for i := 0 to |importTags|
      invariant TagMerge(tags, byName, mapping, addedTags) == MergeTags(existingTags, importTags[..i])
    {
      var importTag := importTags[i];
      assert importTags[..i + 1][..i] == importTags[..i];
      var key := Lower(importTag.name);
      if key in byName {
        mapping := mapping[importTag.id := byName[key].id];
      } else {
        tags := tags + [importTag];
        byName := byName[key := importTag];
        mapping := mapping[importTag.id := importTag.id];
        addedTags := addedTags + 1;
      }
    }
    assert importTags[..|importTags|] == importTags;
  }

  /** The record loop of importDataMerge: what is appended, and `addedRecords`. */
  method MergeRecordLoop(existingRecordIds: set<Id>, mapping: map<Id, Id>, importRecords: seq<Record>)
    returns (appended: seq<Record>, addedRecords: nat)
    ensures appended == MergeRecords(existingRecordIds, mapping, importRecords)
    ensures addedRecords == |appended|
  {
    appended, addedRecords := [], 0;
    for i := 0 to |importRecords|
      invariant appended == MergeRecords(existingRecordIds, mapping, importRecords[..i])
      invariant addedRecords == |appended|
    {
      var record := importRecords[i];
      assert importRecords[..i + 1][..i] == importRecords[..i];
      if record.id !in existingRecordIds {
        appended := appended + [Remap(record, mapping)];
        addedRecords := addedRecords + 1;
      }
    }
    assert importRecords[..|importRecords|] == importRecords;
  }

  /** Deleting a record just added under a fresh id restores the store. */
  lemma AddThenDeleteRestores(rs: seq<Record>, r: Record)
    requires !HasId(rs, r.id)
    ensures Without(rs + [r], r.id) == rs
  {
    assert (rs + [r])[..|rs|] == rs;
    WithoutKeepsOthers(rs, r.id);
  }

  /** Adding under a fresh id keeps record ids unique. */
  lemma AddFreshKeepsUnique(rs: seq<Record>, r: Record)
    requires UniqueIds(rs) && !HasId(rs, r.id)
    ensures UniqueIds(rs + [r])
  {
    forall x | x in rs ensures x.id != r.id {
      var k :| 0 <= k < |rs| && rs[k] == x;
    }
    AppendUnique(rs, [r]);
  }

  /** Updating a record in place keeps its id, so record ids stay unique and the others are untouched. */
  lemma UpdateKeepsUnique(rs: seq<Record>, id: Id, u: RecordUpdate)
    requires UniqueIds(rs) && HasId(rs, id)
    ensures var k := FirstIndex(rs, id);
      && UniqueIds(rs[k := ApplyUpdate(rs[k], u)])
      && forall j :: 0 <= j < |rs| && rs[j].id != id ==> rs[k := ApplyUpdate(rs[k], u)][j] == rs[j]
  {
    var k := FirstIndex(rs, id);
    var out := rs[k := ApplyUpdate(rs[k], u)];
    assert forall j :: 0 <= j < |rs| ==> out[j].id == rs[j].id;
  }

  /**
   * The stored-id set is taken once before the record loop, so two imported
   * records sharing an id that was not stored are both appended.
   */
  lemma DuplicateImportsBothAppended(mapping: map<Id, Id>, r: Record)
    requires r.tags == []
    ensures MergeRecords({}, mapping, [r, r]) == [r, r]
  {
    assert [r, r][..1] == [r] && [r][..0] == [];
    assert Remap(r, mapping) == r;
  }

  /** Splitting with two new ids keeps record ids unique and leaves the conflicting record in place. */
  lemma SplitKeepsStoreConsistent(rs: seq<Record>, i: nat, j: nat, id1: Id, id2: Id)
    requires UniqueIds(rs) && i < |rs| && j < |rs| && i != j
    requires !HasId(rs, id1) && !HasId(rs, id2) && id1 != id2
    ensures UniqueIds(Without(rs, rs[i].id) + Split(rs[i], rs[j], id1, id2))
    ensures rs[j] in Without(rs, rs[i].id) + Split(rs[i], rs[j], id1, id2)
  {
    var rest := Without(rs, rs[i].id);
    var pieces := Split(rs[i], rs[j], id1, id2);
    WithoutUnique(rs, rs[i].id);
    SplitIds(rs[i], rs[j], id1, id2);
    assert UniqueIds(pieces);
    forall x, y | x in rest && y in pieces ensures x.id != y.id {
      var k :| 0 <= k < |pieces| && pieces[k] == y;
      var p :| 0 <= p < |rs| && rs[p] == x;
    }
    AppendUnique(rest, pieces);
    assert rs[j] in rs;
  }

  /** The corrected split yields the record itself or fragments carrying the new ids in order. */
  lemma SplitIds(r: Record, c: Record, id1: Id, id2: Id)
    ensures |Split(r, c, id1, id2)| <= 2
    ensures Split(r, c, id1, id2) == [r]
      || (forall k :: 0 <= k < |Split(r, c, id1, id2)| ==> Split(r, c, id1, id2)[k].id in {id1, id2})
    ensures |Split(r, c, id1, id2)| == 2 ==> Split(r, c, id1, id2)[0].id == id1 && Split(r, c, id1, id2)[1].id == id2
  {
  }
}
