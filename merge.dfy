/**
 * importDataMerge: imported tags are merged into the existing ones by
 * case-insensitive name, and imported records are appended unless their id
 * was already stored, with their tag ids rewritten through the name mapping.
 */
module Merge {
  import opened Records

  function LowerChar(c: char): char {
    if 'A' <= c <= 'Z' then (c as int + 32) as char else c
  }

  /** `toLowerCase()` on the ASCII letters. */
  function Lower(s: string): (r: string)
    ensures |r| == |s| && forall i :: 0 <= i < |s| ==> r[i] == LowerChar(s[i])
  {
    seq(|s|, i requires 0 <= i < |s| => LowerChar(s[i]))
  }

  function TagIds(tags: seq<Tag>): set<Id> {
    set t | t in tags :: t.id
  }

  /** `existingTagsByName`: each lowercased name maps to the last tag carrying it. */
  function NameIndex(tags: seq<Tag>): (m: map<string, Tag>)
    ensures forall k :: k in m ==> m[k] in tags && Lower(m[k].name) == k
    ensures forall t :: t in tags ==> Lower(t.name) in m
  {
    if tags == [] then map[]
    else
      var init, last := tags[..|tags| - 1], tags[|tags| - 1];
      assert tags == init + [last];
      NameIndex(init)[Lower(last.name) := last]
  }

  /** Indexing one more tag overwrites the entry of its lowercased name. */
  lemma NameIndexStep(tags: seq<Tag>, i: nat)
    requires i < |tags|
    ensures NameIndex(tags[..i + 1]) == NameIndex(tags[..i])[Lower(tags[i].name) := tags[i]]
  {
    var pre := tags[..i + 1];
    assert pre[..|pre| - 1] == tags[..i] && pre[|pre| - 1] == tags[i];
  }

  /** The state of the tag loop: the tag list, the name index, the id mapping and `addedTags`. */
  datatype TagMerge = TagMerge(tags: seq<Tag>, byName: map<string, Tag>, mapping: map<Id, Id>, added: nat)

  /** Tags appended by the merge carry names new to the list, pairwise distinct ignoring case. */
  predicate FreshNames(existing: seq<Tag>, tags: seq<Tag>)
    requires |existing| <= |tags|
  {
    && (forall i, j :: |existing| <= i < j < |tags| ==> Lower(tags[i].name) != Lower(tags[j].name))
    && (forall i, j :: 0 <= j < |existing| <= i < |tags| ==> Lower(tags[i].name) != Lower(existing[j].name))
  }

  predicate IndexSound(m: TagMerge) {
    && (forall k :: k in m.byName ==> m.byName[k] in m.tags && Lower(m.byName[k].name) == k)
    && (forall t :: t in m.tags ==> Lower(t.name) in m.byName)
  }

  predicate TagMergeInv(existing: seq<Tag>, m: TagMerge) {
    && |m.tags| == |existing| + m.added
    && m.tags[..|existing|] == existing
    && FreshNames(existing, m.tags)
    && IndexSound(m)
    && (forall id :: id in m.mapping ==> m.mapping[id] in TagIds(m.tags))
  }

  /** One iteration of the tag loop for import tag t. */
  function MergeStep(m: TagMerge, t: Tag): TagMerge {
    var key := Lower(t.name);
    if key in m.byName then m.(mapping := m.mapping[t.id := m.byName[key].id])
    else TagMerge(m.tags + [t], m.byName[key := t], m.mapping[t.id := t.id], m.added + 1)
  }

  lemma MergeStepFresh(existing: seq<Tag>, m: TagMerge, t: Tag)
    requires TagMergeInv(existing, m) && Lower(t.name) !in m.byName
    ensures FreshNames(existing, m.tags + [t])
  {
    var tags' := m.tags + [t];
    forall i, j | 0 <= j < |existing| <= i < |tags'| ensures Lower(tags'[i].name) != Lower(existing[j].name) {
      assert existing[j] == m.tags[j];
      if i < |m.tags| { assert tags'[i] == m.tags[i]; }
    }
    forall i, j | |existing| <= i < j < |tags'| ensures Lower(tags'[i].name) != Lower(tags'[j].name) {
      assert tags'[i] == m.tags[i] && tags'[i] in m.tags;
      if j < |m.tags| { assert tags'[j] == m.tags[j]; }
    }
  }

  lemma MergeStepInv(existing: seq<Tag>, m: TagMerge, t: Tag)
    requires TagMergeInv(existing, m)
    ensures TagMergeInv(existing, MergeStep(m, t))
    ensures t.id in MergeStep(m, t).mapping && Lower(t.name) in MergeStep(m, t).byName
    ensures MergeStep(m, t).tags == m.tags || MergeStep(m, t).tags == m.tags + [t]
    ensures forall k :: k in m.byName ==> k in MergeStep(m, t).byName && MergeStep(m, t).byName[k] == m.byName[k]
  {
    var key := Lower(t.name);
    if key !in m.byName {
      var tags' := m.tags + [t];
      assert tags'[..|existing|] == existing;
      MergeStepFresh(existing, m, t);
      assert TagIds(tags') == TagIds(m.tags) + {t.id};
    }
  }

  /**
   * The tag loop of importDataMerge over the imports seen so far: a tag whose
   * lowercased name is already indexed maps to the indexed tag's id; any other
   * is appended, indexed, maps to itself and counts as added.
   */
  function MergeTags(existing: seq<Tag>, imports: seq<Tag>): (m: TagMerge)
    ensures TagMergeInv(existing, m)
  {
    if imports == [] then
      TagMerge(existing, NameIndex(existing), map[], 0)
    else
      var init, t := imports[..|imports| - 1], imports[|imports| - 1];
      assert imports == init + [t];
      var m := MergeTags(existing, init);
      MergeStepInv(existing, m, t);
      MergeStep(m, t)
  }

  /** Every imported tag ends up mapped, and its name indexed. */
  lemma {:induction false} MergeTagsMapsAll(existing: seq<Tag>, imports: seq<Tag>)
    ensures forall t :: t in imports ==>
      t.id in MergeTags(existing, imports).mapping && Lower(t.name) in MergeTags(existing, imports).byName
  {
    if imports != [] {
      var init, t := imports[..|imports| - 1], imports[|imports| - 1];
      assert imports == init + [t];
      MergeTagsMapsAll(existing, init);
      var m := MergeTags(existing, init);
      MergeStepInv(existing, m, t);
    }
  }

  /** Only imported tags are appended. */
  lemma {:induction false} MergeTagsAppendsImports(existing: seq<Tag>, imports: seq<Tag>)
    ensures forall i :: |existing| <= i < |MergeTags(existing, imports).tags| ==>
      MergeTags(existing, imports).tags[i] in imports
  {
    if imports != [] {
      var init, t := imports[..|imports| - 1], imports[|imports| - 1];
      assert imports == init + [t];
      MergeTagsAppendsImports(existing, init);
      var m := MergeTags(existing, init);
      MergeStepInv(existing, m, t);
      var tags' := MergeTags(existing, imports).tags;
      forall i | |existing| <= i < |tags'| ensures tags'[i] in imports {
        if i < |m.tags| {
          assert tags'[i] == m.tags[i] && m.tags[i] in init;
        } else {
          assert tags'[i] == t;
        }
      }
    }
  }

  /**
   * The index only grows while importing: an entry, once made (from the
   * existing tags or an earlier import), is never replaced.
   */
  lemma {:induction false} MergeTagsIndexGrows(existing: seq<Tag>, imports: seq<Tag>, i: nat)
    requires i <= |imports|
    ensures var before, after := MergeTags(existing, imports[..i]).byName, MergeTags(existing, imports).byName;
      forall k :: k in before ==> k in after && after[k] == before[k]
  {
    if i < |imports| {
      var init := imports[..|imports| - 1];
      assert imports == init + [imports[|imports| - 1]];
      assert init[..i] == imports[..i];
      MergeTagsIndexGrows(existing, init, i);
      MergeStepInv(existing, MergeTags(existing, init), imports[|imports| - 1]);
    } else {
      assert imports[..i] == imports;
    }
  }

  /** Id `id` maps to the id of the indexed tag under `key`, which is a merged tag with that lowercased name. */
  predicate MapsByName(m: TagMerge, id: Id, key: string) {
    id in m.mapping && key in m.byName && m.mapping[id] == m.byName[key].id
    && m.byName[key] in m.tags && Lower(m.byName[key].name) == key
  }

  /** The tag just merged maps by its own name. */
  lemma MergeStepMapsByName(existing: seq<Tag>, m: TagMerge, t: Tag)
    requires TagMergeInv(existing, m)
    ensures MapsByName(MergeStep(m, t), t.id, Lower(t.name))
  {
    MergeStepInv(existing, m, t);
  }

  /** A later tag with another id leaves an earlier mapping by name in place. */
  lemma MergeStepKeepsMapsByName(existing: seq<Tag>, m: TagMerge, t: Tag, id: Id, key: string)
    requires TagMergeInv(existing, m) && MapsByName(m, id, key) && id != t.id
    ensures MapsByName(MergeStep(m, t), id, key)
  {
    MergeStepInv(existing, m, t);
  }

  /**
   * Each imported tag id (its last occurrence, since later ones overwrite the
   * mapping) maps to the id of the merged tag bearing the same name, ignoring case.
   */
  lemma {:induction false} MergeTagsMapsByName(existing: seq<Tag>, imports: seq<Tag>, i: nat)
    requires i < |imports|
    requires forall j :: i < j < |imports| ==> imports[j].id != imports[i].id
    ensures var m := MergeTags(existing, imports);
      var key := Lower(imports[i].name);
      imports[i].id in m.mapping && key in m.byName && m.mapping[imports[i].id] == m.byName[key].id
      && m.byName[key] in m.tags && Lower(m.byName[key].name) == key
  {
    var init, last := imports[..|imports| - 1], imports[|imports| - 1];
    assert imports == init + [last];
    var m := MergeTags(existing, init);
    if i < |imports| - 1 {
      assert forall j :: i < j < |init| ==> init[j] == imports[j];
      assert init[i] == imports[i];
      MergeTagsMapsByName(existing, init, i);
      MergeStepKeepsMapsByName(existing, m, last, imports[i].id, Lower(imports[i].name));
    } else {
      MergeStepMapsByName(existing, m, last);
    }
  }

  /** `tagIdMapping[tagId] || tagId`: an unmapped id (or one mapped to '') passes through. */
  function RemapTag(mapping: map<Id, Id>, id: Id): (r: Id)
    ensures id in mapping && mapping[id] != "" ==> r == mapping[id]
    ensures r == id || (id in mapping && r == mapping[id])
    ensures id != "" ==> r != ""
  {
    if id in mapping && mapping[id] != "" then mapping[id] else id
  }

  function Remap(r: Record, mapping: map<Id, Id>): (r': Record)
    ensures r' == r.(tags := r'.tags) && |r'.tags| == |r.tags|
    ensures forall i :: 0 <= i < |r.tags| ==> r'.tags[i] == RemapTag(mapping, r.tags[i])
  {
    r.(tags := seq(|r.tags|, i requires 0 <= i < |r.tags| => RemapTag(mapping, r.tags[i])))
  }

  /**
   * The record loop of importDataMerge: records whose id was stored before the
   * import are skipped (the id set is not updated during the loop); every
   * other is appended with its tags remapped.
   */
  function MergeRecords(storedIds: set<Id>, mapping: map<Id, Id>, imports: seq<Record>): (added: seq<Record>)
    ensures |added| <= |imports|
    ensures forall a :: a in added ==> a.id !in storedIds
  {
    if imports == [] then []
    else
      var init, r := imports[..|imports| - 1], imports[|imports| - 1];
      MergeRecords(storedIds, mapping, init) + (if r.id in storedIds then [] else [Remap(r, mapping)])
  }

  /**
   * The appended records are exactly the remapped imports whose id was not
   * stored before the import.
   */
  lemma {:induction false} MergeRecordsMembers(storedIds: set<Id>, mapping: map<Id, Id>, imports: seq<Record>)
    ensures forall a :: a in MergeRecords(storedIds, mapping, imports) ==>
      exists r :: r in imports && r.id !in storedIds && a == Remap(r, mapping)
    ensures forall r :: r in imports && r.id !in storedIds ==> Remap(r, mapping) in MergeRecords(storedIds, mapping, imports)
  {
    if imports != [] {
      var init, r := imports[..|imports| - 1], imports[|imports| - 1];
      assert imports == init + [r];
      MergeRecordsMembers(storedIds, mapping, init);
    }
  }

  /** One more import appends at most its own remapped record. */
  lemma MergeRecordsSnoc(storedIds: set<Id>, mapping: map<Id, Id>, rs: seq<Record>, r: Record)
    ensures MergeRecords(storedIds, mapping, rs + [r])
      == MergeRecords(storedIds, mapping, rs) + (if r.id in storedIds then [] else [Remap(r, mapping)])
  {
    var xs := rs + [r];
    assert xs[..|xs| - 1] == rs && xs[|xs| - 1] == r;
  }

  /** The inductive step of MergeRecordsAppend: one more import on the right of both sides. */
  lemma MergeRecordsAppendStep(storedIds: set<Id>, mapping: map<Id, Id>, a: seq<Record>, init: seq<Record>, r: Record)
    requires MergeRecords(storedIds, mapping, a + init)
      == MergeRecords(storedIds, mapping, a) + MergeRecords(storedIds, mapping, init)
    ensures MergeRecords(storedIds, mapping, (a + init) + [r])
      == MergeRecords(storedIds, mapping, a) + MergeRecords(storedIds, mapping, init + [r])
  {
    var tail := if r.id in storedIds then [] else [Remap(r, mapping)];
    var left, mid := MergeRecords(storedIds, mapping, a), MergeRecords(storedIds, mapping, init);
    MergeRecordsSnoc(storedIds, mapping, a + init, r);
    MergeRecordsSnoc(storedIds, mapping, init, r);
    assert (left + mid) + tail == left + (mid + tail);
  }

  /** Records are appended in import order: merging a concatenation merges each part in turn. */
  lemma {:induction false} MergeRecordsAppend(storedIds: set<Id>, mapping: map<Id, Id>, a: seq<Record>, b: seq<Record>)
    ensures MergeRecords(storedIds, mapping, a + b)
      == MergeRecords(storedIds, mapping, a) + MergeRecords(storedIds, mapping, b)
    decreases |b|
  {
    if b == [] {
      assert a + b == a;
    } else {
      var init, r := b[..|b| - 1], b[|b| - 1];
      assert b == init + [r];
      assert a + b == (a + init) + [r];
      MergeRecordsAppend(storedIds, mapping, a, init);
      MergeRecordsAppendStep(storedIds, mapping, a, init, r);
    }
  }

  function RecordIds(rs: seq<Record>): set<Id> {
    set r | r in rs :: r.id
  }

  /** Imported tags whose names are all known (ignoring case) add nothing to the tag list. */
  lemma {:induction false} MergeTagsKnownNames(existing: seq<Tag>, imports: seq<Tag>)
    requires forall t :: t in imports ==> Lower(t.name) in NameIndex(existing)
    ensures MergeTags(existing, imports).tags == existing && MergeTags(existing, imports).added == 0
  {
    if imports != [] {
      var init, t := imports[..|imports| - 1], imports[|imports| - 1];
      assert imports == init + [t];
      MergeTagsKnownNames(existing, init);
      MergeTagsIndexGrows(existing, init, 0);
      assert init[..0] == [];
    }
  }

  /** Imported records whose ids are all stored add nothing to the record list. */
  lemma {:induction false} MergeRecordsKnownIds(storedIds: set<Id>, mapping: map<Id, Id>, imports: seq<Record>)
    requires forall r :: r in imports ==> r.id in storedIds
    ensures MergeRecords(storedIds, mapping, imports) == []
  {
    if imports != [] {
      var init := imports[..|imports| - 1];
      assert imports == init + [imports[|imports| - 1]];
      MergeRecordsKnownIds(storedIds, mapping, init);
    }
  }

  /**
   * Merge-importing a snapshot of the same store (its own tags and some of
   * its records, as an export produces) adds no tag and no record.
   */
  lemma ImportOwnSnapshotAddsNothing(tags: seq<Tag>, records: seq<Record>, snapTags: seq<Tag>, snapRecords: seq<Record>)
    requires forall t :: t in snapTags ==> t in tags
    requires forall r :: r in snapRecords ==> r in records
    ensures var m := MergeTags(tags, snapTags);
      m.added == 0 && m.tags == tags
      && MergeRecords(RecordIds(records), m.mapping, snapRecords) == []
  {
    MergeTagsKnownNames(tags, snapTags);
    MergeRecordsKnownIds(RecordIds(records), MergeTags(tags, snapTags).mapping, snapRecords);
  }
}
