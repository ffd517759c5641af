/**
 * The application state that the record modal and the timer change: the
 * keyboard focus of the record modal, the running timer, and the report
 * statistics computed over the stored tags and the hand-excluded tags.
 */
module App {
  import opened Options
  import opened Intervals
  import opened Records
  import opened Sorting
  import opened Stats
  import opened Store

  /** `state.keyboardSection`. */
  datatype Section = Desc | Tags

  /** The keys handleModalKeyboard reacts to; `Enter` carries its modifier keys. */
  datatype Key = ArrowUp | ArrowDown | ArrowLeft | ArrowRight | Space | LetterN | Enter(ctrl: bool, shift: bool) | OtherKey

  /** What a handled key asks the page to do besides moving the focus. */
  datatype Effect = NoEffect | ClickTag(index: nat) | OpenTagModal | StartTimer

  /** `state.keyboardSection` and `state.tagFocusIndex`. */
  datatype Focus = Focus(section: Section, index: int)

  datatype KeyOutcome = KeyOutcome(focus: Focus, handled: bool, effect: Effect)

  /** Left arrow: one tag back, from the first (or none) to the last. */
  function FocusLeft(index: int, tagCount: nat): int
    requires tagCount > 0
  {
    if index > 0 then index - 1 else tagCount - 1
  }

  /** Right arrow: one tag on, from the last (or beyond) to the first. */
  function FocusRight(index: int, tagCount: nat): int
    requires tagCount > 0
  {
    if index < tagCount - 1 then index + 1 else 0
  }

  /**
   * handleModalKeyboard with the record modal open: the new focus, whether
   * the key was consumed, and the follow-up action. `descFocused` says
   * whether the description input has the page focus.
   */
  function ModalKey(f: Focus, key: Key, tagCount: nat, descFocused: bool): (o: KeyOutcome)
    ensures !o.handled ==> o.focus == f && o.effect == NoEffect
    ensures key == OtherKey ==> !o.handled
    ensures o.focus.section != f.section ==> key == ArrowUp || key == ArrowDown
    ensures o.effect.ClickTag? ==> key == Space && f.section == Tags && o.effect.index == f.index && f.index < tagCount
    ensures o.effect == StartTimer ==> key == Enter(false, false) && f.section != Desc
    ensures o.effect == OpenTagModal ==> key == LetterN && (f.section == Tags || !descFocused)
  {
    match key
    case ArrowUp =>
      if f.section == Tags then KeyOutcome(Focus(Desc, -1), true, NoEffect) else KeyOutcome(f, false, NoEffect)
    case ArrowDown =>
      if f.section == Desc then KeyOutcome(Focus(Tags, if tagCount > 0 then 0 else -1), true, NoEffect)
      else KeyOutcome(f, false, NoEffect)
    case ArrowLeft =>
      if f.section == Tags && tagCount > 0 then KeyOutcome(f.(index := FocusLeft(f.index, tagCount)), true, NoEffect)
      else KeyOutcome(f, false, NoEffect)
    case ArrowRight =>
      if f.section == Tags && tagCount > 0 then KeyOutcome(f.(index := FocusRight(f.index, tagCount)), true, NoEffect)
      else KeyOutcome(f, false, NoEffect)
    case Space =>
      if f.section == Tags && f.index >= 0 then
        KeyOutcome(f, true, if f.index < tagCount then ClickTag(f.index) else NoEffect)
      else KeyOutcome(f, false, NoEffect)
    case LetterN =>
      if f.section == Tags || !descFocused then KeyOutcome(f, true, OpenTagModal) else KeyOutcome(f, false, NoEffect)
    case Enter(ctrl, shift) =>
      if !ctrl && !shift && f.section != Desc then KeyOutcome(f, true, StartTimer) else KeyOutcome(f, false, NoEffect)
    case OtherKey => KeyOutcome(f, false, NoEffect)
  }

  /**
   * The focus states the modal can be in for tagCount tags: none in the
   * description, and in the tag row either none or an existing tag.
   */
  predicate FocusValid(f: Focus, tagCount: nat) {
    && (f.section == Desc ==> f.index == -1)
    && (f.section == Tags ==> f.index == -1 || 0 <= f.index < tagCount)
  }

  /**
   * Every key keeps the focus valid, also when tags were added since the
   * last key (the tag modal only adds tags).
   */
  lemma ModalKeyKeepsFocusValid(f: Focus, key: Key, tagCount: nat, tagCount': nat, descFocused: bool)
    requires FocusValid(f, tagCount) && tagCount <= tagCount'
    ensures FocusValid(ModalKey(f, key, tagCount', descFocused).focus, tagCount')
  {
  }

  /** With a valid focus, Space on a focused tag always clicks an existing tag. */
  lemma SpaceClicksFocusedTag(f: Focus, tagCount: nat, descFocused: bool)
    requires FocusValid(f, tagCount) && f.section == Tags && f.index >= 0
    ensures ModalKey(f, Space, tagCount, descFocused) == KeyOutcome(f, true, ClickTag(f.index))
    ensures f.index < tagCount
  {
  }

  /** The arrows rotate through the tags: right is +1 and left is -1, modulo the tag count. */
  lemma ArrowsRotate(index: int, tagCount: nat)
    requires tagCount > 0 && 0 <= index < tagCount
    ensures FocusRight(index, tagCount) == (index + 1) % tagCount
    ensures FocusLeft(index, tagCount) == (index - 1 + tagCount) % tagCount
  {
    if index == tagCount - 1 {
      assert index + 1 == tagCount;
    }
    if index == 0 {
      assert (index - 1 + tagCount) == tagCount - 1;
    }
  }

  /** Left undoes right and right undoes left on an existing tag. */
  lemma ArrowsUndo(index: int, tagCount: nat)
    requires tagCount > 0 && 0 <= index < tagCount
    ensures FocusLeft(FocusRight(index, tagCount), tagCount) == index
    ensures FocusRight(FocusLeft(index, tagCount), tagCount) == index
  {
  }

  /** Down then up returns to the description with no tag focused. */
  lemma DownThenUp(tagCount: nat, descFocused: bool)
    ensures var down := ModalKey(Focus(Desc, -1), ArrowDown, tagCount, descFocused);
      down.handled && down.focus.section == Tags
      && (down.focus.index == 0 <==> tagCount > 0)
      && ModalKey(down.focus, ArrowUp, tagCount, descFocused).focus == Focus(Desc, -1)
  {
  }

  /** The page-level state of the application that the model follows. */
  class App {
    var store: RecordStore
    var recordModalOpen: bool
    var keyboardSection: Section
    var tagFocusIndex: int
    var isTimerRunning: bool
    var timerStartTime: Option<int>
    var currentDescription: string
    var selectedTags: seq<Id>
    var manuallyExcludedTags: seq<Id>

    /** A running timer has a start time. */
    predicate TimerValid()
      reads this
    {
      isTimerRunning ==> timerStartTime.Some?
    }

    /** The initial `state`. */
    constructor (store0: RecordStore)
      ensures store == store0 && !recordModalOpen
      ensures keyboardSection == Desc && tagFocusIndex == -1
      ensures !isTimerRunning && timerStartTime.None? && currentDescription == "" && selectedTags == []
      ensures manuallyExcludedTags == []
      ensures TimerValid()
    {
      store := store0;
      recordModalOpen := false;
      keyboardSection := Desc;
      tagFocusIndex := -1;
      isTimerRunning := false;
      timerStartTime := None;
      currentDescription := "";
      selectedTags := [];
      manuallyExcludedTags := [];
    }

    /** openRecordModal: shows the modal with nothing selected and the focus in the description. */
    method OpenRecordModal()
      modifies this
      ensures recordModalOpen && selectedTags == [] && keyboardSection == Desc && tagFocusIndex == -1
      ensures store == old(store) && isTimerRunning == old(isTimerRunning) && timerStartTime == old(timerStartTime)
      ensures currentDescription == old(currentDescription) && manuallyExcludedTags == old(manuallyExcludedTags)
    {
      recordModalOpen := true;
      selectedTags := [];
      keyboardSection := Desc;
      tagFocusIndex := -1;
    }

    /**
     * handleModalKeyboard: a key ignored while the modal is hidden, else the
     * focus update of ModalKey; the follow-up action is returned.
     */
    method HandleModalKeyboard(key: Key, tagCount: nat, descFocused: bool) returns (handled: bool, effect: Effect)
      modifies this
      ensures !old(recordModalOpen) ==>
        !handled && effect == NoEffect && keyboardSection == old(keyboardSection) && tagFocusIndex == old(tagFocusIndex)
      ensures old(recordModalOpen) ==>
        var outcome := ModalKey(Focus(old(keyboardSection), old(tagFocusIndex)), key, tagCount, descFocused);
        handled == outcome.handled && effect == outcome.effect
        && keyboardSection == outcome.focus.section && tagFocusIndex == outcome.focus.index
      ensures store == old(store) && recordModalOpen == old(recordModalOpen) && isTimerRunning == old(isTimerRunning)
      ensures timerStartTime == old(timerStartTime) && currentDescription == old(currentDescription)
      ensures selectedTags == old(selectedTags) && manuallyExcludedTags == old(manuallyExcludedTags)
    {
      if !recordModalOpen {
        return false, NoEffect;
      }
      var outcome := ModalKey(Focus(keyboardSection, tagFocusIndex), key, tagCount, descFocused);
      keyboardSection := outcome.focus.section;
      tagFocusIndex := outcome.focus.index;
      handled := outcome.handled;
      effect := outcome.effect;
    }

    /**
     * startTimer at instant `now`, with the trimmed description and the
     * selected tag ids read from the modal; it has no guard of its own.
     */
    method StartTimer(now: int, description: string, selected: seq<Id>)
      modifies this
      ensures isTimerRunning && timerStartTime == Some(now)
      ensures currentDescription == description && selectedTags == selected
      ensures !recordModalOpen && TimerValid()
      ensures store == old(store) && manuallyExcludedTags == old(manuallyExcludedTags)
      ensures keyboardSection == old(keyboardSection) && tagFocusIndex == old(tagFocusIndex)
    {
      selectedTags := selected;
      isTimerRunning := true;
      timerStartTime := Some(now);
      currentDescription := description;
      recordModalOpen := false;
    }

    /**
     * stopTimer at instant `now`: without a running timer nothing happens;
     * otherwise exactly one record from the start to now, with its rounded
     * duration, is appended under `newId`, and the timer state is reset.
     */
    method StopTimer(now: int, newId: Id)
      requires TimerValid()
      modifies this, store
      ensures store == old(store) && store.tags == old(store.tags)
      ensures !old(isTimerRunning) ==>
        store.records == old(store.records) && isTimerRunning == old(isTimerRunning)
        && timerStartTime == old(timerStartTime) && currentDescription == old(currentDescription)
        && selectedTags == old(selectedTags)
      ensures old(isTimerRunning) ==>
        var start := old(timerStartTime).value;
        store.records == old(store.records)
          + [Record(newId, old(currentDescription), old(selectedTags), start, now, RoundSeconds(now - start))]
        && !isTimerRunning && timerStartTime.None? && currentDescription == "" && selectedTags == []
      ensures TimerValid()
      ensures recordModalOpen == old(recordModalOpen) && manuallyExcludedTags == old(manuallyExcludedTags)
      ensures keyboardSection == old(keyboardSection) && tagFocusIndex == old(tagFocusIndex)
    {
      if !isTimerRunning {
        return;
      }
      var start := timerStartTime.value;
      var duration := RoundSeconds(now - start);
      var _ := store.AddRecord(newId, currentDescription, selectedTags, start, now, duration);
      isTimerRunning := false;
      timerStartTime := None;
      currentDescription := "";
      selectedTags := [];
    }

    /** getFilteredStats: the total without excluded records, and the per-tag list of the report. */
    method GetFilteredStats(rs: seq<Record>) returns (total: int, byTag: seq<TagEntry>)
      ensures total == IncludedTotal(rs, ExcludedIds(store.tags, manuallyExcludedTags))
      ensures byTag == ByTag(store.tags, rs, ExcludedIds(store.tags, manuallyExcludedTags))
    {
      var tags := store.tags;
      var excludedTagIds := ExcludedIds(tags, manuallyExcludedTags);
      total := 0;
      var tagStats := Accumulated(map[], []);
      for i := 0 to |rs|
        invariant total == IncludedTotal(rs[..i], excludedTagIds)
        invariant tagStats == Accumulate(Contributions(rs[..i]))
      {
        var record := rs[i];
        assert rs[..i + 1][..i] == rs[..i];
        var hasExcludedTag := HasExcludedTag(record, excludedTagIds);
        if !hasExcludedTag {
          total := total + record.duration;
        }
        tagStats := AccumulateRecord(Contributions(rs[..i]), tagStats, record);
      }
      assert rs[..|rs|] == rs;
      byTag := SortBy(Entries(tags, tagStats, excludedTagIds), ByDurationDescending);
    }
  }

  /** The inner loop of getFilteredStats: each tag id of one record gains its duration. */
  method AccumulateRecord(ghost prefix: seq<Contribution>, acc0: Accumulated, record: Record) returns (acc: Accumulated)
    requires acc0 == Accumulate(prefix)
    ensures acc == Accumulate(prefix + Pairs(record))
  {
    acc := acc0;
    PairsNone(prefix, record);
    for j := 0 to |record.tags|
      invariant acc == Accumulate(prefix + Pairs(record)[..j])
    {
      var tagId := record.tags[j];
      ghost var before := prefix + Pairs(record)[..j];
      PairsSnoc(prefix, record, j);
      AccumulateSnoc(before, (tagId, record.duration));
      AddDurationIsStep(acc, tagId, record.duration);
      if tagId !in acc.sums {
        acc := Accumulated(acc.sums[tagId := 0], acc.order + [tagId]);
      }
      acc := acc.(sums := acc.sums[tagId := acc.sums[tagId] + record.duration]);
    }
    PairsAll(prefix, record);
  }

  /** `if (!tagStats[tagId]) tagStats[tagId] = { duration: 0 }; tagStats[tagId].duration += d` is one accumulation step. */
  lemma AddDurationIsStep(acc: Accumulated, id: Id, d: int)
    ensures var created := if id !in acc.sums then Accumulated(acc.sums[id := 0], acc.order + [id]) else acc;
      created.(sums := created.sums[id := created.sums[id] + d]) == AccumulateStep(acc, (id, d))
  {
    if id !in acc.sums {
      assert acc.sums[id := 0][id := 0 + d] == acc.sums[id := d];
    }
  }

  // Sequence steps of the loop of AccumulateRecord, kept apart so that the
  // loop's own proof stays small.

  lemma PairsNone(prefix: seq<Contribution>, record: Record)
    ensures prefix + Pairs(record)[..0] == prefix
  {
  }

  lemma PairsAll(prefix: seq<Contribution>, record: Record)
    ensures prefix + Pairs(record)[..|record.tags|] == prefix + Pairs(record)
  {
    assert Pairs(record)[..|record.tags|] == Pairs(record);
  }

  lemma PairsSnoc(prefix: seq<Contribution>, record: Record, j: nat)
    requires j < |record.tags|
    ensures prefix + Pairs(record)[..j + 1] == (prefix + Pairs(record)[..j]) + [(record.tags[j], record.duration)]
  {
    assert Pairs(record)[..j + 1] == Pairs(record)[..j] + [(record.tags[j], record.duration)];
  }
}
