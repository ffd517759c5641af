/**
 * The stored entities. A record's `startTime`/`endTime` are the ISO strings of
 * the source read as integer milliseconds; `duration` is whole seconds and is
 * kept beside the interval, as the source stores it.
 */
module Records {
  import opened Options
  import opened Intervals

  type Id = string

  datatype Record = Record(
    id: Id,
    description: string,
    tags: seq<Id>,
    startTime: int,
    endTime: int,
    duration: int)

  datatype Tag = Tag(id: Id, name: string, color: string, isExcluded: bool)

  /** The `updates` object of `updateRecord`: every field it may carry is optional. */
  datatype RecordUpdate = RecordUpdate(
    description: Option<string>,
    tags: Option<seq<Id>>,
    startTime: Option<int>,
    endTime: Option<int>,
    duration: Option<int>)

  /** The duration the source stores for an interval. */
  predicate DurationConsistent(r: Record) {
    r.duration == RoundSeconds(r.endTime - r.startTime)
  }

  /** `{ ...record, ...updates }` followed by the duration recomputation of updateRecord. */
  function ApplyUpdate(r: Record, u: RecordUpdate): (r': Record)
    ensures r'.id == r.id
    ensures r'.description == (if u.description.Some? then u.description.value else r.description)
    ensures r'.tags == (if u.tags.Some? then u.tags.value else r.tags)
    ensures r'.startTime == (if u.startTime.Some? then u.startTime.value else r.startTime)
    ensures r'.endTime == (if u.endTime.Some? then u.endTime.value else r.endTime)
    ensures u.startTime.Some? || u.endTime.Some? ==> DurationConsistent(r')
    ensures u.startTime.None? && u.endTime.None? ==>
      r'.duration == (if u.duration.Some? then u.duration.value else r.duration)
  {
    var merged := Record(
      r.id,
      if u.description.Some? then u.description.value else r.description,
      if u.tags.Some? then u.tags.value else r.tags,
      if u.startTime.Some? then u.startTime.value else r.startTime,
      if u.endTime.Some? then u.endTime.value else r.endTime,
      if u.duration.Some? then u.duration.value else r.duration);
    if u.startTime.Some? || u.endTime.Some? then
      merged.(duration := RoundSeconds(merged.endTime - merged.startTime))
    else
      merged
  }

  /** No two stored records share an id (the store's identity rule). */
  predicate UniqueIds(rs: seq<Record>) {
    forall i, j :: 0 <= i < j < |rs| ==> rs[i].id != rs[j].id
  }

  predicate HasId(rs: seq<Record>, id: Id) {
    exists i :: 0 <= i < |rs| && rs[i].id == id
  }

  /** `records.filter(r => r.id !== id)`. */
  function Without(rs: seq<Record>, id: Id): (out: seq<Record>)
    ensures !HasId(out, id)
    ensures forall r :: r in out <==> r in rs && r.id != id
    ensures |out| <= |rs|
  {
    if rs == [] then []
    else
      var rest := Without(rs[..|rs| - 1], id);
      var last := rs[|rs| - 1];
      assert rs == rs[..|rs| - 1] + [last];
      if last.id == id then rest else rest + [last]
  }

  /** Filtering keeps the others in their original order and drops nothing else. */
  lemma {:induction false} WithoutKeepsOthers(rs: seq<Record>, id: Id)
    requires !HasId(rs, id)
    ensures Without(rs, id) == rs
  {
    if rs != [] {
      var init := rs[..|rs| - 1];
      assert !HasId(init, id) by {
        forall i | 0 <= i < |init| ensures init[i].id != id {
          assert init[i] == rs[i];
        }
      }
      WithoutKeepsOthers(init, id);
      assert rs == init + [rs[|rs| - 1]];
    }
  }

  /** Filtering a list with one more record at the end. */
  lemma WithoutSnoc(init: seq<Record>, last: Record, id: Id)
    ensures Without(init + [last], id) == if last.id == id then Without(init, id) else Without(init, id) + [last]
  {
    var rs := init + [last];
    assert rs[..|rs| - 1] == init && rs[|rs| - 1] == last;
  }

  /** Filtering distributes over concatenation. */
  lemma {:induction false} WithoutAppend(a: seq<Record>, b: seq<Record>, id: Id)
    ensures Without(a + b, id) == Without(a, id) + Without(b, id)
  {
    if b == [] {
      assert a + b == a;
    } else {
      var init, last := b[..|b| - 1], b[|b| - 1];
      assert b == init + [last];
      assert a + b == (a + init) + [last];
      WithoutAppend(a, init, id);
      WithoutSnoc(a + init, last, id);
      WithoutSnoc(init, last, id);
      var x, y := Without(a, id), Without(init, id);
      if last.id != id {
        assert (x + y) + [last] == x + (y + [last]);
      }
    }
  }

  /** Removing one id from a store with unique ids removes exactly the one record carrying it. */
  lemma WithoutRemovesOne(rs: seq<Record>, i: nat)
    requires UniqueIds(rs) && i < |rs|
    ensures Without(rs, rs[i].id) == rs[..i] + rs[i + 1..]
  {
    var id := rs[i].id;
    var before, after := rs[..i], rs[i + 1..];
    assert rs == before + [rs[i]] + after;
    assert !HasId(before, id) by {
      forall k | 0 <= k < |before| ensures before[k].id != id {
        assert before[k] == rs[k];
      }
    }
    assert !HasId(after, id) by {
      forall k | 0 <= k < |after| ensures after[k].id != id {
        assert after[k] == rs[i + 1 + k];
      }
    }
    WithoutAppend(before + [rs[i]], after, id);
    WithoutAppend(before, [rs[i]], id);
    WithoutKeepsOthers(before, id);
    WithoutKeepsOthers(after, id);
    WithoutSnoc([], rs[i], id);
    assert [] + [rs[i]] == [rs[i]];
  }

  /** Two lists with unique ids and no id in common concatenate to a list with unique ids. */
  lemma AppendUnique(a: seq<Record>, b: seq<Record>)
    requires UniqueIds(a) && UniqueIds(b)
    requires forall x, y :: x in a && y in b ==> x.id != y.id
    ensures UniqueIds(a + b)
  {
    var out := a + b;
    forall p, q | 0 <= p < q < |out| ensures out[p].id != out[q].id {
      if q < |a| {
        assert out[p] == a[p] && out[q] == a[q];
      } else if p < |a| {
        assert out[p] in a && out[q] == b[q - |a|];
      } else {
        assert out[p] == b[p - |a|] && out[q] == b[q - |a|];
      }
    }
  }

  /** Deleting keeps ids unique. */
  lemma {:induction false} WithoutUnique(rs: seq<Record>, id: Id)
    requires UniqueIds(rs)
    ensures UniqueIds(Without(rs, id))
  {
    if rs != [] {
      var init, last := rs[..|rs| - 1], rs[|rs| - 1];
      assert UniqueIds(init) by {
        forall a, b | 0 <= a < b < |init| ensures init[a].id != init[b].id {
          assert init[a] == rs[a] && init[b] == rs[b];
        }
      }
      WithoutUnique(init, id);
      forall x | x in Without(init, id) ensures x.id != last.id {
        var k :| 0 <= k < |init| && init[k] == x;
        assert rs[k] == x;
      }
      AppendUnique(Without(init, id), [last]);
    }
  }

  /** Index of the first record with the id (`findIndex`), or -1. */
  function FirstIndex(rs: seq<Record>, id: Id): (k: int)
    ensures -1 <= k < |rs|
    ensures k == -1 <==> !HasId(rs, id)
    ensures k >= 0 ==> rs[k].id == id && forall j :: 0 <= j < k ==> rs[j].id != id
  {
    if rs == [] then -1
    else if rs[0].id == id then 0
    else
      var k := FirstIndex(rs[1..], id);
      assert forall j :: 0 < j < |rs| ==> rs[j] == rs[1..][j - 1];
      if k == -1 then -1 else k + 1
  }
}
