/**
 * IndexCache of vim_realtime.js: a fixed-capacity circular cache from line
 * ids to their positions in the shared list of lines, so that text events
 * on a line can be turned into line numbers without a linear search.
 *
 * The cache object keeps a reference to the live shared list; the model
 * passes that list's current line ids to the one operation that reads it.
 */
module IndexCaches {
  import opened Wrappers

  type LineId = string

  /** The default capacity used when the requested one is 0 or absent. */
  const DefaultCapacity := 50

  /** `opt_capacity || 50`. */
  function CapacityFor(optCapacity: Option<nat>): (c: nat)
    ensures c > 0
    ensures optCapacity == None || optCapacity == Some(0) ==> c == DefaultCapacity
    ensures optCapacity.Some? && optCapacity.value > 0 ==> c == optCapacity.value
  {
    match optCapacity
    case None => DefaultCapacity
    case Some(n) => if n == 0 then DefaultCapacity else n
  }

  /** source.indexOf(line): the first position of `id`, or -1 when absent. */
  function PositionOf(source: seq<LineId>, id: LineId): (r: int)
    ensures -1 <= r < |source|
    ensures r == -1 <==> id !in source
    ensures r >= 0 ==> source[r] == id && id !in source[..r]
    decreases |source|
  {
    if |source| == 0 then -1
    else if source[0] == id then 0
    else
      var p := PositionOf(source[1..], id);
      assert source[1..][..if p < 0 then 0 else p] == source[1..if p < 0 then 1 else p + 1];
      if p < 0 then -1 else p + 1
  }

  /** Every cached index is the position of its line in `source`. */
  ghost predicate Coherent(indices: map<LineId, int>, source: seq<LineId>)
  {
    forall id :: id in indices ==> 0 <= indices[id] < |source| && source[indices[id]] == id
  }

  /** `after` is `before` with `amount` added to exactly the values >= `index`. */
  ghost predicate ShiftedFrom(before: map<LineId, int>, after: map<LineId, int>, index: int, amount: int)
  {
    && after.Keys == before.Keys
    && forall id :: id in before ==>
         after[id] == (if before[id] >= index then before[id] + amount else before[id])
  }

  /**
   * When `added` lines are inserted at position `index` and the cache is
   * shifted by their number from `index`, every cached index stays right.
   */
  lemma ShiftAfterInsertKeepsCoherent(before: map<LineId, int>, after: map<LineId, int>,
                                      source: seq<LineId>, index: int, added: seq<LineId>)
    requires Coherent(before, source) && 0 <= index <= |source|
    requires ShiftedFrom(before, after, index, |added|)
    ensures Coherent(after, source[..index] + added + source[index..])
  {
    var updated := source[..index] + added + source[index..];
    forall id | id in after
      ensures 0 <= after[id] < |updated| && updated[after[id]] == id
    {
      var p := before[id];
      if p >= index {
        assert updated[p + |added|] == source[index..][p - index];
      } else {
        assert updated[p] == source[..index][p];
      }
    }
  }

  /**
   * When `count` lines are removed at position `index` and the cache is
   * shifted by -count from `index`, every cached line that was not removed
   * keeps a right index. Entries of the removed lines become stale; they are
   * never looked up again and leave the cache on eviction.
   */
  lemma ShiftAfterRemoveKeepsSurvivorsCoherent(before: map<LineId, int>, after: map<LineId, int>,
                                               source: seq<LineId>, index: int, count: nat)
    requires Coherent(before, source) && 0 <= index && index + count <= |source|
    requires ShiftedFrom(before, after, index, -(count as int))
    ensures var updated := source[..index] + source[index + count..];
            forall id :: id in before && !(index <= before[id] < index + count) ==>
              0 <= after[id] < |updated| && updated[after[id]] == id
  {
    var updated := source[..index] + source[index + count..];
    forall id | id in before && !(index <= before[id] < index + count)
      ensures 0 <= after[id] < |updated| && updated[after[id]] == id
    {
      var p := before[id];
      if p >= index + count {
        assert updated[p - count] == source[index + count..][p - index - count];
      } else {
        assert updated[p] == source[..index][p];
      }
    }
  }

  /** The occupied slots hold exactly the ids `keys`, each id in one slot only. */
  ghost predicate SlotsHold(slots: seq<Option<LineId>>, keys: set<LineId>)
  {
    && (forall j :: 0 <= j < |slots| && slots[j].Some? ==> slots[j].value in keys)
    && (forall id :: id in keys ==> exists j :: 0 <= j < |slots| && slots[j] == Some(id))
    && (forall j, k :: 0 <= j < |slots| && 0 <= k < |slots| && j != k && slots[j].Some?
          ==> slots[j] != slots[k])
  }

  /** Overwriting one slot with an uncached id evicts that slot's id and nothing else. */
  lemma OverwriteSlotKeepsSlotsHold(slots: seq<Option<LineId>>, keys: set<LineId>, slot: int, id: LineId)
    requires SlotsHold(slots, keys) && 0 <= slot < |slots| && id !in keys
    ensures SlotsHold(slots[slot := Some(id)],
                      (if slots[slot].Some? then keys - {slots[slot].value} else keys) + {id})
  {
    var after := slots[slot := Some(id)];
    var keys' := (if slots[slot].Some? then keys - {slots[slot].value} else keys) + {id};
    forall other | other in keys'
      ensures exists j :: 0 <= j < |after| && after[j] == Some(other)
    {
      if other != id {
        var j :| 0 <= j < |slots| && slots[j] == Some(other);
        assert j != slot;
        assert after[j] == Some(other);
      } else {
        assert after[slot] == Some(other);
      }
    }
  }

  /** Stepping past the last slot wraps to slot 0. */
  lemma NextSlot(slot: nat, capacity: nat)
    requires slot < capacity
    ensures (slot + 1) % capacity == if slot + 1 == capacity then 0 else slot + 1
  {
  }

  class IndexCache {
    // A map of line ids to indices in the shared list.
    var indices: map<LineId, int>
    // A circular queue of line ids; None is a slot never written.
    var cache: array<Option<LineId>>
    // The slot of the oldest line in `cache`.
    var oldest: nat

    /**
     * Every key of `indices` occupies exactly one slot of `cache`, every
     * occupied slot holds a key of `indices`, and `oldest` is a slot.
     */
    ghost predicate Valid()
      reads this, cache
    {
      0 <= oldest < cache.Length && SlotsHold(cache[..], indices.Keys)
    }

    /** new IndexCache(src, opt_capacity): an empty cache of the given capacity. */
    constructor (optCapacity: Option<nat>)
      ensures Valid() && fresh(cache)
      ensures cache.Length == CapacityFor(optCapacity)
      ensures indices == map[] && oldest == 0
    {
      indices := map[];
      cache := new Option<LineId>[CapacityFor(optCapacity)](_ => None);
      oldest := 0;
    }

    /**
     * insert: evict the entry in slot `oldest`, cache `id` there with
     * `index`, and advance `oldest` modulo the capacity. Its one caller,
     * indexOf, only inserts lines that are not cached.
     */
    method Insert(id: LineId, index: int)
      requires Valid() && id !in indices
      modifies this, cache
      ensures Valid() && cache == old(cache)
      ensures cache[..] == old(cache[..])[old(oldest) := Some(id)]
      ensures indices == (if old(cache[oldest]).Some? then old(indices) - {old(cache[oldest]).value}
                          else old(indices))[id := index]
      ensures oldest == (old(oldest) + 1) % cache.Length
    {
      ghost var slots := cache[..];
      ghost var keys := indices.Keys;
      OverwriteSlotKeepsSlotsHold(slots, keys, oldest, id);
      var oldestElem := cache[oldest];
      var kept := if oldestElem.Some? then indices - {oldestElem.value} else indices;
      assert kept.Keys == if oldestElem.Some? then keys - {oldestElem.value} else keys;
      cache[oldest] := Some(id);
      indices := kept[id := index];
      assert cache[..] == slots[oldest := Some(id)];
      assert indices.Keys == kept.Keys + {id};
      NextSlot(oldest, cache.Length);
      oldest := oldest + 1;
      if oldest >= cache.Length {
        oldest := 0;
      }
    }

    /**
     * indexOf: the cached index of `id` when it is cached; otherwise its
     * position in `source`, which is then cached; None (undefined) when the
     * line is not in `source`, leaving the cache as it was.
     */
    method IndexOf(source: seq<LineId>, id: LineId) returns (r: Option<int>)
      requires Valid()
      modifies this, cache
      ensures Valid() && cache == old(cache)
      ensures id in old(indices) ==> r == Some(old(indices)[id]) && indices == old(indices)
                                      && oldest == old(oldest) && cache[..] == old(cache[..])
      ensures id !in old(indices) && id in source ==>
                && r == Some(PositionOf(source, id))
                && cache[..] == old(cache[..])[old(oldest) := Some(id)]
                && indices == (if old(cache[oldest]).Some? then old(indices) - {old(cache[oldest]).value}
                               else old(indices))[id := r.value]
                && oldest == (old(oldest) + 1) % cache.Length
      ensures id !in old(indices) && id !in source ==>
                r == None && indices == old(indices) && oldest == old(oldest)
                && cache[..] == old(cache[..])
      ensures Coherent(old(indices), source) ==> Coherent(indices, source)
      ensures Coherent(old(indices), source) ==>
                (r.Some? <==> id in source) && (r.Some? ==> source[r.value] == id)
    {
      if id !in indices {
        var index := PositionOf(source, id);
        if index >= 0 {
          Insert(id, index);
        } else {
          return None;
        }
      }
      r := Some(indices[id]);
    }

    /** shiftFrom: add `amount` to every cached index >= `index`. */
    method ShiftFrom(index: int, amount: int)
      requires Valid()
      modifies this
      ensures Valid()
      ensures ShiftedFrom(old(indices), indices, index, amount)
      ensures oldest == old(oldest) && cache == old(cache)
    {
      var pending := indices.Keys;
      while pending != {}
        invariant indices.Keys == old(indices).Keys
        invariant pending <= indices.Keys
        invariant forall id :: id in indices && id !in pending ==>
                    indices[id] == (if old(indices)[id] >= index then old(indices)[id] + amount
                                    else old(indices)[id])
        invariant forall id :: id in pending ==> indices[id] == old(indices)[id]
        invariant oldest == old(oldest) && cache == old(cache)
        decreases pending
      {
        var line :| line in pending;
        if indices[line] >= index {
          indices := indices[line := indices[line] + amount];
        }
        pending := pending - {line};
      }
    }
  }
}
