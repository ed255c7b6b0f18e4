/** The VideoCache class of src/components/Earth/utils/videoCache.js: a bounded Map of video
    handles that, unlike the globe component's own cache, evicts BEFORE it inserts. */
module VideoCaching {
  import opened Wrappers
  import opened Lru

  /** `add` either completes or throws: `reduce` over an empty array with no initial value
      raises a TypeError. */
  datatype Outcome = Done | TypeError

  datatype AddResult = Added(store: Store, evicted: Option<Id>) | Threw

  /** What `add(videoId, videoData)` does to the Map: when `size >= maxSize` the oldest entry
      is removed first (whatever `videoId` is), then `videoId` is set. */
  function AddSpec(st: Store, maxSize: int, videoId: Id, videoData: Entry): (r: AddResult)
    requires Valid(st)
    ensures r.Threw? <==> Size(st) >= maxSize && Size(st) == 0
    ensures r.Added? ==> Valid(r.store) && videoId in r.store.entries && r.store.entries[videoId] == videoData
    ensures r.Added? ==> (r.evicted.Some? <==> Size(st) >= maxSize)
  {
    if Size(st) >= maxSize then
      if Size(st) == 0 then Threw
      else
        var (rest, victim) := EvictOldest(st);
        Added(Set(rest, videoId, videoData), Some(victim))
    else
      Added(Set(st, videoId, videoData), None)
  }

  /** With a positive capacity, a cache within its bound stays within it. */
  lemma AddKeepsBound(st: Store, maxSize: int, videoId: Id, videoData: Entry)
    requires Valid(st) && maxSize >= 1 && Size(st) <= maxSize
    ensures AddSpec(st, maxSize, videoId, videoData).Added?
    ensures Size(AddSpec(st, maxSize, videoId, videoData).store) <= maxSize
  {
  }

  /** Below capacity only the entry of `videoId` changes: nothing is evicted, every other key
      keeps its entry and its place. */
  lemma AddBelowCapacity(st: Store, maxSize: int, videoId: Id, videoData: Entry)
    requires Valid(st) && Size(st) < maxSize
    ensures var r := AddSpec(st, maxSize, videoId, videoData);
      && r.Added? && r.evicted == None
      && r.store.entries.Keys == st.entries.Keys + {videoId}
      && (forall k :: k in st.entries && k != videoId ==> r.store.entries[k] == st.entries[k])
      && r.store.order[..Size(st)] == st.order
  {
  }

  /** At capacity exactly one old entry is evicted before the insert: the earliest inserted
      among those with the smallest `lastUsed`; every other entry stays as it was. */
  lemma AddAtCapacity(st: Store, maxSize: int, videoId: Id, videoData: Entry)
    requires Valid(st) && Size(st) >= maxSize && Size(st) > 0
    ensures var r := AddSpec(st, maxSize, videoId, videoData);
      && r.Added? && r.evicted == Some(st.order[OldestIndex(st)])
      && (forall j :: 0 <= j < Size(st) ==>
            st.entries[r.evicted.value].lastUsed <= st.entries[st.order[j]].lastUsed)
      && (r.evicted.value != videoId ==> r.evicted.value !in r.store.entries)
      && (forall k :: k in st.entries && k != videoId && k != r.evicted.value ==>
            k in r.store.entries && r.store.entries[k] == st.entries[k])
  {
    var k := OldestIndex(st);
    var victim := st.order[k];
    assert forall j :: 0 <= j < Size(st) ==> st.entries[victim].lastUsed <= st.entries[st.order[j]].lastUsed;
  }

  /** Re-adding a key to a full cache still evicts: unless the key itself is the oldest, some
      other entry is dropped and the cache shrinks to `maxSize - 1`. */
  lemma ReAddWhenFull(st: Store, maxSize: int, videoId: Id, videoData: Entry)
    requires Valid(st) && Size(st) == maxSize && videoId in st.entries
    ensures var r := AddSpec(st, maxSize, videoId, videoData);
      && r.Added? && r.evicted.Some?
      && (r.evicted.value != videoId ==> Size(r.store) == maxSize - 1 && r.evicted.value !in r.store.entries)
      && (r.evicted.value == videoId ==> Size(r.store) == maxSize)
  {
    var k := OldestIndex(st);
    var (rest, victim) := EvictOldest(st);
    if victim != videoId {
      assert videoId in rest.entries;
    }
  }

  class VideoCache {
    var order: seq<Id>
    var cache: map<Id, Entry>
    var maxSize: int
    /** Ids whose element was paused and whose texture was disposed on eviction, in order. */
    var released: seq<Id>

    ghost predicate Valid()
      reads this
    {
      Lru.Valid(Store(order, cache))
    }

    function Contents(): Store
      reads this
    {
      Store(order, cache)
    }

    constructor (maxSize: int := 25)
      ensures Valid() && Contents() == EmptyStore
      ensures this.maxSize == maxSize && released == []
    {
      order := [];
      cache := map[];
      this.maxSize := maxSize;
      released := [];
    }

    /** `add`: evict the oldest entry when full (pausing and disposing it), then set. */
    method Add(videoId: Id, videoData: Entry) returns (outcome: Outcome)
      requires Valid()
      modifies this`order, this`cache, this`released
      ensures Valid()
      ensures match AddSpec(old(Contents()), maxSize, videoId, videoData)
        case Threw =>
          outcome == TypeError && Contents() == old(Contents()) && released == old(released)
        case Added(st, evicted) =>
          && outcome == Done && Contents() == st
          && released == old(released) + (if evicted.Some? then [evicted.value] else [])
    {
      if |order| >= maxSize {
        if |order| == 0 {
          outcome := TypeError;
          return;
        }
        ghost var before := Contents();
        var k := FindOldest(Contents());
        var lruKey := order[k];
        released := released + [lruKey];
        cache := cache - {lruKey};
        order := Remove(order, k);
        assert Contents() == EvictOldest(before).0;
      }
      ghost var mid := Contents();
      if videoId !in cache {
        order := order + [videoId];
      }
      cache := cache[videoId := videoData];
      assert Contents() == Set(mid, videoId, videoData);
      outcome := Done;
    }

    /** `get`: a plain lookup; it does not refresh `lastUsed`. */
    function Get(videoId: Id): (r: Option<Entry>)
      reads this
      ensures r.Some? <==> videoId in cache
      ensures r.Some? ==> r.value == cache[videoId]
    {
      if videoId in cache then Some(cache[videoId]) else None
    }

    /** The synchronous part of `createVideoTexture`: a hit refreshes `lastUsed` and returns
        the cached entry; a miss (`None`) only starts a load, which `OnCanPlay` completes. */
    method CreateVideoTexture(videoId: Id, now: int) returns (hit: Option<Entry>)
      requires Valid()
      modifies this`cache
      ensures Valid() && order == old(order)
      ensures old(videoId in cache) ==>
        && hit == Some(old(cache[videoId]).(lastUsed := now))
        && cache == old(cache)[videoId := hit.value]
      ensures old(videoId !in cache) ==> hit == None && cache == old(cache)
    {
      if videoId in cache {
        var entry := cache[videoId].(lastUsed := now);
        cache := cache[videoId := entry];
        hit := Some(entry);
      } else {
        hit := None;
      }
    }

    /** The `oncanplay` callback of a started load: a paused element stamped `now` is added. */
    method OnCanPlay(videoId: Id, element: nat, now: int) returns (videoData: Entry, outcome: Outcome)
      requires Valid()
      modifies this`order, this`cache, this`released
      ensures Valid()
      ensures videoData == Entry(element, now, false)
      ensures match AddSpec(old(Contents()), maxSize, videoId, videoData)
        case Threw =>
          outcome == TypeError && Contents() == old(Contents()) && released == old(released)
        case Added(st, evicted) =>
          && outcome == Done && Contents() == st
          && released == old(released) + (if evicted.Some? then [evicted.value] else [])
    {
      videoData := Entry(element, now, false);
      outcome := Add(videoId, videoData);
    }

    /** `pauseAll`: every element paused; membership and `lastUsed` unchanged. */
    method PauseAll()
      requires Valid()
      modifies this`cache
      ensures Valid() && order == old(order)
      ensures cache == Lru.PauseAll(old(cache))
    {
      cache := PauseEach(Contents());
    }
  }
}
