/** The state and event handlers of the `Earth` component (src/components/Earth/index.js) with
    rendering and the DOM taken away: its cache of video handles, the segment table, the
    pressed segment, the interaction flag with its return timer, and the ambient rotation.
    `Date.now()` becomes an explicit clock reading `now`, `Math.random()` an oracle of picks,
    the raycast a texture coordinate (`None` when the ray misses the globe), and the
    `oncanplay`/`onerror` callbacks explicit load events. */
module Earth {
  import opened Wrappers
  import opened Lru
  import opened Segments
  import Shuffle
  import GlobeShader

  const MaxCacheSize: nat := 25
  const AutoRotationDelay: int := 10000

  // ---- Cache management ----

  /** The refresh at the start of `manageCache`: only the entry of `id`, if present, gets
      `lastUsed := now`; the iteration order stays. */
  function Refreshed(st: Store, id: Id, now: int): (t: Store)
    requires Valid(st)
    ensures Valid(t) && t.order == st.order && t.entries.Keys == st.entries.Keys
    ensures id in st.entries ==> t.entries[id] == st.entries[id].(lastUsed := now)
    ensures forall k :: k in st.entries && k != id ==> t.entries[k] == st.entries[k]
  {
    if id in st.entries then Set(st, id, st.entries[id].(lastUsed := now)) else st
  }

  /** `manageCache(newVideoId)`: refresh the entry of `newVideoId` if present, then, when the
      Map holds 25 or more entries, evict the oldest one of the refreshed Map (minimal
      `lastUsed`, earliest inserted on ties). Returns the Map and the evicted id. */
  function ManageCacheSpec(st: Store, newVideoId: Id, now: int): (r: (Store, Option<Id>))
    requires Valid(st)
    ensures Valid(r.0)
    ensures r.1.Some? <==> Size(st) >= MaxCacheSize
    ensures Size(r.0) == if Size(st) >= MaxCacheSize then Size(st) - 1 else Size(st)
    ensures var t := Refreshed(st, newVideoId, now);
      r.1.Some? ==>
        && r.1.value == t.order[OldestIndex(t)]
        && r.0.entries == t.entries - {r.1.value}
        && r.0.order == Remove(t.order, OldestIndex(t))
    ensures r.1.None? ==> r.0 == Refreshed(st, newVideoId, now)
  {
    var touched := Refreshed(st, newVideoId, now);
    if Size(touched) >= MaxCacheSize then
      var (rest, victim) := EvictOldest(touched);
      (rest, Some(victim))
    else
      (touched, None)
  }

  /** The `oncanplay` callback: `cache.set(videoId, videoData)` with a paused element stamped
      `now`, then `manageCache(videoId)`. */
  function LoadedSpec(st: Store, videoId: Id, element: nat, now: int): (r: (Store, Option<Id>))
    requires Valid(st)
    ensures Valid(r.0)
  {
    ManageCacheSpec(Set(st, videoId, Entry(element, now, false)), videoId, now)
  }

  /** A Map of at most 24 entries still holds at most 24 after a load completes: the check
      `size >= 25` comes after the insert. */
  lemma LoadKeepsBound(st: Store, videoId: Id, element: nat, now: int)
    requires Valid(st) && Size(st) < MaxCacheSize
    ensures Size(LoadedSpec(st, videoId, element, now).0) < MaxCacheSize
  {
  }

  /** With a clock that never runs backwards, the loaded video stays cached with its new
      handle; an entry is evicted exactly when a new key fills the Map to 25, and it is the
      earliest inserted among the entries with the smallest `lastUsed`. Every other entry
      is kept as it was. */
  lemma LoadedStaysCached(st: Store, videoId: Id, element: nat, now: int)
    requires Valid(st) && Size(st) < MaxCacheSize
    requires forall k :: k in st.entries ==> st.entries[k].lastUsed <= now
    ensures var (r, evicted) := LoadedSpec(st, videoId, element, now);
      && videoId in r.entries && r.entries[videoId] == Entry(element, now, false)
      && (evicted.Some? <==> videoId !in st.entries && Size(st) == MaxCacheSize - 1)
      && (evicted.Some? ==>
            && evicted.value in st.entries && evicted.value !in r.entries
            && evicted.value == st.order[OldestIndex(st)])
      && (forall k :: k in st.entries && k != videoId && Some(k) != evicted ==>
            k in r.entries && r.entries[k] == st.entries[k])
  {
    var e := Entry(element, now, false);
    var inserted := Set(st, videoId, e);
    assert Set(inserted, videoId, e) == inserted;
    if videoId !in st.entries && Size(st) == MaxCacheSize - 1 {
      AppendNewestKeepsOldest(st, videoId, e);
      assert inserted.order[OldestIndex(st)] == st.order[OldestIndex(st)];
    }
  }

  // ---- Pointer handlers, as decisions over the segment table ----

  /** `segment?.id || null` at press time: the id of the segment under the pointer. */
  function PressedSegment(segs: seq<Segment>, uv: Uv): (r: Option<int>)
    ensures r.Some? <==> FindSegment(segs, uv.y).Some? && segs[FindSegment(segs, uv.y).value].id != 0
    ensures r.Some? ==> r.value == segs[FindSegment(segs, uv.y).value].id
  {
    match FindSegment(segs, uv.y)
    case None => None
    case Some(i) => if segs[i].id != 0 then Some(segs[i].id) else None
  }

  /** What `up` does after a press on segment `pressed`: `None` when it does not navigate,
      `Some(id)` when it navigates to `/video/${id}`, where `id` is undefined (`None`) for an
      empty slot. Only the segment ids are compared; the slot is the one under the release. */
  function ReleaseNavigation(segs: seq<Segment>, pressed: int, uv: Uv): (nav: Option<Option<Id>>)
    ensures nav.Some? <==>
      && FindSegment(segs, uv.y).Some?
      && segs[FindSegment(segs, uv.y).value].id == pressed
      && 0 <= SubsectionIndex(uv.x) < |segs[FindSegment(segs, uv.y).value].videos|
    ensures nav.Some? ==>
      nav.value == SlotId(segs[FindSegment(segs, uv.y).value].videos[SubsectionIndex(uv.x)])
  {
    match FindSegment(segs, uv.y)
    case None => None
    case Some(i) =>
      if segs[i].id != pressed then None
      else
        match SlotAt(segs[i], uv.x)
        case None => None
        case Some(slot) => Some(SlotId(slot))
  }

  /** On the table `initializeEarth` builds, a press and a release navigate exactly when both
      fall in the same band and the release has `0 <= x < 1`; they then go to the slot under
      the release, and an empty slot yields a navigation with an undefined id. */
  lemma ReleaseOnLayout(shuffled: seq<int>, videos: seq<Id>, down: Uv, up: Uv)
    requires PressedSegment(Layout(shuffled, videos), down).Some?
    ensures var segs := Layout(shuffled, videos);
      var pressed := PressedSegment(segs, down).value;
      var nav := ReleaseNavigation(segs, pressed, up);
      && (nav.Some? <==> (exists i :: 0 <= i < SegmentCount && MinY(i) < down.y <= MaxY(i) && MinY(i) < up.y <= MaxY(i))
                          && 0.0 <= up.x < 1.0)
      && (nav.Some? ==> nav.value == SlotId(segs[FindSegment(segs, up.y).value].videos[SubsectionIndex(up.x)]))
  {
    var segs := Layout(shuffled, videos);
    LayoutHasStandardBands(shuffled, videos);
    BandLookup(segs, down.y);
    BandLookup(segs, up.y);
    var d := FindSegment(segs, down.y).value;
    var nav := ReleaseNavigation(segs, segs[d].id, up);
    if nav.Some? {
      var u := FindSegment(segs, up.y).value;
      assert u == d;
      assert MinY(d) < down.y <= MaxY(d) && MinY(d) < up.y <= MaxY(d);
    }
    if (exists i :: 0 <= i < SegmentCount && MinY(i) < down.y <= MaxY(i) && MinY(i) < up.y <= MaxY(i)) && 0.0 <= up.x < 1.0 {
      var i :| 0 <= i < SegmentCount && MinY(i) < down.y <= MaxY(i) && MinY(i) < up.y <= MaxY(i);
      assert FindSegment(segs, down.y) == Some(i) && FindSegment(segs, up.y) == Some(i);
    }
  }

  /** What `move` leads to: a hover over the slot under the pointer (possibly undefined), or a
      reset when the ray misses, the table is not built yet, or no band holds the pointer. */
  datatype MoveAction = Hover(video: Option<Slot>) | Reset

  function MoveActionOf(segments: Option<seq<Segment>>, uv: Option<Uv>): (a: MoveAction)
    ensures a.Reset? <==> uv.None? || segments.None? || FindSegment(segments.value, uv.value.y).None?
    ensures a.Hover? ==> a.video == SlotAt(segments.value[FindSegment(segments.value, uv.value.y).value], uv.value.x)
  {
    if uv.Some? && segments.Some? then
      match FindSegment(segments.value, uv.value.y)
      case None => Reset
      case Some(i) => Hover(SlotAt(segments.value[i], uv.value.x))
    else Reset
  }

  /** The elements after `handleVideoHover(video)`: if the slot's id is cached, that element
      plays and every other one pauses; otherwise nothing changes. */
  function HoverEntries(st: Store, video: Option<Slot>): (m: map<Id, Entry>)
    ensures m.Keys == st.entries.Keys
    ensures forall k :: k in m ==> m[k].element == st.entries[k].element && m[k].lastUsed == st.entries[k].lastUsed
    ensures video.Some? && video.value.Video? && video.value.id in st.entries ==>
      forall k :: k in m ==> m[k].playing == (k == video.value.id)
    ensures !(video.Some? && video.value.Video? && video.value.id in st.entries) ==> m == st.entries
  {
    if video.Some? && video.value.Video? && video.value.id in st.entries then PlayOnly(st.entries, video.value.id)
    else st.entries
  }

  /** The compiled material: gray until both the table and the textures exist. */
  datatype Material = Gray | VideoShader(fragmentShader: string)

  // ---- The component ----

  datatype LoadEvent = CanPlay(videoId: Id, element: nat) | LoadError(videoId: Id)
  datatype LoadResult = Resolved(data: Entry) | Rejected(videoId: Id)
  datatype HandlerOutcome = Handled | Threw

  function Released(evicted: Option<Id>): seq<Id>
  {
    if evicted.Some? then [evicted.value] else []
  }

  class Earth {
    /** `videoElementCache.current` */
    var order: seq<Id>
    var entries: map<Id, Entry>
    /** Ids whose element was paused and texture disposed on eviction, in order. */
    var released: seq<Id>
    /** `randomizedSegmentsRef.current` */
    var segments: Option<seq<Segment>>
    /** The `videoTextures` state. */
    var videoTextures: seq<Entry>
    /** `mouseDownSegmentRef.current` */
    var mouseDownSegment: Option<int>
    /** The `isUserInteracting` state, `rotationTimeoutRef.current`, and the pending
        `setTimeout` timers (handle to due time). */
    var isUserInteracting: bool
    var rotationTimeout: Option<nat>
    var timers: map<nat, int>
    var nextTimer: nat
    /** `earthRef.current.rotation.y`, counted in steps of 0.0005. */
    var rotationSteps: nat

    function Contents(): Store
      reads this
    {
      Store(order, entries)
    }

    ghost predicate Valid()
      reads this
    {
      && Lru.Valid(Contents())
      && |order| < MaxCacheSize
      && (mouseDownSegment.Some? ==> segments.Some?)
      && (forall h :: h in timers ==> h < nextTimer)
    }

    constructor ()
      ensures Valid()
      ensures Contents() == EmptyStore && released == []
      ensures segments == None && videoTextures == [] && mouseDownSegment == None
      ensures !isUserInteracting && rotationTimeout == None && timers == map[] && nextTimer == 0
      ensures rotationSteps == 0
    {
      order, entries, released := [], map[], [];
      segments, videoTextures, mouseDownSegment := None, [], None;
      isUserInteracting, rotationTimeout, timers, nextTimer := false, None, map[], 0;
      rotationSteps := 0;
    }

    /** `manageCache`, called right after the insert, when the Map may hold 25 entries. */
    method ManageCache(newVideoId: Id, now: int)
      requires Lru.Valid(Contents()) && |order| <= MaxCacheSize
      modifies this`order, this`entries, this`released
      ensures Lru.Valid(Contents()) && |order| < MaxCacheSize
      ensures Contents() == ManageCacheSpec(old(Contents()), newVideoId, now).0
      ensures released == old(released) + Released(ManageCacheSpec(old(Contents()), newVideoId, now).1)
    {
      ghost var start := Contents();
      if newVideoId in entries {
        entries := entries[newVideoId := entries[newVideoId].(lastUsed := now)];
      }
      ghost var touched := Contents();
      assert touched == Refreshed(start, newVideoId, now);
      if |order| >= MaxCacheSize {
        var k := FindOldest(Contents());
        var lruKey := order[k];
        released := released + [lruKey];
        entries := entries - {lruKey};
        order := Remove(order, k);
        assert Contents() == EvictOldest(touched).0;
      } else {
        assert Contents() == touched;
      }
    }

    /** The synchronous part of `createVideoTexture`: a hit refreshes `lastUsed` and resolves
        with the cached entry at once; a miss (`None`) only starts a load, which `OnLoad`
        completes. Nothing records the started load. */
    method CreateVideoTexture(videoId: Id, now: int) returns (hit: Option<Entry>)
      requires Valid()
      modifies this`entries
      ensures Valid() && order == old(order)
      ensures old(videoId in entries) ==>
        && hit == Some(old(entries[videoId]).(lastUsed := now))
        && entries == old(entries)[videoId := hit.value]
      ensures old(videoId !in entries) ==> hit == None && entries == old(entries)
    {
      if videoId in entries {
        var entry := entries[videoId].(lastUsed := now);
        entries := entries[videoId := entry];
        hit := Some(entry);
      } else {
        hit := None;
      }
    }

    /** The completion of a started load: `oncanplay` sets the entry and runs `manageCache`;
        `onerror` rejects and leaves the cache alone. A second load of the same id simply
        overwrites the entry. */
    method OnLoad(event: LoadEvent, now: int) returns (result: LoadResult)
      requires Valid()
      modifies this`order, this`entries, this`released
      ensures Valid()
      ensures event.LoadError? ==>
        result == Rejected(event.videoId) && Contents() == old(Contents()) && released == old(released)
      ensures event.CanPlay? ==> result == Resolved(Entry(event.element, now, false))
      ensures event.CanPlay? ==> Contents() == LoadedSpec(old(Contents()), event.videoId, event.element, now).0
      ensures event.CanPlay? ==>
        released == old(released) + Released(LoadedSpec(old(Contents()), event.videoId, event.element, now).1)
    {
      match event
      case LoadError(videoId) =>
        result := Rejected(videoId);
      case CanPlay(videoId, element) =>
        var videoData := Entry(element, now, false);
        ghost var start := Contents();
        if videoId !in entries {
          order := order + [videoId];
        }
        entries := entries[videoId := videoData];
        assert Contents() == Set(start, videoId, videoData);
        ManageCache(videoId, now);
        result := Resolved(videoData);
    }

    /** `initializeEarth` after the fetch: the 30 positions are shuffled, and, once every load
        has settled, the table is installed only if all of them resolved (`Promise.all`) and
        the component is still mounted. */
    method Initialize(videos: seq<Id>, picks: seq<nat>, loads: seq<LoadResult>, mounted: bool)
      requires Valid()
      requires |picks| == TotalPositions && Shuffle.ValidPicks(picks) && |loads| == |videos|
      modifies this`segments, this`videoTextures
      ensures Valid()
      ensures var installed := mounted && forall i :: 0 <= i < |loads| ==> loads[i].Resolved?;
        && (installed ==>
              && segments == Some(Layout(Shuffle.Shuffled(Shuffle.Positions(TotalPositions), picks), videos))
              && |videoTextures| == |loads|
              && forall i :: 0 <= i < |loads| ==> videoTextures[i] == loads[i].data)
        && (!installed ==> segments == old(segments) && videoTextures == old(videoTextures))
    {
      var allPositions := new int[TotalPositions](i => i);
      assert allPositions[..] == Shuffle.Positions(TotalPositions);
      var shuffledPositions := Shuffle.ShuffleArray(allPositions, picks);
      Shuffle.ShuffledPositions(TotalPositions, picks);
      var i := 0;
      while i < |loads|
        invariant 0 <= i <= |loads|
        invariant forall j :: 0 <= j < i ==> loads[j].Resolved?
      {
        if loads[i].Rejected? {
          return;
        }
        i := i + 1;
      }
      if !mounted {
        return;
      }
      var segs := BuildSegments(shuffledPositions[..], videos);
      segments := Some(segs);
      videoTextures := seq(|loads|, j requires 0 <= j < |loads| => loads[j].data);
    }

    /** `handleMouseEvent.down`: with a hit, remember the segment under the pointer (or null);
        before the table exists, `find` on null throws. */
    method MouseDown(uv: Option<Uv>) returns (outcome: HandlerOutcome)
      requires Valid()
      modifies this`mouseDownSegment
      ensures Valid()
      ensures outcome == Threw <==> uv.Some? && segments.None?
      ensures uv.Some? && segments.Some? ==> mouseDownSegment == PressedSegment(segments.value, uv.value)
      ensures !(uv.Some? && segments.Some?) ==> mouseDownSegment == old(mouseDownSegment)
    {
      outcome := Handled;
      if uv.Some? {
        if segments.None? {
          outcome := Threw;
          return;
        }
        mouseDownSegment := PressedSegment(segments.value, uv.value);
      }
    }

    /** `handleMouseEvent.up`: without a pressed segment nothing happens; otherwise a hit may
        navigate, and the pressed segment is cleared in every case. */
    method MouseUp(uv: Option<Uv>) returns (navigation: Option<Option<Id>>)
      requires Valid()
      modifies this`mouseDownSegment
      ensures Valid()
      ensures old(mouseDownSegment).None? ==> navigation == None && mouseDownSegment == None
      ensures old(mouseDownSegment).Some? ==> mouseDownSegment == None
      ensures old(mouseDownSegment).Some? && uv.Some? ==>
        navigation == ReleaseNavigation(segments.value, old(mouseDownSegment).value, uv.value)
      ensures uv.None? ==> navigation == None
    {
      navigation := None;
      if mouseDownSegment.None? {
        return;
      }
      if uv.Some? {
        navigation := ReleaseNavigation(segments.value, mouseDownSegment.value, uv.value);
      }
      mouseDownSegment := None;
    }

    /** `handleMouseEvent.handleVideoHover`: nothing for an undefined slot; otherwise, if the
        slot's id is cached, play its element and pause every other cached element. */
    method HandleVideoHover(video: Option<Slot>)
      requires Valid()
      modifies this`entries
      ensures Valid() && order == old(order)
      ensures entries == HoverEntries(old(Contents()), video)
    {
      if video.None? {
        return;
      }
      var videoId := SlotId(video.value);
      if videoId.Some? && videoId.value in entries {
        entries := PlayOnlyEach(Contents(), videoId.value);
      }
    }

    /** `handleMouseEvent.resetTooltip`: pause every cached element. */
    method ResetTooltip()
      requires Valid()
      modifies this`entries
      ensures Valid() && order == old(order)
      ensures entries == PauseAll(old(entries))
    {
      entries := PauseEach(Contents());
    }

    /** `handleMouseEvent.move`: hover the slot under the pointer, or reset. Neither changes
        which videos are cached nor their `lastUsed`. */
    method MouseMove(uv: Option<Uv>)
      requires Valid()
      modifies this`entries
      ensures Valid() && order == old(order)
      ensures match MoveActionOf(segments, uv)
        case Hover(video) => entries == HoverEntries(old(Contents()), video)
        case Reset => entries == PauseAll(old(entries))
    {
      match MoveActionOf(segments, uv)
      case Hover(video) => HandleVideoHover(video);
      case Reset => ResetTooltip();
    }

    /** `handleInteraction.start`: the user is interacting; the timer whose handle is stored
        is cancelled (an earlier, overwritten one is not). */
    method InteractionStart()
      requires Valid()
      modifies this`isUserInteracting, this`timers
      ensures Valid() && isUserInteracting
      ensures timers == if rotationTimeout.Some? then old(timers) - {rotationTimeout.value} else old(timers)
    {
      isUserInteracting := true;
      if rotationTimeout.Some? {
        timers := timers - {rotationTimeout.value};
      }
    }

    /** `handleInteraction.end`: start a 10 s timer that clears the flag, and store its handle
        over the previous one. */
    method InteractionEnd(now: int)
      requires Valid()
      modifies this`rotationTimeout, this`timers, this`nextTimer
      ensures Valid()
      ensures rotationTimeout == Some(old(nextTimer)) && old(nextTimer) !in old(timers)
      ensures nextTimer == old(nextTimer) + 1
      ensures timers == old(timers)[old(nextTimer) := now + AutoRotationDelay]
    {
      var handle := nextTimer;
      timers := timers[handle := now + AutoRotationDelay];
      rotationTimeout := Some(handle);
      nextTimer := nextTimer + 1;
    }

    /** The browser runs timer `handle` if it is pending and due: the flag is cleared. */
    method TimerFires(handle: nat, now: int) returns (fired: bool)
      requires Valid()
      modifies this`isUserInteracting, this`timers
      ensures Valid()
      ensures fired <==> handle in old(timers) && old(timers)[handle] <= now
      ensures fired ==> !isUserInteracting && timers == old(timers) - {handle}
      ensures !fired ==> isUserInteracting == old(isUserInteracting) && timers == old(timers)
    {
      fired := handle in timers && timers[handle] <= now;
      if fired {
        timers := timers - {handle};
        isUserInteracting := false;
      }
    }

    /** The `useFrame` callback: the globe turns one step only while the user is not
        interacting. */
    method Frame()
      modifies this`rotationSteps
      ensures rotationSteps == old(rotationSteps) + (if isUserInteracting then 0 else 1)
    {
      if !isUserInteracting {
        rotationSteps := rotationSteps + 1;
      }
    }

    /** `videoMaterial`: the fragment shader generated from the textures and the table, or
        gray while either is missing. `format` stands for JavaScript's number-to-text. */
    function VideoMaterial(format: real -> string): (m: Material)
      reads this
      ensures m.Gray? <==> segments.None? || |segments.value| == 0 || |videoTextures| == 0
      ensures m.VideoShader? ==>
        (m.fragmentShader == GlobeShader.CreateFragmentShader(videoTextures, segments.value, SubsectionsPerSegment, format))
    {
      if segments.None? || |segments.value| == 0 || |videoTextures| == 0 then Gray
      else VideoShader(GlobeShader.CreateFragmentShader(videoTextures, segments.value, SubsectionsPerSegment, format))
    }
  }

  /** Two `end`s before a `start` leave the first timer uncancellable: it still fires and
      clears the flag while the user is interacting, so the globe turns again. */
  method StaleTimerStillFires() returns (interacting: bool, turned: bool)
    ensures !interacting && turned
  {
    var earth := new Earth();
    earth.InteractionEnd(0);
    earth.InteractionEnd(5);
    earth.InteractionStart();
    assert 0 in earth.timers && earth.timers[0] == AutoRotationDelay;
    var fired := earth.TimerFires(0, AutoRotationDelay);
    earth.Frame();
    interacting := earth.isUserInteracting;
    turned := earth.rotationSteps == 1;
  }
}
