/** The segment table of src/components/Earth/index.js and the pointer hit test over it.
    Texture coordinates are exact reals, so the band bounds `0.1 + 0.13 * i` and
    `0.23 + 0.13 * i` are exact (in IEEE doubles the adjacent bounds are equal as well). */
module Segments {
  import opened Wrappers
  import opened Lru
  import Shuffle

  const SegmentCount: nat := 6
  const SubsectionsPerSegment: nat := 5
  const TotalPositions: nat := 30

  /** A slot of a segment: `{textureIndex: -1}` when empty, `{id, texture, textureIndex}` when
      a video was placed in it. An empty slot is still a (truthy) object. */
  datatype Slot = Empty | Video(id: Id, textureIndex: nat)

  /** `video.textureIndex` */
  function TextureIndex(s: Slot): (t: int)
    ensures t >= 0 <==> s.Video?
  {
    match s
    case Empty => -1
    case Video(_, t) => t
  }

  /** `video.id`: undefined for an empty slot. */
  function SlotId(s: Slot): (r: Option<Id>)
    ensures r.Some? <==> s.Video?
  {
    match s
    case Empty => None
    case Video(id, _) => Some(id)
  }

  datatype Segment = Segment(id: int, minY: real, maxY: real, videos: seq<Slot>)

  function MinY(i: nat): real
  {
    0.1 + (i as real) * 0.13
  }

  function MaxY(i: nat): real
  {
    0.23 + (i as real) * 0.13
  }

  /** How many shuffled positions receive a video: `shuffledPositions.slice(0, videos.length)`. */
  function PlacedCount(shuffled: seq<int>, videos: seq<Id>): (n: nat)
    ensures n <= |shuffled| && n <= |videos|
    ensures n == |videos| || n == |shuffled|
  {
    if |videos| < |shuffled| then |videos| else |shuffled|
  }

  /** The slot at position `p` after the first `n` placements of the `forEach`: the last
      video placed there, or empty. */
  function CellAfter(shuffled: seq<int>, videos: seq<Id>, n: nat, p: int): Slot
    requires n <= |shuffled| && n <= |videos|
  {
    if n == 0 then Empty
    else if shuffled[n - 1] == p then Video(videos[n - 1], n - 1)
    else CellAfter(shuffled, videos, n - 1, p)
  }

  /** The table after `n` placements: segment `i` has id `i + 1`, the band of row `i`, and
      slot `s` holds position `5 * i + s`. */
  function LayoutAfter(shuffled: seq<int>, videos: seq<Id>, n: nat): seq<Segment>
    requires n <= |shuffled| && n <= |videos|
  {
    seq(SegmentCount, i requires 0 <= i < SegmentCount =>
      Segment(i + 1, MinY(i), MaxY(i),
        seq(SubsectionsPerSegment, s requires 0 <= s < SubsectionsPerSegment =>
          CellAfter(shuffled, videos, n, SubsectionsPerSegment * i + s))))
  }

  /** The finished table. */
  function Layout(shuffled: seq<int>, videos: seq<Id>): seq<Segment>
  {
    LayoutAfter(shuffled, videos, PlacedCount(shuffled, videos))
  }

  /** The segment construction of `initializeEarth`: six segments of five empty slots, then
      video `k` written to segment `p / 5`, slot `p % 5`, for the `k`-th shuffled position `p`. */
  method BuildSegments(shuffled: seq<int>, videos: seq<Id>) returns (segments: seq<Segment>)
    requires |shuffled| == TotalPositions
    requires forall k :: 0 <= k < |shuffled| ==> 0 <= shuffled[k] < TotalPositions
    ensures segments == Layout(shuffled, videos)
  {
    segments := seq(SegmentCount, i requires 0 <= i < SegmentCount =>
      Segment(i + 1, MinY(i), MaxY(i), seq(SubsectionsPerSegment, _ => Empty)));
    var n := PlacedCount(shuffled, videos);
    var k := 0;
    while k < n
      invariant 0 <= k <= n
      invariant |segments| == SegmentCount
      invariant forall i :: 0 <= i < SegmentCount ==>
        && segments[i].id == i + 1 && segments[i].minY == MinY(i) && segments[i].maxY == MaxY(i)
        && |segments[i].videos| == SubsectionsPerSegment
      invariant forall i, s :: 0 <= i < SegmentCount && 0 <= s < SubsectionsPerSegment ==>
        segments[i].videos[s] == CellAfter(shuffled, videos, k, SubsectionsPerSegment * i + s)
    {
      var position := shuffled[k];
      var segmentIndex := position / SubsectionsPerSegment;
      var subsectionIndex := position % SubsectionsPerSegment;
      var seg := segments[segmentIndex];
      segments := segments[segmentIndex := seg.(videos := seg.videos[subsectionIndex := Video(videos[k], k)])];
      k := k + 1;
    }
    assert forall i :: 0 <= i < SegmentCount ==> segments[i] == Layout(shuffled, videos)[i] by {
      forall i | 0 <= i < SegmentCount ensures segments[i] == Layout(shuffled, videos)[i] {
        assert segments[i].videos == Layout(shuffled, videos)[i].videos;
      }
    }
  }

  /** Whatever a slot holds came from the placement that wrote it: video `t` was placed at
      exactly that position. */
  lemma {:induction false} CellOrigin(shuffled: seq<int>, videos: seq<Id>, n: nat, p: int)
    requires n <= |shuffled| && n <= |videos|
    ensures var c := CellAfter(shuffled, videos, n, p);
      c.Video? ==> c.textureIndex < n && shuffled[c.textureIndex] == p && c.id == videos[c.textureIndex]
    ensures CellAfter(shuffled, videos, n, p) == Empty <==> forall k :: 0 <= k < n ==> shuffled[k] != p
  {
    if n > 0 && shuffled[n - 1] != p {
      CellOrigin(shuffled, videos, n - 1, p);
    }
  }

  /** With distinct positions, every placed video is in the cell of its position. */
  lemma {:induction false} PlacedInItsCell(shuffled: seq<int>, videos: seq<Id>, n: nat, k: nat)
    requires n <= |shuffled| && n <= |videos| && Shuffle.AllDistinct(shuffled) && k < n
    ensures CellAfter(shuffled, videos, n, shuffled[k]) == Video(videos[k], k)
  {
    if k < n - 1 {
      assert shuffled[n - 1] != shuffled[k];
      PlacedInItsCell(shuffled, videos, n - 1, k);
    }
  }

  /** The placement promise of the table built from a permutation of the 30 positions: the
      first `min(K, 30)` videos each sit in exactly the cell `(p / 5, p % 5)` of their position
      `p`, every other cell is empty, and no later video is placed. */
  lemma LayoutPlacement(shuffled: seq<int>, videos: seq<Id>)
    requires |shuffled| == TotalPositions && Shuffle.AllDistinct(shuffled)
    requires forall k :: 0 <= k < |shuffled| ==> 0 <= shuffled[k] < TotalPositions
    ensures var segs := Layout(shuffled, videos);
      && |segs| == SegmentCount
      && (forall i :: 0 <= i < SegmentCount ==>
            segs[i].id == i + 1 && |segs[i].videos| == SubsectionsPerSegment)
      && (forall k :: 0 <= k < PlacedCount(shuffled, videos) ==>
            segs[shuffled[k] / SubsectionsPerSegment].videos[shuffled[k] % SubsectionsPerSegment]
              == Video(videos[k], k))
      && (forall i, s :: 0 <= i < SegmentCount && 0 <= s < SubsectionsPerSegment && segs[i].videos[s].Video? ==>
            var t := segs[i].videos[s].textureIndex;
            t < PlacedCount(shuffled, videos) && t < TotalPositions
            && shuffled[t] == SubsectionsPerSegment * i + s && segs[i].videos[s].id == videos[t])
  {
    var segs := Layout(shuffled, videos);
    var n := PlacedCount(shuffled, videos);
    forall k | 0 <= k < n
      ensures segs[shuffled[k] / SubsectionsPerSegment].videos[shuffled[k] % SubsectionsPerSegment]
              == Video(videos[k], k)
    {
      PlacedInItsCell(shuffled, videos, n, k);
    }
    forall i, s | 0 <= i < SegmentCount && 0 <= s < SubsectionsPerSegment
      ensures segs[i].videos[s].Video? ==>
        var t := segs[i].videos[s].textureIndex;
        t < n && t < TotalPositions && shuffled[t] == SubsectionsPerSegment * i + s && segs[i].videos[s].id == videos[t]
    {
      CellOrigin(shuffled, videos, n, SubsectionsPerSegment * i + s);
    }
  }

  /** A video occupies at most one cell: two cells holding the same texture index are the
      same cell. */
  lemma NoVideoTwice(shuffled: seq<int>, videos: seq<Id>, i1: nat, s1: nat, i2: nat, s2: nat)
    requires |shuffled| == TotalPositions && Shuffle.AllDistinct(shuffled)
    requires forall k :: 0 <= k < |shuffled| ==> 0 <= shuffled[k] < TotalPositions
    requires i1 < SegmentCount && s1 < SubsectionsPerSegment && i2 < SegmentCount && s2 < SubsectionsPerSegment
    requires Layout(shuffled, videos)[i1].videos[s1].Video?
    requires Layout(shuffled, videos)[i2].videos[s2] == Layout(shuffled, videos)[i1].videos[s1]
    ensures i1 == i2 && s1 == s2
  {
    LayoutPlacement(shuffled, videos);
  }

  // ---- Hit test ----

  /** The texture coordinate of the first intersection of the pointer ray with the globe. */
  datatype Uv = Uv(x: real, y: real)

  /** The predicate of `find`: open at the bottom, closed at the top. */
  predicate InBand(seg: Segment, y: real)
  {
    seg.minY < y <= seg.maxY
  }

  /** `segments.find(s => uv.y > s.minY && uv.y <= s.maxY)`, as the index of the segment found. */
  function FindSegment(segs: seq<Segment>, y: real): (r: Option<nat>)
    ensures r.Some? ==> r.value < |segs| && InBand(segs[r.value], y)
    ensures r.Some? ==> forall j :: 0 <= j < r.value ==> !InBand(segs[j], y)
    ensures r.None? ==> forall j :: 0 <= j < |segs| ==> !InBand(segs[j], y)
  {
    if |segs| == 0 then None
    else if InBand(segs[0], y) then Some(0)
    else
      match FindSegment(segs[1..], y)
      case None => None
      case Some(i) => Some(i + 1)
  }

  /** `Math.floor(uv.x * SUBSECTIONS_PER_SEGMENT)`: not clamped. */
  function SubsectionIndex(x: real): (r: int)
    ensures (r as real) <= x * 5.0 < (r as real) + 1.0
  {
    (x * (SubsectionsPerSegment as real)).Floor
  }

  /** `segment.videos[subsectionIndex]`: undefined outside the array. */
  function SlotAt(seg: Segment, x: real): (r: Option<Slot>)
    ensures r.Some? <==> 0 <= SubsectionIndex(x) < |seg.videos|
    ensures r.Some? ==> r.value == seg.videos[SubsectionIndex(x)]
  {
    var i := SubsectionIndex(x);
    if 0 <= i < |seg.videos| then Some(seg.videos[i]) else None
  }

  /** The six bands of the table built by `initializeEarth`. */
  ghost predicate StandardBands(segs: seq<Segment>)
  {
    && |segs| == SegmentCount
    && forall i :: 0 <= i < SegmentCount ==> segs[i].minY == MinY(i) && segs[i].maxY == MaxY(i)
  }

  lemma LayoutHasStandardBands(shuffled: seq<int>, videos: seq<Id>)
    ensures StandardBands(Layout(shuffled, videos))
  {
  }

  /** Adjacent bands meet exactly and no two bands overlap. */
  lemma BandsDisjoint(segs: seq<Segment>, y: real, i: nat, j: nat)
    requires StandardBands(segs) && i < j < SegmentCount
    ensures MaxY(i) <= MinY(j)
    ensures j == i + 1 ==> MaxY(i) == MinY(j)
    ensures !(InBand(segs[i], y) && InBand(segs[j], y))
  {
  }

  /** The hit test on the built table: segment `i` is found exactly for `y` in
      `(0.1 + 0.13 i, 0.23 + 0.13 i]`, and nothing is found at or below 0.1 or above 0.88. */
  lemma BandLookup(segs: seq<Segment>, y: real)
    requires StandardBands(segs)
    ensures forall i :: 0 <= i < SegmentCount ==> (FindSegment(segs, y) == Some(i) <==> MinY(i) < y <= MaxY(i))
    ensures FindSegment(segs, y) == None <==> (y <= 0.1 || y > 0.88)
  {
    var r := FindSegment(segs, y);
    forall i | 0 <= i < SegmentCount
      ensures r == Some(i) <==> MinY(i) < y <= MaxY(i)
    {
      if MinY(i) < y <= MaxY(i) && r != Some(i) {
        assert InBand(segs[i], y);
        var j := r.value;
        if j < i { BandsDisjoint(segs, y, j, i); }
      }
    }
    if 0.1 < y <= 0.88 {
      var i: nat := if y <= MaxY(0) then 0 else if y <= MaxY(1) then 1 else if y <= MaxY(2) then 2
                    else if y <= MaxY(3) then 3 else if y <= MaxY(4) then 4 else 5;
      assert InBand(segs[i], y);
    }
  }
}
