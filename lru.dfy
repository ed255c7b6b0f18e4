/** The store of video handles shared by the globe component (src/components/Earth/index.js)
    and the VideoCache class (src/components/Earth/utils/videoCache.js): a JavaScript Map from
    video id to handle, and the least-recently-used entry that both of them pick with
    `Array.from(map.entries()).reduce((oldest, current) =>
       current.lastUsed < oldest.lastUsed ? current : oldest)`. */
module Lru {

  type Id = string

  /** One cached video. `element` names its video element and the texture made from it,
      `lastUsed` is the clock reading of its last use, `playing` whether the element plays. */
  datatype Entry = Entry(element: nat, lastUsed: int, playing: bool)

  /** A JavaScript Map: `order` lists the keys of `entries` in insertion order,
      the order in which `entries()` and `forEach` visit them. */
  datatype Store = Store(order: seq<Id>, entries: map<Id, Entry>)

  const EmptyStore: Store := Store([], map[])

  predicate Distinct(s: seq<Id>)
  {
    forall i, j :: 0 <= i < j < |s| ==> s[i] != s[j]
  }

  ghost predicate Valid(st: Store)
  {
    && Distinct(st.order)
    && (forall k :: k in st.entries <==> k in st.order)
  }

  /** `map.size` */
  function Size(st: Store): nat
  {
    |st.order|
  }

  /** `map.set(id, e)`: a new key is visited last, a key already present keeps its place. */
  function Set(st: Store, id: Id, e: Entry): (r: Store)
    requires Valid(st)
    ensures Valid(r)
    ensures r.entries == st.entries[id := e]
    ensures id in st.entries ==> r.order == st.order
    ensures id !in st.entries ==> r.order == st.order + [id]
  {
    Store(if id in st.entries then st.order else st.order + [id], st.entries[id := e])
  }

  function Remove(s: seq<Id>, i: nat): (r: seq<Id>)
    requires i < |s|
    ensures |r| == |s| - 1
    ensures forall j :: 0 <= j < i ==> r[j] == s[j]
    ensures forall j :: i <= j < |r| ==> r[j] == s[j + 1]
  {
    s[..i] + s[i + 1..]
  }

  lemma RemoveKeepsValid(st: Store, i: nat)
    requires Valid(st) && i < Size(st)
    ensures Valid(Store(Remove(st.order, i), st.entries - {st.order[i]}))
  {
    var r := Remove(st.order, i);
    forall k
      ensures k in st.entries - {st.order[i]} <==> k in r
    {
      if k in r {
        var j :| 0 <= j < |r| && r[j] == k;
        if j < i { assert r[j] == st.order[j]; } else { assert r[j] == st.order[j + 1]; }
      }
      if k in st.entries - {st.order[i]} {
        var j :| 0 <= j < |st.order| && st.order[j] == k;
        if j < i { assert r[j] == k; } else { assert j != i && r[j - 1] == k; }
      }
    }
  }

  /** The `lastUsed` stamps in iteration order. */
  function Stamps(st: Store): (s: seq<int>)
    requires Valid(st)
    ensures |s| == Size(st)
    ensures forall i :: 0 <= i < |s| ==> s[i] == st.entries[st.order[i]].lastUsed
  {
    seq(|st.order|, i requires 0 <= i < |st.order| => st.entries[st.order[i]].lastUsed)
  }

  /** `k` is the first of the first `n` positions whose stamp is minimal among them. */
  ghost predicate IsOldestAmong(s: seq<int>, n: nat, k: nat)
  {
    && k < n <= |s|
    && (forall j :: 0 <= j < n ==> s[k] <= s[j])
    && (forall j :: 0 <= j < k ==> s[k] < s[j])
  }

  /** The position `reduce` returns after visiting the first `n` stamps: the current element
      replaces the running one only when strictly older. */
  function Reduce(s: seq<int>, n: nat): (k: nat)
    requires 0 < n <= |s|
    ensures IsOldestAmong(s, n, k)
  {
    if n == 1 then 0
    else
      var p := Reduce(s, n - 1);
      if s[n - 1] < s[p] then n - 1 else p
  }

  /** The position of the entry both caches evict: the unique earliest-inserted one
      among those with the smallest `lastUsed`. */
  function OldestIndex(st: Store): (k: nat)
    requires Valid(st) && Size(st) > 0
    ensures k < Size(st)
    ensures forall j :: 0 <= j < Size(st) ==> st.entries[st.order[k]].lastUsed <= st.entries[st.order[j]].lastUsed
    ensures forall j :: 0 <= j < k ==> st.entries[st.order[k]].lastUsed < st.entries[st.order[j]].lastUsed
    ensures forall j :: IsOldestAmong(Stamps(st), Size(st), j) ==> j == k
  {
    Reduce(Stamps(st), Size(st))
  }

  /** Pause, dispose and delete the oldest entry: the store without it, and its id. */
  function EvictOldest(st: Store): (r: (Store, Id))
    requires Valid(st) && Size(st) > 0
    ensures Valid(r.0)
    ensures r.1 == st.order[OldestIndex(st)]
    ensures r.1 in st.entries && r.0.entries == st.entries - {r.1}
    ensures r.0.order == Remove(st.order, OldestIndex(st))
    ensures Size(r.0) == Size(st) - 1
  {
    var k := OldestIndex(st);
    RemoveKeepsValid(st, k);
    (Store(Remove(st.order, k), st.entries - {st.order[k]}), st.order[k])
  }

  /** The `reduce` scan of both caches, written as the loop it performs. */
  method FindOldest(st: Store) returns (k: nat)
    requires Valid(st) && Size(st) > 0
    ensures k == OldestIndex(st)
    ensures forall j :: 0 <= j < Size(st) ==> st.entries[st.order[k]].lastUsed <= st.entries[st.order[j]].lastUsed
    ensures forall j :: 0 <= j < k ==> st.entries[st.order[k]].lastUsed < st.entries[st.order[j]].lastUsed
  {
    k := 0;
    var i := 1;
    while i < |st.order|
      invariant 1 <= i <= |st.order|
      invariant k == Reduce(Stamps(st), i)
    {
      if st.entries[st.order[i]].lastUsed < st.entries[st.order[k]].lastUsed {
        k := i;
      }
      i := i + 1;
    }
  }

  /** An entry set last with a stamp no older than any other is never the one evicted
      while another entry is present. */
  lemma NewestNotEvicted(st: Store)
    requires Valid(st) && Size(st) >= 2
    requires forall j :: 0 <= j < Size(st) ==> st.entries[st.order[j]].lastUsed <= st.entries[st.order[Size(st) - 1]].lastUsed
    ensures OldestIndex(st) != Size(st) - 1
  {
  }

  /** Appending a new key whose stamp is at least every other leaves the oldest entry where
      it was. */
  lemma AppendNewestKeepsOldest(st: Store, id: Id, e: Entry)
    requires Valid(st) && Size(st) >= 1 && id !in st.entries
    requires forall j :: 0 <= j < Size(st) ==> st.entries[st.order[j]].lastUsed <= e.lastUsed
    ensures OldestIndex(Set(st, id, e)) == OldestIndex(st)
  {
    var ins := Set(st, id, e);
    var n := Size(ins);
    assert ins.order == st.order + [id];
    NewestNotEvicted(ins);
    var k := OldestIndex(ins);
    assert forall j :: 0 <= j < n - 1 ==> Stamps(ins)[j] == Stamps(st)[j];
    assert IsOldestAmong(Stamps(st), Size(st), k);
  }

  /** Sets every entry's element playing exactly when its key is `id` (`play` on one element,
      `pause` on every other). */
  function PlayOnly(m: map<Id, Entry>, id: Id): (r: map<Id, Entry>)
    ensures r.Keys == m.Keys
    ensures forall k :: k in r ==> r[k].playing == (k == id)
    ensures forall k :: k in r ==> r[k].element == m[k].element && r[k].lastUsed == m[k].lastUsed
  {
    map k | k in m :: m[k].(playing := k == id)
  }

  /** Pauses every element; membership and `lastUsed` stay. */
  function PauseAll(m: map<Id, Entry>): (r: map<Id, Entry>)
    ensures r.Keys == m.Keys
    ensures forall k :: k in r ==> !r[k].playing
    ensures forall k :: k in r ==> r[k].element == m[k].element && r[k].lastUsed == m[k].lastUsed
  {
    map k | k in m :: m[k].(playing := false)
  }

  /** The `forEach` loop that pauses every cached element, in iteration order. */
  method PauseEach(st: Store) returns (m: map<Id, Entry>)
    requires Valid(st)
    ensures m == PauseAll(st.entries)
  {
    m := st.entries;
    var i := 0;
    while i < |st.order|
      invariant 0 <= i <= |st.order|
      invariant m.Keys == st.entries.Keys
      invariant forall j :: 0 <= j < i ==> m[st.order[j]] == st.entries[st.order[j]].(playing := false)
      invariant forall j :: i <= j < |st.order| ==> m[st.order[j]] == st.entries[st.order[j]]
    {
      var key := st.order[i];
      m := m[key := m[key].(playing := false)];
      i := i + 1;
    }
    assert forall k :: k in m ==> m[k] == PauseAll(st.entries)[k] by {
      forall k | k in m ensures m[k] == PauseAll(st.entries)[k] {
        var j :| 0 <= j < |st.order| && st.order[j] == k;
      }
    }
  }

  /** The `forEach` loop of a hover: play the element of `id` and pause every other one. */
  method PlayOnlyEach(st: Store, id: Id) returns (m: map<Id, Entry>)
    requires Valid(st) && id in st.entries
    ensures m == PlayOnly(st.entries, id)
  {
    m := st.entries[id := st.entries[id].(playing := true)];
    var i := 0;
    while i < |st.order|
      invariant 0 <= i <= |st.order|
      invariant m.Keys == st.entries.Keys
      invariant forall j :: 0 <= j < i ==> m[st.order[j]] == PlayOnly(st.entries, id)[st.order[j]]
      invariant forall j :: i <= j < |st.order| && st.order[j] != id ==> m[st.order[j]] == st.entries[st.order[j]]
      invariant m[id] == st.entries[id].(playing := true)
    {
      var key := st.order[i];
      if key != id {
        m := m[key := m[key].(playing := false)];
      }
      i := i + 1;
    }
    assert forall k :: k in m ==> m[k] == PlayOnly(st.entries, id)[k] by {
      forall k | k in m ensures m[k] == PlayOnly(st.entries, id)[k] {
        var j :| 0 <= j < |st.order| && st.order[j] == k;
      }
    }
  }
}
