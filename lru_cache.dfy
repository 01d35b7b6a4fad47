/**
 * The byte-bounded least-recently-used cache of the gallery server.
 *
 * The server keeps two of them (full images and previews), each an insertion
 * ordered dictionary from a normalised path to a triple (media type, payload,
 * loop time).  The dictionary's order is the recency order: the first entry is
 * the least recently used one, the last entry the most recent one.
 */
module LruCache {

  newtype byte = x: int | 0 <= x < 256

  /** One cached item; `time` is the event-loop clock at insertion, never read. */
  datatype Entry = Entry(key: string, mediaType: string, content: seq<byte>, time: real)

  /** The size of a cache: the payload bytes of its entries, and nothing else. */
  function Size(s: seq<Entry>): (n: nat)
    ensures forall i :: 0 <= i < |s| ==> |s[i].content| <= n
  {
    if s == [] then 0 else |s[0].content| + Size(s[1..])
  }

  /** No key occurs twice, as in any dictionary. */
  ghost predicate UniqueKeys(s: seq<Entry>)
  {
    forall i, j :: 0 <= i < j < |s| ==> s[i].key != s[j].key
  }

  /** The position of `key`, or -1 when the cache does not hold it. */
  function Find(s: seq<Entry>, key: string): (i: int)
    ensures -1 <= i < |s|
    ensures 0 <= i ==> s[i].key == key
    ensures i < 0 <==> forall j :: 0 <= j < |s| ==> s[j].key != key
  {
    if s == [] then -1
    else if s[0].key == key then 0
    else
      var j := Find(s[1..], key);
      if j < 0 then -1 else j + 1
  }

  /** The entries without the one at position `i` (dictionary `pop`). */
  function Removed(s: seq<Entry>, i: nat): (r: seq<Entry>)
    requires i < |s|
    ensures |r| == |s| - 1
    ensures forall j :: 0 <= j < i ==> r[j] == s[j]
    ensures forall j :: i <= j < |r| ==> r[j] == s[j + 1]
  {
    s[..i] + s[i + 1..]
  }

  /** The recency order after a hit on position `i`: that entry moves to the end. */
  function Promoted(s: seq<Entry>, i: nat): (r: seq<Entry>)
    requires i < |s|
    ensures |r| == |s| && r[|s| - 1] == s[i]
  {
    Removed(s, i) + [s[i]]
  }

  /**
   * Dictionary assignment `cache[e.key] = e`: an existing key keeps its
   * position and takes the new value; a new key goes to the most recent end.
   */
  function Assigned(s: seq<Entry>, e: Entry): (r: seq<Entry>)
    ensures |r| == if 0 <= Find(s, e.key) then |s| else |s| + 1
    ensures r[if 0 <= Find(s, e.key) then Find(s, e.key) else |s|] == e
    ensures forall j :: 0 <= j < |s| && j != Find(s, e.key) ==> r[j] == s[j]
  {
    var i := Find(s, e.key);
    if 0 <= i then s[i := e] else s + [e]
  }

  /**
   * What `evict_old_items` leaves: the oldest entries are dropped one at a time
   * while the cache is non-empty and larger than `maxSize`.
   */
  function Evicted(s: seq<Entry>, maxSize: int): (r: seq<Entry>)
    ensures |r| <= |s|
    ensures Size(s) <= maxSize ==> r == s
  {
    if s == [] || Size(s) <= maxSize then s else Evicted(s[1..], maxSize)
  }

  lemma {:induction false} SizeAppend(a: seq<Entry>, b: seq<Entry>)
    ensures Size(a + b) == Size(a) + Size(b)
  {
    if a == [] {
      assert a + b == b;
    } else {
      assert (a + b)[1..] == a[1..] + b;
      SizeAppend(a[1..], b);
    }
  }

  /** Media types and timestamps do not count: only the payload lengths do. */
  lemma {:induction false} SizeCountsPayloadOnly(s: seq<Entry>, t: seq<Entry>)
    requires |s| == |t|
    requires forall i :: 0 <= i < |s| ==> |s[i].content| == |t[i].content|
    ensures Size(s) == Size(t)
  {
    if s != [] {
      SizeCountsPayloadOnly(s[1..], t[1..]);
    }
  }

  /** Eviction keeps a suffix: values and their relative order are untouched. */
  lemma {:induction false} EvictedIsSuffix(s: seq<Entry>, maxSize: int)
    ensures |Evicted(s, maxSize)| <= |s|
    ensures Evicted(s, maxSize) == s[|s| - |Evicted(s, maxSize)|..]
  {
    if s != [] && Size(s) > maxSize {
      EvictedIsSuffix(s[1..], maxSize);
      assert s[1..][|s[1..]| - |Evicted(s[1..], maxSize)|..] == s[|s| - |Evicted(s, maxSize)|..];
    }
  }

  /** Eviction invents nothing: every surviving entry was there before. */
  lemma EvictedMembers(s: seq<Entry>, maxSize: int)
    ensures forall x :: x in Evicted(s, maxSize) ==> x in s
  {
    var r := Evicted(s, maxSize);
    EvictedIsSuffix(s, maxSize);
    forall x | x in r
      ensures x in s
    {
      var k :| 0 <= k < |r| && r[k] == x;
      assert x == s[|s| - |r| + k];
    }
  }

  /** After eviction the cache is either empty or within its budget. */
  lemma {:induction false} EvictedFits(s: seq<Entry>, maxSize: int)
    ensures Evicted(s, maxSize) == [] || Size(Evicted(s, maxSize)) <= maxSize
  {
    if s != [] && Size(s) > maxSize {
      EvictedFits(s[1..], maxSize);
    }
  }

  /** Nothing is evicted needlessly: every longer suffix was over budget. */
  lemma {:induction false} EvictedIsMinimal(s: seq<Entry>, maxSize: int, k: nat)
    requires k < |s| - |Evicted(s, maxSize)|
    ensures Size(s[k..]) > maxSize
  {
    if s == [] || Size(s) <= maxSize {
    } else if k > 0 {
      EvictedIsMinimal(s[1..], maxSize, k - 1);
      assert s[1..][k - 1..] == s[k..];
    }
  }

  lemma EvictedKeepsUniqueKeys(s: seq<Entry>, maxSize: int)
    requires UniqueKeys(s)
    ensures UniqueKeys(Evicted(s, maxSize))
  {
    EvictedIsSuffix(s, maxSize);
  }

  /**
   * A freshly appended entry survives eviction unless everything before it is
   * evicted and its own payload is still over budget; if it survives, it is
   * the most recent entry.
   */
  lemma {:induction false} EvictedAfterAppend(s: seq<Entry>, e: Entry, maxSize: int)
    ensures Evicted(s + [e], maxSize) == [] <==> |e.content| > maxSize
    ensures Evicted(s + [e], maxSize) != [] ==>
              Evicted(s + [e], maxSize)[|Evicted(s + [e], maxSize)| - 1] == e
  {
    var t := s + [e];
    SizeAppend(s, [e]);
    assert Size([e]) == |e.content| by {
      assert [e][1..] == [];
    }
    if s == [] {
      assert t == [e];
      assert [e][1..] == [];
    } else if Size(t) <= maxSize {
    } else {
      assert t[1..] == s[1..] + [e];
      EvictedAfterAppend(s[1..], e, maxSize);
    }
  }

  /** A key that occurs once is gone after removing its position. */
  lemma RemovedLacksKey(s: seq<Entry>, i: nat)
    requires UniqueKeys(s) && i < |s|
    ensures Find(Removed(s, i), s[i].key) < 0
    ensures UniqueKeys(Removed(s, i))
  {
    var r := Removed(s, i);
    forall j | 0 <= j < |r|
      ensures r[j].key != s[i].key
    {
      if j < i { assert r[j] == s[j]; } else { assert r[j] == s[j + 1]; }
    }
    forall a, b | 0 <= a < b < |r|
      ensures r[a].key != r[b].key
    {
      var a' := if a < i then a else a + 1;
      var b' := if b < i then b else b + 1;
      assert r[a] == s[a'] && r[b] == s[b'];
    }
  }

  /** The size of a cache split around position `i`. */
  lemma SizeAround(s: seq<Entry>, i: nat)
    requires i < |s|
    ensures Size(s) == Size(s[..i]) + |s[i].content| + Size(s[i + 1..])
  {
    var tail := s[i..];
    assert s == s[..i] + tail;
    SizeAppend(s[..i], tail);
    assert tail[1..] == s[i + 1..];
  }

  /** The payload total does not change when an entry moves to the end. */
  lemma PromotedSize(s: seq<Entry>, i: nat)
    requires i < |s|
    ensures Size(Promoted(s, i)) == Size(s)
  {
    var r := Removed(s, i);
    SizeAround(s, i);
    SizeAppend(s[..i], s[i + 1..]);
    SizeAppend(r, [s[i]]);
    assert Size([s[i]]) == |s[i].content| by {
      assert [s[i]][1..] == [];
    }
  }

  /** Moving an entry to the end keeps the multiset of entries. */
  lemma PromotedPermutes(s: seq<Entry>, i: nat)
    requires i < |s|
    ensures multiset(Promoted(s, i)) == multiset(s)
  {
    calc {
      multiset(Promoted(s, i));
      multiset(s[..i]) + multiset(s[i + 1..]) + multiset{s[i]};
      { assert s == s[..i] + [s[i]] + s[i + 1..]; }
      multiset(s);
    }
  }

  /** Keys stay unique when an entry moves to the end. */
  lemma PromotedKeepsUniqueKeys(s: seq<Entry>, i: nat)
    requires UniqueKeys(s) && i < |s|
    ensures UniqueKeys(Promoted(s, i))
  {
    var p := Promoted(s, i);
    var r := Removed(s, i);
    RemovedLacksKey(s, i);
    forall a, b | 0 <= a < b < |p|
      ensures p[a].key != p[b].key
    {
      assert p[a] == r[a];
      if b < |p| - 1 {
        assert p[b] == r[b];
      } else {
        assert p[b] == s[i];
      }
    }
  }

  /**
   * A hit moves the entry to the most recent end and keeps everything else:
   * the same entries (so the same keys and values), the same size, and the
   * other entries in their old relative order.
   */
  lemma PromotedFacts(s: seq<Entry>, i: nat)
    requires UniqueKeys(s) && i < |s|
    ensures |Promoted(s, i)| == |s|
    ensures Promoted(s, i)[|s| - 1] == s[i]
    ensures Promoted(s, i)[..|s| - 1] == Removed(s, i)
    ensures multiset(Promoted(s, i)) == multiset(s)
    ensures UniqueKeys(Promoted(s, i))
    ensures Size(Promoted(s, i)) == Size(s)
  {
    assert Promoted(s, i)[..|s| - 1] == Removed(s, i);
    PromotedPermutes(s, i);
    PromotedKeepsUniqueKeys(s, i);
    PromotedSize(s, i);
  }

  /**
   * Recency, not insertion, decides eviction: after storing `a` then `b`,
   * hitting `a` and storing `c` with room for exactly one eviction, `b` is
   * the entry evicted and `a` survives.
   */
  lemma {:induction false} HitProtectsFromEviction(a: Entry, b: Entry, c: Entry, maxSize: int)
    requires a.key != b.key && c.key != a.key && c.key != b.key
    requires |a.content| + |b.content| <= maxSize
    requires |a.content| + |b.content| + |c.content| > maxSize
    requires |a.content| + |c.content| <= maxSize
    ensures Evicted([a, b], maxSize) == [a, b]
    ensures Promoted([a, b], 0) == [b, a]
    ensures Evicted(Promoted([a, b], 0) + [c], maxSize) == [a, c]
  {
    assert [a, b][1..] == [b] && [b][1..] == [] && [c][1..] == [];
    assert Size([b]) == |b.content| && Size([c]) == |c.content|;
    assert Size([a, b]) == |a.content| + |b.content|;
    var t := [b, a, c];
    assert Promoted([a, b], 0) + [c] == t;
    assert t[1..] == [a, c] && [a, c][1..] == [c];
    assert Size([a, c]) == |a.content| + |c.content|;
    assert Size(t) == |b.content| + |a.content| + |c.content|;
  }

  /** Assigning a key the cache lacks appends it; keys stay unique either way. */
  lemma AssignedFacts(s: seq<Entry>, e: Entry)
    requires UniqueKeys(s)
    ensures Find(s, e.key) < 0 ==> Assigned(s, e) == s + [e]
    ensures 0 <= Find(s, e.key) ==> |Assigned(s, e)| == |s|
    ensures UniqueKeys(Assigned(s, e))
  {
    var a := Assigned(s, e);
    var i := Find(s, e.key);
    forall x, y | 0 <= x < y < |a|
      ensures a[x].key != a[y].key
    {
      if i < 0 && y == |s| {
        assert a[x] == s[x];
      }
    }
  }

  /** An insertion-ordered dictionary of cache entries. */
  class Cache {
    var entries: seq<Entry>

    ghost predicate Valid()
      reads this
    {
      UniqueKeys(entries)
    }

    constructor ()
      ensures Valid() && entries == []
    {
      entries := [];
    }

    /** `key in cache` */
    method Contains(key: string) returns (b: bool)
      ensures b <==> exists j :: 0 <= j < |entries| && entries[j].key == key
    {
      b := 0 <= Find(entries, key);
    }

    /** `cache.pop(key)`; the callers test membership first. */
    method Pop(key: string) returns (e: Entry)
      requires Valid()
      requires exists j :: 0 <= j < |entries| && entries[j].key == key
      modifies this
      ensures Valid()
      ensures 0 <= Find(old(entries), key)
      ensures e == old(entries)[Find(old(entries), key)]
      ensures entries == Removed(old(entries), Find(old(entries), key))
    {
      var i := Find(entries, key);
      RemovedLacksKey(entries, i);
      e := entries[i];
      entries := Removed(entries, i);
    }

    /** `cache[e.key] = e` */
    method SetItem(e: Entry)
      requires Valid()
      modifies this
      ensures Valid()
      ensures entries == Assigned(old(entries), e)
    {
      AssignedFacts(entries, e);
      var i := Find(entries, e.key);
      if 0 <= i {
        entries := entries[i := e];
      } else {
        entries := entries + [e];
      }
    }

    /**
     * A cache hit: `item = cache.pop(key); cache[key] = item`.  The entry
     * moves to the most recent end; the size does not change.
     */
    method Refresh(key: string) returns (e: Entry)
      requires Valid()
      requires exists j :: 0 <= j < |entries| && entries[j].key == key
      modifies this
      ensures Valid()
      ensures 0 <= Find(old(entries), key)
      ensures e == old(entries)[Find(old(entries), key)]
      ensures entries == Promoted(old(entries), Find(old(entries), key))
      ensures Size(entries) == Size(old(entries))
      ensures forall x :: x in entries <==> x in old(entries)
    {
      ghost var s := entries;
      ghost var i := Find(s, key);
      e := Pop(key);
      RemovedLacksKey(s, i);
      SetItem(e);
      PromotedFacts(s, i);
      forall x
        ensures x in entries <==> x in s
      {
        assert x in entries <==> x in multiset(entries);
        assert x in s <==> x in multiset(s);
      }
    }

    /** `cache.popitem(last=False)`: drop the least recently used entry. */
    method PopOldest() returns (e: Entry)
      requires Valid() && entries != []
      modifies this
      ensures Valid()
      ensures e == old(entries)[0] && entries == old(entries)[1..]
    {
      e := entries[0];
      entries := entries[1..];
    }
  }

  /** `evict_old_items(cache, max_size)` */
  method EvictOldItems(cache: Cache, maxSize: int)
    requires cache.Valid()
    modifies cache
    ensures cache.Valid()
    ensures cache.entries == Evicted(old(cache.entries), maxSize)
    ensures cache.entries == [] || Size(cache.entries) <= maxSize
  {
    while cache.entries != [] && Size(cache.entries) > maxSize
      invariant cache.Valid()
      invariant Evicted(cache.entries, maxSize) == Evicted(old(cache.entries), maxSize)
      decreases |cache.entries|
    {
      var _ := cache.PopOldest();
    }
    EvictedFits(old(cache.entries), maxSize);
  }

  /** A cache miss: `cache[e.key] = e` followed by `evict_old_items(cache, maxSize)`. */
  method StoreAndEvict(cache: Cache, e: Entry, maxSize: int)
    requires cache.Valid()
    modifies cache
    ensures cache.Valid()
    ensures cache.entries == Evicted(Assigned(old(cache.entries), e), maxSize)
    ensures cache.entries == [] || Size(cache.entries) <= maxSize
    ensures forall x :: x in cache.entries ==> x in Assigned(old(cache.entries), e)
  {
    cache.SetItem(e);
    ghost var s := cache.entries;
    EvictOldItems(cache, maxSize);
    EvictedMembers(s, maxSize);
  }
}
