/**
 The cache as it lies in memory (cache.c): entries linked by `lru_prev` and `lru_next` across
 documents and by `key_next` within one, with two counters.
 */
module CacheHeap {
  import opened Bytes
  import opened Cache

  /** `JSONType_t`, the part the cache knows. */
  class Doc {
    var lruEntries: PathEntry?

    constructor ()
      ensures lruEntries == null
    {
      lruEntries := null;
    }
  }

  /** `LruPathEntry`. */
  class PathEntry {
    var lruPrev: PathEntry?
    var lruNext: PathEntry?
    var keyNext: PathEntry?
    var parent: Doc
    var path: bytes
    var value: bytes

    /** When the entry was last touched. */
    ghost var stamp: nat

    /** `calloc`, and the two strings. */
    constructor (parent: Doc, path: bytes, value: bytes)
      ensures lruPrev == null && lruNext == null && keyNext == null
      ensures this.parent == parent && this.path == path && this.value == value && stamp == 0
    {
      lruPrev, lruNext, keyNext := null, null, null;
      this.parent, this.path, this.value, stamp := parent, path, value, 0;
    }
  }

  ghost function Sum(ns: seq<nat>): nat { if ns == [] then 0 else ns[0] + Sum(ns[1..]) }

  lemma {:induction false} SumConcat(a: seq<nat>, b: seq<nat>)
    ensures Sum(a + b) == Sum(a) + Sum(b)
  {
    if a == [] {
      assert a + b == b;
    } else {
      assert (a + b)[1..] == a[1..] + b;
      SumConcat(a[1..], b);
    }
  }

  ghost function Removed<T>(s: seq<T>, k: nat): seq<T>
    requires k < |s|
  {
    s[..k] + s[k + 1..]
  }

  lemma SumRemoved(ns: seq<nat>, k: nat)
    requires k < |ns|
    ensures Sum(Removed(ns, k)) == Sum(ns) - ns[k] && ns[k] <= Sum(ns)
  {
    assert ns == ns[..k] + ([ns[k]] + ns[k + 1..]);
    SumConcat(ns[..k], [ns[k]] + ns[k + 1..]);
    SumConcat(ns[..k], ns[k + 1..]);
    assert ([ns[k]] + ns[k + 1..])[1..] == ns[k + 1..];
  }

  ghost predicate LacksOnly<T>(s: seq<T>, r: seq<T>, x: T) {
    exists k :: 0 <= k < |s| && s[k] == x && r == Removed(s, k)
  }

  ghost predicate Distinct<T>(s: seq<T>) { forall i, j :: 0 <= i < j < |s| ==> s[i] != s[j] }

  /** The entries of a list, as values. */
  ghost function View(es: seq<PathEntry>): (v: seq<Entry>)
    reads es`path, es`value
    ensures |v| == |es| && forall i :: 0 <= i < |es| ==> v[i] == Entry(es[i].path, es[i].value)
  {
    if es == [] then [] else [Entry(es[0].path, es[0].value)] + View(es[1..])
  }

  ghost function After(es: seq<PathEntry>, i: nat): PathEntry? { if i + 1 < |es| then es[i + 1] else null }

  /** `key_next` runs through the list, from its head to a null. */
  ghost predicate Chain(head: PathEntry?, es: seq<PathEntry>)
    reads es`keyNext
  {
    && head == (if es == [] then null else es[0])
    && forall i :: 0 <= i < |es| ==> es[i].keyNext == After(es, i)
  }

  /** `LruCache`. */
  class LruCache {
    var newest: PathEntry?
    var oldest: PathEntry?
    var numEntries: nat
    var numBytes: nat
    const maxEntries: nat
    const maxBytes: nat
    const minSize: nat

    /** The live entries, in no particular order, and the lengths of their values. */
    ghost var all: seq<PathEntry>
    ghost var lens: seq<nat>

    /** The time of the latest touch. */
    ghost var clock: nat

    /** The documents, and the list of each. */
    ghost var docs: set<Doc>
    ghost var lists: map<Doc, seq<PathEntry>>

    /** The neighbours of a live entry are live and link back; the next one was touched earlier. */
    ghost predicate Neighbours(e: PathEntry)
      reads `all, `clock, e`lruPrev, e`lruNext, e`stamp, all`lruPrev, all`lruNext, all`stamp
    {
      && e.stamp <= clock
      && (e.lruNext != null ==> e.lruNext in all && e.lruNext.lruPrev == e && e.lruNext.stamp < e.stamp)
      && (e.lruPrev != null ==> e.lruPrev in all && e.lruPrev.lruNext == e && e.lruPrev.stamp > e.stamp)
    }

    /** The recency links are mutual inverses among live entries; nothing is newer than `newest`. */
    ghost predicate Linked()
      reads `newest, `oldest, `all, `clock, all`lruPrev, all`lruNext, all`stamp
    {
      && (forall e {:trigger Neighbours(e)} :: e in all ==> Neighbours(e))
      && (newest != null ==> newest in all && newest.lruPrev == null)
      && (oldest != null ==> oldest in all)
    }

    /** A live entry is in its parent's list. */
    ghost predicate Owned(e: PathEntry)
      reads `docs, `lists, e`parent
    {
      e.parent in docs && e.parent in lists && e in lists[e.parent]
    }

    /** A document's list: live entries of its own, once each, linked by `key_next`. */
    ghost predicate HasList(d: Doc)
      reads `all, `lists, all`parent, all`keyNext, d`lruEntries
    {
      && d in lists && Distinct(lists[d])
      && (forall i :: 0 <= i < |lists[d]| ==> lists[d][i] in all && lists[d][i].parent == d)
      && Chain(d.lruEntries, lists[d])
    }

    /** Each live entry is in one list, that of its parent, and the lists hold nothing else. */
    ghost predicate Listed()
      reads `all, `docs, `lists, all`parent, all`keyNext, docs`lruEntries
    {
      && lists.Keys == docs
      && (forall e {:trigger Owned(e)} :: e in all ==> Owned(e))
      && (forall d {:trigger HasList(d)} :: d in docs ==> HasList(d))
    }

    ghost predicate Measured()
      reads `all, `lens, all`value
    {
      Distinct(all) && |lens| == |all| && forall i :: 0 <= i < |all| ==> lens[i] == |all[i].value|
    }

    /** The counters count. */
    ghost predicate Counted()
      reads `all, `lens, `numEntries, `numBytes, all`value
    {
      Measured() && numEntries == |all| && numBytes == Sum(lens)
    }

    /** Within the limit; and a cache without an oldest entry is not full. */
    ghost predicate Bounded()
      reads `numEntries, `oldest
    {
      numEntries <= maxEntries && (oldest == null ==> numEntries < maxEntries)
    }

    ghost predicate Valid()
      reads this, all, docs
    {
      Linked() && Listed() && Counted() && Bounded()
    }

    constructor (maxEntries: nat, maxBytes: nat, minSize: nat, ghost docs: set<Doc>)
      requires maxEntries >= 1 && forall d :: d in docs ==> d.lruEntries == null
      ensures Valid() && all == [] && this.docs == docs && this.maxEntries == maxEntries && this.maxBytes == maxBytes
      ensures this.minSize == minSize
    {
      newest, oldest, numEntries, numBytes := null, null, 0, 0;
      this.maxEntries, this.maxBytes, this.minSize := maxEntries, maxBytes, minSize;
      all, lens, clock, this.docs, lists := [], [], 0, docs, map d | d in docs :: [];
    }

    /** A document's entries, as values. */
    ghost function Entries(d: Doc): seq<Entry>
      reads `lists, (if d in lists then lists[d] else [])`path, (if d in lists then lists[d] else [])`value
      requires d in lists
    {
      View(lists[d])
    }

    /** The pointer writes of `pluckEntry`: the neighbours link to each other. */
    method Unlink(entry: PathEntry)
      requires entry in all && entry.lruPrev != entry && entry.lruNext != entry
      requires entry.lruPrev != null ==> entry.lruPrev in all && entry.lruPrev != entry.lruNext
      requires entry.lruNext != null ==> entry.lruNext in all
      modifies `newest, `oldest, all`lruPrev, all`lruNext
      ensures entry.lruPrev == null && entry.lruNext == null
      ensures forall e :: e in all && e != entry ==>
        e.lruNext == if e == old(entry.lruPrev) then old(entry.lruNext) else old(e.lruNext)
      ensures forall e :: e in all && e != entry ==>
        e.lruPrev == if e == old(entry.lruNext) then old(entry.lruPrev) else old(e.lruPrev)
      ensures newest == if old(newest) == entry then old(entry.lruPrev) else old(newest)
      ensures oldest == if old(oldest) == entry then old(entry.lruNext) else old(oldest)
    {
      var prev, next := entry.lruPrev, entry.lruNext;
      if next != null { next.lruPrev := prev; }
      if prev != null { prev.lruNext := next; }
      if entry == newest { newest := prev; }
      if entry == oldest { oldest := next; }
      entry.lruNext, entry.lruPrev := null, null;
    }

    /** `pluckEntry`: the entry leaves the recency links, which stay what they are for the others. */
    method Pluck(entry: PathEntry)
      requires Linked() && entry in all
      modifies `newest, `oldest, all`lruPrev, all`lruNext
      ensures Linked() && entry.lruPrev == null && entry.lruNext == null && newest != entry && oldest != entry
      ensures oldest == if old(oldest) == entry then old(entry.lruNext) else old(oldest)
    {
      assert Neighbours(entry);
      assert entry.lruPrev != null ==> Neighbours(entry.lruPrev);
      assert entry.lruNext != null ==> Neighbours(entry.lruNext);
      assert entry.lruPrev != entry;
      assert entry.lruNext != entry;
      Unlink(entry);
      StillNeighbours(entry);
    }

    twostate lemma StillNeighbours(entry: PathEntry)
      requires all == old(all) && clock == old(clock) && entry in all
      requires old(forall e {:trigger Neighbours(e)} :: e in all ==> Neighbours(e))
      requires forall x :: x in all ==> x.stamp == old(x.stamp)
      requires entry.lruPrev == null && entry.lruNext == null
      requires forall x :: x in all && x != entry ==>
        x.lruNext == if x == old(entry.lruPrev) then old(entry.lruNext) else old(x.lruNext)
      requires forall x :: x in all && x != entry ==>
        x.lruPrev == if x == old(entry.lruNext) then old(entry.lruPrev) else old(x.lruPrev)
      ensures forall e {:trigger Neighbours(e)} :: e in all ==> Neighbours(e)
    {
      assert old(Neighbours(entry));
      assert old(entry.lruPrev) != null ==> old(Neighbours(entry.lruPrev));
      assert old(entry.lruNext) != null ==> old(Neighbours(entry.lruNext));
      forall e | e in all ensures Neighbours(e) {
        assert old(Neighbours(e));
      }
    }

    /** The pointer writes of `touchEntry`, on an entry that has been plucked. */
    method LinkNewest(entry: PathEntry)
      requires entry in all && newest != entry && (newest != null ==> newest in all) && entry.lruPrev == null
        && entry.lruNext == null
      modifies `newest, `oldest, `clock, all`lruPrev, entry`lruNext, entry`stamp
      ensures newest == entry && entry.lruPrev == null && entry.lruNext == old(newest)
      ensures clock == old(clock) + 1 == entry.stamp
      ensures forall e :: e in all && e != entry ==> e.lruPrev == if e == old(newest) then entry else old(e.lruPrev)
      ensures oldest == if old(oldest) == null then entry else old(oldest)
    {
      clock := clock + 1;
      entry.stamp := clock;
      if newest != null {
        newest.lruPrev := entry;
        entry.lruNext := newest;
      }
      newest := entry;
      if oldest == null { oldest := entry; }
    }

    twostate lemma Renewed(entry: PathEntry)
      requires old(Linked()) && all == old(all) && entry in all && old(newest) != entry && old(entry.lruPrev) == null
      requires old(entry.lruNext) == null
      requires newest == entry && entry.lruPrev == null && entry.lruNext == old(newest)
      requires clock == old(clock) + 1 == entry.stamp
      requires forall e :: e in all && e != entry ==> e.lruPrev == if e == old(newest) then entry else old(e.lruPrev)
      requires forall e :: e in all && e != entry ==> e.lruNext == old(e.lruNext) && e.stamp == old(e.stamp)
      requires oldest == entry || oldest == old(oldest)
      ensures Linked()
    {
      assert old(newest) != null ==> old(Neighbours(newest));
      forall e | e in all ensures Neighbours(e) {
        assert old(Neighbours(e));
      }
    }

    /** `touchEntry`: the entry becomes the newest. */
    method Touch(entry: PathEntry)
      requires Linked() && entry in all
      modifies `newest, `oldest, `clock, all`lruPrev, all`lruNext, entry`stamp
      ensures Linked() && newest == entry && oldest != null
      ensures clock == old(clock) + 1 == entry.stamp
      ensures old(oldest) != entry ==> oldest == if old(oldest) == null then entry else old(oldest)
    {
      hide Neighbours;
      Pluck(entry);
      Relink(entry);
    }

    method Relink(entry: PathEntry)
      requires Linked() && entry in all && newest != entry && entry.lruPrev == null && entry.lruNext == null
      modifies `newest, `oldest, `clock, all`lruPrev, entry`lruNext, entry`stamp
      ensures Linked() && newest == entry && clock == old(clock) + 1 == entry.stamp
      ensures oldest == if old(oldest) == null then entry else old(oldest)
    {
      hide Neighbours;
      LinkNewest(entry);
      Renewed(entry);
    }

    // ---- leaving the cache ----------------------------------------------------------------

    /** The walk of `purgeEntry` along the parent's list: the entry is found, behind prev. */
    method Search(entry: PathEntry) returns (prev: PathEntry?, ghost k: nat)
      requires Listed() && entry in all
      ensures entry.parent in lists && k < |lists[entry.parent]| && lists[entry.parent][k] == entry
      ensures prev == if k == 0 then null else lists[entry.parent][k - 1]
    {
      assert Owned(entry) && HasList(entry.parent);
      ghost var es := lists[entry.parent];
      var found := false;
      var cur := entry.parent.lruEntries;
      prev, k := null, 0;
      while cur != null
        invariant k <= |es| && cur == (if k < |es| then es[k] else null) && prev == (if k == 0 then null else es[k - 1])
        invariant !found && forall j :: 0 <= j < k ==> es[j] != entry
        decreases |es| - k
      {
        if cur == entry {
          found := true;
          break;
        }
        prev, cur, k := cur, cur.keyNext, k + 1;
      }
      assert found;
    }

    lemma OwnList(entry: PathEntry)
      requires Listed() && entry in all
      ensures entry.parent in docs && entry.parent in lists
      ensures Chain(entry.parent.lruEntries, lists[entry.parent]) && Distinct(lists[entry.parent])
      ensures forall i :: 0 <= i < |lists[entry.parent]| ==>
        lists[entry.parent][i] in all && lists[entry.parent][i].parent == entry.parent
    {
      assert Owned(entry) && HasList(entry.parent);
    }

    /** The entry leaves its parent's list. */
    method Unchain(entry: PathEntry) returns (ghost k: nat)
      requires Listed() && entry in all
      modifies all`keyNext, entry.parent`lruEntries
      ensures entry.parent in lists && k < |lists[entry.parent]| && lists[entry.parent][k] == entry
      ensures Chain(entry.parent.lruEntries, Removed(lists[entry.parent], k))
      ensures forall e :: e in all && e.parent != entry.parent ==> e.keyNext == old(e.keyNext)
      ensures forall i :: k < i < |lists[entry.parent]| ==>
        lists[entry.parent][i].keyNext == old(lists[entry.parent][i].keyNext)
    {
      hide Listed, HasList, Owned;
      var prev;
      prev, k := Search(entry);
      OwnList(entry);
      ghost var es := lists[entry.parent];
      assert es[k].keyNext == After(es, k);
      if prev != null {
        prev.keyNext := entry.keyNext;
      } else {
        entry.parent.lruEntries := entry.keyNext;
      }
      RemovedElements(es, k);
      assert forall i :: 0 <= i < |es| && (k == 0 || i != k - 1) ==> es[i].keyNext == old(es[i].keyNext);
    }

    /** Nothing links to an entry without links, so the others can do without it. */
    twostate lemma StillLinked(entry: PathEntry)
      requires old(Linked()) && old(entry in all) && entry.lruPrev == null && entry.lruNext == null
      requires newest == old(newest) != entry && oldest == old(oldest) != entry && clock == old(clock)
      requires forall e :: e in all <==> e in old(all) && e != entry
      requires forall e :: e in old(all) ==>
        e.lruPrev == old(e.lruPrev) && e.lruNext == old(e.lruNext) && e.stamp == old(e.stamp)
      ensures Linked()
    {
      forall e | e in all ensures Neighbours(e) {
        assert old(Neighbours(e));
      }
    }

    /** With the entry out of its parent's list, the others are still owned. */
    twostate lemma StillOwned(entry: PathEntry)
      requires old(Listed()) && old(entry in all) && docs == old(docs)
      requires forall e :: e in all <==> e in old(all) && e != entry
      requires forall e :: e in old(all) ==> e.parent == old(e.parent)
      requires entry.parent in old(lists) && entry.parent in lists
      requires lists == old(lists)[entry.parent := lists[entry.parent]]
      requires LacksOnly(old(lists)[entry.parent], lists[entry.parent], entry)
      requires Chain(entry.parent.lruEntries, lists[entry.parent])
      requires forall d :: d in docs && d != entry.parent ==> d.lruEntries == old(d.lruEntries)
      requires forall e :: e in old(all) && e.parent != entry.parent ==> e.keyNext == old(e.keyNext)
      ensures forall e {:trigger Owned(e)} :: e in all ==> Owned(e)
    {
      hide HasList, Chain;
      var es := old(lists[entry.parent]);
      Once(entry);
      var k :| 0 <= k < |es| && es[k] == entry && lists[entry.parent] == Removed(es, k);
      DistinctRemoved(es, k);
      forall e | e in all ensures Owned(e) {
        assert old(Owned(e));
      }
    }

    twostate lemma Once(entry: PathEntry)
      requires old(Listed()) && old(entry in all) && entry.parent == old(entry.parent)
      ensures entry.parent in old(docs) && entry.parent in old(lists) && Distinct(old(lists[entry.parent]))
    {
      assert old(Owned(entry));
      assert old(HasList(entry.parent));
    }

    /** A list in which nothing has changed is a list still. */
    twostate lemma StillHasList(d: Doc)
      requires d in old(docs) && old(HasList(d)) && d in lists && lists[d] == old(lists[d])
      requires d.lruEntries == old(d.lruEntries)
      requires forall i :: 0 <= i < |lists[d]| ==>
        lists[d][i] in all && lists[d][i].parent == d && lists[d][i].keyNext == old(lists[d][i].keyNext)
      ensures HasList(d)
    {
    }

    twostate lemma StillListed(entry: PathEntry)
      requires old(Listed()) && old(entry in all) && docs == old(docs)
      requires forall e :: e in all <==> e in old(all) && e != entry
      requires forall e :: e in old(all) ==> e.parent == old(e.parent)
      requires entry.parent in old(lists) && entry.parent in lists
      requires lists == old(lists)[entry.parent := lists[entry.parent]]
      requires LacksOnly(old(lists)[entry.parent], lists[entry.parent], entry)
      requires Chain(entry.parent.lruEntries, lists[entry.parent])
      requires forall d :: d in docs && d != entry.parent ==> d.lruEntries == old(d.lruEntries)
      requires forall e :: e in old(all) && e.parent != entry.parent ==> e.keyNext == old(e.keyNext)
      ensures Listed()
    {
      hide Owned, Chain;
      var es := old(lists[entry.parent]);
      Once(entry);
      StillOwned(entry);
      var k :| 0 <= k < |es| && es[k] == entry && lists[entry.parent] == Removed(es, k);
      DistinctRemoved(es, k);
      RemovedElements(es, k);
      forall d | d in docs ensures HasList(d) {
        assert old(HasList(d));
        if d != entry.parent {
          assert forall i :: 0 <= i < |lists[d]| ==> lists[d][i].keyNext == old(lists[d][i].keyNext);
          StillHasList(d);
        }
      }
    }

    lemma CountsDown(entry: PathEntry)
      requires Counted() && entry in all
      ensures numEntries >= 1 && |entry.value| <= numBytes
    {
      var m :| 0 <= m < |all| && all[m] == entry;
      SumRemoved(lens, m);
    }

    /** The ghost state forgets the entry. */
    ghost method Forget(entry: PathEntry, k: nat)
      requires Linked() && entry.lruPrev == null && entry.lruNext == null && newest != entry && oldest != entry
      requires Measured() && entry in all
      requires entry.parent in lists && k < |lists[entry.parent]| && lists[entry.parent][k] == entry
      modifies `all, `lens, `lists
      ensures Linked() && Measured() && |all| == |old(all)| - 1 && Sum(lens) == Sum(old(lens)) - |entry.value|
      ensures forall e :: e in all <==> e in old(all) && e != entry
      ensures lists == old(lists)[entry.parent := Removed(old(lists)[entry.parent], k)]
    {
      var m :| 0 <= m < |all| && all[m] == entry;
      SumRemoved(lens, m);
      DistinctRemoved(all, m);
      RemovedElements(all, m);
      RemovedElements(lens, m);
      all, lens := Removed(all, m), Removed(lens, m);
      lists := lists[entry.parent := Removed(lists[entry.parent], k)];
      StillLinked(entry);
    }

    /** The list of the parent, and the ghost state, without the entry. */
    method RemoveKey(entry: PathEntry) returns (ghost k: nat)
      requires Linked() && entry.lruPrev == null && entry.lruNext == null && newest != entry && oldest != entry
      requires Listed() && Measured() && entry in all
      modifies `all, `lens, `lists, all`keyNext, entry.parent`lruEntries
      ensures Linked() && Listed() && Measured() && |all| == |old(all)| - 1
      ensures Sum(lens) == Sum(old(lens)) - |entry.value|
      ensures forall e :: e in all <==> e in old(all) && e != entry
      ensures entry.parent in docs && k < |old(lists)[entry.parent]| && old(lists)[entry.parent][k] == entry
      ensures lists == old(lists)[entry.parent := Removed(old(lists)[entry.parent], k)]
    {
      assert Owned(entry);
      k := Unchain(entry);
      Forget(entry, k);
      StillListed(entry);
    }

    lemma StampBound(entry: PathEntry)
      requires Linked() && entry in all
      ensures entry.stamp <= clock
    {
      assert Neighbours(entry);
    }

    /** `purgeEntry`: the entry leaves the links, the counters and its parent's list. */
    method Purge(entry: PathEntry) returns (ghost k: nat)
      requires Linked() && Listed() && Counted() && entry in all
      modifies `newest, `oldest, `numEntries, `numBytes, `all, `lens, `lists
      modifies all`lruPrev, all`lruNext, all`keyNext, entry.parent`lruEntries
      ensures Linked() && Listed() && Counted()
      ensures numEntries == old(numEntries) - 1 && numBytes == old(numBytes) - |entry.value|
      ensures forall e :: e in all <==> e in old(all) && e != entry
      ensures entry.parent in docs && k < |old(lists)[entry.parent]| && old(lists)[entry.parent][k] == entry
      ensures lists == old(lists)[entry.parent := Removed(old(lists)[entry.parent], k)]
      ensures entry.lruPrev == null && entry.lruNext == null && entry.stamp <= clock
      ensures oldest == if old(oldest) == entry then old(entry.lruNext) else old(oldest)
    {
      hide HasList, Owned, Distinct, Neighbours, Linked, Chain, Listed, Measured;
      CountsDown(entry);
      StampBound(entry);
      Pluck(entry);
      numEntries := numEntries - 1;
      numBytes := numBytes - |entry.value|;
      UnlinkedListed();
      k := RemoveKey(entry);
    }

    twostate lemma UnlinkedListed()
      requires old(Listed()) && all == old(all) && docs == old(docs) && lists == old(lists)
      requires forall e :: e in all ==> e.parent == old(e.parent) && e.keyNext == old(e.keyNext)
      requires forall d :: d in docs ==> d.lruEntries == old(d.lruEntries)
      ensures Listed()
    {
      forall e | e in all ensures Owned(e) { assert old(Owned(e)); }
      forall d | d in docs ensures HasList(d) { assert old(HasList(d)); }
    }

    // ---- cache.h --------------------------------------------------------------------------

    /** The loop of `LruCache_GetValue`: the first entry with the path. */
    method FindPath(json: Doc, path: bytes) returns (ent: PathEntry?)
      requires Listed() && json in docs
      ensures ent == null ==> Lookup(Entries(json), path) == None
      ensures ent != null ==> ent in all && ent.parent == json && Lookup(Entries(json), path) == Some(ent.value)
    {
      assert HasList(json);
      ghost var es, i := lists[json], 0;
      ent := json.lruEntries;
      assert View(es)[0..] == View(es);
      while ent != null
        invariant i <= |es| && ent == (if i < |es| then es[i] else null)
        invariant Lookup(View(es)[i..], path) == Lookup(View(es), path)
        decreases |es| - i
      {
        ViewHead(es, i);
        if |ent.path| == |path| && StrNEqual(ent.path, path, |path|) { return; }
        assert es[i].keyNext == After(es, i);
        ent, i := ent.keyNext, i + 1;
      }
      assert View(es)[i..] == [];
    }

    /** `LruCache_GetValue`: what is found becomes the newest. */
    method GetValue(json: Doc, path: bytes) returns (r: Option<bytes>)
      requires Valid() && json in docs
      modifies `newest, `oldest, `clock, all`lruPrev, all`lruNext, all`stamp
      ensures Valid() && r == Lookup(Entries(json), path)
      ensures r.Some? ==>
        newest != null && newest.parent == json && newest.value == r.value && newest.stamp == clock > old(clock)
      ensures r.None? ==> newest == old(newest) && oldest == old(oldest) && clock == old(clock)
      ensures r.None? ==> forall e :: e in all ==> e.stamp == old(e.stamp)
    {
      hide Neighbours, HasList, Owned, View;
      var ent := FindPath(json, path);
      if ent == null { return None; }
      Touch(ent);
      r := Some(ent.value);
    }

    /** The ghost state takes an entry in. */
    ghost method Remember(e: PathEntry)
      requires Measured() && e !in all && e.parent in lists
      modifies `all, `lens, `lists
      ensures Measured() && all == old(all) + [e] && Sum(lens) == Sum(old(lens)) + |e.value|
      ensures lists == old(lists)[e.parent := [e] + old(lists)[e.parent]]
    {
      SumConcat(lens, [|e.value|]);
      assert Sum([|e.value|]) == |e.value| + Sum([]);
      all, lens, lists := all + [e], lens + [|e.value|], lists[e.parent := [e] + lists[e.parent]];
    }

    twostate lemma AddedLinked(e: PathEntry)
      requires old(Linked()) && all == old(all) + [e] && e.lruPrev == null && e.lruNext == null && e.stamp <= clock
      requires newest == old(newest) && oldest == old(oldest) && clock == old(clock)
      requires forall x :: x in old(all) ==>
        x.lruPrev == old(x.lruPrev) && x.lruNext == old(x.lruNext) && x.stamp == old(x.stamp)
      ensures Linked()
    {
      forall x | x in all ensures Neighbours(x) {
        assert x != e ==> old(Neighbours(x));
      }
    }

    twostate lemma AddedListed(e: PathEntry)
      requires old(Listed()) && e !in old(all) && all == old(all) + [e] && docs == old(docs)
      requires e.parent in docs && lists == old(lists)[e.parent := [e] + old(lists)[e.parent]]
      requires e.parent.lruEntries == e
      requires e.keyNext == (if old(lists)[e.parent] == [] then null else old(lists)[e.parent][0])
      requires forall x :: x in old(all) ==> x.parent == old(x.parent) && x.keyNext == old(x.keyNext)
      requires forall d :: d in docs && d != e.parent ==> d.lruEntries == old(d.lruEntries)
      ensures Listed()
    {
      forall x | x in all ensures Owned(x) {
        assert x != e ==> old(Owned(x));
      }
      forall d | d in docs ensures HasList(d) {
        assert old(HasList(d));
      }
    }

    /** The entry heads its document's list. */
    method Enchain(json: Doc, e: PathEntry)
      requires Linked() && Listed() && Measured() && json in docs
      requires e !in all && e.lruPrev == null && e.lruNext == null && e.stamp <= clock
      modifies `all, `lens, `lists, e`keyNext, e`parent, json`lruEntries
      ensures Linked() && Listed() && Measured() && e.parent == json
      ensures all == old(all) + [e] && Sum(lens) == Sum(old(lens)) + |e.value|
      ensures lists == old(lists)[json := [e] + old(lists)[json]]
    {
      hide Neighbours, Distinct;
      assert HasList(json);
      e.keyNext := json.lruEntries;
      e.parent := json;
      json.lruEntries := e;
      Remember(e);
      AddedLinked(e);
      AddedListed(e);
    }

    /** The end of `LruCache_AddValue`: listed, touched and counted. */
    method Enlist(json: Doc, e: PathEntry)
      requires Linked() && Listed() && Counted() && json in docs
      requires e !in all && e.lruPrev == null && e.lruNext == null && e.stamp <= clock
      modifies `newest, `oldest, `clock, `numEntries, `numBytes, `all, `lens, `lists
      modifies all`lruPrev, all`lruNext, e`lruPrev, e`lruNext, e`stamp, e`keyNext, e`parent, json`lruEntries
      ensures Linked() && Listed() && Counted() && newest == e
      ensures oldest == if old(oldest) == null then e else old(oldest)
      ensures numEntries == old(numEntries) + 1 && numBytes == old(numBytes) + |e.value| && all == old(all) + [e]
      ensures e.stamp == clock > old(clock)
      ensures lists == old(lists)[json := [e] + old(lists)[json]] && e.parent == json
    {
      hide Neighbours, Owned, HasList, Distinct, Linked, Listed, Measured;
      OldestLive();
      Enchain(json, e);
      assert e in all;
      Touch(e);
      numEntries := numEntries + 1;
      numBytes := numBytes + |e.value|;
    }

    /** Full, by count or by bytes. */
    predicate Full()
      reads `numEntries, `numBytes
    {
      numEntries >= maxEntries || numBytes >= maxBytes
    }

    /** The entry that is reused, out of its list, with new strings. */
    method Recycle(path: bytes, value: bytes) returns (e: PathEntry, ghost d: Doc, ghost k: nat)
      requires Valid() && oldest != null
      modifies `newest, `oldest, `numEntries, `numBytes, `all, `lens, `lists
      modifies all`lruPrev, all`lruNext, all`keyNext, oldest`path, oldest`value, oldest.parent`lruEntries
      ensures Linked() && Listed() && Counted() && numEntries == old(numEntries) - 1
      ensures forall x :: x in all <==> x in old(all) && x != e
      ensures e == old(oldest) && d == old(oldest.parent) && d in docs && d in old(lists) && k < |old(lists)[d]|
      ensures old(lists)[d][k] == e
      ensures lists == old(lists)[d := Removed(old(lists)[d], k)]
      ensures e.lruPrev == null && e.lruNext == null && e.stamp <= clock && e.path == path && e.value == value
    {
      hide Neighbours, Distinct, HasList;
      e, d := oldest, oldest.parent;
      assert Owned(e);
      k := Purge(e);
      e.value := value;
      e.path := path;
    }

    /** A new entry. */
    method AddNew(json: Doc, path: bytes, value: bytes)
      requires Valid() && json in docs && !Full()
      modifies `newest, `oldest, `clock, `numEntries, `numBytes, `all, `lens, `lists
      modifies all`lruPrev, all`lruNext, json`lruEntries
      ensures Valid() && newest != null && fresh(newest)
      ensures oldest == if old(oldest) == null then newest else old(oldest)
      ensures newest.stamp == clock > old(clock)
      ensures newest.path == path && newest.value == value && newest.parent == json
      ensures lists == old(lists)[json := [newest] + old(lists)[json]] && all == old(all) + [newest]
      ensures numBytes == old(numBytes) + |value|
    {
      hide Neighbours, Owned, HasList, Linked, Listed, Measured;
      var newEnt := new PathEntry(json, path, value);
      assert newEnt !in all;
      Enlist(json, newEnt);
    }

    /** The oldest entry, reused. */
    method AddRecycled(json: Doc, path: bytes, value: bytes) returns (ghost d: Doc, ghost k: nat)
      requires Valid() && json in docs && oldest != null
      modifies `newest, `oldest, `clock, `numEntries, `numBytes, `all, `lens, `lists, all, docs`lruEntries
      ensures Valid() && newest == old(oldest) && oldest != null
      ensures newest.path == path && newest.value == value && newest.parent == json
      ensures d == old(oldest.parent) && d in docs && d in old(lists) && k < |old(lists)[d]|
      ensures old(lists)[d][k] == newest
      ensures var purged := old(lists)[d := Removed(old(lists)[d], k)];
        json in purged && lists == purged[json := [newest] + purged[json]]
      ensures forall i :: 0 <= i < |all| ==> all[i] in old(all)
      ensures forall e :: e in old(all) && e != newest ==>
        e in all && e.path == old(e.path) && e.value == old(e.value) && e.stamp == old(e.stamp)
    {
      hide Neighbours, Owned, HasList, Linked, Measured;
      OldestOwned();
      assert old(oldest) in old(all);
      var e;
      e, d, k := Recycle(path, value);
      assert forall i :: 0 <= i < |all| ==> all[i] in old(all);
      Enlist(json, e);
    }

    /** Full by bytes, and without an oldest entry: what is added next would purge a null pointer. */
    predicate NothingToPurge()
      reads `numBytes, `oldest
    {
      numBytes >= maxBytes && oldest == null
    }

    /**
     `LruCache_AddValue`. A full cache gives its oldest entry up. By count it always has one;
     by bytes it may not, and exactly then `purgeEntry` is handed a null pointer.
     */
    method AddValue(json: Doc, path: bytes, value: bytes)
      returns (crashed: bool, ghost evicted: PathEntry?, ghost d: Doc, ghost k: nat)
      requires Valid() && json in docs
      modifies this, all, docs`lruEntries
      ensures Valid() && docs == old(docs)
      ensures crashed <==> |value| >= minSize && old(NothingToPurge())
      ensures |value| < minSize || crashed ==>
        evicted == null && lists == old(lists) && all == old(all) && unchanged(this)
      ensures |value| >= minSize && !crashed ==>
        && newest != null && newest.path == path && newest.value == value && newest.parent == json && oldest != null
        && evicted == if old(Full()) then old(oldest) else null
      ensures |value| >= minSize && !crashed && evicted == null ==>
        && oldest == (if old(oldest) == null then newest else old(oldest)) && newest.stamp == clock > old(clock)
        && lists == old(lists)[json := [newest] + old(lists)[json]] && all == old(all) + [newest] && fresh(newest)
        && numBytes == old(numBytes) + |value|
      ensures evicted != null ==>
        && newest == evicted
        && d == old(oldest.parent) && d in docs && d in old(lists) && k < |old(lists)[d]| && old(lists)[d][k] == evicted
        && var purged := old(lists)[d := Removed(old(lists)[d], k)];
           json in purged && lists == purged[json := [newest] + purged[json]]
      ensures forall e :: e in old(all) && e != evicted ==>
        e in all && e.path == old(e.path) && e.value == old(e.value) && e.stamp == old(e.stamp)
      ensures forall i :: 0 <= i < |all| ==> all[i] in old(all) || fresh(all[i])
    {
      hide Neighbours, Owned, HasList, Linked, Listed, Measured, Counted;
      crashed, evicted, d, k := false, null, json, 0;
      if |value| < minSize { return; }
      if numEntries >= maxEntries || numBytes >= maxBytes {
        if oldest == null {
          crashed := true;
          return;
        }
        d, k := AddRecycled(json, path, value);
        evicted := newest;
      } else {
        AddNew(json, path, value);
      }
    }

    /** An entry has joined the others, which are as they were: none was given up for it. */
    twostate predicate Joined(path: bytes, value: bytes)
      reads this, all
    {
      && newest != null && newest in all && newest.path == path && newest.value == value
      && all == old(all) + [newest] && oldest == (if old(oldest) == null then newest else old(oldest))
      && newest.stamp == clock > old(clock) && numBytes == old(numBytes) + |value| && docs == old(docs)
      && forall e :: e in old(all) ==> e in all && e.path == old(e.path) && e.stamp == old(e.stamp)
    }

    /** Some entries may have gone; the others are as they were, and the oldest is no newer than the oldest before. */
    twostate predicate Shrunk()
      reads this, all
    {
      && docs == old(docs)
      && (forall e :: e in all ==> e in old(all) && e.path == old(e.path) && e.stamp == old(e.stamp))
      && (oldest != null ==> oldest in all && old(oldest) != null && oldest.stamp <= old(oldest.stamp))
    }

    lemma OldestLive()
      requires Linked()
      ensures oldest != null ==> oldest in all
    {
    }

    lemma OldestOwned()
      requires Valid() && oldest != null
      ensures oldest in all && oldest.parent in docs
    {
      assert Owned(oldest);
    }

    /** One entry of a document purged; the walk goes on with the next. */
    method PurgeAt(json: Doc, ent: PathEntry, ghost i: nat) returns (next: PathEntry?)
      requires Valid() && json in docs && json in lists && i < |lists[json]| && ent == lists[json][i]
      modifies `newest, `oldest, `numEntries, `numBytes, `all, `lens, `lists
      modifies all`lruPrev, all`lruNext, all`keyNext, json`lruEntries
      ensures Valid() && lists == old(lists)[json := Removed(old(lists)[json], i)] && next == Nth(lists[json], i)
      ensures forall k :: 0 <= k < |all| ==> all[k] in old(all)
      ensures numEntries == old(numEntries) - 1 && numBytes == old(numBytes) - |ent.value|
      ensures oldest != null ==> old(oldest) != null && oldest.stamp <= old(oldest.stamp)
      ensures forall e :: e in all <==> e in old(all) && e != ent
    {
      assert Neighbours(ent) by { InList(json, i); }
      hide Neighbours, Owned, HasList, Distinct, Linked, Measured;
      ghost var es := lists[json];
      InList(json, i);
      next := ent.keyNext;
      ghost var k := Purge(ent);
      SamePlace(es, k, i, ent);
      RemovedElements(es, i);
    }

    /** `LruCache_ClearValues`: exactly the entries that need not be cleared stay, in their order. */
    method ClearValues(json: Doc, path: bytes)
      requires Valid() && json in docs
      modifies `newest, `oldest, `numEntries, `numBytes, `all, `lens, `lists
      modifies all`lruPrev, all`lruNext, all`keyNext, json`lruEntries
      ensures Valid() && json in lists && Entries(json) == Kept(old(Entries(json)), path)
      ensures forall d :: d in docs && d != json ==> d in lists && lists[d] == old(lists)[d]
      ensures forall k :: 0 <= k < |all| ==> all[k] in old(all)
      ensures Shrunk()
    {
      hide Valid, ShouldClear, View, Kept, Progress;
      var ent := json.lruEntries;
      ghost var i := 0;
      ListHead(json);
      ProgressEnds(View(lists[json]), path);
      while ent != null
        invariant Valid() && json in lists && i <= |lists[json]| && ent == Nth(lists[json], i)
        invariant forall k :: 0 <= k < |all| ==> all[k] in old(all)
        invariant oldest != null ==> old(oldest) != null && oldest.stamp <= old(oldest.stamp)
        invariant forall d :: d in docs && d != json ==> d in lists && lists[d] == old(lists)[d]
        invariant Progress(View(lists[json]), i, path) == Kept(old(View(lists[json])), path)
        decreases |lists[json]| - i
      {
        ghost var es := lists[json];
        assert View(es)[i] == Entry(ent.path, ent.value);
        if !ShouldClear(ent.path, path) {
          KeptHead(View(es), i, path);
          InList(json, i);
          ent, i := ent.keyNext, i + 1;
        } else {
          DroppedHead(View(es), i, path);
          ent := PurgeAt(json, ent, i);
          ViewRemoved(es, i);
          RemovedElements(es, i);
        }
      }
      ProgressEnds(View(lists[json]), path);
      ValidOldest();
    }

    lemma ValidOldest()
      requires Valid()
      ensures oldest != null ==> oldest in all
    {
    }

    lemma Empty()
      requires Valid() && all == []
      ensures numEntries == 0 && numBytes == 0 && oldest == null && newest == null
      ensures forall d :: d in docs ==> d in lists && lists[d] == []
    {
      forall d | d in docs ensures lists[d] == [] { assert HasList(d); }
    }

    lemma Count()
      requires Valid()
      ensures numEntries == |all|
    {
    }

    /** A single document with a single entry. */
    lemma Sole(json: Doc)
      requires Valid() && docs == {json} && json in lists && |lists[json]| == 1
      ensures numEntries == 1 && numBytes == |lists[json][0].value|
      ensures all == [lists[json][0]] && (oldest == null || oldest == lists[json][0])
    {
      var e := lists[json][0];
      assert HasList(json);
      forall i | 0 <= i < |all| ensures all[i] == e { assert Owned(all[i]); }
      assert e in all;
      assert all[0] == e && all[|all| - 1] == e;
      assert |all| == 1 && lens[0] == |e.value|;
      assert lens == [|e.value|] && all == [e];
      assert Sum(lens) == |e.value| + Sum([]);
    }

    lemma ListHead(json: Doc)
      requires Valid() && json in docs
      ensures lists.Keys == docs && json.lruEntries == Nth(lists[json], 0)
    {
      assert HasList(json);
    }

    /** A new document joins, with nothing cached. */
    ghost method Adopt(d: Doc)
      requires Valid() && d !in docs && d.lruEntries == null
      modifies `docs, `lists
      ensures Valid() && docs == old(docs) + {d} && lists == old(lists)[d := []]
    {
      hide Linked, Counted;
      docs, lists := docs + {d}, lists[d := []];
      Adopted(d);
    }

    twostate lemma Adopted(d: Doc)
      requires old(Listed()) && d !in old(docs) && d.lruEntries == null
      requires docs == old(docs) + {d} && lists == old(lists)[d := []] && all == old(all)
      requires forall e :: e in all ==> e.parent == old(e.parent) && e.keyNext == old(e.keyNext)
      requires forall x :: x in old(docs) ==> x.lruEntries == old(x.lruEntries)
      ensures Listed()
    {
      forall e | e in all ensures Owned(e) { assert old(Owned(e)); }
      forall x | x in docs ensures HasList(x) { assert x != d ==> old(HasList(x)); }
    }

    lemma ListMembers(json: Doc)
      requires Valid() && json in docs && json in lists
      ensures Distinct(lists[json])
      ensures forall i :: 0 <= i < |lists[json]| ==> lists[json][i] in all && lists[json][i].parent == json
    {
      assert HasList(json);
    }

    lemma InList(json: Doc, i: nat)
      requires Valid() && json in docs && json in lists && i < |lists[json]|
      ensures lists[json][i] in all && lists[json][i].parent == json && Distinct(lists[json])
      ensures lists[json][i].keyNext == Nth(lists[json], i + 1)
    {
      assert HasList(json);
      assert lists[json][i].keyNext == After(lists[json], i);
    }
  }

  ghost function Nth(es: seq<PathEntry>, i: nat): PathEntry? { if i < |es| then es[i] else null }

  lemma SamePlace(es: seq<PathEntry>, k: nat, i: nat, e: PathEntry)
    requires Distinct(es) && k < |es| && i < |es| && es[k] == e == es[i]
    ensures k == i
  {
  }

  lemma ViewRemoved(es: seq<PathEntry>, i: nat)
    requires i < |es|
    ensures View(Removed(es, i)) == Removed(View(es), i)
  {
    hide View;
    RemovedElements(es, i);
    RemovedElements(View(es), i);
  }

  /** The list as it is up to the place of the walk, and as it will be behind it. */
  ghost function Progress(v: seq<Entry>, i: nat, path: bytes): seq<Entry>
    requires i <= |v|
  {
    v[..i] + Kept(v[i..], path)
  }

  lemma ProgressEnds(v: seq<Entry>, path: bytes)
    ensures Progress(v, 0, path) == Kept(v, path) && Progress(v, |v|, path) == v
  {
    assert v[..0] == [] && v[0..] == v && v[|v|..] == [] && v[..|v|] == v;
  }

  lemma KeptHead(v: seq<Entry>, i: nat, path: bytes)
    requires i < |v| && !ShouldClear(v[i].path, path)
    ensures Progress(v, i + 1, path) == Progress(v, i, path)
  {
    hide ShouldClear;
    assert v[i..][1..] == v[i + 1..];
    assert v[..i + 1] == v[..i] + [v[i]];
  }

  lemma DroppedHead(v: seq<Entry>, i: nat, path: bytes)
    requires i < |v| && ShouldClear(v[i].path, path)
    ensures var r := Removed(v, i);
      i <= |r| && Progress(r, i, path) == Progress(v, i, path)
  {
    hide ShouldClear;
    var r := Removed(v, i);
    assert v[i..][1..] == v[i + 1..];
    assert r[..i] == v[..i] && r[i..] == v[i + 1..];
  }

  lemma ViewHead(es: seq<PathEntry>, i: nat)
    requires i < |es|
    ensures View(es)[i..] == [Entry(es[i].path, es[i].value)] + View(es)[i + 1..]
    ensures View(es)[i..][1..] == View(es)[i + 1..]
  {
    hide View;
    var v := View(es);
    assert v[i] == Entry(es[i].path, es[i].value);
    assert v[i..] == [v[i]] + v[i + 1..];
  }

  lemma RemovedElements<T>(s: seq<T>, k: nat)
    requires k < |s|
    ensures |Removed(s, k)| == |s| - 1
    ensures forall i :: 0 <= i < |s| - 1 ==> Removed(s, k)[i] == s[if i < k then i else i + 1]
  {
  }

  lemma DistinctRemoved<T>(s: seq<T>, k: nat)
    requires Distinct(s) && k < |s|
    ensures Distinct(Removed(s, k)) && |Removed(s, k)| == |s| - 1
    ensures forall x :: x in Removed(s, k) <==> x in s && x != s[k]
  {
    var r := Removed(s, k);
    forall x ensures x in r <==> x in s && x != s[k] {
      if x in s && x != s[k] {
        var i :| 0 <= i < |s| && s[i] == x;
        assert r[if i < k then i else i - 1] == x;
      }
    }
  }

  /** An added value is found again. */
  method AddGet(cache: LruCache, json: Doc, path: bytes, value: bytes) returns (crashed: bool, found: Option<bytes>)
    requires cache.Valid() && json in cache.docs && |value| >= cache.minSize
    modifies cache, cache.all, cache.docs`lruEntries
    ensures cache.Valid() && cache.docs == old(cache.docs)
    ensures (crashed <==> old(cache.NothingToPurge())) && (!crashed ==> found == Some(value))
    ensures forall k :: 0 <= k < |cache.all| ==> cache.all[k] in old(cache.all) || fresh(cache.all[k])
  {
    hide LruCache.Valid, View, Lookup, StrNEqual;
    ghost var evicted, d, k;
    cache.ListHead(json);
    crashed, evicted, d, k := cache.AddValue(json, path, value);
    if crashed { return crashed, None; }
    cache.ListHead(json);
    FirstFound(cache.lists[json], path);
    found := cache.GetValue(json, path);
  }

  /** And gone once its path is cleared. */
  method AddGetClear(cache: LruCache, json: Doc, path: bytes, value: bytes)
    returns (crashed: bool, found: Option<bytes>, after: Option<bytes>)
    requires cache.Valid() && json in cache.docs && |value| >= cache.minSize
    modifies cache, cache.all, cache.docs`lruEntries
    ensures cache.Valid() && (crashed <==> old(cache.NothingToPurge()))
    ensures !crashed ==> found == Some(value) && after == None
  {
    hide LruCache.Valid, View, Lookup, Kept;
    crashed, found := AddGet(cache, json, path, value);
    if crashed { return crashed, None, None; }
    cache.ListHead(json);
    ghost var v := View(cache.lists[json]);
    cache.ClearValues(json, path);
    NoneLeft(v, path);
    after := cache.GetValue(json, path);
  }

  lemma FirstFound(es: seq<PathEntry>, path: bytes)
    requires es != [] && es[0].path == path
    ensures Lookup(View(es), path) == Some(es[0].value)
  {
    hide View, StrNEqual;
    StrNEqualIs(path, path, |path|);
    assert View(es)[0] == Entry(es[0].path, es[0].value);
  }

  lemma NoneLeft(v: seq<Entry>, path: bytes)
    ensures Lookup(Kept(v, path), path) == None
  {
    LookupFinds(Kept(v, path), path);
    KeptExactly(v, path);
    forall e: Entry | Matches(e.path, path) ensures ShouldClear(e.path, path) {
      MatchingCleared(e.path, path);
    }
  }

  lemma {:induction false} StrNSym(a: bytes, b: bytes, n: nat)
    requires n <= |a| && n <= |b|
    ensures StrNEqual(a, b, n) == StrNEqual(b, a, n)
    decreases n
  {
    if n > 0 { StrNSym(a[1..], b[1..], n - 1); }
  }

  lemma MatchingCleared(cur: bytes, path: bytes)
    requires Matches(cur, path)
    ensures ShouldClear(cur, path)
  {
    StrNSym(cur, path, |path|);
  }
}
