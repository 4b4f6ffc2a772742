/** A run of commands at whose end the server purges a null pointer. */
module Crash {
  import opened Bytes
  import opened Cache
  import opened CacheHeap
  import opened Commands
  import opened Escape
  import opened Nodes
  import opened Path
  import opened Printer
  import opened Resolve
  import opened Server
  import opened Service
  import Stale

  const DOC := Array([Text([Stale.A]), Text([Stale.B, Stale.B])])
  const NEW_DOC := Array([Text([Stale.C]), Text([Stale.B, Stale.B])])

  /** The texts "a" and "bb", with their quotes. */
  const SHORT: bytes := [QUOTE, Stale.A, QUOTE]
  const LONG: bytes := [QUOTE, Stale.B, Stale.B, QUOTE]

  /** A document, a GET of its short element, one of its long element, a SET of the short one, and a GET of it. */
  const RUN := [
    Set(Stale.ROOT_PATH, DOC, Always),
    Get(Stale.FIRST, Stale.PLAIN),
    Get(Stale.SECOND, Stale.PLAIN),
    Set(Stale.FIRST, Text([Stale.C]), Always),
    Get(Stale.FIRST, Stale.PLAIN)
  ]

  // ---- the run by definition ----------------------------------------------------------------

  lemma Texts(setup: Setup)
    ensures Print(Compact(setup), Text([Stale.A]), 0) == SHORT
    ensures Print(Compact(setup), Text([Stale.B, Stale.B]), 0) == LONG
    ensures |Print(Compact(setup), Text([Stale.C]), 0)| == 3
  {
    Stale.OneByteText(setup, Stale.A);
    Stale.OneByteText(setup, Stale.C);
    var bb := [Stale.B, Stale.B];
    assert bb[1..] == [Stale.B] && [Stale.B][1..] == [];
    assert EscapeBody(bb, false) == EscapeByte(Stale.B, false) + (EscapeByte(Stale.B, false) + EscapeBody([], false));
    assert EscapeByte(Stale.B, false) == [Stale.B];
  }

  lemma DocumentSet(setup: Setup)
    ensures Exec(setup, World(None, []), RUN[0]) == (World(Some(DOC), []), Okay)
  {
    Stale.RootPath();
  }

  lemma ElementFound(w: World, i: int32, text: bytes)
    requires (i == 0 && text == Stale.FIRST) || (i == 1 && text == Stale.SECOND)
    requires w.root.Some? && w.root.value.Array? && |w.root.value.items| == 2
    ensures Locate(w, text) == Found([Index(i)], w.root.value.items[i]) && CacheKey(text) == text
  {
    hide ParsePath, CacheKey;
    Stale.IndexPath(i, text);
    Stale.OneStep(i, w.root.value);
  }

  /** A GET of a string element that is not cached. */
  lemma ElementGot(setup: Setup, w: World, i: int32, text: bytes)
    requires (i == 0 && text == Stale.FIRST) || (i == 1 && text == Stale.SECOND)
    requires w.root.Some? && w.root.value.Array? && |w.root.value.items| == 2 && w.root.value.items[i].Text?
    requires Lookup(w.entries, text) == None && setup.minSize <= |Print(Compact(setup), w.root.value.items[i], 0)|
    ensures var printed := Print(Compact(setup), w.root.value.items[i], 0);
      && Adds(setup, w, text, Stale.PLAIN)
      && Exec(setup, w, Get(text, Stale.PLAIN)) == (w.(entries := [Entry(text, printed)] + w.entries), Bulk(printed))
  {
    hide Print, Lookup, Locate;
    ElementFound(w, i, text);
    CachableIsCompact(Stale.PLAIN, setup);
    ExecGet(setup, w, text, Stale.PLAIN);
  }

  lemma ShortSet(setup: Setup, a: Entry, b: Entry)
    requires a.path == Stale.FIRST && b.path == Stale.SECOND
    ensures Exec(setup, World(Some(DOC), [b, a]), RUN[3]) == (World(Some(NEW_DOC), [b]), Okay)
  {
    hide ParsePath, CacheKey, Kept, Denotes, Put, CanPut;
    Stale.IndexPath(0, Stale.FIRST);
    ShortPut();
    OthersKept(a, b);
  }

  lemma ShortPut()
    ensures var nodes := [Index(0)];
      && Denotes(nodes, DOC) == Ok(DOC.items[0]) && ParentOf(nodes, DOC) == Ok(DOC)
      && CanPut(nodes, DOC) && Put(nodes, DOC, Text([Stale.C])) == NEW_DOC
  {
    Stale.OneStep(0, DOC);
    assert [Index(0)][1..] == [] && [Index(0)][..0] == [];
    assert DOC.items[0 := Text([Stale.C])] == NEW_DOC.items;
  }

  lemma OthersKept(a: Entry, b: Entry)
    requires a.path == Stale.FIRST && b.path == Stale.SECOND
    ensures Kept([b, a], Stale.FIRST) == [b]
    ensures Lookup([a], Stale.SECOND) == None && Lookup([b], Stale.FIRST) == None
  {
    hide StrNEqual, ShouldClear;
    Stale.OtherIndexKept(b);
    StrNEqualIs(Stale.FIRST, Stale.SECOND, 3);
    StrNEqualIs(Stale.SECOND, Stale.FIRST, 3);
    assert Stale.FIRST[..3][1] != Stale.SECOND[..3][1];
    assert Lookup([], Stale.FIRST) == Lookup([], Stale.SECOND) == None;
    assert ShouldClear(Stale.FIRST, Stale.FIRST) by { SameCleared(Stale.FIRST); }
    assert [b, a][1..] == [a] && [a][1..] == [] && [b][1..] == [];
    assert Kept([], Stale.FIRST) == [] && Kept([a], Stale.FIRST) == [];
    assert !ShouldClear(b.path, Stale.FIRST);
  }

  lemma SameCleared(path: bytes)
    ensures ShouldClear(path, path)
  {
    StrNEqualIs(path, path, |path|);
  }

  // ---- the run in memory --------------------------------------------------------------------

  /**
   A cache for texts of four bytes in all, and a setup that caches short texts: after four of the
   commands, each served as defined, the fifth is a GET that purges a null pointer.
   */
  method CrashingRun(maxEntries: nat, setup: Setup) returns (key: JsonKey, replies: seq<Reply>)
    requires maxEntries >= 2 && setup.minSize <= 3
    ensures key.Valid() && key.setup == setup && key.cache.maxEntries == maxEntries && key.cache.maxBytes == 4
    ensures replies == [Okay, Bulk(SHORT), Bulk(LONG), Okay] && key.root == Some(NEW_DOC)
    ensures Crashes(key, RUN[4])
  {
    hide LruCache.Valid, View, Exec, Adds, Lookup, Print, Kept;
    var e0, e1 := Entry(Stale.FIRST, SHORT), Entry(Stale.SECOND, LONG);
    var r0, r1, r2;
    key, r0, r1, r2 := TwoCached(maxEntries, setup);
    var cache := key.cache;
    ghost var a, b := cache.all[0], cache.all[1];
    ShortSet(setup, e0, e1);
    NotTheRoot();
    var r3 := key.Set(Stale.FIRST, Text([Stale.C]), Always);
    OneLeft(key, e1);
    assert cache.all[0] == b;
    Texts(setup);
    OthersKept(e0, e1);
    ElementGot(setup, World(Some(NEW_DOC), [e1]), 0, Stale.FIRST);
    replies := [r0, r1, r2, r3];
  }

  lemma NotTheRoot()
    ensures ParsePath(Stale.FIRST) != Steps([Root])
  {
    hide ParsePath;
    Stale.IndexPath(0, Stale.FIRST);
  }

  /** A GET of a string element, while there is room in the cache. */
  method GetElement(key: JsonKey, i: int32, text: bytes) returns (reply: Reply)
    requires (i == 0 && text == Stale.FIRST) || (i == 1 && text == Stale.SECOND)
    requires key.Valid() && !key.cache.Full() && Lookup(key.State().entries, text) == None
    requires key.root.Some? && key.root.value.Array? && |key.root.value.items| == 2 && key.root.value.items[i].Text?
    requires key.setup.minSize <= |Print(Compact(key.setup), key.root.value.items[i], 0)|
    modifies key.cache, key.cache.all, key.cache.docs`lruEntries
    ensures var printed := Print(Compact(key.setup), key.root.value.items[i], 0);
      && key.Valid() && reply == Bulk(printed) && key.cache.Joined(text, printed)
      && key.State() == World(key.root, [Entry(text, printed)] + old(key.State().entries))
    ensures forall k :: 0 <= k < |key.cache.all| ==> key.cache.all[k] in old(key.cache.all) || fresh(key.cache.all[k])
  {
    hide LruCache.Valid, View, Exec, Adds, Lookup, Print, LruCache.Joined;
    ElementGot(key.setup, key.State(), i, text);
    ElementFound(key.State(), i, text);
    ghost var before;
    var crashed;
    reply, crashed, before := key.Get(text, Stale.PLAIN);
  }

  /** After the document and one GET. */
  method OneCached(maxEntries: nat, setup: Setup) returns (key: JsonKey, r0: Reply, r1: Reply)
    requires maxEntries >= 2 && setup.minSize <= 3
    ensures key.Valid() && key.setup == setup && key.cache.maxEntries == maxEntries && key.cache.maxBytes == 4
    ensures fresh(key) && fresh(key.cache) && fresh(key.jt) && key.cache.docs == {key.jt}
    ensures r0 == Okay && r1 == Bulk(SHORT) && key.State() == World(Some(DOC), [Entry(Stale.FIRST, SHORT)])
    ensures |key.cache.all| == 1 && key.cache.all[0].path == Stale.FIRST && fresh(key.cache.all[0])
    ensures key.cache.oldest == key.cache.all[0] && key.cache.oldest.stamp == key.cache.clock
    ensures key.cache.numBytes == 3
  {
    hide LruCache.Valid, View, Exec, Adds, Lookup, Print;
    var jt := new Doc();
    var cache := new LruCache(maxEntries, 4, setup.minSize, {jt});
    cache.Empty();
    key := new JsonKey(cache, jt, None, setup);
    Texts(setup);
    NothingFound();
    DocumentSet(setup);
    r0 := key.Set(Stale.ROOT_PATH, DOC, Always);
    cache.Empty();
    r1 := GetElement(key, 0, Stale.FIRST);
    assert cache.all == [cache.newest];
    assert [Entry(Stale.FIRST, SHORT)] + [] == [Entry(Stale.FIRST, SHORT)];
  }

  /** The second GET: the cache is full. */
  method GetLong(key: JsonKey) returns (r2: Reply)
    requires key.Valid() && key.setup.minSize <= 3 && key.cache.maxEntries >= 2 && key.cache.maxBytes == 4
    requires key.State() == World(Some(DOC), [Entry(Stale.FIRST, SHORT)]) && key.cache.numBytes == 3
    requires |key.cache.all| == 1 && key.cache.all[0].path == Stale.FIRST
    requires key.cache.oldest == key.cache.all[0] && key.cache.oldest.stamp == key.cache.clock
    modifies key.cache, key.cache.all, key.cache.docs`lruEntries
    ensures key.Valid() && r2 == Bulk(LONG) && key.cache.docs == old(key.cache.docs)
    ensures key.State() == World(Some(DOC), [Entry(Stale.SECOND, LONG), Entry(Stale.FIRST, SHORT)])
    ensures |key.cache.all| == 2 && key.cache.all[0].path == Stale.FIRST
    ensures key.cache.oldest == key.cache.all[0] && key.cache.all[0].stamp < key.cache.all[1].stamp
    ensures forall k :: 0 <= k < |key.cache.all| ==> key.cache.all[k] in old(key.cache.all) || fresh(key.cache.all[k])
  {
    hide LruCache.Valid, View, Exec, Adds, Lookup, Print, Kept, ShouldClear, Compact;
    var e0, e1 := Entry(Stale.FIRST, SHORT), Entry(Stale.SECOND, LONG);
    Texts(key.setup);
    OthersKept(e0, e1);
    key.cache.Count();
    r2 := GetElement(key, 1, Stale.SECOND);
    assert [e1] + [e0] == [e1, e0];
  }

  /** After both. */
  method TwoCached(maxEntries: nat, setup: Setup) returns (key: JsonKey, r0: Reply, r1: Reply, r2: Reply)
    requires maxEntries >= 2 && setup.minSize <= 3
    ensures key.Valid() && key.setup == setup && key.cache.maxEntries == maxEntries && key.cache.maxBytes == 4
    ensures fresh(key) && fresh(key.cache) && fresh(key.jt) && key.cache.docs == {key.jt}
    ensures r0 == Okay && r1 == Bulk(SHORT) && r2 == Bulk(LONG)
    ensures key.State() == World(Some(DOC), [Entry(Stale.SECOND, LONG), Entry(Stale.FIRST, SHORT)])
    ensures |key.cache.all| == 2 && key.cache.all[0].path == Stale.FIRST
    ensures forall k :: 0 <= k < |key.cache.all| ==> fresh(key.cache.all[k])
    ensures key.cache.oldest == key.cache.all[0] && key.cache.all[0].stamp < key.cache.all[1].stamp
  {
    hide LruCache.Valid, View;
    key, r0, r1 := OneCached(maxEntries, setup);
    r2 := GetLong(key);
  }

  /** With one entry left, that is all the cache holds. */
  lemma OneLeft(key: JsonKey, e: Entry)
    requires key.Valid() && key.cache.docs == {key.jt} && key.State().entries == [e]
    ensures |key.cache.all| == 1 && key.cache.all[0].path == e.path && key.cache.numBytes == |e.value|
    ensures key.cache.oldest == null || key.cache.oldest == key.cache.all[0]
  {
    hide LruCache.Valid, View;
    var es := key.cache.lists[key.jt];
    assert View(es)[0] == Entry(es[0].path, es[0].value);
    key.cache.Sole(key.jt);
  }

  lemma NothingFound()
    ensures Lookup([], Stale.FIRST) == None
  {
  }
}
