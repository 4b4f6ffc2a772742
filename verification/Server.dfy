/** The commands as they run on a key. */
module Server {
  // They search the document, change it through the container that the search found, and use the
  // cache in memory. Each is the step that Commands defines.

  import opened Bytes
  import opened Cache
  import opened CacheHeap
  import opened Commands
  import opened Nodes
  import opened Path
  import opened PathMachine
  import opened Printer
  import opened Resolve
  import opened Splices

  /** `JSONPathNode_t`: the outcome of parsing a path and searching a document for it. */
  datatype PathInfo = Unparsed | Overlong | Searched(nodes: seq<PathNode>, r: Located)

  ghost predicate Describes(info: PathInfo, path: bytes, root: Node) {
    match info
    case Unparsed => ParsePath(path) == Malformed
    case Overlong => ParsePath(path) == TooLong
    case Searched(nodes, r) =>
      && ParsePath(path) == Steps(nodes)
      && if nodes == [Root] then r == At(root, None) else LocatesIn(nodes, root, r)
  }

  /** `NodeFromJSONPath`. */
  method NodeFromJSONPath(root: Node, path: bytes) returns (info: PathInfo)
    ensures Describes(info, path, root)
  {
    hide Tokens, LocatesIn;
    var sp := new SearchPath(0);
    var outcome := TokenizePath(path, sp);
    match outcome {
      case PathOverflow => info := Overlong;
      case SyntaxError(_) => info := Unparsed;
      case Parsed =>
        var nodes := sp.nodes[..sp.len];
        if nodes == [Root] {
          info := Searched(nodes, At(root, None));
        } else {
          var r := SearchPathFindEx(nodes, root);
          info := Searched(nodes, r);
        }
    }
  }

  /** `SerializeNodeToJSON` into an empty buffer. */
  method Serialize(n: Node, o: Options, setup: Setup) returns (text: bytes)
    ensures text == Print(FormatOf(o, setup), n, 0)
  {
    text := SerializeNodeToJSON(n, FormatOf(o, setup), []);
  }

  /** A JSON key: its document, and the object that heads its cache entries. */
  class JsonKey {
    var root: Option<Node>
    var jt: Doc
    const cache: LruCache
    const setup: Setup

    ghost predicate Valid()
      reads this, cache, cache.all, cache.docs, if jt in cache.lists then cache.lists[jt] else []
    {
      && cache.Valid() && jt in cache.docs && jt in cache.lists && setup.minSize == cache.minSize
      && (root.None? ==> cache.Entries(jt) == [])
    }

    /** The key as the commands' definitions see it. */
    ghost function State(): World
      reads this, cache, cache.all, cache.docs, if jt in cache.lists then cache.lists[jt] else []
      requires Valid()
    {
      World(root, cache.Entries(jt))
    }

    /** A key, empty or with a document, of which nothing is cached. */
    constructor (cache: LruCache, jt: Doc, root: Option<Node>, setup: Setup)
      requires cache.Valid() && jt in cache.docs && jt in cache.lists && cache.Entries(jt) == []
      requires setup.minSize == cache.minSize
      ensures Valid() && State() == World(root, []) && this.cache == cache && this.setup == setup
    {
      this.cache, this.jt, this.root, this.setup := cache, jt, root, setup;
    }

    /** `LruCache_GetValue` on the key's own entries. */
    method LookUp(key: bytes) returns (hit: Option<bytes>)
      requires Valid()
      modifies cache, cache.all
      ensures Valid() && State() == old(State()) && hit == Lookup(State().entries, key)
      ensures cache.docs == old(cache.docs) && cache.all == old(cache.all) && cache.numBytes == old(cache.numBytes)
      ensures cache.lists == old(cache.lists) && cache.numEntries == old(cache.numEntries)
      ensures hit.None? ==> cache.oldest == old(cache.oldest) && cache.clock == old(cache.clock)
      ensures forall e :: e in cache.all ==> e.path == old(e.path) && (hit.None? ==> e.stamp == old(e.stamp))
      ensures forall k :: 0 <= k < |cache.all| ==> cache.all[k] in old(cache.all) || fresh(cache.all[k])
      ensures forall d :: d in cache.docs ==> d in old(cache.docs) || fresh(d)
    {
      hide LruCache.Valid, View, Lookup;
      hit := cache.GetValue(jt, key);
    }

    /** This GET would add to a cache that is full by bytes and has no oldest entry. */
    ghost predicate GetCrashes(path: bytes, o: Options)
      reads this, cache, cache.all, cache.docs, if jt in cache.lists then cache.lists[jt] else []
      requires Valid()
    {
      cache.NothingToPurge() && Adds(setup, State(), path, o)
    }

    /** `getSerializedJson` for one path, when the options are cachable. */
    method GetSerializedJson(path: bytes, n: Node, o: Options) returns (text: bytes, crashed: bool, ghost before: World)
      requires Valid() && root.Some? && Cachable(o) && Locate(State(), path).Found? && Locate(State(), path).n == n
      modifies cache, cache.all, cache.docs`lruEntries
      ensures Valid() && (crashed <==> old(GetCrashes(path, o)))
      ensures crashed ==> State() == old(State()) && GetCrashes(path, o)
      ensures !crashed ==> (State(), Bulk(text)) == Answer(setup, before, path, n, o)
      ensures old(Adds(setup, State(), path, o) && !cache.Full()) ==>
        before == old(State()) && cache.Joined(CacheKey(path), text)
      ensures before == old(State()) || exists i :: before == Exec(setup, old(State()), Evict(i)).0
      ensures forall k :: 0 <= k < |cache.all| ==> cache.all[k] in old(cache.all) || fresh(cache.all[k])
      ensures forall d :: d in cache.docs ==> d in old(cache.docs) || fresh(d)
    {
      hide LruCache.Valid, View, Lookup, Print, Cachable, Answer, Exec, Locate;
      var key := CacheKey(path);
      crashed, before := false, State();
      CachableAnswer(setup, before, path, n, o);
      if Trivial(n) {
        text := Serialize(n, o, setup);
        return;
      }
      var hit := LookUp(key);
      if hit.Some? { return hit.value, false, before; }
      text := Serialize(n, o, setup);
      crashed, before := CacheText(key, text);
      CachableAnswer(setup, before, path, n, o);
    }

    /** A text that is not in the cache goes in, if it is not too short, perhaps in place of another. */
    method CacheText(key: bytes, text: bytes) returns (crashed: bool, ghost before: World)
      requires Valid() && root.Some? && Lookup(cache.Entries(jt), key).None?
      modifies cache, cache.all, cache.docs`lruEntries
      ensures Valid() && Lookup(before.entries, key).None? && before.root == root
      ensures crashed <==> |text| >= setup.minSize && old(cache.NothingToPurge())
      ensures crashed ==> State() == before == old(State()) && cache.NothingToPurge()
      ensures before == old(State()) || exists i :: before == Exec(setup, old(State()), Evict(i)).0
      ensures !crashed ==>
        State() == if |text| < setup.minSize then before else before.(entries := [Entry(key, text)] + before.entries)
      ensures |text| >= setup.minSize && !old(cache.Full()) ==> before == old(State()) && cache.Joined(key, text)
      ensures forall k :: 0 <= k < |cache.all| ==> cache.all[k] in old(cache.all) || fresh(cache.all[k])
      ensures forall d :: d in cache.docs ==> d in old(cache.docs) || fresh(d)
    {
      hide LruCache.Valid, View, Lookup;
      before := State();
      ghost var es, v := cache.lists[jt], cache.Entries(jt);
      cache.ListMembers(jt);
      ghost var evicted, d, k;
      crashed, evicted, d, k := cache.AddValue(jt, key, text);
      if crashed { return; }
      ghost var rest := es;
      if evicted != null && d == jt {
        rest := Removed(es, k);
        RemovedElements(es, k);
        RemovedElements(v, k);
        before := World(root, Removed(v, k));
        EvictedState(setup, old(State()), k);
        LookupRemoved(v, k, key);
      }
      assert View(rest) == before.entries;
      if |text| >= setup.minSize { ViewCons(cache.newest, rest); }
    }

    /** `JSONGet_ValkeyCommand` for one path. */
    method Get(path: bytes, o: Options) returns (reply: Reply, crashed: bool, ghost before: World)
      requires Valid()
      modifies cache, cache.all, cache.docs`lruEntries
      ensures Valid() && (crashed <==> old(GetCrashes(path, o)))
      ensures old(Adds(setup, State(), path, o) && !cache.Full()) ==>
        before == old(State()) && reply.Bulk? && cache.Joined(CacheKey(path), reply.text)
      ensures crashed ==> State() == old(State()) && GetCrashes(path, o)
      ensures !crashed ==> (State(), reply) == Exec(setup, before, Command.Get(path, o))
      ensures before == old(State()) || exists i :: before == Exec(setup, old(State()), Evict(i)).0
      ensures forall k :: 0 <= k < |cache.all| ==> cache.all[k] in old(cache.all) || fresh(cache.all[k])
      ensures forall d :: d in cache.docs ==> d in old(cache.docs) || fresh(d)
    {
      hide LruCache.Valid, View, Lookup, Print, Cachable, ParsePath, Answer, LocatesIn, Adds, Locate, Exec;
      crashed, before := false, State();
      AddsNeeds(setup, before, path, o);
      ExecGet(setup, before, path, o);
      if root.None? { return Nil, false, before; }
      var info := NodeFromJSONPath(root.value, path);
      InfoLocates(info, path, before);
      match info {
        case Unparsed => return BadPath, false, before;
        case Overlong => return UndefinedBehaviour, false, before;
        case Searched(_, Missing(e, _, _)) => return PathFailure(e), false, before;
        case Searched(nodes, At(n, _)) =>
          var text;
          if Cachable(o) {
            text, crashed, before := GetSerializedJson(path, n, o);
            EvictedLocates(setup, old(State()), before, path);
            ExecGet(setup, before, path, o);
          } else {
            text := Serialize(n, o, setup);
            UncachableAnswer(setup, before, path, n, o);
          }
          reply := Bulk(text);
      }
    }

    /** `maybeClearPathCache`. */
    method MaybeClearPathCache(path: bytes)
      requires Valid()
      modifies cache, cache.all, jt`lruEntries
      ensures Valid() && State() == World(root, Kept(old(State()).entries, CacheKey(path)))
      ensures forall k :: 0 <= k < |cache.all| ==> cache.all[k] in old(cache.all)
      ensures cache.docs == old(cache.docs) && cache.Shrunk()
    {
      hide LruCache.Valid, View, Kept;
      cache.ListHead(jt);
      cache.ValidOldest();
      if jt.lruEntries == null {
        NothingKept(cache.lists[jt], CacheKey(path));
        return;
      }
      cache.ClearValues(jt, CacheKey(path));
      if root.None? { NothingKept([], CacheKey(path)); }
    }

    /** The writes through the parent that the search found: `Node_DictSet` or `Node_ArraySet` there. */
    method SetAtTarget(nodes: seq<PathNode>, r: Located, v: Node)
      requires Valid() && root.Some? && nodes != [] && LocatesIn(nodes, root.value, r) && CanPut(nodes, root.value)
      modifies `root
      ensures root == Some(Put(nodes, old(root.value), v))
    {
      hide LocatesIn, CanPut, Put, SetChild;
      PutThroughParent(nodes, root.value, r, v);
      Parents(nodes, root.value, r);
      var front, last := nodes[..|nodes| - 1], nodes[|nodes| - 1];
      var parent := match r case At(_, p) => p.value case Missing(_, container, _) => container;
      root := Some(Put(front, root.value, SetChild(parent, last, v)));
    }

    /** `ValkeyModule_DeleteKey`, which frees the document and clears its entries, and a new document. */
    method ReplaceRoot(v: Node)
      requires Valid()
      modifies this, cache, cache.all, jt`lruEntries
      ensures Valid() && State() == World(Some(v), [])
      ensures forall k :: 0 <= k < |cache.all| ==> cache.all[k] in old(cache.all) || fresh(cache.all[k])
      ensures forall d :: d in cache.docs ==> d in old(cache.docs) || fresh(d)
    {
      hide LruCache.Valid, View, Kept;
      cache.ClearValues(jt, []);
      jt := new Doc();
      cache.Adopt(jt);
      EmptyView();
      root := Some(v);
    }

    /** `JSONSet_ValkeyCommand`, from where its arguments are parsed. */
    method Set(path: bytes, v: Node, flag: Flag) returns (reply: Reply)
      requires Valid()
      modifies this, cache, cache.all, jt`lruEntries
      ensures Valid() && (State(), reply) == Exec(setup, old(State()), Command.Set(path, v, flag))
      ensures old(root.None?) || ParsePath(path) != Steps([Root]) ==> jt == old(jt) && cache.Shrunk()
      ensures old(root.None?) ==> cache.all == old(cache.all)
      ensures forall k :: 0 <= k < |cache.all| ==> cache.all[k] in old(cache.all) || fresh(cache.all[k])
      ensures forall d :: d in cache.docs ==> d in old(cache.docs) || fresh(d)
    {
      hide LruCache.Valid, View, ParsePath, Put, Kept, LocatesIn, CanPut;
      ghost var w := State();
      cache.ValidOldest();
      if root.None? && flag == XX { return Nil; }
      var info := NodeFromJSONPath(if root.None? then v else root.value, path);
      match info {
        case Unparsed => return BadPath;
        case Overlong => return UndefinedBehaviour;
        case Searched(nodes, r) =>
          if root.None? {
            if nodes != [Root] { return NewNotRoot; }
            root := Some(v);
            return Okay;
          }
          if nodes == [Root] {
            if flag == NX { return Nil; }
            ReplaceRoot(v);
            return Okay;
          }
          if nodes == [] { return UndefinedBehaviour; }
          reply := SetSearched(path, nodes, r, v, flag);
          SetUnfold(w, path, nodes, r, v, flag);
      }
    }

    /** An existing key and a path below its root: what the search found decides. */
    method SetSearched(path: bytes, nodes: seq<PathNode>, r: Located, v: Node, flag: Flag) returns (reply: Reply)
      requires Valid() && root.Some? && nodes != [] && nodes != [Root] && LocatesIn(nodes, root.value, r)
      modifies `root, cache, cache.all, jt`lruEntries
      ensures Valid() && (State(), reply) == SetFound(old(State()), path, nodes, r, v, flag)
      ensures cache.Shrunk()
      ensures forall k :: 0 <= k < |cache.all| ==> cache.all[k] in old(cache.all) || fresh(cache.all[k])
      ensures forall d :: d in cache.docs ==> d in old(cache.docs) || fresh(d)
    {
      hide LruCache.Valid, View, Put, Kept, LocatesIn, CanPut;
      ghost var w := State();
      cache.ValidOldest();
      CanPutLocated(nodes, root.value, r);
      match r {
        case At(n, parent) =>
          Parents(nodes, root.value, r);
          if flag == NX && parent.value.Dict? { return Nil; }
          if !parent.value.Dict? && flag != Always { return BadSyntax; }
        case Missing(e, _, level) =>
          if e != E_NOKEY { return PathFailure(e); }
          if level != |nodes| - 1 { return NonTerminal; }
          if flag == XX { return Nil; }
      }
      SetAtTarget(nodes, r, v);
      MaybeClearPathCache(path);
      reply := Okay;
    }

    /** The target of a command that needs one, or the reply that refuses it. */
    method FindTarget(path: bytes) returns (t: Access, r: Located)
      requires Valid()
      ensures t == Locate(State(), path)
      ensures t.Found? ==> root.Some? && (t.nodes == [Root] || LocatesIn(t.nodes, root.value, r))
    {
      hide LruCache.Valid, View, ParsePath, LocatesIn;
      r := At(Null, None);
      if root.None? { return Refused(WrongType), r; }
      var info := NodeFromJSONPath(root.value, path);
      InfoLocates(info, path, State());
      match info {
        case Unparsed => t := Refused(BadPath);
        case Overlong => t := Refused(UndefinedBehaviour);
        case Searched(_, Missing(e, _, _)) => t := Refused(PathFailure(e));
        case Searched(nodes, At(n, p)) => t, r := Found(nodes, n), At(n, p);
      }
    }

    /** `JSONNum_GenericCommand`, from where the result is computed. */
    method NumIncrBy(path: bytes, result: Node) returns (reply: Reply)
      requires Valid()
      modifies this, cache, cache.all, jt`lruEntries
      ensures Valid() && (State(), reply) == Exec(setup, old(State()), Command.NumIncrBy(path, result))
      ensures forall k :: 0 <= k < |cache.all| ==> cache.all[k] in old(cache.all) || fresh(cache.all[k])
      ensures forall d :: d in cache.docs ==> d in old(cache.docs) || fresh(d)
    {
      hide LruCache.Valid, View, ParsePath, Put, Kept, LocatesIn, CanPut, Locate, Print;
      ghost var w := State();
      var t, r := FindTarget(path);
      if t.Refused? { return t.reply; }
      FoundCanPut(w, path, t.nodes);
      if !(t.n.Integer? || t.n.Number?) { return WrongType; }
      if t.nodes == [] { return UndefinedBehaviour; }
      var text := Serialize(result, Options(None, None, None, false), setup);
      if t.nodes == [Root] {
        ReplaceRoot(result);
      } else {
        SetAtTarget(t.nodes, r, result);
        MaybeClearPathCache(path);
      }
      reply := Bulk(text);
    }

    /** New items for the array at the target, in place, and the clearing of its path. */
    method SetItems(path: bytes, nodes: seq<PathNode>, items: seq<Node>) returns (reply: Reply)
      requires Valid() && root.Some? && (nodes == [Root] || CanPut(nodes, root.value))
      modifies `root, cache, cache.all, jt`lruEntries
      ensures Valid() && (State(), reply) == ExecArray(old(State()), path, nodes, items)
      ensures forall k :: 0 <= k < |cache.all| ==> cache.all[k] in old(cache.all) || fresh(cache.all[k])
      ensures forall d :: d in cache.docs ==> d in old(cache.docs) || fresh(d)
    {
      hide LruCache.Valid, View, Put, Kept, CanPut;
      root := Some(Replace(nodes, root.value, Array(items)));
      MaybeClearPathCache(path);
      reply := Count(|items|);
    }

    /** `JSONArrInsert_ValkeyCommand`. */
    method ArrInsert(path: bytes, index: int, vs: seq<Node>) returns (reply: Reply)
      requires Valid()
      modifies `root, cache, cache.all, jt`lruEntries
      ensures Valid() && (State(), reply) == Exec(setup, old(State()), Command.ArrInsert(path, index, vs))
      ensures forall k :: 0 <= k < |cache.all| ==> cache.all[k] in old(cache.all) || fresh(cache.all[k])
      ensures forall d :: d in cache.docs ==> d in old(cache.docs) || fresh(d)
    {
      hide LruCache.Valid, View, CanPut, Locate, ExecArray, Inserted, LocatesIn;
      ghost var w := State();
      var t, r := FindTarget(path);
      if t.Refused? { return t.reply; }
      FoundCanPut(w, path, t.nodes);
      if !t.n.Array? { return WrongType; }
      var i := index;
      if i < 0 { i := |t.n.items| + i; }
      if i < 0 || i > |t.n.items| { return BadIndex; }
      reply := SetItems(path, t.nodes, Inserted(t.n.items, i, vs));
    }

    /** `JSONArrAppend_ValkeyCommand`: an insertion at the length of the array. */
    method ArrAppend(path: bytes, vs: seq<Node>) returns (reply: Reply)
      requires Valid()
      modifies `root, cache, cache.all, jt`lruEntries
      ensures Valid() && (State(), reply) == Exec(setup, old(State()), Command.ArrAppend(path, vs))
      ensures forall k :: 0 <= k < |cache.all| ==> cache.all[k] in old(cache.all) || fresh(cache.all[k])
      ensures forall d :: d in cache.docs ==> d in old(cache.docs) || fresh(d)
    {
      hide LruCache.Valid, View, CanPut, Locate, ExecArray, Inserted, LocatesIn;
      ghost var w := State();
      var t, r := FindTarget(path);
      if t.Refused? { return t.reply; }
      FoundCanPut(w, path, t.nodes);
      if !t.n.Array? { return WrongType; }
      reply := SetItems(path, t.nodes, Inserted(t.n.items, |t.n.items|, vs));
    }

    /** `JSONArrTrim_ValkeyCommand`. */
    method ArrTrim(path: bytes, start: int, stop: int) returns (reply: Reply)
      requires Valid()
      modifies `root, cache, cache.all, jt`lruEntries
      ensures Valid() && (State(), reply) == Exec(setup, old(State()), Command.ArrTrim(path, start, stop))
      ensures forall k :: 0 <= k < |cache.all| ==> cache.all[k] in old(cache.all) || fresh(cache.all[k])
      ensures forall d :: d in cache.docs ==> d in old(cache.docs) || fresh(d)
    {
      hide LruCache.Valid, View, CanPut, Locate, ExecArray, Trimmed, LocatesIn;
      ghost var w := State();
      var t, r := FindTarget(path);
      if t.Refused? { return t.reply; }
      FoundCanPut(w, path, t.nodes);
      if !t.n.Array? { return WrongType; }
      reply := SetItems(path, t.nodes, Trimmed(t.n.items, start, stop));
    }

    /** `JSONDel_ValkeyCommand`: the cache is cleared first, then the element goes. */
    method Del(path: bytes, given: bool) returns (reply: Reply)
      requires Valid()
      modifies `root, cache, cache.all, jt`lruEntries
      ensures Valid() && (State(), reply) == Exec(setup, old(State()), Command.Del(path, given))
      ensures forall k :: 0 <= k < |cache.all| ==> cache.all[k] in old(cache.all) || fresh(cache.all[k])
      ensures forall d :: d in cache.docs ==> d in old(cache.docs) || fresh(d)
    {
      hide LruCache.Valid, View, Put, Kept, LocatesIn, CanPut, Locate, Without, ParsePath;
      ghost var w := State();
      if root.None? { return Count(0); }
      var t, r := FindTarget(path);
      DelUnfold(w, path, given, t, r);
      match t {
        case Refused(PathFailure(E_NOKEY)) => reply := Count(0);
        case Refused(PathFailure(E_NOINDEX)) => reply := Count(0);
        case Refused(other) => reply := other;
        case Found(nodes, _) =>
          if nodes == [] { return UndefinedBehaviour; }
          MaybeClearPathCache(path);
          if nodes == [Root] {
            DeleteRoot();
          } else {
            var front := nodes[..|nodes| - 1];
            root := Some(Put(front, root.value, Without(r.parent.value, nodes[|nodes| - 1])));
          }
          reply := Count(Deletions(given));
      }
    }

    /** `ValkeyModule_DeleteKey`. */
    method DeleteRoot()
      requires Valid()
      modifies `root, cache, cache.all, jt`lruEntries
      ensures Valid() && State() == World(None, [])
      ensures forall k :: 0 <= k < |cache.all| ==> cache.all[k] in old(cache.all) || fresh(cache.all[k])
      ensures forall d :: d in cache.docs ==> d in old(cache.docs) || fresh(d)
    {
      hide LruCache.Valid, View, Kept;
      cache.ClearValues(jt, []);
      KeptAll(old(State()).entries);
      root := None;
    }
  }

  lemma FoundCanPut(w: World, path: bytes, nodes: seq<PathNode>)
    requires Locate(w, path).Found? && Locate(w, path).nodes == nodes
    ensures w.root.Some? && (nodes == [Root] || CanPut(nodes, w.root.value))
  {
    hide Denotes, ParsePath;
    TargetCanPut(nodes, w.root.value);
  }

  /** What `ExecDel` comes to, by the target that is found. */
  lemma DelUnfold(w: World, path: bytes, given: bool, t: Access, r: Located)
    requires w.root.Some? && t == Locate(w, path)
    requires t.Found? ==> t.nodes == [Root] || LocatesIn(t.nodes, w.root.value, r)
    ensures ExecDel(w, path, given) ==
      match t
      case Refused(PathFailure(E_NOKEY)) => (w, Count(0))
      case Refused(PathFailure(E_NOINDEX)) => (w, Count(0))
      case Refused(other) => (w, other)
      case Found(nodes, _) =>
        if nodes == [] then (w, UndefinedBehaviour)
        else if nodes == [Root] then (World(None, []), Count(Deletions(given)))
        else if ParentOf(nodes, w.root.value).Ok? && CanPut(nodes[..|nodes| - 1], w.root.value) then
          (Cleared(w, Put(nodes[..|nodes| - 1], w.root.value,
              Without(ParentOf(nodes, w.root.value).value, nodes[|nodes| - 1])), path), Count(Deletions(given)))
        else (w, UndefinedBehaviour)
    ensures t.Found? && t.nodes != [Root] && t.nodes != [] ==>
      r.At? && r.parent.Some? && ParentOf(t.nodes, w.root.value) == Ok(r.parent.value)
        && CanPut(t.nodes[..|t.nodes| - 1], w.root.value)
  {
    hide Denotes, ParsePath, Put, Kept, Without;
    if t.Found? && t.nodes != [Root] && t.nodes != [] {
      LocatedAt(t.nodes, w.root.value, r);
      Parents(t.nodes, w.root.value, r);
      GetPut(t.nodes[..|t.nodes| - 1], w.root.value);
    }
  }

  lemma LocatedAt(nodes: seq<PathNode>, root: Node, r: Located)
    requires LocatesIn(nodes, root, r) && Denotes(nodes, root).Ok?
    ensures r.At?
  {
  }

  /** The document `ExecSet` gives, by the outcome of the search. */
  ghost function SetFound(w: World, path: bytes, nodes: seq<PathNode>, r: Located, v: Node, flag: Flag): (World, Reply)
    requires w.root.Some? && LocatesIn(nodes, w.root.value, r) && nodes != []
  {
    var done := (if CanPut(nodes, w.root.value) then Cleared(w, Put(nodes, w.root.value, v), path) else w, Okay);
    match r
    case At(_, parent) =>
      if parent.value.Dict? then if flag == NX then (w, Nil) else done
      else if flag != Always then (w, BadSyntax) else done
    case Missing(e, _, level) =>
      if e != E_NOKEY then (w, PathFailure(e))
      else if level != |nodes| - 1 then (w, NonTerminal)
      else if flag == XX then (w, Nil)
      else done
  }

  lemma SetUnfold(w: World, path: bytes, nodes: seq<PathNode>, r: Located, v: Node, flag: Flag)
    requires w.root.Some? && LocatesIn(nodes, w.root.value, r) && nodes != [] && nodes != [Root]
    requires ParsePath(path) == Steps(nodes)
    ensures ExecSet(w, path, v, flag) == SetFound(w, path, nodes, r, v, flag)
  {
    hide Denotes, ParsePath, CanPut, Put, Kept;
    CanPutLocated(nodes, w.root.value, r);
  }

  lemma Parents(nodes: seq<PathNode>, root: Node, r: Located)
    requires nodes != [] && LocatesIn(nodes, root, r)
    ensures r.At? ==> r.parent.Some? && Denotes(nodes, root) == Ok(r.n) && ParentOf(nodes, root) == Ok(r.parent.value)
  {
    hide Denotes;
  }

  lemma EmptyView()
    ensures View([]) == []
  {
  }

  lemma NothingKept(es: seq<PathEntry>, key: bytes)
    ensures es == [] ==> Kept(View(es), key) == View(es) == []
    ensures Kept([], key) == []
  {
  }

  /** A search's outcome in the terms of the commands' definitions. */
  lemma InfoLocates(info: PathInfo, path: bytes, w: World)
    requires w.root.Some? && Describes(info, path, w.root.value)
    ensures Locate(w, path) == match info
      case Unparsed => Refused(BadPath)
      case Overlong => Refused(UndefinedBehaviour)
      case Searched(nodes, At(n, _)) => Found(nodes, n)
      case Searched(_, Missing(e, _, _)) => Refused(PathFailure(e))
  {
    hide Denotes, ParsePath;
  }

  lemma AddsNeeds(setup: Setup, w: World, path: bytes, o: Options)
    ensures Adds(setup, w, path, o) ==> w.root.Some? && Locate(w, path).Found? && Cachable(o)
  {
    hide ParsePath, Denotes, Print;
  }

  lemma EvictedLocates(setup: Setup, w: World, before: World, path: bytes)
    requires before == w || exists i :: before == Exec(setup, w, Evict(i)).0
    ensures before.root == w.root && Locate(before, path) == Locate(w, path)
  {
    hide Denotes, ParsePath;
  }

  lemma CachableAnswer(setup: Setup, w: World, path: bytes, n: Node, o: Options)
    requires Cachable(o)
    ensures var key, text := CacheKey(path), Print(FormatOf(o, setup), n, 0);
      Answer(setup, w, path, n, o) ==
        if Trivial(n) then (w, Bulk(text))
        else if Lookup(w.entries, key).Some? then (w, Bulk(Lookup(w.entries, key).value))
        else (if |text| < setup.minSize then w else w.(entries := [Entry(key, text)] + w.entries), Bulk(text))
  {
  }

  lemma UncachableAnswer(setup: Setup, w: World, path: bytes, n: Node, o: Options)
    requires !Cachable(o)
    ensures Answer(setup, w, path, n, o) == (w, Bulk(Print(FormatOf(o, setup), n, 0)))
  {
  }

  lemma ViewCons(e: PathEntry, rest: seq<PathEntry>)
    ensures View([e] + rest) == [Entry(e.path, e.value)] + View(rest)
  {
    assert ([e] + rest)[1..] == rest;
  }

  lemma EvictedState(setup: Setup, w: World, k: nat)
    requires k < |w.entries|
    ensures Exec(setup, w, Evict(k)).0 == World(w.root, Removed(w.entries, k))
  {
  }

  lemma {:induction false} LookupRemoved(v: seq<Entry>, k: nat, key: bytes)
    requires k < |v| && Lookup(v, key).None?
    ensures Lookup(Removed(v, k), key).None?
  {
    hide Matches;
    LookupFinds(v, key);
    LookupFinds(Removed(v, k), key);
    RemovedElements(v, k);
  }
}
