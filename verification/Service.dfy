/**
 Commands served from memory, cache and all: every reply is the reply of a server that never
 caches anything.
 */
module Service {
  import opened Bytes
  import opened CacheHeap
  import opened Coherence
  import opened Commands
  import Nodes
  import opened Server

  /** The command is a GET that would purge a null pointer. */
  ghost predicate Crashes(key: JsonKey, cmd: Command)
    reads key, key.cache, key.cache.all, key.cache.docs
    reads if key.jt in key.cache.lists then key.cache.lists[key.jt] else []
    requires key.Valid()
  {
    cmd.Get? && key.GetCrashes(cmd.path, cmd.opts)
  }

  /** One command; evictions are the cache's own business. */
  method Perform(key: JsonKey, cmd: Command) returns (reply: Reply, crashed: bool)
    requires key.Valid() && Coherent(key.setup, key.State()) && InScope(cmd) && !cmd.Evict?
    modifies key, key.cache, key.cache.all, key.cache.docs
    ensures key.Valid() && Coherent(key.setup, key.State())
    ensures crashed <==> old(Crashes(key, cmd))
    ensures crashed ==> Crashes(key, cmd) && key.root == old(key.root)
    ensures !crashed ==> reply == Exec(key.setup, World(old(key.root), []), cmd).1
    ensures !crashed ==> key.root == Exec(key.setup, World(old(key.root), []), cmd).0.root
    ensures forall k :: 0 <= k < |key.cache.all| ==> key.cache.all[k] in old(key.cache.all) || fresh(key.cache.all[k])
    ensures forall d :: d in key.cache.docs ==> d in old(key.cache.docs) || fresh(d)
  {
    assert key.jt in key.cache.docs;
    hide JsonKey.Valid, Coherent, Exec, InScope, JsonKey.GetCrashes;
    ghost var before := key.State();
    crashed := false;
    match cmd {
      case Get(path, o) =>
        reply, crashed, before := key.Get(path, o);
        if crashed { return; }
      case Set(path, v, flag) => reply := key.Set(path, v, flag);
      case NumIncrBy(path, result) => reply := key.NumIncrBy(path, result);
      case ArrInsert(path, index, vs) => reply := key.ArrInsert(path, index, vs);
      case ArrAppend(path, vs) => reply := key.ArrAppend(path, vs);
      case ArrTrim(path, start, stop) => reply := key.ArrTrim(path, start, stop);
      case Del(path, given) => reply := key.Del(path, given);
      case _ => NotInScope(cmd);
    }
    EvictedCoherent(key.setup, old(key.State()), before);
    CommandCoherent(key.setup, before, cmd);
    RootIndependent(key.setup, before, cmd);
  }

  lemma NotInScope(cmd: Command)
    requires cmd.StrAppend? || cmd.ArrPop?
    ensures !InScope(cmd)
  {
  }

  /** An eviction on the way neither touches the document nor breaks coherence. */
  lemma EvictedCoherent(setup: Setup, w: World, before: World)
    requires Coherent(setup, w) && (before == w || exists i :: before == Exec(setup, w, Evict(i)).0)
    ensures Coherent(setup, before) && before.root == w.root
  {
    hide Coherent;
    if i :| before == Exec(setup, w, Evict(i)).0 {
      CommandCoherent(setup, w, Evict(i));
    }
  }

  /**
   A run of commands in scope. It goes through, or crashes at a GET that purges a null
   pointer; the replies up to there are those of a server without a cache.
   */
  method Serve(key: JsonKey, cmds: seq<Command>) returns (replies: seq<Reply>, crashed: bool)
    requires key.Valid() && Coherent(key.setup, key.State())
    requires forall i :: 0 <= i < |cmds| ==> InScope(cmds[i]) && !cmds[i].Evict?
    modifies key, key.cache, key.cache.all, key.cache.docs
    ensures key.Valid() && Coherent(key.setup, key.State())
    ensures |replies| <= |cmds|
    ensures if crashed then |replies| < |cmds| && Crashes(key, cmds[|replies|]) else |replies| == |cmds|
    ensures replies == UncachedReplies(key.setup, old(key.root), cmds[..|replies|])
    ensures key.root == UncachedRoot(key.setup, old(key.root), cmds[..|replies|])
  {
    hide JsonKey.Valid, Coherent, Exec, InScope, Crashes;
    replies, crashed := [], false;
    while |replies| < |cmds|
      invariant |replies| <= |cmds| && key.Valid() && Coherent(key.setup, key.State())
      invariant forall k :: 0 <= k < |key.cache.all| ==>
        key.cache.all[k] in old(key.cache.all) || fresh(key.cache.all[k])
      invariant forall d :: d in key.cache.docs ==> d in old(key.cache.docs) || fresh(d)
      invariant !crashed && replies == UncachedReplies(key.setup, old(key.root), cmds[..|replies|])
      invariant key.root == UncachedRoot(key.setup, old(key.root), cmds[..|replies|])
      decreases |cmds| - |replies|
    {
      var i := |replies|;
      assert cmds[..i + 1] == cmds[..i] + [cmds[i]];
      UncachedSnoc(key.setup, old(key.root), cmds[..i], cmds[i]);
      var reply;
      reply, crashed := Perform(key, cmds[i]);
      if crashed { return; }
      replies := replies + [reply];
    }
  }

  /** From nothing: an empty cache, an empty key, and a run of commands. */
  method ServeAnew(maxEntries: nat, maxBytes: nat, setup: Setup, cmds: seq<Command>)
    returns (key: JsonKey, replies: seq<Reply>, crashed: bool)
    requires maxEntries >= 1 && forall i :: 0 <= i < |cmds| ==> InScope(cmds[i]) && !cmds[i].Evict?
    ensures fresh(key) && fresh(key.cache) && key.Valid() && Coherent(setup, key.State()) && key.setup == setup
    ensures key.cache.maxEntries == maxEntries && key.cache.maxBytes == maxBytes
    ensures |replies| <= |cmds|
    ensures if crashed then |replies| < |cmds| && Crashes(key, cmds[|replies|]) else |replies| == |cmds|
    ensures replies == UncachedReplies(setup, None, cmds[..|replies|])
    ensures key.root == UncachedRoot(setup, None, cmds[..|replies|])
  {
    hide Coherent, InScope, Crashes;
    var jt := new Doc();
    var cache := new LruCache(maxEntries, maxBytes, setup.minSize, {jt});
    cache.Empty();
    key := new JsonKey(cache, jt, None, setup);
    EmptyCoherent(setup);
    replies, crashed := Serve(key, cmds);
  }

  function UncachedRoot(setup: Setup, root: Option<Nodes.Node>, cmds: seq<Command>): Option<Nodes.Node>
    decreases |cmds|
  {
    if cmds == [] then root else UncachedRoot(setup, Exec(setup, World(root, []), cmds[0]).0.root, cmds[1..])
  }

  lemma {:induction false} UncachedSnoc(setup: Setup, root: Option<Nodes.Node>, cmds: seq<Command>, cmd: Command)
    ensures UncachedReplies(setup, root, cmds + [cmd])
         == UncachedReplies(setup, root, cmds) + [Exec(setup, World(UncachedRoot(setup, root, cmds), []), cmd).1]
    ensures UncachedRoot(setup, root, cmds + [cmd])
      == Exec(setup, World(UncachedRoot(setup, root, cmds), []), cmd).0.root
    decreases |cmds|
  {
    hide Exec;
    if cmds == [] {
      assert cmds + [cmd] == [cmd] && [cmd][1..] == [];
    } else {
      assert (cmds + [cmd])[0] == cmds[0] && (cmds + [cmd])[1..] == cmds[1..] + [cmd];
      UncachedSnoc(setup, Exec(setup, World(root, []), cmds[0]).0.root, cmds[1..], cmd);
    }
  }
}
