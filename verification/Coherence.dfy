/** The cache never shows, over whole runs. */
module Coherence {
  // Over runs of commands whose paths are spelled canonically, every reply is the one an empty
  // cache would give.

  import opened Bytes
  import opened Cache
  import opened Commands
  import opened Nodes
  import opened Path
  import opened Printer
  import opened Resolve
  import opened Splices

  // ---- canonical spelling -----------------------------------------------------------------

  /** Keys that can be written, and indices that count from the front. */
  predicate CanonicalStep(s: PathNode) { Renderable(s) && (s.Index? ==> s.index >= 0) }

  predicate Canonical(p: seq<PathNode>) { forall i :: 0 <= i < |p| ==> CanonicalStep(p[i]) }

  lemma CanonicalRenderable(p: seq<PathNode>)
    requires Canonical(p)
    ensures AllRenderable(p)
    ensures forall i :: 0 <= i < |p| && p[i].Key? ==> NUL !in p[i].key
  {
  }

  /** The text is a canonical spelling of the steps: "." for none, else the steps as rendered, perhaps behind a dot. */
  ghost predicate Spells(text: bytes, p: seq<PathNode>) {
    && Canonical(p) && AllRenderable(p) && |p| <= 1024
    && if p == [] then text == [DOT]
       else text == Render(p) || (p[0].Key? && IsIdent(p[0].key) && text == [DOT] + Render(p))
  }

  lemma RenderStart(p: seq<PathNode>)
    requires Canonical(p) && AllRenderable(p) && p != []
    ensures Render(p) != [] && Render(p)[0] != DOT
    ensures p[0].Key? && IsIdent(p[0].key) ==> IsIdentStart(Render(p)[0])
  {
    hide Decimal.IntText;
    if p[0].Key? && IsIdent(p[0].key) {
      RenderFirst(p);
    } else {
      assert Render(p)[0] == LBRACKET;
    }
  }

  /** A canonical text parses as its steps, and its cache key is their rendering. */
  lemma SpellingParses(text: bytes, p: seq<PathNode>)
    requires Spells(text, p)
    ensures ParsePath(text) == Steps(if p == [] then [Root] else p)
    ensures CacheKey(text) == Render(p)
  {
    hide Tokens, Render, RenderRest;
    if p == [] {
      RootText();
    } else {
      ParseRender(p);
      RenderStart(p);
      if text != Render(p) {
        LeadingDot(Render(p));
        assert text[1..] == Render(p);
      }
    }
  }

  lemma RootText()
    ensures Tokens([DOT]) == Scanned([Root], None) && Render([]) == []
  {
  }

  /** The steps behind a cache key. */
  function StepsOf(key: bytes): seq<PathNode> { Tokens(key).nodes }

  lemma StepsOfRender(p: seq<PathNode>)
    requires AllRenderable(p)
    ensures StepsOf(Render(p)) == p
  {
    hide Tokens;
    ParseRender(p);
  }

  // ---- prefixes ---------------------------------------------------------------------------

  predicate Related(p: seq<PathNode>, q: seq<PathNode>) { p <= q || q <= p }

  lemma {:induction false} RestPrefix(p: seq<PathNode>, q: seq<PathNode>)
    requires AllRenderable(p) && AllRenderable(q) && p <= q
    ensures RenderRest(p) <= RenderRest(q)
    decreases |p|
  {
    hide RenderNext, Renderable;
    if p != [] {
      assert p[0] == q[0] && p[1..] <= q[1..];
      RestPrefix(p[1..], q[1..]);
    }
  }

  /** Paths whose steps begin one another have texts that begin one another. */
  lemma RenderPrefix(p: seq<PathNode>, q: seq<PathNode>)
    requires AllRenderable(p) && AllRenderable(q) && p <= q
    ensures Render(p) <= Render(q)
  {
    hide RenderRest, Renderable, IsIdent;
    RestPrefix(p, q);
    if p != [] {
      assert p[0] == q[0];
      RestStart(p);
    } else {
      assert Render(p) == [] by { RootText(); }
    }
  }

  lemma RestStart(p: seq<PathNode>)
    requires AllRenderable(p) && p != []
    ensures RenderRest(p) != []
  {
  }

  /** So an entry that survives the clearing of p is not related to p. */
  lemma SurvivorUnrelated(p: seq<PathNode>, q: seq<PathNode>)
    requires AllRenderable(p) && AllRenderable(q) && !ShouldClear(Render(q), Render(p))
    ensures !Related(p, q)
  {
    hide Render, ShouldClear;
    ClearedExactly(Render(q), Render(p));
    if p <= q { RenderPrefix(p, q); }
    if q <= p { RenderPrefix(q, p); }
  }

  lemma {:induction false} UnrelatedApart(p: seq<PathNode>, q: seq<PathNode>, n: Node)
    requires Canonical(p) && Canonical(q) && !Related(p, q) && CanPut(p, n)
    ensures Apart(p, q, n)
    decreases |p|
  {
    hide Eval, IsIdent;
    assert p != [] && q != [];
    if p[0] == q[0] {
      TailsRelated(p, q);
      UnrelatedApart(p[1..], q[1..], Eval(p[0], n).value);
    } else {
      StepsDiffer(n, p[0], q[0]);
    }
  }

  lemma TailsRelated(p: seq<PathNode>, q: seq<PathNode>)
    requires p != [] && q != [] && p[0] == q[0]
    ensures Related(p, q) <==> Related(p[1..], q[1..])
  {
    assert p == [p[0]] + p[1..] && q == [q[0]] + q[1..];
  }

  lemma StepsDiffer(n: Node, a: PathNode, b: PathNode)
    requires CanonicalStep(a) && CanonicalStep(b) && a != b
    ensures !SameStep(n, a, b)
  {
  }

  // ---- documents that agree away from a path ----------------------------------------------

  ghost predicate AgreeApart(p: seq<PathNode>, before: Node, after: Node) {
    forall q :: Canonical(q) && !Related(p, q) ==> Denotes(q, after) == Denotes(q, before)
  }

  lemma PutAgrees(p: seq<PathNode>, n: Node, v: Node)
    requires Canonical(p) && CanPut(p, n)
    ensures AgreeApart(p, n, Put(p, n, v))
  {
    hide Denotes, Put, Apart, Canonical;
    forall q | Canonical(q) && !Related(p, q) ensures Denotes(q, Put(p, n, v)) == Denotes(q, n) {
      UnrelatedApart(p, q, n);
      PutApart(p, q, n, v);
    }
  }

  /** Other keys of a dictionary do not notice a deletion. */
  lemma DeletedEval(parent: Node, last: PathNode, step: PathNode)
    requires IsValue(parent) && parent.Dict? && last.Key? && step != last
    ensures Eval(step, Without(parent, last)) == Eval(step, parent)
  {
    var es := parent.entries;
    if step.Key? && Find(es, last.key) < |es| {
      DelKeyDistinct(es, last.key);
      var r, i, j := DelKey(es, last.key), Find(es, last.key), Find(es, step.key);
      if j < |es| {
        FindAt(r, if j == |es| - 1 then i else j);
      } else {
        FindIs(r, step.key, |r|);
      }
    }
  }

  lemma DelAgrees(front: seq<PathNode>, last: PathNode, root: Node)
    requires Canonical(front + [last]) && last.Key? && IsValue(root)
    requires Denotes(front, root).Ok? && Denotes(front, root).value.Dict? && IsValue(Denotes(front, root).value)
    ensures CanPut(front, root)
    ensures AgreeApart(front + [last], root, Put(front, root, Without(Denotes(front, root).value, last)))
  {
    hide Put, Canonical, Eval, Without, IsValue;
    GetPut(front, root);
    var parent := Denotes(front, root).value;
    var dict := Without(parent, last);
    FrontCanonical(front, last);
    PutAgrees(front, root, dict);
    forall q | Canonical(q) && !Related(front + [last], q)
      ensures Denotes(q, Put(front, root, dict)) == Denotes(q, root)
    {
      if Related(front, q) {
        OtherChild(front, last, q);
        var rest := q[|front|..];
        assert q == front + rest;
        PutBelow(front, rest, root, dict);
        DenotesConcat(front, rest, root);
        DeletedEval(parent, last, rest[0]);
      }
    }
  }

  lemma FrontCanonical(front: seq<PathNode>, last: PathNode)
    requires Canonical(front + [last])
    ensures Canonical(front)
  {
    assert forall i :: 0 <= i < |front| ==> (front + [last])[i] == front[i];
  }

  lemma OtherChild(front: seq<PathNode>, last: PathNode, q: seq<PathNode>)
    requires Related(front, q) && !Related(front + [last], q)
    ensures front <= q && |q| > |front| && q[|front|] != last
  {
    PrefixesOfChild(front, last, q);
  }

  lemma PrefixesOfChild(front: seq<PathNode>, last: PathNode, q: seq<PathNode>)
    ensures q <= front ==> q <= front + [last]
    ensures front <= q && |q| > |front| && q[|front|] == last ==> front + [last] <= q
  {
    if front <= q && |q| > |front| && q[|front|] == last {
      assert q[..|front| + 1] == front + [last];
    }
  }

  // ---- coherence --------------------------------------------------------------------------

  /** An entry holds what its path denotes now, printed compactly. */
  ghost predicate Fresh(setup: Setup, root: Node, e: Entry) {
    var p := StepsOf(e.path);
    && Canonical(p) && AllRenderable(p) && Render(p) == e.path
    && Denotes(p, root).Ok?
    && e.value == Print(Compact(setup), Denotes(p, root).value, 0)
  }

  ghost predicate AllFresh(setup: Setup, root: Node, es: seq<Entry>) {
    forall i :: 0 <= i < |es| ==> Fresh(setup, root, es[i])
  }

  ghost predicate Coherent(setup: Setup, w: World) {
    match w.root
    case None => w.entries == []
    case Some(root) => IsValue(root) && AllFresh(setup, root, w.entries)
  }

  lemma {:induction false} KeptFresh(setup: Setup, p: seq<PathNode>, before: Node, after: Node, es: seq<Entry>)
    requires Canonical(p) && AllRenderable(p) && AgreeApart(p, before, after) && AllFresh(setup, before, es)
    ensures AllFresh(setup, after, Kept(es, Render(p)))
    decreases |es|
  {
    hide ShouldClear, AgreeApart, Fresh, Render, Canonical;
    if es != [] {
      KeptFresh(setup, p, before, after, es[1..]);
      if !ShouldClear(es[0].path, Render(p)) { EntryKept(setup, p, before, after, es[0]); }
    }
  }

  lemma EntryKept(setup: Setup, p: seq<PathNode>, before: Node, after: Node, e: Entry)
    requires Canonical(p) && AllRenderable(p) && AgreeApart(p, before, after) && Fresh(setup, before, e)
    requires !ShouldClear(e.path, Render(p))
    ensures Fresh(setup, after, e)
  {
    hide ShouldClear, Denotes, Print, Render, Tokens;
    SurvivorUnrelated(p, StepsOf(e.path));
  }

  // ---- one command ------------------------------------------------------------------------

  ghost predicate CanonicalPath(text: bytes) { exists p: seq<PathNode> :: Spells(text, p) }

  /** A canonical path that ends in a key, or the root. */
  ghost predicate CanonicalKeyPath(text: bytes) {
    exists p: seq<PathNode> :: Spells(text, p) && (p == [] || p[|p| - 1].Key?)
  }

  predicate AllValues(vs: seq<Node>) { forall i :: 0 <= i < |vs| ==> IsValue(vs[i]) }

  /** The commands that keep the cache coherent: not STRAPPEND, not ARRPOP, no deletion from an array. */
  ghost predicate InScope(cmd: Command) {
    match cmd
    case Get(path, _) => CanonicalPath(path)
    case Set(path, v, _) => CanonicalPath(path) && IsValue(v)
    case NumIncrBy(path, result) => CanonicalPath(path) && IsValue(result)
    case ArrInsert(path, _, vs) => CanonicalPath(path) && AllValues(vs)
    case ArrAppend(path, vs) => CanonicalPath(path) && AllValues(vs)
    case ArrTrim(path, _, _) => CanonicalPath(path)
    case Del(path, _) => CanonicalKeyPath(path)
    case Evict(_) => true
    case _ => false
  }

  /** What both spellings of "here" come to: the root path is the empty list of steps. */
  lemma NodesAsSteps(p: seq<PathNode>, root: Node, v: Node)
    requires Canonical(p)
    ensures var nodes := if p == [] then [Root] else p;
      && Target(nodes, root) == Denotes(p, root)
      && nodes != []
      && (nodes == [Root] <==> p == [])
      && (CanPut(p, root) ==> (nodes == [Root] || CanPut(nodes, root)) && Replace(nodes, root, v) == Put(p, root, v))
  {
  }

  /** An update by a canonical path, followed by its clearing, keeps the cache coherent. */
  lemma PutCoherent(setup: Setup, w: World, text: bytes, p: seq<PathNode>, v: Node)
    requires Coherent(setup, w) && w.root.Some? && Spells(text, p) && CanPut(p, w.root.value) && IsValue(v)
    ensures Coherent(setup, Cleared(w, Put(p, w.root.value, v), text))
  {
    hide Put, CanPut, AllFresh, Render, IsValue, AgreeApart, Canonical;
    var root := w.root.value;
    SpellingParses(text, p);
    CanonicalRenderable(p);
    PutAgrees(p, root, v);
    KeptFresh(setup, p, root, Put(p, root, v), w.entries);
    PutWellFormed(p, root, v);
  }

  lemma {:induction false} DenotesValue(p: seq<PathNode>, n: Node)
    requires IsValue(n) && Denotes(p, n).Ok?
    ensures IsValue(Denotes(p, n).value)
    decreases |p|
  {
    hide IsValue, Eval;
    if p != [] {
      EvalWellFormed(p[0], n);
      DenotesValue(p[1..], Eval(p[0], n).value);
    }
  }

  lemma ItemsValues(n: Node)
    requires IsValue(n) && n.Array?
    ensures AllValues(n.items)
  {
    forall i | 0 <= i < |n.items| ensures IsValue(n.items[i]) { EachWellFormed(n.items, i); }
  }

  lemma ArrayOfValues(vs: seq<Node>)
    requires AllValues(vs)
    ensures IsValue(Array(vs))
  {
    TogetherWellFormed(vs);
  }

  lemma LookupFresh(setup: Setup, root: Node, es: seq<Entry>, p: seq<PathNode>)
    requires AllFresh(setup, root, es) && Canonical(p) && AllRenderable(p) && Denotes(p, root).Ok?
    ensures Lookup(es, Render(p)).Some? ==>
      Lookup(es, Render(p)).value == Print(Compact(setup), Denotes(p, root).value, 0)
  {
    hide Lookup, Matches, Render, Print, Denotes, Canonical;
    LookupFinds(es, Render(p));
    if Lookup(es, Render(p)).Some? {
      var e :| e in es && Matches(e.path, Render(p)) && e.value == Lookup(es, Render(p)).value;
      var i :| 0 <= i < |es| && es[i] == e;
      assert Fresh(setup, root, es[i]);
      RenderNoNul(StepsOf(e.path));
      MatchesExactly(e.path, Render(p));
      StepsOfRender(p);
    }
  }

  lemma {:induction false} RestNoNul(p: seq<PathNode>)
    requires AllRenderable(p)
    ensures NUL !in RenderRest(p)
    decreases |p|
  {
    hide IsIdent;
    if p != [] {
      RestNoNul(p[1..]);
      StepNoNul(p[0]);
    }
  }

  lemma StepNoNul(s: PathNode)
    requires Renderable(s)
    ensures NUL !in RenderNext(s)
  {
    hide IsIdent;
    if s.Index? { TextNoNul(s.index); }
  }

  lemma TextNoNul(i: int32)
    ensures NUL !in Decimal.IntText(i)
  {
    hide Decimal.Digits;
    assert i < 0 ==> NUL !in Decimal.Digits(-(i as int));
  }

  lemma RenderNoNul(p: seq<PathNode>)
    requires AllRenderable(p)
    ensures NUL !in Render(p)
  {
    hide RenderRest, IsIdent;
    RestNoNul(p);
  }

  /** GET: the cached reply is the fresh one, and what it caches is fresh. */
  lemma GetCoherent(setup: Setup, w: World, text: bytes, p: seq<PathNode>, n: Node, o: Options)
    requires Coherent(setup, w) && w.root.Some? && Spells(text, p) && Denotes(p, w.root.value) == Ok(n)
    ensures Coherent(setup, Answer(setup, w, text, n, o).0)
    ensures Answer(setup, w, text, n, o).1 == Bulk(Print(FormatOf(o, setup), n, 0))
  {
    hide Print, Render, Lookup, Cachable, Fresh, IsValue, Denotes, Canonical;
    SpellingParses(text, p);
    if Cachable(o) && !Trivial(n) {
      CachableIsCompact(o, setup);
      LookupFresh(setup, w.root.value, w.entries, p);
      NewEntryFresh(setup, w.root.value, p);
    }
  }

  lemma NewEntryFresh(setup: Setup, root: Node, p: seq<PathNode>)
    requires Canonical(p) && AllRenderable(p) && Denotes(p, root).Ok?
    ensures Fresh(setup, root, Entry(Render(p), Print(Compact(setup), Denotes(p, root).value, 0)))
  {
    hide Print, Render, Denotes, Canonical;
    StepsOfRender(p);
  }

  lemma NumCoherent(setup: Setup, w: World, text: bytes, p: seq<PathNode>, result: Node, n: Node)
    requires Coherent(setup, w) && w.root.Some? && Spells(text, p) && Denotes(p, w.root.value) == Ok(n)
    requires IsValue(result)
    ensures var nodes := if p == [] then [Root] else p;
      && Coherent(setup, ExecNum(setup, w, text, result, nodes, n).0)
      && ExecNum(setup, w, text, result, nodes, n).1 == ExecNum(setup, w.(entries := []), text, result, nodes, n).1
  {
    hide Denotes, Print, IsValue, Spells, AllFresh, Put, CanPut, Canonical;
    SpelledCanonical(text, p);
    NodesAsSteps(p, w.root.value, result);
    GetPut(p, w.root.value);
    PutCoherent(setup, w, text, p, result);
    RootWorld(setup, result);
  }

  lemma SpelledCanonical(text: bytes, p: seq<PathNode>)
    requires Spells(text, p)
    ensures Canonical(p)
  {
  }

  /** A new root comes with no entries. */
  lemma RootWorld(setup: Setup, v: Node)
    requires IsValue(v)
    ensures Coherent(setup, World(Some(v), []))
  {
  }

  lemma ArrayCoherent(setup: Setup, w: World, text: bytes, p: seq<PathNode>, items: seq<Node>)
    requires Coherent(setup, w) && w.root.Some? && Spells(text, p) && Denotes(p, w.root.value).Ok? && AllValues(items)
    ensures var nodes := if p == [] then [Root] else p;
      && Coherent(setup, ExecArray(w, text, nodes, items).0)
      && ExecArray(w, text, nodes, items).1 == ExecArray(w.(entries := []), text, nodes, items).1
  {
    hide Denotes, Spells, AllFresh, Put, CanPut, AllValues, IsValue, Canonical;
    SpelledCanonical(text, p);
    NodesAsSteps(p, w.root.value, Array(items));
    GetPut(p, w.root.value);
    ArrayOfValues(items);
    PutCoherent(setup, w, text, p, Array(items));
  }

  lemma InsertedValues(a: seq<Node>, index: int, vs: seq<Node>)
    requires AllValues(a) && AllValues(vs)
    ensures AllValues(Inserted(a, index, vs))
  {
    hide IsValue;
  }

  lemma TrimmedValues(a: seq<Node>, start: int, stop: int)
    requires AllValues(a)
    ensures AllValues(Trimmed(a, start, stop))
  {
    hide IsValue;
  }

  lemma InsertCoherent(setup: Setup, w: World, text: bytes, p: seq<PathNode>, index: int, vs: seq<Node>, n: Node)
    requires Coherent(setup, w) && w.root.Some? && Spells(text, p) && Denotes(p, w.root.value) == Ok(n) && AllValues(vs)
    ensures var nodes := if p == [] then [Root] else p;
      && Coherent(setup, ExecInsert(w, text, index, vs, nodes, n).0)
      && ExecInsert(w, text, index, vs, nodes, n).1 == ExecInsert(w.(entries := []), text, index, vs, nodes, n).1
  {
    hide Denotes, Spells, AllFresh, ExecArray, AllValues, IsValue, Inserted;
    DenotesValue(p, w.root.value);
    if n.Array? {
      ItemsValues(n);
      var i := if index < 0 then |n.items| + index else index;
      InsertedValues(n.items, i, vs);
      ArrayCoherent(setup, w, text, p, Inserted(n.items, i, vs));
    }
  }

  lemma TrimCoherent(setup: Setup, w: World, text: bytes, p: seq<PathNode>, start: int, stop: int, n: Node)
    requires Coherent(setup, w) && w.root.Some? && Spells(text, p) && Denotes(p, w.root.value) == Ok(n)
    ensures var nodes := if p == [] then [Root] else p;
      && Coherent(setup, ExecTrim(w, text, start, stop, nodes, n).0)
      && ExecTrim(w, text, start, stop, nodes, n).1 == ExecTrim(w.(entries := []), text, start, stop, nodes, n).1
  {
    hide Denotes, Spells, AllFresh, ExecArray, AllValues, IsValue, Trimmed;
    DenotesValue(p, w.root.value);
    if n.Array? {
      ItemsValues(n);
      TrimmedValues(n.items, start, stop);
      ArrayCoherent(setup, w, text, p, Trimmed(n.items, start, stop));
    }
  }

  lemma SetCoherent(setup: Setup, w: World, text: bytes, p: seq<PathNode>, v: Node, flag: Flag)
    requires Coherent(setup, w) && Spells(text, p) && IsValue(v)
    ensures Coherent(setup, ExecSet(w, text, v, flag).0)
    ensures ExecSet(w, text, v, flag).1 == ExecSet(w.(entries := []), text, v, flag).1
  {
    hide Denotes, Spells, AllFresh, Put, CanPut, IsValue, ParsePath, Kept, Canonical;
    SpelledCanonical(text, p);
    SpellingParses(text, p);
    RootWorld(setup, v);
    if w.root.Some? && p != [] {
      NodesAsSteps(p, w.root.value, v);
      if CanPut(p, w.root.value) { PutCoherent(setup, w, text, p, v); }
    }
  }

  lemma DelCoherent(setup: Setup, w: World, text: bytes, given: bool, p: seq<PathNode>)
    requires Coherent(setup, w) && Spells(text, p) && (p == [] || p[|p| - 1].Key?)
    ensures Coherent(setup, ExecDel(w, text, given).0)
    ensures ExecDel(w, text, given).1 == ExecDel(w.(entries := []), text, given).1
  {
    hide Denotes, Spells, AllFresh, Put, CanPut, IsValue, ParsePath, Kept, Without, Canonical;
    SpelledCanonical(text, p);
    SpellingParses(text, p);
    if w.root.Some? && p != [] {
      NodesAsSteps(p, w.root.value, Null);
      if Denotes(p, w.root.value).Ok? { DelKeyCoherent(setup, w, text, p); }
    }
  }

  lemma DelKeyCoherent(setup: Setup, w: World, text: bytes, p: seq<PathNode>)
    requires Coherent(setup, w) && w.root.Some? && Spells(text, p) && p != [] && p[|p| - 1].Key?
    requires Denotes(p, w.root.value).Ok?
    ensures var front := p[..|p| - 1];
      && ParentOf(p, w.root.value).Ok? && CanPut(front, w.root.value)
      && Coherent(setup,
                  Cleared(w, Put(front, w.root.value, Without(ParentOf(p, w.root.value).value, p[|p| - 1])), text))
  {
    hide Denotes, Spells, AllFresh, Put, CanPut, IsValue, Kept, Without, Canonical, AllRenderable, Render, AgreeApart;
    var root, front, last := w.root.value, p[..|p| - 1], p[|p| - 1];
    assert p == front + [last];
    SpelledCanonical(text, p);
    CanonicalRenderable(p);
    SpellingParses(text, p);
    ParentIsDict(front, last, root);
    DenotesValue(front, root);
    DelAgrees(front, last, root);
    var parent := Denotes(front, root).value;
    WithoutValue(parent, last);
    FrontCanonical(front, last);
    CanonicalRenderable(front);
    PutWellFormed(front, root, Without(parent, last));
    KeptFresh(setup, p, root, Put(front, root, Without(parent, last)), w.entries);
  }

  lemma ParentIsDict(front: seq<PathNode>, last: PathNode, root: Node)
    requires Denotes(front + [last], root).Ok? && last.Key?
    ensures Denotes(front, root).Ok? && Denotes(front, root).value.Dict?
  {
    DenotesConcat(front, [last], root);
  }

  lemma WithoutValue(parent: Node, last: PathNode)
    requires IsValue(parent) && parent.Dict? && last.Key?
    ensures IsValue(Without(parent, last))
  {
    var es := parent.entries;
    var r := DelKey(es, last.key);
    if Find(es, last.key) < |es| {
      DelKeyDistinct(es, last.key);
      forall i | 0 <= i < |r| ensures WellFormed(r[i]) {
        EachWellFormed(es, if i == Find(es, last.key) then |es| - 1 else i);
      }
      TogetherWellFormed(r);
    }
  }

  lemma EvictCoherent(setup: Setup, w: World, i: nat)
    requires Coherent(setup, w) && i < |w.entries|
    ensures Coherent(setup, w.(entries := w.entries[..i] + w.entries[i + 1..]))
  {
    hide Fresh, IsValue;
  }

  // ---- whole runs -------------------------------------------------------------------------

  /** One command in scope: the cache stays coherent, and the reply does not depend on it. */
  lemma CommandCoherent(setup: Setup, w: World, cmd: Command)
    requires Coherent(setup, w) && InScope(cmd)
    ensures Coherent(setup, Exec(setup, w, cmd).0)
    ensures Exec(setup, w, cmd).1 == Uncached(setup, w, cmd)
  {
    hide Coherent, Spells, ExecSet, ExecDel, Locate, Answer, ExecNum, ExecInsert, ExecTrim, IsValue, Print;
    if cmd.Set? {
      var p :| Spells(cmd.path, p);
      SetCoherent(setup, w, cmd.path, p, cmd.v, cmd.flag);
    } else if cmd.Del? {
      var p: seq<PathNode> :| Spells(cmd.path, p) && (p == [] || p[|p| - 1].Key?);
      DelCoherent(setup, w, cmd.path, cmd.given, p);
    } else if cmd.Evict? {
      if cmd.i < |w.entries| { EvictCoherent(setup, w, cmd.i); }
    } else {
      var p :| Spells(cmd.path, p);
      LocateSpelled(w, cmd.path, p);
      if w.root.Some? && Denotes(p, w.root.value).Ok? { TargetCoherent(setup, w, cmd, p); }
    }
  }

  lemma LocateSpelled(w: World, text: bytes, p: seq<PathNode>)
    requires Spells(text, p)
    ensures Locate(w, text) == Locate(w.(entries := []), text) ==
      if w.root.None? then Refused(WrongType)
      else match Denotes(p, w.root.value)
           case Err(e) => Refused(PathFailure(e))
           case Ok(n) => Found(if p == [] then [Root] else p, n)
  {
    hide Denotes, ParsePath;
    SpelledCanonical(text, p);
    SpellingParses(text, p);
    if w.root.Some? { NodesAsSteps(p, w.root.value, Null); }
  }

  lemma TargetCoherent(setup: Setup, w: World, cmd: Command, p: seq<PathNode>)
    requires Coherent(setup, w) && InScope(cmd) && !cmd.Set? && !cmd.Del? && !cmd.Evict?
    requires Spells(cmd.path, p) && w.root.Some? && Denotes(p, w.root.value).Ok?
    ensures var nodes, n := if p == [] then [Root] else p, Denotes(p, w.root.value).value;
      && Coherent(setup, OnTarget(setup, w, cmd, nodes, n).0)
      && OnTarget(setup, w, cmd, nodes, n).1 == OnTarget(setup, w.(entries := []), cmd, nodes, n).1
  {
    hide Coherent, Spells, ExecNum, ExecInsert, ExecTrim, IsValue, Print, Denotes;
    var n := Denotes(p, w.root.value).value;
    match cmd
    case Get(path, o) =>
      GetCoherent(setup, w, path, p, n, o);
      UncachedAnswer(setup, w, path, n, o);
    case NumIncrBy(path, result) => NumCoherent(setup, w, path, p, result, n);
    case ArrInsert(path, index, vs) => InsertCoherent(setup, w, path, p, index, vs, n);
    case ArrAppend(path, vs) => InsertCoherent(setup, w, path, p, if n.Array? then |n.items| else 0, vs, n);
    case ArrTrim(path, start, stop) => TrimCoherent(setup, w, path, p, start, stop, n);
  }

  lemma UncachedAnswer(setup: Setup, w: World, path: bytes, n: Node, o: Options)
    ensures Answer(setup, w.(entries := []), path, n, o).1 == Bulk(Print(FormatOf(o, setup), n, 0))
  {
  }

  /** The replies of a run, and the replies it would give if nothing were ever cached. */
  function Replies(setup: Setup, w: World, cmds: seq<Command>): seq<Reply>
    decreases |cmds|
  {
    if cmds == [] then []
    else [Exec(setup, w, cmds[0]).1] + Replies(setup, Exec(setup, w, cmds[0]).0, cmds[1..])
  }

  function UncachedReplies(setup: Setup, root: Option<Node>, cmds: seq<Command>): seq<Reply>
    decreases |cmds|
  {
    if cmds == [] then []
    else
      var (w, reply) := Exec(setup, World(root, []), cmds[0]);
      [reply] + UncachedReplies(setup, w.root, cmds[1..])
  }

  /** No command looks at the cache to change the document. */
  lemma RootIndependent(setup: Setup, w: World, cmd: Command)
    ensures Exec(setup, w, cmd).0.root == Exec(setup, World(w.root, []), cmd).0.root
  {
    hide Tokens, Print, Put, CanPut, Denotes, Lookup, Kept, Inserted, Trimmed, Without, Deleted, StrNCpy, Cachable;
  }

  /**
   The cache never shows. From any coherent world, through every run of commands in scope and
   evictions at any time, each reply is the reply of a server that never caches.
   */
  lemma {:induction false} RunCoherent(setup: Setup, w: World, cmds: seq<Command>)
    requires Coherent(setup, w) && forall i :: 0 <= i < |cmds| ==> InScope(cmds[i])
    ensures Replies(setup, w, cmds) == UncachedReplies(setup, w.root, cmds)
    decreases |cmds|
  {
    hide Exec, Coherent, InScope;
    if cmds != [] {
      CommandCoherent(setup, w, cmds[0]);
      RootIndependent(setup, w, cmds[0]);
      RunCoherent(setup, Exec(setup, w, cmds[0]).0, cmds[1..]);
    }
  }

  /** A key starts out empty, and coherent. */
  lemma EmptyCoherent(setup: Setup)
    ensures Coherent(setup, World(None, []))
  {
  }
}
