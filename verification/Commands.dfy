/**
 The commands of valkeyjson.c as steps on one key: the document, and the serializations cached
 for it. Arguments that are JSON texts come in parsed, numbers come in computed.
 */
module Commands {
  import opened Bytes
  import opened Cache
  import opened Nodes
  import opened Path
  import opened Printer
  import opened Resolve
  import opened Splices

  /** The key: no document, or its root; and its cache entries, latest first. */
  datatype World = World(root: Option<Node>, entries: seq<Entry>)

  /** The cache's smallest value, and `%.17g`. */
  datatype Setup = Setup(minSize: nat, dtoa: double -> bytes)

  /** JSONSerializeOpt; None is a null pointer. */
  datatype Options = Options(indentstr: Option<bytes>, newlinestr: Option<bytes>, spacestr: Option<bytes>,
      noescape: bool)

  datatype Flag = Always | NX | XX

  /** A DEL whose path is not given has the root's. */
  datatype Command =
    | Get(path: bytes, opts: Options)
    | Set(path: bytes, v: Node, flag: Flag)
    | NumIncrBy(path: bytes, result: Node)
    | ArrInsert(path: bytes, index: int, vs: seq<Node>)
    | ArrAppend(path: bytes, vs: seq<Node>)
    | ArrTrim(path: bytes, start: int, stop: int)
    | Del(path: bytes, given: bool)
    | StrAppend(path: bytes, s: bytes)
    | ArrPop(path: bytes, index: int)
    | Evict(i: nat)

  /** UndefinedBehaviour: the source uses a null parent, or writes behind its list of steps. */
  datatype Reply =
    | Nil
    | Okay
    | Bulk(text: bytes)
    | Count(n: int)
    | BadPath
    | PathFailure(err: PathError)
    | WrongType
    | BadIndex
    | BadSyntax
    | NewNotRoot
    | NonTerminal
    | UndefinedBehaviour

  // ---- options and cache keys -------------------------------------------------------------

  predicate NullOrEmpty(s: Option<bytes>) { s.None? || CString(s.value) == [] }

  /** `isCachableOptions`, its parentheses as they are: a null space string is not cachable. */
  predicate Cachable(o: Options) {
    NullOrEmpty(o.indentstr) && NullOrEmpty(o.newlinestr) && (o.spacestr.Some? && CString(o.spacestr.value) == [])
      && !o.noescape
  }

  function TextOf(s: Option<bytes>): bytes { if s.None? then [] else CString(s.value) }

  function FormatOf(o: Options, setup: Setup): Format {
    Format(TextOf(o.indentstr), TextOf(o.newlinestr), TextOf(o.spacestr), o.noescape, setup.dtoa)
  }

  function Compact(setup: Setup): Format { Format([], [], [], false, setup.dtoa) }

  /** What the cache holds is what cachable options print. */
  lemma CachableIsCompact(o: Options, setup: Setup)
    requires Cachable(o)
    ensures FormatOf(o, setup) == Compact(setup)
  {
  }

  /** A path without its leading dot. */
  function CacheKey(path: bytes): bytes { if path != [] && path[0] == DOT then path[1..] else path }

  /** Values that are not worth caching. */
  predicate Trivial(n: Node) { n.Null? || n.Boolean? || n.Integer? || n.Number? }

  // ---- paths ------------------------------------------------------------------------------

  datatype Parse = Malformed | TooLong | Steps(nodes: seq<PathNode>)

  function ParsePath(path: bytes): Parse {
    var t := Tokens(path);
    if |t.nodes| > 1024 then TooLong else if t.err.Some? then Malformed else Steps(t.nodes)
  }

  /** `NodeFromJSONPath`: only "." is the root path. */
  function Target(nodes: seq<PathNode>, root: Node): Result<Node, PathError> {
    if nodes == [Root] then Ok(root) else Denotes(nodes, root)
  }

  function Replace(nodes: seq<PathNode>, root: Node, v: Node): Node
    requires nodes == [Root] || CanPut(nodes, root)
  {
    if nodes == [Root] then v else Put(nodes, root, v)
  }

  function ParentOf(nodes: seq<PathNode>, root: Node): Result<Node, PathError>
    requires nodes != []
  {
    Denotes(nodes[..|nodes| - 1], root)
  }

  lemma TargetCanPut(nodes: seq<PathNode>, root: Node)
    requires Target(nodes, root).Ok?
    ensures nodes == [Root] || CanPut(nodes, root)
    ensures nodes != [] && nodes != [Root] ==> ParentOf(nodes, root).Ok?
  {
    if nodes != [Root] {
      GetPut(nodes, root);
      if nodes != [] && ParentOf(nodes, root).Err? { DenotesPrefix(nodes, |nodes| - 1, root); }
    }
  }

  // ---- commands ---------------------------------------------------------------------------

  /** `maybeClearPathCache`, after the document has changed to root. */
  function Cleared(w: World, root: Node, path: bytes): World { World(Some(root), Kept(w.entries, CacheKey(path))) }

  /** `sendSingleResponse`. */
  function Answer(setup: Setup, w: World, path: bytes, n: Node, o: Options): (World, Reply) {
    var key := CacheKey(path);
    if !Cachable(o) || Trivial(n) then (w, Bulk(Print(FormatOf(o, setup), n, 0)))
    else
      match Lookup(w.entries, key)
      case Some(text) => (w, Bulk(text))
      case None =>
        var text := Print(FormatOf(o, setup), n, 0);
        (if |text| < setup.minSize then w else w.(entries := [Entry(key, text)] + w.entries), Bulk(text))
  }

  function ExecSet(w: World, path: bytes, v: Node, flag: Flag): (World, Reply) {
    if w.root.None? && flag == XX then (w, Nil)
    else
      match ParsePath(path)
      case TooLong => (w, UndefinedBehaviour)
      case Malformed => (w, BadPath)
      case Steps(nodes) =>
        if w.root.None? then
          if nodes == [Root] then (World(Some(v), []), Okay) else (w, NewNotRoot)
        else
          var root := w.root.value;
          if nodes == [Root] then
            if flag == NX then (w, Nil) else (World(Some(v), []), Okay)
          else if nodes == [] then (w, UndefinedBehaviour)
          else
            match Denotes(nodes, root)
            case Ok(_) =>
              if ParentOf(nodes, root).Ok? && ParentOf(nodes, root).value.Dict? then
                if flag == NX then (w, Nil) else ExecPut(w, path, nodes, v)
              else
                if flag != Always then (w, BadSyntax) else ExecPut(w, path, nodes, v)
            case Err(E_NOKEY) =>
              if !CanPut(nodes, root) then (w, NonTerminal)
              else if flag == XX then (w, Nil)
              else ExecPut(w, path, nodes, v)
            case Err(e) => (w, PathFailure(e))
  }

  function ExecPut(w: World, path: bytes, nodes: seq<PathNode>, v: Node): (World, Reply)
    requires w.root.Some?
  {
    if CanPut(nodes, w.root.value) then (Cleared(w, Put(nodes, w.root.value, v), path), Okay)
    else (w, UndefinedBehaviour)
  }

  datatype Access = Found(nodes: seq<PathNode>, n: Node) | Refused(reply: Reply)

  /** A command that needs an existing target: what all of them do about the path. */
  function Locate(w: World, path: bytes): Access {
    if w.root.None? then Refused(WrongType)
    else
      match ParsePath(path)
      case TooLong => Refused(UndefinedBehaviour)
      case Malformed => Refused(BadPath)
      case Steps(nodes) =>
        match Target(nodes, w.root.value)
        case Err(e) => Refused(PathFailure(e))
        case Ok(n) => Found(nodes, n)
  }

  function ExecNum(setup: Setup, w: World, path: bytes, result: Node, nodes: seq<PathNode>, n: Node): (World, Reply) {
    if w.root.None? || !(n.Integer? || n.Number?) then (w, WrongType)
    else if nodes == [] then (w, UndefinedBehaviour)
    else
      var reply := Bulk(Print(Compact(setup), result, 0));
      if nodes == [Root] then (World(Some(result), []), reply)
      else if CanPut(nodes, w.root.value) then (Cleared(w, Put(nodes, w.root.value, result), path), reply)
      else (w, UndefinedBehaviour)
  }

  /** The array commands work on their target in place. */
  function ExecArray(w: World, path: bytes, nodes: seq<PathNode>, items: seq<Node>): (World, Reply) {
    if w.root.Some? && (nodes == [Root] || CanPut(nodes, w.root.value))
    then (Cleared(w, Replace(nodes, w.root.value, Array(items)), path), Count(|items|))
    else (w, UndefinedBehaviour)
  }

  function ExecInsert(w: World, path: bytes, index: int, vs: seq<Node>, nodes: seq<PathNode>, n: Node): (World, Reply) {
    if !n.Array? then (w, WrongType)
    else
      var i := if index < 0 then |n.items| + index else index;
      if i < 0 || i > |n.items| then (w, BadIndex) else ExecArray(w, path, nodes, Inserted(n.items, i, vs))
  }

  function ExecTrim(w: World, path: bytes, start: int, stop: int, nodes: seq<PathNode>, n: Node): (World, Reply) {
    if !n.Array? then (w, WrongType) else ExecArray(w, path, nodes, Trimmed(n.items, start, stop))
  }

  /** The container without the element a step points to. */
  function Without(parent: Node, last: PathNode): Node {
    match parent
    case Dict(es) => if last.Key? && AllKeyVals(es) then Dict(DelKey(es, last.key)) else parent
    case Array(items) =>
      if last.Index? && 0 <= last.index + |items| then Array(Deleted(items, last.index, 1)) else parent
    case _ => parent
  }

  /** `argc - 2`: a root that is deleted by default counts for nothing. */
  function Deletions(given: bool): int { if given then 1 else 0 }

  function ExecDel(w: World, path: bytes, given: bool): (World, Reply) {
    if w.root.None? then (w, Count(0))
    else
      match ParsePath(path)
      case TooLong => (w, UndefinedBehaviour)
      case Malformed => (w, BadPath)
      case Steps(nodes) =>
        match Target(nodes, w.root.value)
        case Err(E_BADTYPE) => (w, PathFailure(E_BADTYPE))
        case Err(_) => (w, Count(0))
        case Ok(_) =>
          if nodes == [Root] then (World(None, []), Count(Deletions(given)))
          else if nodes == [] then (w, UndefinedBehaviour)
          else
            var front := nodes[..|nodes| - 1];
            if ParentOf(nodes, w.root.value).Ok? && CanPut(front, w.root.value) then
              var parent := ParentOf(nodes, w.root.value).value;
              (Cleared(w, Put(front, w.root.value, Without(parent, nodes[|nodes| - 1])), path), Count(Deletions(given)))
            else (w, UndefinedBehaviour)
  }

  /** `strncpy` of a whole string: behind a NUL there are only NULs. */
  function StrNCpy(s: bytes): bytes { CString(s) + seq(|s| - |CString(s)|, _ => NUL) }

  /** STRAPPEND and ARRPOP leave the cache alone. */
  function ExecStrAppend(w: World, s: bytes, nodes: seq<PathNode>, n: Node): (World, Reply) {
    if w.root.None? || !n.Text? then (w, WrongType)
    else if nodes == [Root] || CanPut(nodes, w.root.value) then
      var t := StrNCpy(n.strval) + StrNCpy(s);
      (w.(root := Some(Replace(nodes, w.root.value, Text(t)))), Count(|t|))
    else (w, UndefinedBehaviour)
  }

  /** The element ARRPOP takes: a negative index counts from the end, and both ends clip. */
  function PopIndex(index: int, len: nat): (j: nat)
    requires len > 0
    ensures j < len
  {
    var i := if index < 0 then len + index else index;
    if i < 0 then 0 else if i >= len then len - 1 else i
  }

  function ExecPop(setup: Setup, w: World, index: int, nodes: seq<PathNode>, n: Node): (World, Reply) {
    if w.root.None? || !n.Array? then (w, WrongType)
    else if n.items == [] then (w, Nil)
    else if nodes == [Root] || CanPut(nodes, w.root.value) then
      var j := PopIndex(index, |n.items|);
      (w.(root := Some(Replace(nodes, w.root.value, Array(Deleted(n.items, j, 1))))),
          Bulk(Print(Compact(setup), n.items[j], 0)))
    else (w, UndefinedBehaviour)
  }

  /** The commands on an existing target. */
  function OnTarget(setup: Setup, w: World, cmd: Command, nodes: seq<PathNode>, n: Node): (World, Reply) {
    match cmd
    case Get(path, o) => Answer(setup, w, path, n, o)
    case NumIncrBy(path, result) => ExecNum(setup, w, path, result, nodes, n)
    case ArrInsert(path, index, vs) => ExecInsert(w, path, index, vs, nodes, n)
    case ArrAppend(path, vs) => ExecInsert(w, path, if n.Array? then |n.items| else 0, vs, nodes, n)
    case ArrTrim(path, start, stop) => ExecTrim(w, path, start, stop, nodes, n)
    case StrAppend(_, s) => ExecStrAppend(w, s, nodes, n)
    case ArrPop(_, index) => ExecPop(setup, w, index, nodes, n)
    case _ => (w, Okay)
  }

  /** One command, and the reply to it. */
  function Exec(setup: Setup, w: World, cmd: Command): (World, Reply) {
    match cmd
    case Set(path, v, flag) => ExecSet(w, path, v, flag)
    case Del(path, given) => ExecDel(w, path, given)
    case Evict(i) => (if i < |w.entries| then w.(entries := w.entries[..i] + w.entries[i + 1..]) else w, Okay)
    case _ =>
      if cmd.Get? && w.root.None? then (w, Nil)
      else
        match Locate(w, cmd.path)
        case Refused(reply) => (w, reply)
        case Found(nodes, n) => OnTarget(setup, w, cmd, nodes, n)
  }

  /** The reply a command would get if nothing were cached. */
  function Uncached(setup: Setup, w: World, cmd: Command): Reply { Exec(setup, w.(entries := []), cmd).1 }

  /** A GET of one path, all in one. */
  lemma ExecGet(setup: Setup, w: World, path: bytes, o: Options)
    ensures Exec(setup, w, Get(path, o)) ==
      if w.root.None? then (w, Nil)
      else match Locate(w, path)
           case Refused(reply) => (w, reply)
           case Found(_, n) => Answer(setup, w, path, n, o)
  {
    hide ParsePath, Denotes, Answer;
  }

  // ---- what adds to the cache ---------------------------------------------------------------

  /** A GET prints a text that is worth caching and not cached yet. */
  predicate Adds(setup: Setup, w: World, path: bytes, o: Options) {
    var t := Locate(w, path);
    && t.Found? && Cachable(o) && !Trivial(t.n)
    && Lookup(w.entries, CacheKey(path)).None?
    && |Print(FormatOf(o, setup), t.n, 0)| >= setup.minSize
  }

  /** Exactly those change the world, and by one entry. */
  lemma AddsExactly(setup: Setup, w: World, path: bytes, o: Options)
    ensures Adds(setup, w, path, o) <==> Exec(setup, w, Get(path, o)).0 != w
    ensures |Exec(setup, w, Get(path, o)).0.entries| == |w.entries| + if Adds(setup, w, path, o) then 1 else 0
  {
    hide Locate, Print, Lookup, Cachable, CacheKey;
    if w.root.None? { NothingLocated(w, path); }
  }

  lemma NothingLocated(w: World, path: bytes)
    requires w.root.None?
    ensures Locate(w, path).Refused?
  {
  }

  // ---- where the source's behaviour is undefined ------------------------------------------

  /** More steps than the path's array can hold, or none where a parent is needed: the empty text. */
  predicate Undefined(w: World, cmd: Command) {
    if cmd.Evict? || w.root.None? then cmd.Set? && cmd.flag != XX && ParsePath(cmd.path) == TooLong
    else
      || ParsePath(cmd.path) == TooLong
      || (ParsePath(cmd.path) == Steps([])
          && (cmd.Set? || cmd.Del? || (cmd.NumIncrBy? && (w.root.value.Integer? || w.root.value.Number?))))
  }

  lemma UndefinedExactly(setup: Setup, w: World, cmd: Command)
    ensures Exec(setup, w, cmd).1 == UndefinedBehaviour <==> Undefined(w, cmd)
  {
    hide Tokens, Print, Lookup, Kept, Inserted, Trimmed, Deleted, Without, StrNCpy, Put, Denotes, ParsePath;
    if !cmd.Evict? && w.root.Some? && ParsePath(cmd.path).Steps? {
      var nodes := ParsePath(cmd.path).nodes;
      NoSteps(w.root.value);
      if Target(nodes, w.root.value).Ok? {
        TargetCanPut(nodes, w.root.value);
        if nodes != [] && nodes != [Root] { FrontCanPut(nodes, w.root.value); }
      }
    }
  }

  lemma NoSteps(root: Node)
    ensures Denotes([], root) == Ok(root)
  {
  }

  lemma FrontCanPut(nodes: seq<PathNode>, root: Node)
    requires nodes != [] && nodes != [Root] && Target(nodes, root).Ok?
    ensures CanPut(nodes[..|nodes| - 1], root)
  {
    TargetCanPut(nodes, root);
    GetPut(nodes[..|nodes| - 1], root);
  }
}
