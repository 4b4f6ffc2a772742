/**
 The serialization cache of one document as a list of entries (cache.c): looking a path up,
 and dropping the entries that an update of a path affects.
 */
module Cache {
  import opened Bytes

  datatype Entry = Entry(path: bytes, value: bytes)

  /** `!strncmp(a, b, n)`: equal up to n bytes, or up to a NUL in both. */
  predicate StrNEqual(a: bytes, b: bytes, n: nat)
    requires n <= |a| && n <= |b|
    decreases n
  {
    n == 0 || (a[0] == b[0] && (a[0] == NUL || StrNEqual(a[1..], b[1..], n - 1)))
  }

  /** `shouldClearPath`. */
  predicate ShouldClear(cur: bytes, path: bytes) {
    || path == []
    || cur == []
    || if |cur| > |path| then StrNEqual(path, cur, |path|) else StrNEqual(path, cur, |cur|)
  }

  /** The comparison of `LruCache_GetValue`. */
  predicate Matches(cur: bytes, path: bytes) {
    |cur| == |path| && StrNEqual(cur, path, |path|)
  }

  function Lookup(es: seq<Entry>, path: bytes): Option<bytes> {
    if es == [] then None
    else if Matches(es[0].path, path) then Some(es[0].value)
    else Lookup(es[1..], path)
  }

  /** The entries that survive an update, in their order. */
  function Kept(es: seq<Entry>, path: bytes): seq<Entry> {
    if es == [] then []
    else (if ShouldClear(es[0].path, path) then [] else [es[0]]) + Kept(es[1..], path)
  }

  lemma {:induction false} StrNEqualIs(a: bytes, b: bytes, n: nat)
    requires n <= |a| && n <= |b|
    ensures a[..n] == b[..n] ==> StrNEqual(a, b, n)
    ensures NUL !in a ==> (StrNEqual(a, b, n) <==> a[..n] == b[..n])
    decreases n
  {
    if n > 0 {
      StrNEqualIs(a[1..], b[1..], n - 1);
      assert a[..n] == [a[0]] + a[1..][..n - 1] && b[..n] == [b[0]] + b[1..][..n - 1];
    }
  }

  /** The same bytes up to a NUL among the first n. */
  ghost predicate NulMeets(a: bytes, b: bytes, n: nat)
    requires n <= |a| && n <= |b|
  {
    exists i :: 0 <= i < n && a[i] == 0x00 && a[..i] == b[..i] && b[i] == 0x00
  }

  /** The comparison in full: the same bytes all the way, or up to a NUL. */
  lemma {:induction false} StrNEqualExactly(a: bytes, b: bytes, n: nat)
    requires n <= |a| && n <= |b|
    ensures StrNEqual(a, b, n) <==> a[..n] == b[..n] || NulMeets(a, b, n)
    decreases n
  {
    hide NulMeets;
    if n > 0 {
      StrNEqualExactly(a[1..], b[1..], n - 1);
      assert a[..n] == [a[0]] + a[1..][..n - 1] && b[..n] == [b[0]] + b[1..][..n - 1];
      MeetsFurther(a, b, n);
    } else {
      assert !NulMeets(a, b, 0) by { MeetsNowhere(a, b); }
    }
  }

  lemma MeetsNowhere(a: bytes, b: bytes)
    ensures !NulMeets(a, b, 0)
  {
  }

  lemma MeetsFurther(a: bytes, b: bytes, n: nat)
    requires 0 < n <= |a| && n <= |b|
    ensures NulMeets(a, b, n) <==> a[0] == b[0] && (a[0] == 0x00 || NulMeets(a[1..], b[1..], n - 1))
  {
    var a', b' := a[1..], b[1..];
    if a[0] == b[0] == 0x00 { assert a[..0] == b[..0]; }
    if i :| 0 <= i < n && a[i] == 0x00 && a[..i] == b[..i] && b[i] == 0x00 {
      if i > 0 {
        assert a[0] == a[..i][0] && a'[i - 1] == 0x00;
        assert a'[..i - 1] == a[..i][1..] && b'[..i - 1] == b[..i][1..];
      }
    }
    if a[0] == b[0] && NulMeets(a', b', n - 1) {
      var i :| 0 <= i < n - 1 && a'[i] == 0x00 && a'[..i] == b'[..i] && b'[i] == 0x00;
      assert a[..i + 1] == [a[0]] + a'[..i] && b[..i + 1] == [b[0]] + b'[..i];
    }
  }

  /** Without NUL bytes, exactly the paths that begin one another are cleared. */
  lemma ClearedExactly(cur: bytes, path: bytes)
    ensures cur <= path || path <= cur ==> ShouldClear(cur, path)
    ensures NUL !in path ==> (ShouldClear(cur, path) <==> cur <= path || path <= cur)
  {
    hide StrNEqual;
    if |cur| > |path| {
      StrNEqualIs(path, cur, |path|);
      assert path[..|path|] == path;
    } else {
      StrNEqualIs(path, cur, |cur|);
      assert cur[..|cur|] == cur;
    }
  }

  lemma MatchesExactly(cur: bytes, path: bytes)
    requires NUL !in cur
    ensures Matches(cur, path) <==> cur == path
  {
    if |cur| == |path| {
      StrNEqualIs(cur, path, |path|);
      assert cur[..|path|] == cur && path[..|path|] == path;
    }
  }

  lemma {:induction false} KeptConcat(a: seq<Entry>, b: seq<Entry>, path: bytes)
    ensures Kept(a + b, path) == Kept(a, path) + Kept(b, path)
    decreases |a|
  {
    hide ShouldClear;
    if a == [] {
      assert a + b == b;
    } else {
      assert (a + b)[1..] == a[1..] + b;
      KeptConcat(a[1..], b, path);
    }
  }

  /** Clearing drops what it should and nothing else, and a path's own entry goes. */
  lemma {:induction false} KeptExactly(es: seq<Entry>, path: bytes)
    ensures forall e :: e in Kept(es, path) <==> e in es && !ShouldClear(e.path, path)
  {
    if es != [] { KeptExactly(es[1..], path); }
  }

  lemma {:induction false} KeptAll(es: seq<Entry>)
    ensures Kept(es, []) == []
  {
    if es != [] { KeptAll(es[1..]); }
  }

  /** What a lookup finds is some entry's value, under a path that matches. */
  lemma {:induction false} LookupFinds(es: seq<Entry>, path: bytes)
    ensures Lookup(es, path).Some? <==> exists e :: e in es && Matches(e.path, path)
    ensures Lookup(es, path).Some? ==> exists e :: e in es && Matches(e.path, path) && e.value == Lookup(es, path).value
  {
    hide Matches;
    if es != [] {
      LookupFinds(es[1..], path);
      assert es[0] in es;
    }
  }
}
