/** Directories and path names (fs/fs.c: dir_lookup, dir_alloc_file, walk_path,
    file_create, file_open). */
module Paths {
  import opened Common

  const BLKFILES: nat := 16
  const MAXNAMELEN: nat := 128
  const ROOT: nat := 0

  const E_NOT_FOUND: int := 11
  const E_BAD_PATH: int := 12
  const E_FILE_EXISTS: int := 13

  /** A `struct File`: its name (empty when unused), its type, and for a directory the
      File records in its blocks, in order. */
  datatype Node = Node(name: string, isDir: bool, slots: seq<nat>)

  type Tree = map<nat, Node>

  // ---- Path names --------------------------------------------------------------------------

  function SkipSlash(p: string): string {
    if p != "" && p[0] == '/' then SkipSlash(p[1..]) else p
  }

  /** Length of the first component of p. */
  function NameLen(p: string): nat {
    if p == "" || p[0] == '/' then 0 else 1 + NameLen(p[1..])
  }

  lemma {:induction false} NameLenBound(p: string)
    ensures NameLen(p) <= |p|
    ensures forall k :: 0 <= k < NameLen(p) ==> p[k] != '/'
    ensures NameLen(p) < |p| ==> p[NameLen(p)] == '/'
  {
    if p != "" && p[0] != '/' {
      NameLenBound(p[1..]);
    }
  }

  lemma {:induction false} SkipShorter(p: string)
    ensures |SkipSlash(p)| <= |p|
    ensures SkipSlash(p) != "" ==> SkipSlash(p)[0] != '/'
    ensures SkipSlash(SkipSlash(p)) == SkipSlash(p)
  {
    if p != "" && p[0] == '/' {
      SkipShorter(p[1..]);
    }
  }

  /** The components of a path: the pieces between runs of slashes. */
  function Split(p: string): seq<string>
    decreases |p|
  {
    SkipShorter(p);
    var q := SkipSlash(p);
    if q == "" then []
    else
      NameLenBound(q);
      [q[..NameLen(q)]] + Split(q[NameLen(q)..])
  }

  // ---- Lookup ----------------------------------------------------------------------------------

  /** Index of the first slot of d whose record has that name. */
  function Find(t: Tree, slots: seq<nat>, name: string): Option<nat> {
    if slots == [] then None
    else if slots[0] in t && t[slots[0]].name == name then Some(slots[0])
    else Find(t, slots[1..], name)
  }

  datatype Outcome =
    | Hit(parent: Option<nat>, file: nat)
    | Miss(dir: nat, last: string)    // only the last component is missing
    | NotFound
    | BadPath

  /** Component-wise lookup, starting at file cur found in directory dir. */
  function Resolve(t: Tree, dir: Option<nat>, cur: nat, comps: seq<string>): Outcome
    decreases |comps|
  {
    if comps == [] then Hit(dir, cur)
    else if |comps[0]| >= MAXNAMELEN then BadPath
    else if cur !in t || !t[cur].isDir then NotFound
    else
      match Find(t, t[cur].slots, comps[0])
      case Some(f) => Resolve(t, Some(cur), f, comps[1..])
      case None => if |comps| == 1 then Miss(cur, comps[0]) else NotFound
  }

  ghost predicate Closed(t: Tree, next: nat) {
    && ROOT in t && (forall f :: f in t ==> f < next)
    && (forall d, i :: d in t && 0 <= i < |t[d].slots| ==> t[d].slots[i] in t && t[d].slots[i] != ROOT)
    && (forall d :: d in t ==> |t[d].slots| % 16 == 0)
  }

  /** Every File record lies in one place. */
  ghost predicate Unique(t: Tree) {
    forall d, i, e, j ::
      d in t && e in t && 0 <= i < |t[d].slots| && 0 <= j < |t[e].slots| && t[d].slots[i] == t[e].slots[j] ==>
        d == e && i == j
  }

  /** A directory has no name twice. */
  ghost predicate Distinct(t: Tree, next: nat)
    requires Closed(t, next)
  {
    forall d, i, j :: d in t && 0 <= i < j < |t[d].slots| && t[t[d].slots[i]].name != "" ==>
      t[t[d].slots[i]].name != t[t[d].slots[j]].name
  }

  ghost predicate Wf(t: Tree, next: nat) {
    Closed(t, next) && Unique(t) && Distinct(t, next)
  }

  class Directories {
    var t: Tree
    var next: nat      // where the next block of records goes

    ghost predicate Valid()
      reads this
    {
      Wf(t, next)
    }

    constructor (tree: Tree, n: nat)
      requires Wf(tree, n)
      ensures Valid() && t == tree && next == n
    {
      t, next := tree, n;
    }

    /** The loops over a directory's blocks and over the records of each block. */
    method DirLookup(dir: nat, name: string) returns (f: Option<nat>)
      requires Valid() && dir in t
      ensures f == Find(t, t[dir].slots, name)
    {
      var slots := t[dir].slots;
      var nblock := |slots| / 16;
      for i := 0 to nblock
        invariant Find(t, slots[i * 16..], name) == Find(t, slots, name)
      {
        for j := 0 to BLKFILES
          invariant Find(t, slots[i * 16 + j..], name) == Find(t, slots, name)
        {
          var k := i * 16 + j;
          assert slots[k..][1..] == slots[k + 1..];
          if t[slots[k]].name == name {
            return Some(slots[k]);
          }
        }
      }
      f := None;
    }

    method SkipSlashes(path: string, start: nat) returns (k: nat)
      requires start <= |path|
      ensures start <= k <= |path| && path[k..] == SkipSlash(path[start..])
    {
      k := start;
      while k < |path| && path[k] == '/'
        invariant start <= k <= |path| && SkipSlash(path[k..]) == SkipSlash(path[start..])
      {
        assert path[k..][1..] == path[k + 1..];
        k := k + 1;
      }
    }

    /** The end of the component that starts at p. */
    method NameEnd(path: string, p: nat) returns (k: nat)
      requires p < |path| && SkipSlash(path[p..]) == path[p..]
      ensures p < k <= |path| && k - p == NameLen(path[p..])
      ensures path[p..][..NameLen(path[p..])] == path[p..k] && path[p..][NameLen(path[p..])..] == path[k..]
    {
      k := p;
      NameLenBound(path[p..]);
      SkipShorter(path[p..]);
      assert path[p..][0] == path[p];
      while k < |path| && path[k] != '/'
        invariant p <= k <= |path| && NameLen(path[p..]) == (k - p) + NameLen(path[k..])
      {
        assert path[k..][1..] == path[k + 1..];
        k := k + 1;
      }
    }

    /** Evaluates a path name from the root. */
    method WalkPath(path: string) returns (o: Outcome)
      requires Valid()
      ensures o == Resolve(t, None, ROOT, Split(path))
    {
      var f, dir := ROOT, None;
      var k := SkipSlashes(path, 0);
      assert path[0..] == path;
      SkipShorter(path);
      SplitSkip(path);
      while k < |path|
        invariant k <= |path| && f in t && SkipSlash(path[k..]) == path[k..]
        invariant Resolve(t, dir, f, Split(path[k..])) == Resolve(t, None, ROOT, Split(path))
        decreases |path| - k
      {
        var p := k;
        k := NameEnd(path, p);
        var name := path[p..k];
        if k - p >= MAXNAMELEN {
          return BadPath;
        }
        SplitSkip(path[k..]);
        SkipShorter(path[k..]);
        k := SkipSlashes(path, k);
        if !t[f].isDir {
          return NotFound;
        }
        SplitEmpty(path[k..]);
        var r := DirLookup(f, name);
        if r.None? {
          if k == |path| {
            return Miss(f, name);
          }
          return NotFound;
        }
        FindIn(t, t[f].slots, name);
        dir := Some(f);
        f := r.value;
      }
      o := Hit(dir, f);
    }

    /** A free record of dir: the first unnamed one, or the first of a new block. */
    method DirAllocFile(dir: nat) returns (f: nat)
      requires Valid() && dir in t
      modifies this
      ensures Valid()
      ensures t == (if Find(old(t), old(t)[dir].slots, "").Some? then old(t) else Extended(old(t), dir, old(next)))
      ensures next == (if Find(old(t), old(t)[dir].slots, "").Some? then old(next) else old(next) + 16)
      ensures Find(t, t[dir].slots, "") == Some(f)
    {
      var slots := t[dir].slots;
      FindIn(t, slots, "");
      var free := DirLookup(dir, "");
      if free.Some? {
        return free.value;
      }
      ExtendOk(t, dir, next);
      t := Extended(t, dir, next);
      f := next;
      next := next + 16;
    }

    /** Creates path; fails if it exists or if a directory on the way is missing. */
    method FileCreate(path: string) returns (r: int, f: nat)
      requires Valid()
      modifies this
      ensures Valid()
      ensures r == match Resolve(old(t), None, ROOT, Split(path))
                   case Hit(_, _) => -E_FILE_EXISTS
                   case Miss(_, _) => 0
                   case NotFound => -E_NOT_FOUND
                   case BadPath => -E_BAD_PATH
      ensures r < 0 ==> t == old(t)
      ensures r == 0 ==> Opens(t, path, f)
      ensures r == 0 ==> forall q, g :: Opens(old(t), q, g) ==> Opens(t, q, g)
    {
      f := 0;
      var o := WalkPath(path);
      match o {
        case Hit(_, _) => return -E_FILE_EXISTS, 0;
        case NotFound => return -E_NOT_FOUND, 0;
        case BadPath => return -E_BAD_PATH, 0;
        case Miss(_, _) =>
      }
      SplitNonEmpty(path);
      MissDir(t, next, None, ROOT, Split(path));
      f := DirAllocFile(o.dir);
      CreateGrew(old(t), old(next), t, next, o.dir, f, o.last);
      t := t[f := t[f].(name := o.last)];
      r := 0;
      CreatedOpens(old(t), old(next), t, o.dir, f, o.last, None, ROOT, Split(path));
      forall q, g | Opens(old(t), q, g)
        ensures Opens(t, q, g)
      {
        SplitNonEmpty(q);
        StillOpens(old(t), old(next), t, o.dir, f, o.last, None, ROOT, Split(q));
      }
    }

    method FileOpen(path: string) returns (f: Option<nat>)
      requires Valid()
      ensures forall g: nat :: f == Some(g) <==> Opens(t, path, g)
    {
      var o := WalkPath(path);
      f := if o.Hit? then Some(o.file) else None;
    }
  }

  // ---- Path names, taken apart and put together ----------------------------------------------------

  function Slashes(n: nat): (s: string)
    ensures |s| == n && forall i :: 0 <= i < n ==> s[i] == '/'
  {
    if n == 0 then "" else "/" + Slashes(n - 1)
  }

  predicate IsName(c: string) {
    c != "" && forall i :: 0 <= i < |c| ==> c[i] != '/'
  }

  /** A path with the given components; runs[i] slashes come before component i, and the last run at
      the end. */
  function Joined(comps: seq<string>, runs: seq<nat>): string
    requires |runs| == |comps| + 1
    decreases |comps|
  {
    Slashes(runs[0]) + if comps == [] then "" else comps[0] + Joined(comps[1..], runs[1..])
  }

  lemma {:induction false} SkipsSlashes(n: nat, p: string)
    ensures SkipSlash(Slashes(n) + p) == SkipSlash(p)
  {
    if n > 0 {
      assert (Slashes(n) + p)[1..] == Slashes(n - 1) + p;
      SkipsSlashes(n - 1, p);
    } else {
      assert Slashes(0) + p == p;
    }
  }

  lemma {:induction false} NameEnds(c: string, p: string)
    requires (forall i :: 0 <= i < |c| ==> c[i] != '/') && (p != "" ==> p[0] == '/')
    ensures NameLen(c + p) == |c|
  {
    if c != "" {
      assert (c + p)[0] == c[0] && (c + p)[1..] == c[1..] + p;
      NameEnds(c[1..], p);
    } else {
      assert c + p == p;
    }
  }

  /** A path splits into the components it was made of, however many slashes lie between them, before
      the first and after the last. */
  lemma {:induction false} SplitJoined(comps: seq<string>, runs: seq<nat>)
    requires |runs| == |comps| + 1 && forall i :: 0 <= i < |comps| ==> IsName(comps[i])
    requires forall i :: 0 < i < |comps| ==> runs[i] > 0
    ensures Split(Joined(comps, runs)) == comps
    decreases |comps|
  {
    var path := Joined(comps, runs);
    if comps == [] {
      SkipsSlashes(runs[0], "");
    } else {
      var rest := Joined(comps[1..], runs[1..]);
      var q := comps[0] + rest;
      assert path == Slashes(runs[0]) + q;
      SkipsSlashes(runs[0], q);
      assert q[0] == comps[0][0];
      assert SkipSlash(q) == q;
      assert rest != "" ==> rest[0] == '/';
      NameEnds(comps[0], rest);
      assert q[..|comps[0]|] == comps[0] && q[|comps[0]|..] == rest;
      SplitJoined(comps[1..], runs[1..]);
    }
  }

  // ---- Lookup as a chain of directories --------------------------------------------------------------

  /** Record d is a directory that has f under that name. */
  predicate Leads(t: Tree, d: nat, name: string, f: nat) {
    |name| < 128 && d in t && t[d].isDir && f in t[d].slots && f in t && t[f].name == name
  }

  ghost predicate IsChain(t: Tree, comps: seq<string>, chain: seq<nat>) {
    |chain| == |comps| + 1 && forall i :: 0 <= i < |comps| ==> Leads(t, chain[i], comps[i], chain[i + 1])
  }

  /** Names are distinct, so the one found is the only one there is. */
  lemma FindOnly(t: Tree, next: nat, d: nat, name: string, f: nat)
    requires Wf(t, next) && d in t && name != "" && f in t[d].slots && t[f].name == name
    ensures Find(t, t[d].slots, name) == Some(f)
  {
    var slots := t[d].slots;
    FindIn(t, slots, name);
    var i :| 0 <= i < |slots| && slots[i] == f;
    var g := Find(t, slots, name).value;
    var j :| 0 <= j < |slots| && slots[j] == g;
    assert i == j;
  }

  lemma {:induction false} ChainResolves(t: Tree, next: nat, dir: Option<nat>, comps: seq<string>, chain: seq<nat>)
    requires Wf(t, next) && IsChain(t, comps, chain) && forall i :: 0 <= i < |comps| ==> comps[i] != ""
    ensures Resolve(t, dir, chain[0], comps).Hit? && Resolve(t, dir, chain[0], comps).file == chain[|comps|]
    decreases |comps|
  {
    if comps != [] {
      FindOnly(t, next, chain[0], comps[0], chain[0 + 1]);
      assert IsChain(t, comps[1..], chain[1..]) by {
        forall i | 0 <= i < |comps[1..]| ensures Leads(t, chain[1..][i], comps[1..][i], chain[1..][i + 1]) {
          assert Leads(t, chain[i + 1], comps[i + 1], chain[i + 1 + 1]);
        }
      }
      ChainResolves(t, next, Some(chain[0]), comps[1..], chain[1..]);
    }
  }

  lemma {:induction false} ResolveChains(t: Tree, next: nat, dir: Option<nat>, cur: nat, comps: seq<string>)
    returns (chain: seq<nat>)
    requires Wf(t, next) && cur in t && Resolve(t, dir, cur, comps).Hit?
    ensures IsChain(t, comps, chain) && chain[0] == cur && chain[|comps|] == Resolve(t, dir, cur, comps).file
    decreases |comps|
  {
    if comps == [] {
      chain := [cur];
    } else {
      FindIn(t, t[cur].slots, comps[0]);
      var f := Find(t, t[cur].slots, comps[0]).value;
      var rest := ResolveChains(t, next, Some(cur), f, comps[1..]);
      chain := [cur] + rest;
      forall i | 0 <= i < |comps| ensures Leads(t, chain[i], comps[i], chain[i + 1]) {
        if i > 0 {
          assert Leads(t, rest[i - 1], comps[1..][i - 1], rest[i - 1 + 1]);
        }
      }
    }
  }

  /** A path opens a record exactly when a chain of directories leads from the root to it. */
  lemma OpensExact(t: Tree, next: nat, path: string, f: nat)
    requires Wf(t, next)
    ensures Opens(t, path, f) <==>
              exists chain: seq<nat> :: IsChain(t, Split(path), chain) && chain[0] == ROOT && chain[|Split(path)|] == f
  {
    if Opens(t, path, f) {
      var _ := ResolveChains(t, next, None, ROOT, Split(path));
    }
    SplitNonEmpty(path);
    forall chain: seq<nat> | IsChain(t, Split(path), chain) && chain[0] == ROOT && chain[|Split(path)|] == f
      ensures Opens(t, path, f)
    {
      ChainResolves(t, next, None, Split(path), chain);
    }
  }

  lemma SplitSkip(p: string)
    ensures Split(SkipSlash(p)) == Split(p)
  {
    SkipShorter(p);
  }

  lemma SplitEmpty(p: string)
    requires SkipSlash(p) == p
    ensures Split(p) == [] <==> p == ""
  {
  }

  lemma {:induction false} FindIn(t: Tree, slots: seq<nat>, name: string)
    ensures Find(t, slots, name).Some? ==>
              && Find(t, slots, name).value in slots && Find(t, slots, name).value in t
              && t[Find(t, slots, name).value].name == name
    ensures Find(t, slots, name).None? ==> forall s :: s in slots && s in t ==> t[s].name != name
  {
    if slots != [] {
      FindIn(t, slots[1..], name);
    }
  }

  /** The path resolves to record f. */
  ghost predicate Opens(t: Tree, path: string, f: nat) {
    Resolve(t, None, ROOT, Split(path)).Hit? && Resolve(t, None, ROOT, Split(path)).file == f
  }

  function NewSlots(next: nat): (s: seq<nat>)
    ensures |s| == 16 && forall k :: 0 <= k < 16 ==> s[k] == next + k
  {
    seq(16, k requires 0 <= k => next + k)
  }

  /** dir with one more block of blank records. */
  function Extended(t: Tree, dir: nat, next: nat): Tree
    requires dir in t
  {
    t[dir := t[dir].(slots := t[dir].slots + NewSlots(next))] + map k | k in NewSlots(next) :: Node("", false, [])
  }

  lemma ExtendOk(t: Tree, dir: nat, next: nat)
    requires Wf(t, next) && dir in t && Find(t, t[dir].slots, "").None?
    ensures Wf(Extended(t, dir, next), next + 16)
    ensures Find(Extended(t, dir, next), Extended(t, dir, next)[dir].slots, "") == Some(next)
  {
    ExtendShape(t, dir, next);
    ExtendUnique(t, dir, next);
    ExtendDistinct(t, dir, next);
    ExtendFind(t, dir, next);
  }

  lemma ExtendShape(t: Tree, dir: nat, next: nat)
    requires Closed(t, next) && dir in t
    ensures Closed(Extended(t, dir, next), next + 16)
    ensures var u := Extended(t, dir, next);
            && u[dir] == t[dir].(slots := t[dir].slots + NewSlots(next))
            && (forall d :: d in t && d != dir ==> d in u && u[d] == t[d])
            && (forall d :: d in u && d !in t ==> u[d] == Node("", false, []) && d in NewSlots(next))
            && (forall d :: d in NewSlots(next) ==> d !in t && d in u && u[d].name == "")
  {
    var u := Extended(t, dir, next);
    var s := t[dir].slots + NewSlots(next);
    assert forall i :: 0 <= i < |s| ==>
                         s[i] == if i < |t[dir].slots| then t[dir].slots[i] else next + (i - |t[dir].slots|);
    assert forall k :: 0 <= k < 16 ==> NewSlots(next)[k] in NewSlots(next);
  }

  lemma ExtendUnique(t: Tree, dir: nat, next: nat)
    requires Closed(t, next) && Unique(t) && dir in t
    ensures Unique(Extended(t, dir, next))
  {
    ExtendShape(t, dir, next);
    var u := Extended(t, dir, next);
    var n := |t[dir].slots|;
    forall d, i, e, j
      | d in u && e in u && 0 <= i < |u[d].slots| && 0 <= j < |u[e].slots| && u[d].slots[i] == u[e].slots[j]
      ensures d == e && i == j
    {
      assert d in t && e in t;
      assert u[d].slots[i] < next <==> !(d == dir && i >= n);
      assert u[e].slots[j] < next <==> !(e == dir && j >= n);
      assert !(d == dir && i >= n) ==> u[d].slots[i] == t[d].slots[i];
      assert !(e == dir && j >= n) ==> u[e].slots[j] == t[e].slots[j];
    }
  }

  lemma ExtendDistinct(t: Tree, dir: nat, next: nat)
    requires Wf(t, next) && dir in t && Closed(Extended(t, dir, next), next + 16)
    ensures Distinct(Extended(t, dir, next), next + 16)
  {
    ExtendShape(t, dir, next);
    var u := Extended(t, dir, next);
    forall d, i | d in u && 0 <= i < |u[d].slots|
      ensures var s := u[d].slots[i]; u[s].name == (if d in t && i < |t[d].slots| then t[t[d].slots[i]].name else "")
    {
      assert u[d].slots[i] in NewSlots(next) || (d in t && i < |t[d].slots| && u[d].slots[i] == t[d].slots[i]);
    }
  }

  /** New blank records do not hide old names. */
  lemma ExtendFind(t: Tree, dir: nat, next: nat)
    requires Wf(t, next) && dir in t && Find(t, t[dir].slots, "").None?
    ensures var u := Extended(t, dir, next);
            && (forall d, n :: d in t && n != "" ==> Find(u, u[d].slots, n) == Find(t, t[d].slots, n))
            && (forall d :: d in t ==> u[d].isDir == t[d].isDir)
            && Find(u, u[dir].slots, "") == Some(next)
  {
    var u := Extended(t, dir, next);
    ExtendShape(t, dir, next);
    forall d, n | d in t
      ensures n != "" ==> Find(u, u[d].slots, n) == Find(t, t[d].slots, n)
      ensures d == dir && n == "" ==> Find(u, u[d].slots, n) == Some(next)
    {
      SameFind(t, u, t[d].slots, n);
      if d == dir {
        FindAppend(u, t[d].slots, NewSlots(next), n);
        assert NewSlots(next)[0] == next && u[next].name == "";
        BlankFind(u, NewSlots(next), n);
      }
    }
  }

  lemma {:induction false} SameFind(t: Tree, u: Tree, slots: seq<nat>, n: string)
    requires forall s :: s in slots ==> s in t && s in u && u[s].name == t[s].name
    ensures Find(u, slots, n) == Find(t, slots, n)
  {
    if slots != [] {
      SameFind(t, u, slots[1..], n);
    }
  }

  lemma {:induction false} FindAppend(t: Tree, a: seq<nat>, b: seq<nat>, n: string)
    ensures Find(t, a + b, n) == if Find(t, a, n).Some? then Find(t, a, n) else Find(t, b, n)
  {
    if a == [] {
      assert a + b == b;
    } else {
      assert (a + b)[1..] == a[1..] + b;
      FindAppend(t, a[1..], b, n);
    }
  }

  lemma {:induction false} BlankFind(t: Tree, slots: seq<nat>, n: string)
    requires forall s :: s in slots ==> s in t && t[s].name == ""
    ensures n != "" ==> Find(t, slots, n).None?
    ensures n == "" && slots != [] ==> Find(t, slots, n) == Some(slots[0])
  {
    if slots != [] {
      BlankFind(t, slots[1..], n);
    }
  }

  /** Naming a free record keeps names distinct when the name is not there yet. */
  lemma NameOk(t: Tree, next: nat, dir: nat, f: nat, name: string)
    requires Wf(t, next) && dir in t && f in t[dir].slots && f in t && t[f].name == ""
    requires Find(t, t[dir].slots, name).None?
    ensures Wf(t[f := t[f].(name := name)], next)
  {
    var u := t[f := t[f].(name := name)];
    assert Closed(u, next);
    assert Unique(u);
    NameDistinct(t, next, dir, f, name);
  }

  lemma NameDistinct(t: Tree, next: nat, dir: nat, f: nat, name: string)
    requires Wf(t, next) && dir in t && f in t[dir].slots && f in t && t[f].name == ""
    requires Find(t, t[dir].slots, name).None? && Closed(t[f := t[f].(name := name)], next)
    ensures Distinct(t[f := t[f].(name := name)], next)
  {
    FindIn(t, t[dir].slots, name);
    var i :| 0 <= i < |t[dir].slots| && t[dir].slots[i] == f;
  }

  /** Naming record f of dir adds one name to dir and changes no other lookup. */
  lemma NameFind(t: Tree, next: nat, dir: nat, f: nat, name: string, d: nat, n: string)
    requires Wf(t, next) && dir in t && f in t[dir].slots && f in t && t[f].name == "" && name != "" && n != ""
    requires Find(t, t[dir].slots, name).None? && d in t
    ensures var u := t[f := t[f].(name := name)];
            Find(u, u[d].slots, n) == if d == dir && n == name then Some(f) else Find(t, t[d].slots, n)
  {
    var u := t[f := t[f].(name := name)];
    if d != dir {
      assert f !in t[d].slots by {
        var i :| 0 <= i < |t[dir].slots| && t[dir].slots[i] == f;
      }
      SameFind(t, u, t[d].slots, n);
    } else {
      FindIn(t, t[dir].slots, name);
      NameOne(t, u, t[dir].slots, f, name, n);
    }
  }

  lemma {:induction false} NameOne(t: Tree, u: Tree, slots: seq<nat>, f: nat, name: string, n: string)
    requires f in t && u == t[f := t[f].(name := name)] && t[f].name == "" && n != ""
    requires forall s :: s in slots ==> s in t && t[s].name != name
    ensures Find(u, slots, n) == if n == name then (if f in slots then Some(f) else None) else Find(t, slots, n)
  {
    if slots != [] {
      NameOne(t, u, slots[1..], f, name, n);
    }
  }

  lemma {:induction false} SplitNonEmpty(p: string)
    ensures forall k :: 0 <= k < |Split(p)| ==> Split(p)[k] != ""
    decreases |p|
  {
    SkipShorter(p);
    var q := SkipSlash(p);
    if q != "" {
      NameLenBound(q);
      SplitNonEmpty(q[NameLen(q)..]);
    }
  }

  /** u has the lookups of t, and name in dir besides. */
  ghost predicate Grew(t: Tree, u: Tree, dir: nat, f: nat, name: string) {
    && (forall d :: d in t ==> d in u && u[d].isDir == t[d].isDir)
    && (forall d, n :: d in t && n != "" ==>
          Find(u, u[d].slots, n) == if d == dir && n == name then Some(f) else Find(t, t[d].slots, n))
  }

  /** What file_create does to the directories. */
  lemma CreateGrew(t: Tree, next: nat, t1: Tree, next1: nat, dir: nat, f: nat, name: string)
    requires Wf(t, next) && Wf(t1, next1) && dir in t && name != "" && Find(t, t[dir].slots, name).None?
    requires t1 == if Find(t, t[dir].slots, "").Some? then t else Extended(t, dir, next)
    requires Find(t1, t1[dir].slots, "") == Some(f)
    ensures f in t1 && Wf(t1[f := t1[f].(name := name)], next1)
    ensures Grew(t, t1[f := t1[f].(name := name)], dir, f, name)
  {
    FindIn(t1, t1[dir].slots, "");
    SameLookups(t, next, t1, dir);
    NameOk(t1, next1, dir, f, name);
    NameGrew(t, t1, next1, dir, f, name);
  }

  lemma SameLookups(t: Tree, next: nat, t1: Tree, dir: nat)
    requires Wf(t, next) && dir in t
    requires t1 == if Find(t, t[dir].slots, "").Some? then t else Extended(t, dir, next)
    ensures forall d :: d in t ==> d in t1 && t1[d].isDir == t[d].isDir
    ensures forall d, n :: d in t && n != "" ==> Find(t1, t1[d].slots, n) == Find(t, t[d].slots, n)
  {
    if t1 != t {
      ExtendFind(t, dir, next);
    }
  }

  lemma NameGrew(t: Tree, t1: Tree, next1: nat, dir: nat, f: nat, name: string)
    requires Wf(t1, next1) && dir in t1 && f in t1[dir].slots && f in t1 && t1[f].name == "" && name != ""
    requires Find(t1, t1[dir].slots, name).None?
    requires forall d :: d in t ==> d in t1 && t1[d].isDir == t[d].isDir
    requires forall d, n :: d in t && n != "" ==> Find(t1, t1[d].slots, n) == Find(t, t[d].slots, n)
    ensures Grew(t, t1[f := t1[f].(name := name)], dir, f, name)
  {
    var u := t1[f := t1[f].(name := name)];
    forall d, n | d in t && n != ""
      ensures Find(u, u[d].slots, n) == if d == dir && n == name then Some(f) else Find(t, t[d].slots, n)
    {
      NameFind(t1, next1, dir, f, name, d, n);
    }
  }

  lemma {:induction false} MissDir(t: Tree, next: nat, dir: Option<nat>, cur: nat, comps: seq<string>)
    requires Wf(t, next) && cur in t && Resolve(t, dir, cur, comps).Miss?
    ensures var o := Resolve(t, dir, cur, comps);
            o.dir in t && Find(t, t[o.dir].slots, o.last).None? && o.last in comps
    decreases |comps|
  {
    match Find(t, t[cur].slots, comps[0])
    case Some(f) =>
      FindIn(t, t[cur].slots, comps[0]);
      MissDir(t, next, Some(cur), f, comps[1..]);
    case None =>
  }

  /** The created path resolves to the new record. */
  lemma {:induction false} CreatedOpens(t: Tree, next: nat, u: Tree, dir: nat, f: nat, name: string,
                                        parent: Option<nat>, cur: nat, comps: seq<string>)
    requires Wf(t, next) && Grew(t, u, dir, f, name) && cur in t
    requires (forall k :: 0 <= k < |comps| ==> comps[k] != "") && dir in t && Find(t, t[dir].slots, name).None?
    requires Resolve(t, parent, cur, comps) == Miss(dir, name)
    ensures Resolve(u, parent, cur, comps) == Hit(Some(dir), f)
    decreases |comps|
  {
    match Find(t, t[cur].slots, comps[0])
    case Some(g) =>
      FindIn(t, t[cur].slots, comps[0]);
      CreatedOpens(t, next, u, dir, f, name, Some(cur), g, comps[1..]);
    case None =>
      assert Resolve(u, Some(cur), f, comps[1..]) == Hit(Some(cur), f);
  }

  /** Every path that resolved before still resolves to the same record. */
  lemma {:induction false} StillOpens(t: Tree, next: nat, u: Tree, dir: nat, f: nat, name: string,
                                      parent: Option<nat>, cur: nat, comps: seq<string>)
    requires Wf(t, next) && Grew(t, u, dir, f, name) && cur in t
    requires (forall k :: 0 <= k < |comps| ==> comps[k] != "") && dir in t && Find(t, t[dir].slots, name).None?
    requires Resolve(t, parent, cur, comps).Hit?
    ensures Resolve(u, parent, cur, comps) == Resolve(t, parent, cur, comps)
    decreases |comps|
  {
    if comps != [] {
      var g := Find(t, t[cur].slots, comps[0]).value;
      FindIn(t, t[cur].slots, comps[0]);
      StillOpens(t, next, u, dir, f, name, Some(cur), g, comps[1..]);
    }
  }
}
