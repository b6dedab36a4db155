/** Physical pages and two-level page tables (kern/pmap.c): the values the kernel
    keeps in memory, the invariant that ties every reference count to the page
    tables, and the effect of each primitive update on that invariant. */
module Paging {

  const NPTENTRIES: nat := 1024
  /** PDX(UTOP) and PDX(UVPT): directory entries below UTOPX are the user half. */
  const UTOPX: nat := 955
  const UVPTX: nat := 957

  /** The low twelve bits of a page-table word, by name.  A bit mask is a set of them. */
  datatype Bit = P | W | U | PWT | PCD | A | D | PS | G | AVAIL9 | SHARE | COW

  const PTE_SYSCALL: set<Bit> := {P, W, U, AVAIL9, SHARE, COW}

  /** A page-table word: PTE_ADDR as a page number, and the flag bits. */
  datatype Entry = Entry(frame: nat, flags: set<Bit>)

  const NOENTRY: Entry := Entry(0, {})

  predicate Present(e: Entry) {
    P in e.flags
  }

  /** A `struct PageInfo *`. */
  datatype Link = Null | To(page: nat)

  /** Physical memory and the allocator's view of it.  `words[p]` is the contents of
      page p as 1024 words; `pgdir[e]` is the page directory of environment slot e. */
  datatype Memory = Memory(
    ref: seq<nat>,
    link: seq<Link>,
    head: Link,
    words: seq<seq<Entry>>,
    pgdir: map<nat, nat>)

  // ---- Reading page tables ------------------------------------------------------

  /** The places that hold a counted reference to a page. */
  datatype Site = Root(env: nat) | Pde(env: nat, pdx: nat) | Pte(env: nat, pdx: nat, ptx: nat)

  function Word(words: seq<seq<Entry>>, p: nat, k: nat): Entry {
    if p < |words| && k < |words[p]| then words[p][k] else NOENTRY
  }

  function DirEntry(m: Memory, e: nat, i: nat): Entry {
    if e in m.pgdir && i < UTOPX then Word(m.words, m.pgdir[e], i) else NOENTRY
  }

  /** What is stored at a site; not present when the site does not exist. */
  function At(m: Memory, s: Site): Entry {
    match s
    case Root(e) => if e in m.pgdir then Entry(m.pgdir[e], {P}) else NOENTRY
    case Pde(e, i) => DirEntry(m, e, i)
    case Pte(e, i, j) =>
      var d := DirEntry(m, e, i);
      if Present(d) && j < NPTENTRIES then Word(m.words, d.frame, j) else NOENTRY
  }

  // ---- The invariant --------------------------------------------------------------

  /** What a physical page is being used for.  A loose page has been taken from the
      free list and not been mapped yet. */
  datatype Kind = Free | Loose | User | Table(env: nat, pdx: nat) | Dir(env: nat) | Reserved

  /** The bookkeeping the invariant speaks about: page uses, the free list as a
      sequence, and every present entry of every live page table. */
  datatype Book = Book(kind: seq<Kind>, free: seq<nat>, refs: map<Site, Entry>)

  function KindAt(s: Site): Kind {
    match s
    case Root(e) => Dir(e)
    case Pde(e, i) => Table(e, i)
    case Pte(_, _, _) => User
  }

  function SiteOf(k: Kind): Site
    requires k.Dir? || k.Table?
  {
    if k.Dir? then Root(k.env) else Pde(k.env, k.pdx)
  }

  ghost function Sites(refs: map<Site, Entry>, p: nat): set<Site> {
    set s | s in refs && refs[s].frame == p
  }

  /** How many live page-table entries and directory roots name page p. */
  ghost function Count(refs: map<Site, Entry>, p: nat): nat {
    |Sites(refs, p)|
  }

  function One(b: bool): nat {
    if b then 1 else 0
  }

  /** `head` and `link` thread exactly the pages of `free`, in order, without repetition. */
  ghost predicate Chain(head: Link, link: seq<Link>, free: seq<nat>)
    decreases free
  {
    if free == [] then
      head.Null?
    else
      head == To(free[0]) && free[0] < |link| && free[0] !in free[1..] && Chain(link[free[0]], link, free[1..])
  }

  /** The free list holds exactly the free pages, and no page outside it has a link. */
  ghost predicate FreeList(m: Memory, b: Book) {
    && |m.link| == |b.kind|
    && Chain(m.head, m.link, b.free)
    && (forall p :: p in b.free ==> p < |b.kind|)
    && (forall p :: 0 <= p < |b.kind| ==> (b.kind[p].Free? <==> p in b.free))
    && (forall p :: 0 <= p < |b.kind| && !b.kind[p].Free? ==> m.link[p].Null?)
  }

  /** A directory or page-table page is pointed to by the one site it belongs to. */
  ghost predicate Owned(m: Memory, k: Kind, p: nat) {
    match k
    case Dir(e) => e in m.pgdir && m.pgdir[e] == p
    case Table(e, i) => Present(DirEntry(m, e, i)) && DirEntry(m, e, i).frame == p
    case _ => true
  }

  /** Every present entry points to a page of the right kind, and every directory and
      page-table page is pointed to by the one site it belongs to. */
  ghost predicate Typed(m: Memory, kind: seq<Kind>) {
    && |m.words| == |kind|
    && (forall p :: 0 <= p < |kind| ==> |m.words[p]| == NPTENTRIES)
    && (forall s :: Present(At(m, s)) ==> At(m, s).frame < |kind| && kind[At(m, s).frame] == KindAt(s))
    && (forall p :: 0 <= p < |kind| ==> Owned(m, kind[p], p))
  }

  /** `refs` is exactly what the page tables hold. */
  ghost predicate Tied(m: Memory, refs: map<Site, Entry>) {
    forall s :: (s in refs <==> Present(At(m, s))) && (s in refs ==> refs[s] == At(m, s))
  }

  /** The 16-bit pp_ref is the number of references to the page; `pend` names a page
      whose count has been raised for an entry that is not written yet. */
  ghost predicate Counted(ref: seq<nat>, b: Book, pend: Link) {
    && |ref| == |b.kind|
    && (forall p :: 0 <= p < |b.kind| ==>
          ref[p] == (Count(b.refs, p) + One(pend == To(p)) + One(b.kind[p].Reserved?)) % 0x1_0000)
    && (forall p :: 0 <= p < |b.kind| && b.kind[p].User? ==> Count(b.refs, p) + One(pend == To(p)) > 0)
  }

  ghost predicate Core(m: Memory, b: Book, pend: Link) {
    && FreeList(m, b)
    && Typed(m, b.kind)
    && Tied(m, b.refs)
    && Counted(m.ref, b, pend)
  }

  /** No page has more references than its 16-bit field can count. */
  ghost predicate Bounded(b: Book) {
    forall p :: 0 <= p < |b.kind| ==> Count(b.refs, p) <= 0xFFFF
  }

  ghost predicate NoLoose(b: Book) {
    forall p :: 0 <= p < |b.kind| ==> !b.kind[p].Loose?
  }

  /** The invariant between system calls. */
  ghost predicate Valid(m: Memory, b: Book) {
    Core(m, b, Null) && Bounded(b) && NoLoose(b)
  }

  /** The user part of the address spaces: the finite map that the page tables implement. */
  ghost function UserMap(refs: map<Site, Entry>): map<Site, Entry> {
    map s | s in refs && s.Pte? :: refs[s]
  }

  // ---- Primitive updates ------------------------------------------------------------

  function Upd<T>(s: seq<T>, k: nat, x: T): seq<T> {
    if k < |s| then s[k := x] else s
  }

  function Pop(m: Memory): Memory {
    if m.head.To? && m.head.page < |m.link| then
      m.(head := m.link[m.head.page], link := m.link[m.head.page := Null])
    else
      m
  }

  function Push(m: Memory, p: nat): Memory {
    m.(link := Upd(m.link, p, m.head), head := To(p))
  }

  function IncRef(m: Memory, p: nat): Memory {
    if p < |m.ref| then m.(ref := m.ref[p := (m.ref[p] + 1) % 0x1_0000]) else m
  }

  function DecRef(m: Memory, p: nat): Memory {
    if p < |m.ref| then
      var x := (m.ref[p] + 0xFFFF) % 0x1_0000;
      var n := m.(ref := m.ref[p := x]);
      if x == 0 then Push(n, p) else n
    else
      m
  }

  function SetPage(m: Memory, p: nat, page: seq<Entry>): Memory {
    m.(words := Upd(m.words, p, page))
  }

  function SetWord(m: Memory, p: nat, k: nat, x: Entry): Memory {
    if p < |m.words| then m.(words := m.words[p := Upd(m.words[p], k, x)]) else m
  }

  // ---- Counting ------------------------------------------------------------------------

  lemma CountAdd(refs: map<Site, Entry>, s: Site, x: Entry, p: nat)
    requires s !in refs
    ensures Count(refs[s := x], p) == Count(refs, p) + One(p == x.frame)
  {
    if p == x.frame {
      assert Sites(refs[s := x], p) == Sites(refs, p) + {s};
    } else {
      assert Sites(refs[s := x], p) == Sites(refs, p);
    }
  }

  lemma CountDrop(refs: map<Site, Entry>, s: Site, p: nat)
    requires s in refs
    ensures Count(refs - {s}, p) == Count(refs, p) - One(p == refs[s].frame)
  {
    var rest := refs - {s};
    if p == refs[s].frame {
      assert Sites(refs, p) == Sites(rest, p) + {s};
    } else {
      assert Sites(rest, p) == Sites(refs, p);
    }
  }

  /** A kind that no present entry may point to has no references. */
  lemma CountZero(m: Memory, b: Book, p: nat)
    requires Typed(m, b.kind) && Tied(m, b.refs)
    requires p < |b.kind|
    requires b.kind[p].Free? || b.kind[p].Loose? || b.kind[p].Reserved?
    ensures Count(b.refs, p) == 0
  {
    forall s | s in Sites(b.refs, p)
      ensures false
    {
    }
    assert Sites(b.refs, p) == {};
  }

  lemma CountPositive(refs: map<Site, Entry>, s: Site)
    requires s in refs
    ensures Count(refs, refs[s].frame) > 0
  {
    assert s in Sites(refs, refs[s].frame);
  }

  /** A directory or page-table page has exactly one reference. */
  lemma CountOne(m: Memory, b: Book, p: nat)
    requires Typed(m, b.kind) && Tied(m, b.refs)
    requires p < |b.kind| && (b.kind[p].Dir? || b.kind[p].Table?)
    ensures Count(b.refs, p) == 1
  {
    var s := SiteOf(b.kind[p]);
    forall r | r in Sites(b.refs, p)
      ensures r == s
    {
      assert b.kind[At(m, r).frame] == KindAt(r);
    }
    assert Present(At(m, s)) && At(m, s).frame == p;
    assert Sites(b.refs, p) == {s};
  }

  // ---- Effect of memory writes on what the page tables hold ------------------------------

  /** Writing a page that is neither a directory nor a page table changes no entry. */
  lemma WriteOther(m: Memory, kind: seq<Kind>, p: nat, page: seq<Entry>)
    requires Typed(m, kind) && p < |kind| && !kind[p].Dir? && !kind[p].Table?
    ensures forall s :: At(SetPage(m, p, page), s) == At(m, s)
  {
    var n := SetPage(m, p, page);
    forall s
      ensures At(n, s) == At(m, s)
    {
      SameTable(m, kind, n, p, s);
    }
  }

  /** An entry is read from the page of its own directory or table only. */
  lemma SameTable(m: Memory, kind: seq<Kind>, n: Memory, p: nat, s: Site)
    requires Typed(m, kind) && p < |kind|
    requires n.pgdir == m.pgdir && |n.words| == |m.words|
    requires forall q :: 0 <= q < |kind| && q != p ==> n.words[q] == m.words[q]
    requires s.Root? || kind[p] != Dir(s.env)
    requires s.Pte? ==> kind[p] != Table(s.env, s.pdx)
    ensures At(n, s) == At(m, s)
  {
    if !s.Root? && s.env in m.pgdir {
      var r := Root(s.env);
      assert Present(At(m, r)) && kind[At(m, r).frame] == KindAt(r);
      assert m.pgdir[s.env] != p;
      if s.Pte? {
        var d := Pde(s.env, s.pdx);
        assert DirEntry(n, s.env, s.pdx) == DirEntry(m, s.env, s.pdx) == At(m, d);
        if Present(At(m, d)) {
          assert kind[At(m, d).frame] == KindAt(d);
        }
      }
    }
  }

  /** Writing one word of a page table changes exactly that entry. */
  lemma WriteTable(m: Memory, kind: seq<Kind>, p: nat, k: nat, x: Entry)
    requires Typed(m, kind) && p < |kind| && kind[p].Table? && k < NPTENTRIES
    ensures forall s :: At(SetWord(m, p, k, x), s) ==
                        if s == Pte(kind[p].env, kind[p].pdx, k) then x else At(m, s)
  {
    var e, i := kind[p].env, kind[p].pdx;
    var n := SetWord(m, p, k, x);
    var d := At(m, Pde(e, i));
    assert SiteOf(kind[p]) == Pde(e, i) && Present(d) && d.frame == p;
    SameTable(m, kind, n, p, Pde(e, i));
    forall s
      ensures At(n, s) == if s == Pte(e, i, k) then x else At(m, s)
    {
      if s.Pte? && s.env == e && s.pdx == i {
        assert DirEntry(n, e, i) == d;
      } else {
        SameTable(m, kind, n, p, s);
      }
    }
  }

  /** Writing one user word of a directory changes that entry, and the entries of the
      page table behind it. */
  lemma WriteDir(m: Memory, kind: seq<Kind>, e: nat, i: nat, x: Entry)
    requires Typed(m, kind) && e in m.pgdir && i < UTOPX
    requires m.pgdir[e] < |m.words| && |m.words[m.pgdir[e]]| == NPTENTRIES
    ensures At(SetWord(m, m.pgdir[e], i, x), Pde(e, i)) == x
    ensures forall s :: s != Pde(e, i) && !(s.Pte? && s.env == e && s.pdx == i) ==>
                          At(SetWord(m, m.pgdir[e], i, x), s) == At(m, s)
  {
    var n := SetWord(m, m.pgdir[e], i, x);
    var p := m.pgdir[e];
    assert Present(At(m, Root(e))) && kind[At(m, Root(e)).frame] == Dir(e);
    forall s | s != Pde(e, i) && !(s.Pte? && s.env == e && s.pdx == i)
      ensures At(n, s) == At(m, s)
    {
      if s.Root? || s.env != e {
        SameTable(m, kind, n, p, s);
      } else {
        assert DirEntry(n, e, s.pdx) == DirEntry(m, e, s.pdx);
        if s.Pte? && Present(DirEntry(m, e, s.pdx)) {
          assert kind[At(m, Pde(e, s.pdx)).frame] == Table(e, s.pdx);
        }
      }
    }
  }

  // ---- Steps of the allocator and of page-table updates ------------------------------------

  ghost function Popped(b: Book): Book {
    if b.free == [] then b else Book(Upd(b.kind, b.free[0], Loose), b.free[1..], b.refs)
  }

  ghost function Pushed(b: Book, p: nat): Book {
    Book(Upd(b.kind, p, Free), [p] + b.free, b.refs)
  }

  ghost function Linked(b: Book, s: Site, x: Entry): Book {
    Book(Upd(b.kind, x.frame, KindAt(s)), b.free, b.refs[s := x])
  }

  ghost function Unlinked(b: Book, s: Site, pend: Link): Book {
    if s in b.refs then
      var p := b.refs[s].frame;
      var c := b.(refs := b.refs - {s});
      if Count(c.refs, p) + One(pend == To(p)) == 0 then Pushed(c, p) else c
    else
      b
  }

  lemma {:induction false} ChainFrame(head: Link, link: seq<Link>, free: seq<nat>, p: nat, l: Link)
    requires Chain(head, link, free) && p < |link| && p !in free
    ensures Chain(head, link[p := l], free)
    decreases free
  {
    if free != [] {
      ChainFrame(link[free[0]], link, free[1..], p, l);
    }
  }

  /** Entries depend on the page contents and the directory roots alone. */
  lemma SameAt(m: Memory, n: Memory)
    requires n.words == m.words && n.pgdir == m.pgdir
    ensures forall s :: At(n, s) == At(m, s)
  {
    forall s
      ensures At(n, s) == At(m, s)
    {
    }
  }

  /** The free list only looks at the links, and at which pages are free. */
  lemma SameFree(m: Memory, b: Book, n: Memory, c: Book)
    requires FreeList(m, b)
    requires n.link == m.link && n.head == m.head && c.free == b.free
    requires |c.kind| == |b.kind| && forall p :: 0 <= p < |c.kind| ==> (c.kind[p].Free? <==> b.kind[p].Free?)
    ensures FreeList(n, c)
  {
  }

  /** Counts only look at references and at which pages are reserved. */
  lemma SameCount(ref: seq<nat>, b: Book, c: Book, pend: Link)
    requires Counted(ref, b, pend) && |c.kind| == |b.kind|
    requires forall p :: 0 <= p < |c.kind| ==> Count(c.refs, p) == Count(b.refs, p)
    requires forall p :: 0 <= p < |c.kind| ==> (c.kind[p].Reserved? <==> b.kind[p].Reserved?)
    requires forall p :: 0 <= p < |c.kind| ==> (c.kind[p].User? ==> b.kind[p].User?)
    ensures Counted(ref, c, pend)
    ensures Bounded(b) ==> Bounded(c)
  {
  }

  lemma PopFree(m: Memory, b: Book)
    requires FreeList(m, b) && m.head.To?
    ensures b.free != [] && m.head == To(b.free[0]) && b.free[0] < |b.kind| && b.kind[b.free[0]].Free?
    ensures FreeList(Pop(m), Popped(b))
  {
    var p := b.free[0];
    assert b.free == [p] + b.free[1..];
    assert forall q :: q in b.free[1..] ==> q in b.free;
    ChainFrame(m.link[p], m.link, b.free[1..], p, Null);
  }

  /** Typing and tying only look at entries. */
  lemma SameTables(m: Memory, b: Book, n: Memory, kind: seq<Kind>)
    requires Typed(m, b.kind) && Tied(m, b.refs)
    requires |n.words| == |m.words| && forall p :: 0 <= p < |n.words| ==> |n.words[p]| == NPTENTRIES
    requires forall s :: At(n, s) == At(m, s)
    requires |kind| == |b.kind|
    requires forall p :: 0 <= p < |kind| && (kind[p] != b.kind[p]) ==>
                           (b.kind[p].Free? || b.kind[p].Loose?) && (kind[p].Free? || kind[p].Loose?)
    ensures Typed(n, kind) && Tied(n, b.refs)
  {
    forall s | Present(At(n, s))
      ensures At(n, s).frame < |kind| && kind[At(n, s).frame] == KindAt(s)
    {
      assert b.kind[At(m, s).frame] == KindAt(s);
    }
    forall p | 0 <= p < |kind|
      ensures Owned(n, kind[p], p)
    {
      if kind[p] == b.kind[p] {
        OwnedMove(m, n, b.kind[p], p);
      }
    }
  }

  /** Being owned only depends on the entry at the owning site. */
  lemma OwnedMove(m: Memory, n: Memory, k: Kind, p: nat)
    requires Owned(m, k, p)
    requires k.Dir? || k.Table? ==>
               var x, y := At(m, SiteOf(k)), At(n, SiteOf(k)); Present(x) == Present(y) && x.frame == y.frame
    ensures Owned(n, k, p)
  {
  }

  /** page_alloc: the head of the free list becomes a loose page without references. */
  lemma PopStep(m: Memory, b: Book, pend: Link)
    requires Core(m, b, pend) && m.head.To?
    ensures b.free != [] && m.head == To(b.free[0]) && b.free[0] < |b.kind|
    ensures Core(Pop(m), Popped(b), pend)
  {
    PopFree(m, b);
    SameAt(m, Pop(m));
    SameTables(m, b, Pop(m), Popped(b).kind);
    SameCount(m.ref, b, Popped(b), pend);
  }

  /** page_free: a loose page goes to the front of the free list. */
  lemma PushStep(m: Memory, b: Book, p: nat, pend: Link)
    requires Core(m, b, pend) && p < |b.kind| && b.kind[p].Loose? && pend != To(p)
    ensures m.ref[p] == 0 && m.link[p].Null?
    ensures Core(Push(m, p), Pushed(b, p), pend)
  {
    CountZero(m, b, p);
    PushFree(m, b, p);
    SameAt(m, Push(m, p));
    SameTables(m, b, Push(m, p), Pushed(b, p).kind);
    SameCount(m.ref, b, Pushed(b, p), pend);
  }

  lemma PushFree(m: Memory, b: Book, p: nat)
    requires FreeList(m, b) && p < |b.kind| && !b.kind[p].Free?
    ensures FreeList(Push(m, p), Pushed(b, p))
  {
    ChainFrame(m.head, m.link, b.free, p, m.head);
    assert Pushed(b, p).free[1..] == b.free;
  }

  /** Filling a loose page. */
  lemma FillStep(m: Memory, b: Book, p: nat, page: seq<Entry>, pend: Link)
    requires Core(m, b, pend) && p < |b.kind| && !b.kind[p].Dir? && !b.kind[p].Table?
    requires |page| == NPTENTRIES
    ensures Core(SetPage(m, p, page), b, pend)
  {
    WriteOther(m, b.kind, p, page);
    SameTables(m, b, SetPage(m, p, page), b.kind);
  }

  /** page_insert raises the count before it writes the entry. */
  lemma PendStep(m: Memory, b: Book, p: nat)
    requires Core(m, b, Null) && p < |b.kind| && (b.kind[p].User? || b.kind[p].Loose?)
    ensures Core(IncRef(m, p), b, To(p))
  {
    var n := IncRef(m, p);
    assert Typed(n, b.kind) && Tied(n, b.refs) by {
      SameAt(m, n);
      SameTables(m, b, n, b.kind);
    }
    assert Counted(n.ref, b, To(p)) by { PendCount(m.ref, b, p); }
    assert FreeList(n, b) by { SameFree(m, b, n, b); }
  }

  lemma PendCount(ref: seq<nat>, b: Book, p: nat)
    requires Counted(ref, b, Null) && p < |b.kind| && !b.kind[p].Reserved?
    ensures Counted(ref[p := (ref[p] + 1) % 0x1_0000], b, To(p))
  {
    assert ref[p] == Count(b.refs, p) % 0x1_0000;
    assert (ref[p] + 1) % 0x1_0000 == (Count(b.refs, p) + 1) % 0x1_0000;
  }

  /** Writing an entry that was not present, for a page whose count is already raised. */
  lemma LinkStep(m: Memory, b: Book, n: Memory, s: Site, x: Entry)
    requires Core(m, b, To(x.frame)) && x.frame < |b.kind| && Present(x)
    requires b.kind[x.frame].Loose? || (b.kind[x.frame].User? && s.Pte?)
    requires s !in b.refs
    requires n == m.(words := n.words, pgdir := n.pgdir)
    requires |n.words| == |m.words| && forall p :: 0 <= p < |n.words| ==> |n.words[p]| == NPTENTRIES
    requires forall r :: At(n, r) == if r == s then x else At(m, r)
    ensures Core(n, Linked(b, s, x), Null)
  {
    var b' := Linked(b, s, x);
    assert Tied(n, b'.refs);
    assert Typed(n, b'.kind) by { LinkTyped(m, b, n, s, x); }
    assert FreeList(n, b') by { SameFree(m, b, n, b'); }
    assert Counted(n.ref, b', Null) by { LinkCount(m.ref, b, s, x); }
  }

  lemma LinkCount(ref: seq<nat>, b: Book, s: Site, x: Entry)
    requires Counted(ref, b, To(x.frame)) && x.frame < |b.kind| && s !in b.refs
    requires !b.kind[x.frame].Reserved?
    ensures Counted(ref, Linked(b, s, x), Null)
  {
    var b' := Linked(b, s, x);
    forall p | 0 <= p < |b'.kind|
      ensures Count(b'.refs, p) == Count(b.refs, p) + One(To(x.frame) == To(p))
    {
      CountAdd(b.refs, s, x, p);
    }
  }

  lemma LinkTyped(m: Memory, b: Book, n: Memory, s: Site, x: Entry)
    requires Typed(m, b.kind) && x.frame < |b.kind| && Present(x)
    requires b.kind[x.frame].Loose? || (b.kind[x.frame].User? && s.Pte?)
    requires !Present(At(m, s))
    requires |n.words| == |m.words| && forall p :: 0 <= p < |n.words| ==> |n.words[p]| == NPTENTRIES
    requires forall r :: At(n, r) == if r == s then x else At(m, r)
    ensures Typed(n, Linked(b, s, x).kind)
  {
    var kind := Linked(b, s, x).kind;
    forall r | Present(At(n, r))
      ensures At(n, r).frame < |kind| && kind[At(n, r).frame] == KindAt(r)
    {
      if r != s {
        assert b.kind[At(m, r).frame] == KindAt(r);
      }
    }
    forall p | 0 <= p < |kind|
      ensures Owned(n, kind[p], p)
    {
      if p != x.frame {
        assert b.kind[p] == kind[p];
        OwnedMove(m, n, b.kind[p], p);
      }
    }
  }

  /** Rewriting the flags of a present entry. */
  lemma ReflagStep(m: Memory, b: Book, n: Memory, s: Site, x: Entry, pend: Link)
    requires Core(m, b, pend) && s in b.refs
    requires Present(x) && x.frame == b.refs[s].frame
    requires n == m.(words := n.words)
    requires |n.words| == |m.words| && forall p :: 0 <= p < |n.words| ==> |n.words[p]| == NPTENTRIES
    requires forall r :: At(n, r) == if r == s then x else At(m, r)
    ensures Core(n, b.(refs := b.refs[s := x]), pend)
    ensures Bounded(b) ==> Bounded(b.(refs := b.refs[s := x]))
  {
    var b' := b.(refs := b.refs[s := x]);
    forall p | 0 <= p < |b.kind|
      ensures Count(b'.refs, p) == Count(b.refs, p)
    {
      assert Sites(b'.refs, p) == Sites(b.refs, p);
    }
    SameCount(m.ref, b, b', pend);
    SameFree(m, b, n, b');
    assert At(m, s) == b.refs[s];
    ReflagTyped(m, b.kind, n, s, x);
    assert Tied(n, b'.refs);
  }

  lemma ReflagTyped(m: Memory, kind: seq<Kind>, n: Memory, s: Site, x: Entry)
    requires Typed(m, kind) && Present(At(m, s)) && Present(x) && x.frame == At(m, s).frame
    requires |n.words| == |m.words| && forall p :: 0 <= p < |n.words| ==> |n.words[p]| == NPTENTRIES
    requires forall r :: At(n, r) == if r == s then x else At(m, r)
    ensures Typed(n, kind)
  {
    forall p | 0 <= p < |kind|
      ensures Owned(n, kind[p], p)
    {
      OwnedMove(m, n, kind[p], p);
    }
  }

  /** From m to n the entry at s goes away and no other entry changes. */
  ghost predicate Cleared(m: Memory, n: Memory, s: Site) {
    && |n.words| == |m.words| && (forall p :: 0 <= p < |n.words| ==> |n.words[p]| == NPTENTRIES)
    && !Present(At(n, s))
    && forall r :: r != s ==> At(n, r) == At(m, r) || (!Present(At(m, r)) && !Present(At(n, r)))
  }

  /** Clearing a present entry and dropping the reference it held: the page is freed
      exactly when this was its last reference. */
  lemma UnlinkStep(m: Memory, b: Book, n: Memory, s: Site, pend: Link)
    requires Core(m, b, pend) && Bounded(b) && s in b.refs
    requires b.refs[s].frame < |b.kind|
    requires s.Pte? || pend != To(b.refs[s].frame)
    requires n == DecRef(m, b.refs[s].frame).(words := n.words, pgdir := n.pgdir)
    requires Cleared(m, n, s)
    ensures Core(n, Unlinked(b, s, pend), pend) && Bounded(Unlinked(b, s, pend))
  {
    assert At(m, s) == b.refs[s] && b.kind[b.refs[s].frame] == KindAt(s);
    UnlinkCount(m, b, s, pend);
    UnlinkFree(m, b, n, s, pend);
    UnlinkTyped(m, b, n, s, pend);
    UnlinkTied(m, b, n, s, pend);
  }

  lemma UnlinkTied(m: Memory, b: Book, n: Memory, s: Site, pend: Link)
    requires Tied(m, b.refs) && s in b.refs && b.refs[s].frame < |b.kind|
    requires Cleared(m, n, s)
    ensures Tied(n, Unlinked(b, s, pend).refs)
  {
    assert Unlinked(b, s, pend).refs == b.refs - {s};
  }

  lemma UnlinkFree(m: Memory, b: Book, n: Memory, s: Site, pend: Link)
    requires FreeList(m, b) && s in b.refs && b.refs[s].frame < |b.kind| == |m.ref|
    requires !b.kind[b.refs[s].frame].Free?
    requires n == DecRef(m, b.refs[s].frame).(words := n.words, pgdir := n.pgdir)
    requires Unlinked(b, s, pend).free == b.free <==> DecRef(m, b.refs[s].frame).ref[b.refs[s].frame] != 0
    ensures FreeList(n, Unlinked(b, s, pend))
  {
    var p := b.refs[s].frame;
    var c := b.(refs := b.refs - {s});
    SameFree(m, b, m, c);
    assert |[p] + b.free| != |b.free|;
    if Unlinked(b, s, pend) == c {
      SameFree(m, c, n, c);
    } else {
      PushFree(m, c, p);
      SameFree(Push(m, p), Pushed(c, p), n, Pushed(c, p));
    }
  }

  lemma Dec16(x: nat, total: nat)
    requires 1 <= total <= 0x1_0000 && x == total % 0x1_0000
    ensures (x + 0xFFFF) % 0x1_0000 == total - 1
  {
  }

  lemma UnlinkCount(m: Memory, b: Book, s: Site, pend: Link)
    requires Counted(m.ref, b, pend) && Bounded(b) && s in b.refs
    requires b.refs[s].frame < |b.kind| == |m.link| && !b.kind[b.refs[s].frame].Reserved?
    ensures Counted(DecRef(m, b.refs[s].frame).ref, Unlinked(b, s, pend), pend)
    ensures Bounded(Unlinked(b, s, pend))
    ensures Unlinked(b, s, pend).free == b.free <==> DecRef(m, b.refs[s].frame).ref[b.refs[s].frame] != 0
  {
    var p := b.refs[s].frame;
    var b' := Unlinked(b, s, pend);
    var ref' := DecRef(m, p).ref;
    CountPositive(b.refs, s);
    var total := Count(b.refs, p) + One(pend == To(p));
    Dec16(m.ref[p], total);
    CountDrop(b.refs, s, p);
    assert b'.refs == b.refs - {s};
    assert |[p] + b.free| != |b.free|;
    forall q | 0 <= q < |b.kind|
      ensures ref'[q] == (Count(b'.refs, q) + One(pend == To(q)) + One(b'.kind[q].Reserved?)) % 0x1_0000
      ensures b'.kind[q].User? ==> Count(b'.refs, q) + One(pend == To(q)) > 0
      ensures Count(b'.refs, q) <= 0xFFFF
    {
      CountDrop(b.refs, s, q);
    }
  }

  lemma UnlinkTyped(m: Memory, b: Book, n: Memory, s: Site, pend: Link)
    requires Typed(m, b.kind) && Tied(m, b.refs) && s in b.refs
    requires b.refs[s].frame < |b.kind|
    requires s.Pte? || pend != To(b.refs[s].frame)
    requires Cleared(m, n, s)
    ensures Typed(n, Unlinked(b, s, pend).kind)
  {
    var p := b.refs[s].frame;
    var b' := Unlinked(b, s, pend);
    assert At(m, s) == b.refs[s] && b.kind[p] == KindAt(s);
    CountDrop(b.refs, s, p);
    if !s.Pte? {
      CountOne(m, b, p);
    }
    forall r | Present(At(n, r))
      ensures At(n, r).frame < |b'.kind| && b'.kind[At(n, r).frame] == KindAt(r)
    {
      assert r != s && r in b'.refs && b.kind[At(m, r).frame] == KindAt(r);
      CountPositive(b'.refs, r);
    }
    forall q | 0 <= q < |b'.kind|
      ensures Owned(n, b'.kind[q], q)
    {
      if b.kind[q] == b'.kind[q] && (b.kind[q].Dir? || b.kind[q].Table?) {
        assert At(n, SiteOf(b.kind[q])) == At(m, SiteOf(b.kind[q]));
        OwnedMove(m, n, b.kind[q], q);
      }
    }
  }
}
