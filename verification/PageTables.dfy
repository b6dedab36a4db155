/** What page_alloc, pgdir_walk, page_remove and page_insert (kern/pmap.c) do to memory,
    as functions, and the proof that they keep the reference-count invariant and
    implement a finite map from virtual pages to entries. */
module PageTables {
  import opened Paging

  function ZeroPage(): (z: seq<Entry>)
    ensures |z| == NPTENTRIES && forall k :: 0 <= k < |z| ==> z[k] == NOENTRY
  {
    seq(NPTENTRIES, _ => NOENTRY)
  }

  /** The contents of mapped (or about to be mapped) pages did not change. */
  ghost predicate SameData(kind: seq<Kind>, was: seq<seq<Entry>>, now: seq<seq<Entry>>) {
    && |kind| == |was| == |now|
    && forall p :: 0 <= p < |kind| && (kind[p].User? || kind[p].Loose?) ==> now[p] == was[p]
  }

  ghost predicate LooseOnly(b: Book, loose: set<nat>) {
    forall p :: 0 <= p < |b.kind| && b.kind[p].Loose? ==> p in loose
  }

  // ---- page_alloc ----------------------------------------------------------------------

  function Alloc(m: Memory, zero: bool): Memory {
    if m.head.Null? then m
    else if zero then SetPage(Pop(m), m.head.page, ZeroPage())
    else Pop(m)
  }

  lemma AllocStep(m: Memory, b: Book, zero: bool)
    requires Core(m, b, Null) && m.head.To?
    ensures b.free != [] && m.head == To(b.free[0]) && b.free[0] < |b.kind| && b.kind[b.free[0]].Free?
    ensures Core(Alloc(m, zero), Popped(b), Null)
  {
    PopStep(m, b, Null);
    if zero {
      FillStep(Pop(m), Popped(b), m.head.page, ZeroPage(), Null);
    }
  }

  lemma RootTyped(m: Memory, kind: seq<Kind>, e: nat)
    requires Typed(m, kind) && e in m.pgdir
    ensures m.pgdir[e] < |kind| && kind[m.pgdir[e]] == Dir(e) && |m.words[m.pgdir[e]]| == NPTENTRIES
  {
    assert Present(At(m, Root(e)));
  }

  // ---- pgdir_walk ----------------------------------------------------------------------

  function DirOf(m: Memory, e: nat): nat {
    if e in m.pgdir then m.pgdir[e] else 0
  }

  /** The page table behind directory entry i, if there is one. */
  function TableOf(m: Memory, e: nat, i: nat): Link {
    if Present(DirEntry(m, e, i)) then To(DirEntry(m, e, i).frame) else Null
  }

  function Walk(m: Memory, e: nat, i: nat, create: bool): Memory {
    if Present(DirEntry(m, e, i)) || !create || m.head.Null? then
      m
    else
      SetWord(IncRef(Alloc(m, true), m.head.page), DirOf(m, e), i, Entry(m.head.page, {P, W, U}))
  }

  ghost function WalkBook(b: Book, e: nat, i: nat): Book {
    if Pde(e, i) in b.refs || b.free == [] then b
    else Linked(Popped(b), Pde(e, i), Entry(b.free[0], {P, W, U}))
  }

  /** Hooking a fresh, zeroed page-table page into a directory. */
  lemma HookTable(m: Memory, b: Book, e: nat, i: nat, p: nat)
    requires Core(m, b, Null) && e in m.pgdir && i < UTOPX && Pde(e, i) !in b.refs
    requires p < |b.kind| && b.kind[p].Loose? && m.words[p] == ZeroPage()
    ensures Core(SetWord(IncRef(m, p), m.pgdir[e], i, Entry(p, {P, W, U})),
                 Linked(b, Pde(e, i), Entry(p, {P, W, U})), Null)
  {
    var x := Entry(p, {P, W, U});
    PendStep(m, b, p);
    var k := IncRef(m, p);
    var n := SetWord(k, m.pgdir[e], i, x);
    RootTyped(m, b.kind, e);
    WriteDir(k, b.kind, e, i, x);
    forall s
      ensures At(n, s) == if s == Pde(e, i) then x else At(k, s)
    {
      if s.Pte? && s.env == e && s.pdx == i {
        assert !Present(At(k, Pde(e, i)));
        assert DirEntry(n, e, i) == At(n, Pde(e, i)) == x;
        assert n.words[p] == m.words[p];
      }
    }
    LinkStep(k, b, n, Pde(e, i), x);
  }

  lemma WalkStep(m: Memory, b: Book, e: nat, i: nat)
    requires Core(m, b, Null) && e in m.pgdir && i < UTOPX
    ensures Core(Walk(m, e, i, true), WalkBook(b, e, i), Null)
    ensures TableOf(Walk(m, e, i, true), e, i).Null? ==> Walk(m, e, i, true) == m && b.free == []
  {
    assert Present(At(m, Pde(e, i))) <==> Pde(e, i) in b.refs;
    if !Present(DirEntry(m, e, i)) && m.head.To? {
      AllocStep(m, b, true);
      var p := m.head.page;
      HookTable(Alloc(m, true), Popped(b), e, i, p);
      assert DirOf(m, e) == m.pgdir[e];
      assert At(Walk(m, e, i, true), Pde(e, i)) == DirEntry(Walk(m, e, i, true), e, i);
      assert Pde(e, i) in WalkBook(b, e, i).refs;
    }
  }

  /** The page that the next allocation takes has no references. */
  ghost predicate FreshHead(b: Book) {
    b.free != [] ==> b.free[0] < |b.kind| && b.kind[b.free[0]].Free? && Count(b.refs, b.free[0]) == 0
  }

  lemma HeadFresh(m: Memory, b: Book)
    requires Core(m, b, Null)
    ensures FreshHead(b) && (m.head.Null? <==> b.free == []) && (m.head.To? ==> m.head == To(b.free[0]))
  {
    if b.free != [] {
      CountZero(m, b, b.free[0]);
    }
  }

  /** Making a page table changes no user mapping and no reference of a mapped page. */
  lemma WalkBookFrame(b: Book, e: nat, i: nat, p: nat)
    requires FreshHead(b) && p < |b.kind|
    ensures |WalkBook(b, e, i).kind| == |b.kind|
    ensures !b.kind[p].Free? ==>
              WalkBook(b, e, i).kind[p] == b.kind[p] && Count(WalkBook(b, e, i).refs, p) == Count(b.refs, p)
    ensures b.kind[p].Free? ==>
              !WalkBook(b, e, i).kind[p].Loose? && Count(WalkBook(b, e, i).refs, p) <= Count(b.refs, p) + 1
    ensures Count(b.refs, p) <= 0xFFFF ==> Count(WalkBook(b, e, i).refs, p) <= 0xFFFF
  {
    if Pde(e, i) !in b.refs && b.free != [] {
      CountAdd(b.refs, Pde(e, i), Entry(b.free[0], {P, W, U}), p);
    }
  }

  lemma WalkBounds(b: Book, e: nat, i: nat)
    requires FreshHead(b)
    ensures |WalkBook(b, e, i).kind| == |b.kind|
    ensures Bounded(b) ==> Bounded(WalkBook(b, e, i))
    ensures forall loose :: LooseOnly(b, loose) ==> LooseOnly(WalkBook(b, e, i), loose)
  {
    forall p | 0 <= p < |b.kind|
      ensures Count(b.refs, p) <= 0xFFFF ==> Count(WalkBook(b, e, i).refs, p) <= 0xFFFF
      ensures WalkBook(b, e, i).kind[p].Loose? ==> b.kind[p].Loose?
    {
      WalkBookFrame(b, e, i, p);
    }
  }

  lemma WalkMap(b: Book, e: nat, i: nat)
    ensures UserMap(WalkBook(b, e, i).refs) == UserMap(b.refs)
  {
  }

  lemma WalkData(m: Memory, b: Book, e: nat, i: nat)
    requires Core(m, b, Null) && e in m.pgdir
    ensures SameData(b.kind, m.words, Walk(m, e, i, true).words)
  {
    RootTyped(m, b.kind, e);
    HeadFresh(m, b);
  }

  // ---- page_remove ---------------------------------------------------------------------

  function Remove(m: Memory, e: nat, i: nat, j: nat): Memory {
    var x := At(m, Pte(e, i, j));
    if Present(x) then SetWord(DecRef(m, x.frame), DirEntry(m, e, i).frame, j, NOENTRY) else m
  }

  lemma RemoveStep(m: Memory, b: Book, e: nat, i: nat, j: nat, pend: Link)
    requires Core(m, b, pend) && Bounded(b)
    ensures Core(Remove(m, e, i, j), Unlinked(b, Pte(e, i, j), pend), pend)
    ensures Bounded(Unlinked(b, Pte(e, i, j), pend))
  {
    var s := Pte(e, i, j);
    if s in b.refs {
      var x := At(m, s);
      TableTyped(m, b.kind, e, i);
      var t := DirEntry(m, e, i).frame;
      var k := DecRef(m, x.frame);
      var n := SetWord(k, t, j, NOENTRY);
      WriteTable(m, b.kind, t, j, NOENTRY);
      assert n.words == SetWord(m, t, j, NOENTRY).words && n.pgdir == m.pgdir;
      SameAt(SetWord(m, t, j, NOENTRY), n);
      UnlinkStep(m, b, n, s, pend);
    }
  }

  lemma TableTyped(m: Memory, kind: seq<Kind>, e: nat, i: nat)
    requires Typed(m, kind) && Present(DirEntry(m, e, i))
    ensures e in m.pgdir && i < UTOPX
    ensures DirEntry(m, e, i).frame < |kind| && kind[DirEntry(m, e, i).frame] == Table(e, i)
  {
    assert At(m, Pde(e, i)) == DirEntry(m, e, i);
  }

  // ---- page_insert ---------------------------------------------------------------------

  /** Inserting fails exactly when a page table is missing and no page is left. */
  predicate NoTable(m: Memory, e: nat, i: nat) {
    !Present(DirEntry(m, e, i)) && m.head.Null?
  }

  /** page_insert once the page table exists. */
  function Fill(m: Memory, e: nat, p: nat, i: nat, j: nat, perm: set<Bit>): Memory {
    var d := DirEntry(m, e, i);
    var n := SetWord(Remove(IncRef(m, p), e, i, j), d.frame, j, Entry(p, perm + {P}));
    SetWord(n, DirOf(m, e), i, Entry(d.frame, d.flags + perm))
  }

  function Insert(m: Memory, e: nat, p: nat, i: nat, j: nat, perm: set<Bit>): Memory {
    if NoTable(m, e, i) then m else Fill(Walk(m, e, i, true), e, p, i, j, perm)
  }

  ghost function FillBook(b: Book, e: nat, p: nat, i: nat, j: nat, perm: set<Bit>): Book {
    var c := Linked(Unlinked(b, Pte(e, i, j), To(p)), Pte(e, i, j), Entry(p, perm + {P}));
    if Pde(e, i) in c.refs then
      var d := c.refs[Pde(e, i)];
      c.(refs := c.refs[Pde(e, i) := Entry(d.frame, d.flags + perm)])
    else
      c
  }

  ghost function InsertBook(b: Book, e: nat, p: nat, i: nat, j: nat, perm: set<Bit>): Book {
    FillBook(WalkBook(b, e, i), e, p, i, j, perm)
  }

  ghost predicate Mappable(b: Book, p: nat) {
    p < |b.kind| && (b.kind[p].User? || b.kind[p].Loose?)
  }

  /** Writing the entry itself, after any old mapping is gone. */
  lemma WriteEntry(m: Memory, b: Book, e: nat, p: nat, i: nat, j: nat, perm: set<Bit>)
    requires Core(m, b, To(p)) && Mappable(b, p) && Present(DirEntry(m, e, i)) && j < NPTENTRIES
    requires Pte(e, i, j) !in b.refs
    ensures Core(SetWord(m, DirEntry(m, e, i).frame, j, Entry(p, perm + {P})),
                 Linked(b, Pte(e, i, j), Entry(p, perm + {P})), Null)
  {
    TableTyped(m, b.kind, e, i);
    var t := DirEntry(m, e, i).frame;
    var x := Entry(p, perm + {P});
    WriteTable(m, b.kind, t, j, x);
    LinkStep(m, b, SetWord(m, t, j, x), Pte(e, i, j), x);
  }

  /** Making the directory entry at least as permissive. */
  lemma WidenDir(m: Memory, b: Book, e: nat, i: nat, perm: set<Bit>)
    requires Core(m, b, Null) && Pde(e, i) in b.refs
    ensures var d := DirEntry(m, e, i);
            && d == b.refs[Pde(e, i)]
            && Core(SetWord(m, DirOf(m, e), i, Entry(d.frame, d.flags + perm)),
                    b.(refs := b.refs[Pde(e, i) := Entry(d.frame, d.flags + perm)]), Null)
  {
    assert At(m, Pde(e, i)) == DirEntry(m, e, i);
    TableTyped(m, b.kind, e, i);
    RootTyped(m, b.kind, e);
    var d := DirEntry(m, e, i);
    var x := Entry(d.frame, d.flags + perm);
    var n := SetWord(m, DirOf(m, e), i, x);
    WriteDir(m, b.kind, e, i, x);
    forall s
      ensures At(n, s) == if s == Pde(e, i) then x else At(m, s)
    {
      if s.Pte? && s.env == e && s.pdx == i {
        assert DirEntry(n, e, i) == At(n, Pde(e, i)) == x;
        assert n.words[d.frame] == m.words[d.frame];
      }
    }
    ReflagStep(m, b, n, Pde(e, i), x, Null);
  }

  lemma RemoveRoots(m: Memory, e: nat, p: nat, i: nat, j: nat)
    ensures Remove(IncRef(m, p), e, i, j).pgdir == m.pgdir
  {
  }

  lemma UnlinkedKeeps(b: Book, s: Site, pend: Link)
    ensures forall r :: r in b.refs && r != s ==>
                          r in Unlinked(b, s, pend).refs && Unlinked(b, s, pend).refs[r] == b.refs[r]
  {
  }

  lemma SameDirEntry(m: Memory, b: Book, n: Memory, c: Book, e: nat, i: nat)
    requires Tied(m, b.refs) && Tied(n, c.refs)
    requires Present(DirEntry(m, e, i))
    requires Pde(e, i) in b.refs ==> Pde(e, i) in c.refs && c.refs[Pde(e, i)] == b.refs[Pde(e, i)]
    ensures DirEntry(n, e, i) == DirEntry(m, e, i)
  {
    assert At(m, Pde(e, i)) == DirEntry(m, e, i) && At(n, Pde(e, i)) == DirEntry(n, e, i);
  }

  /** Neither raising a count nor dropping a user page moves a page table. */
  lemma TableStays(m: Memory, b: Book, e: nat, p: nat, i: nat, j: nat)
    requires Core(m, b, Null) && Bounded(b) && Mappable(b, p) && Present(DirEntry(m, e, i))
    ensures var r := Remove(IncRef(m, p), e, i, j);
            && DirEntry(r, e, i) == DirEntry(m, e, i) && r.pgdir == m.pgdir
            && Core(r, Unlinked(b, Pte(e, i, j), To(p)), To(p))
  {
    PendStep(m, b, p);
    RemoveStep(IncRef(m, p), b, e, i, j, To(p));
    RemoveRoots(m, e, p, i, j);
    UnlinkedKeeps(b, Pte(e, i, j), To(p));
    SameDirEntry(m, b, Remove(IncRef(m, p), e, i, j), Unlinked(b, Pte(e, i, j), To(p)), e, i);
  }

  lemma FillStep2(m: Memory, b: Book, e: nat, p: nat, i: nat, j: nat, perm: set<Bit>)
    requires Core(m, b, Null) && Bounded(b) && Mappable(b, p)
    requires Present(DirEntry(m, e, i)) && j < NPTENTRIES
    ensures Core(Fill(m, e, p, i, j, perm), FillBook(b, e, p, i, j, perm), Null)
  {
    var s, x := Pte(e, i, j), Entry(p, perm + {P});
    var d := DirEntry(m, e, i);
    TableStays(m, b, e, p, i, j);
    var r := Remove(IncRef(m, p), e, i, j);
    var c := Unlinked(b, s, To(p));
    StillMappable(b, s, p);
    WriteEntry(r, c, e, p, i, j, perm);
    var n := SetWord(r, d.frame, j, x);
    assert At(m, Pde(e, i)) == d;
    assert Pde(e, i) in Linked(c, s, x).refs && Linked(c, s, x).refs[Pde(e, i)] == d;
    WidenDir(n, Linked(c, s, x), e, i, perm);
    assert DirOf(n, e) == DirOf(m, e);
  }

  lemma StillMappable(b: Book, s: Site, p: nat)
    requires Mappable(b, p)
    ensures Mappable(Unlinked(b, s, To(p)), p) && s !in Unlinked(b, s, To(p)).refs
  {
  }

  /** page_insert keeps the invariant. */
  lemma InsertStep(m: Memory, b: Book, e: nat, p: nat, i: nat, j: nat, perm: set<Bit>)
    requires Core(m, b, Null) && Bounded(b) && Mappable(b, p)
    requires e in m.pgdir && i < UTOPX && j < NPTENTRIES && !NoTable(m, e, i)
    ensures Core(Insert(m, e, p, i, j, perm), InsertBook(b, e, p, i, j, perm), Null)
  {
    WalkStep(m, b, e, i);
    HeadFresh(m, b);
    WalkBookFrame(b, e, i, p);
    WalkBounds(b, e, i);
    FillStep2(Walk(m, e, i, true), WalkBook(b, e, i), e, p, i, j, perm);
  }

  /** The page tables implement a finite map: insertion sets one key and no other. */
  lemma InsertMap(b: Book, e: nat, p: nat, i: nat, j: nat, perm: set<Bit>)
    ensures UserMap(InsertBook(b, e, p, i, j, perm).refs) == UserMap(b.refs)[Pte(e, i, j) := Entry(p, perm + {P})]
  {
    WalkMap(b, e, i);
    FillMap(WalkBook(b, e, i), e, p, i, j, perm);
  }

  lemma FillMap(b: Book, e: nat, p: nat, i: nat, j: nat, perm: set<Bit>)
    ensures UserMap(FillBook(b, e, p, i, j, perm).refs) == UserMap(b.refs)[Pte(e, i, j) := Entry(p, perm + {P})]
  {
  }

  /** Mapping a page that already has 65535 references would wrap its count, unless
      the address maps that page already. */
  predicate RoomFor(m: Memory, p: nat, s: Site) {
    p < |m.ref| && (m.ref[p] < 0xFFFF || (Present(At(m, s)) && At(m, s).frame == p))
  }

  lemma FillBound(b: Book, e: nat, p: nat, i: nat, j: nat, perm: set<Bit>)
    requires Bounded(b) && Mappable(b, p) && Pde(e, i) in b.refs
    ensures Bounded(FillBook(b, e, p, i, j, perm)) <==>
              Count(b.refs, p) < 0xFFFF || (Pte(e, i, j) in b.refs && b.refs[Pte(e, i, j)].frame == p)
  {
    var s, x := Pte(e, i, j), Entry(p, perm + {P});
    var c := Unlinked(b, s, To(p));
    var f := FillBook(b, e, p, i, j, perm);
    forall q | 0 <= q < |b.kind|
      ensures Count(f.refs, q) == Count(b.refs, q) + One(q == p) - One(s in b.refs && b.refs[s].frame == q)
    {
      FillCount(b, e, p, i, j, perm, q);
    }
  }

  lemma FillCount(b: Book, e: nat, p: nat, i: nat, j: nat, perm: set<Bit>, q: nat)
    requires Pde(e, i) in b.refs
    ensures Count(FillBook(b, e, p, i, j, perm).refs, q) ==
              Count(b.refs, q) + One(q == p) - One(Pte(e, i, j) in b.refs && b.refs[Pte(e, i, j)].frame == q)
  {
    var s, x := Pte(e, i, j), Entry(p, perm + {P});
    var c := Unlinked(b, s, To(p)).refs;
    if s in b.refs {
      CountDrop(b.refs, s, q);
    }
    CountAdd(c, s, x, q);
    assert Sites(FillBook(b, e, p, i, j, perm).refs, q) == Sites(c[s := x], q);
  }

  lemma RoomCount(m: Memory, b: Book, p: nat, s: Site)
    requires Counted(m.ref, b, Null) && Tied(m, b.refs) && Bounded(b) && Mappable(b, p)
    ensures RoomFor(m, p, s) <==> Count(b.refs, p) < 0xFFFF || (s in b.refs && b.refs[s].frame == p)
  {
    assert m.ref[p] == Count(b.refs, p);
  }

  lemma InsertCount(b: Book, e: nat, p: nat, i: nat, j: nat, perm: set<Bit>)
    requires FreshHead(b) && Bounded(b) && Mappable(b, p) && Pde(e, i) in WalkBook(b, e, i).refs
    ensures Bounded(InsertBook(b, e, p, i, j, perm)) <==>
              Count(b.refs, p) < 0xFFFF || (Pte(e, i, j) in b.refs && b.refs[Pte(e, i, j)].frame == p)
  {
    WalkBookFrame(b, e, i, p);
    WalkBounds(b, e, i);
    FillBound(WalkBook(b, e, i), e, p, i, j, perm);
  }

  /** After page_insert every count fits its 16 bits exactly when there was room for one
      more reference to the page. */
  lemma InsertBound(m: Memory, b: Book, e: nat, p: nat, i: nat, j: nat, perm: set<Bit>)
    requires Core(m, b, Null) && Bounded(b) && Mappable(b, p)
    requires e in m.pgdir && i < UTOPX && j < NPTENTRIES && !NoTable(m, e, i)
    ensures Bounded(InsertBook(b, e, p, i, j, perm)) <==> RoomFor(m, p, Pte(e, i, j))
  {
    HeadFresh(m, b);
    RoomCount(m, b, p, Pte(e, i, j));
    assert At(m, Pde(e, i)) == DirEntry(m, e, i);
    InsertCount(b, e, p, i, j, perm);
  }

  lemma InsertKinds(m: Memory, b: Book, e: nat, p: nat, i: nat, j: nat, perm: set<Bit>)
    requires Core(m, b, Null) && Bounded(b) && Mappable(b, p) && LooseOnly(b, {p})
    requires e in m.pgdir && i < UTOPX && j < NPTENTRIES && !NoTable(m, e, i)
    ensures NoLoose(InsertBook(b, e, p, i, j, perm))
    ensures |InsertBook(b, e, p, i, j, perm).kind| == |b.kind|
  {
    var c := WalkBook(b, e, i);
    HeadFresh(m, b);
    WalkBounds(b, e, i);
    assert LooseOnly(c, {p});
    FillLoose(c, e, p, i, j, perm);
    KindsKept(b, e, i);
  }

  lemma InsertData(m: Memory, b: Book, e: nat, p: nat, i: nat, j: nat, perm: set<Bit>)
    requires Core(m, b, Null) && Bounded(b) && Mappable(b, p)
    requires e in m.pgdir && i < UTOPX && j < NPTENTRIES && !NoTable(m, e, i)
    ensures SameData(b.kind, m.words, Insert(m, e, p, i, j, perm).words)
  {
    WalkStep(m, b, e, i);
    HeadFresh(m, b);
    WalkBounds(b, e, i);
    FillTyped(Walk(m, e, i, true), WalkBook(b, e, i), e, p, i, j, perm);
    WalkData(m, b, e, i);
    KindsKept(b, e, i);
  }

  /** The inserted page becomes an ordinary mapped page, and page contents stay put. */
  lemma InsertFrame(m: Memory, b: Book, e: nat, p: nat, i: nat, j: nat, perm: set<Bit>)
    requires Core(m, b, Null) && Bounded(b) && Mappable(b, p) && LooseOnly(b, {p})
    requires e in m.pgdir && i < UTOPX && j < NPTENTRIES && !NoTable(m, e, i)
    ensures NoLoose(InsertBook(b, e, p, i, j, perm))
    ensures |InsertBook(b, e, p, i, j, perm).kind| == |b.kind|
    ensures SameData(b.kind, m.words, Insert(m, e, p, i, j, perm).words)
  {
    InsertKinds(m, b, e, p, i, j, perm);
    InsertData(m, b, e, p, i, j, perm);
  }

  lemma FillLoose(b: Book, e: nat, p: nat, i: nat, j: nat, perm: set<Bit>)
    requires LooseOnly(b, {p})
    ensures |FillBook(b, e, p, i, j, perm).kind| == |b.kind|
    ensures NoLoose(FillBook(b, e, p, i, j, perm))
  {
  }

  lemma KindsKept(b: Book, e: nat, i: nat)
    requires FreshHead(b)
    ensures forall q :: 0 <= q < |b.kind| && !b.kind[q].Free? ==>
                          |WalkBook(b, e, i).kind| == |b.kind| && WalkBook(b, e, i).kind[q] == b.kind[q]
  {
    forall q | 0 <= q < |b.kind| && !b.kind[q].Free?
      ensures |WalkBook(b, e, i).kind| == |b.kind| && WalkBook(b, e, i).kind[q] == b.kind[q]
    {
      WalkBookFrame(b, e, i, q);
    }
  }

  lemma FillTyped(w: Memory, c: Book, e: nat, p: nat, i: nat, j: nat, perm: set<Bit>)
    requires Typed(w, c.kind) && Present(DirEntry(w, e, i))
    ensures SameData(c.kind, w.words, Fill(w, e, p, i, j, perm).words)
  {
    TableTyped(w, c.kind, e, i);
    RootTyped(w, c.kind, e);
    FillData(w, e, p, i, j, perm);
  }

  lemma FillData(w: Memory, e: nat, p: nat, i: nat, j: nat, perm: set<Bit>)
    ensures |Fill(w, e, p, i, j, perm).words| == |w.words|
    ensures forall q :: 0 <= q < |w.words| && q != DirOf(w, e) && q != DirEntry(w, e, i).frame ==>
                          Fill(w, e, p, i, j, perm).words[q] == w.words[q]
  {
  }

  // ---- Address spaces ------------------------------------------------------------------

  /** A directory page whose user half is empty. */
  ghost predicate EmptyDir(page: seq<Entry>) {
    |page| == NPTENTRIES && forall k :: 0 <= k < UTOPX ==> page[k] == NOENTRY
  }

  ghost function RootBook(b: Book, e: nat, p: nat): Book {
    Linked(b, Root(e), Entry(p, {P}))
  }

  /** env_setup_vm: a loose page with an empty user half becomes a page directory. */
  lemma RootStep(m: Memory, b: Book, e: nat, p: nat)
    requires Core(m, b, Null) && e !in m.pgdir
    requires p < |b.kind| && b.kind[p].Loose? && EmptyDir(m.words[p])
    ensures Core(IncRef(m, p).(pgdir := m.pgdir[e := p]), RootBook(b, e, p), Null)
  {
    PendStep(m, b, p);
    var k := IncRef(m, p);
    var n := k.(pgdir := m.pgdir[e := p]);
    forall s
      ensures At(n, s) == if s == Root(e) then Entry(p, {P}) else At(k, s)
    {
      if !s.Root? && s.env == e {
        assert DirEntry(n, e, s.pdx) == NOENTRY;
      }
    }
    LinkStep(k, b, n, Root(e), Entry(p, {P}));
  }

  /** Rewriting the kernel half of a directory leaves every user entry alone. */
  lemma UpperStep(m: Memory, b: Book, e: nat, page: seq<Entry>)
    requires Core(m, b, Null) && e in m.pgdir && |page| == NPTENTRIES
    requires m.pgdir[e] < |m.words| && |m.words[m.pgdir[e]]| == NPTENTRIES
    requires page[..UTOPX] == m.words[m.pgdir[e]][..UTOPX]
    ensures Core(SetPage(m, m.pgdir[e], page), b, Null)
  {
    var d := m.pgdir[e];
    var n := SetPage(m, d, page);
    RootTyped(m, b.kind, e);
    assert forall k :: 0 <= k < UTOPX ==> page[k] == page[..UTOPX][k] == m.words[d][k];
    forall s
      ensures At(n, s) == At(m, s)
    {
      if s.Root? || s.env != e {
        SameTable(m, b.kind, n, d, s);
      } else {
        assert DirEntry(n, e, s.pdx) == DirEntry(m, e, s.pdx);
        if s.Pte? && Present(DirEntry(m, e, s.pdx)) {
          TableTyped(m, b.kind, e, s.pdx);
        }
      }
    }
    SameTables(m, b, n, b.kind);
    SameFree(m, b, n, b);
  }

  /** env_free: an empty page table is unhooked and freed. */
  lemma DropTable(m: Memory, b: Book, e: nat, i: nat)
    requires Core(m, b, Null) && Bounded(b) && Pde(e, i) in b.refs
    requires forall j :: Pte(e, i, j) !in b.refs
    ensures DirEntry(m, e, i) == b.refs[Pde(e, i)] && e in m.pgdir && i < UTOPX
    ensures Core(DecRef(SetWord(m, m.pgdir[e], i, NOENTRY), DirEntry(m, e, i).frame),
                 Unlinked(b, Pde(e, i), Null), Null)
    ensures Bounded(Unlinked(b, Pde(e, i), Null))
  {
    assert At(m, Pde(e, i)) == DirEntry(m, e, i);
    TableTyped(m, b.kind, e, i);
    RootTyped(m, b.kind, e);
    var d := m.pgdir[e];
    var k := SetWord(m, d, i, NOENTRY);
    WriteDir(m, b.kind, e, i, NOENTRY);
    var n := DecRef(k, DirEntry(m, e, i).frame);
    SameAt(k, n);
    forall r | r != Pde(e, i)
      ensures At(n, r) == At(m, r) || (!Present(At(m, r)) && !Present(At(n, r)))
    {
      if r.Pte? && r.env == e && r.pdx == i {
        assert r !in b.refs;
        assert DirEntry(k, e, i) == At(k, Pde(e, i)) == NOENTRY;
      }
    }
    assert Cleared(m, n, Pde(e, i));
    UnlinkStep(m, b, n, Pde(e, i), Null);
  }

  lemma RootCleared(m: Memory, refs: map<Site, Entry>, e: nat, n: Memory)
    requires Tied(m, refs) && n.words == m.words && n.pgdir == m.pgdir - {e}
    requires forall p :: 0 <= p < |m.words| ==> |m.words[p]| == NPTENTRIES
    requires forall s :: s in refs && s.env == e ==> s.Root?
    ensures Cleared(m, n, Root(e))
  {
    forall r | r != Root(e)
      ensures At(n, r) == At(m, r) || (!Present(At(m, r)) && !Present(At(n, r)))
    {
      if r.env == e {
        assert r !in refs;
      }
    }
  }

  /** env_free: an empty directory is freed. */
  lemma DropRoot(m: Memory, b: Book, e: nat)
    requires Core(m, b, Null) && Bounded(b) && e in m.pgdir
    requires forall s :: s in b.refs && s.env == e ==> s.Root?
    ensures Root(e) in b.refs
    ensures Core(DecRef(m.(pgdir := m.pgdir - {e}), m.pgdir[e]), Unlinked(b, Root(e), Null), Null)
    ensures Bounded(Unlinked(b, Root(e), Null))
  {
    var n := DecRef(m.(pgdir := m.pgdir - {e}), m.pgdir[e]);
    assert Root(e) in b.refs && b.refs[Root(e)].frame == m.pgdir[e] < |b.kind| by {
      RootTyped(m, b.kind, e);
      assert Present(At(m, Root(e)));
    }
    assert Cleared(m, n, Root(e)) by { RootCleared(m, b.refs, e, n); }
    UnlinkStep(m, b, n, Root(e), Null);
  }

  /** Between system calls the free list holds exactly the pages with a zero count, and
      those are the unreserved pages that no page table names. */
  lemma FreeIsUnreferenced(m: Memory, b: Book, p: nat)
    requires Valid(m, b) && p < |b.kind|
    ensures p in b.free <==> m.ref[p] == 0
    ensures p in b.free <==> !b.kind[p].Reserved? && Sites(b.refs, p) == {}
    ensures !b.kind[p].Reserved? ==> m.ref[p] == |Sites(b.refs, p)|
  {
    if b.kind[p].Free? || b.kind[p].Reserved? {
      CountZero(m, b, p);
    } else if b.kind[p].Dir? || b.kind[p].Table? {
      CountOne(m, b, p);
    }
  }

  /** A page on the free list is mapped nowhere. */
  lemma FreePageUnmapped(m: Memory, b: Book, p: nat)
    requires Valid(m, b) && p in b.free
    ensures forall s :: s in UserMap(b.refs) ==> UserMap(b.refs)[s].frame != p
  {
    FreeIsUnreferenced(m, b, p);
    forall s | s in UserMap(b.refs)
      ensures UserMap(b.refs)[s].frame != p
    {
      assert s !in Sites(b.refs, p);
    }
  }

  // ---- Lookups ----------------------------------------------------------------------------

  /** What page_lookup finds at a user address: nothing, or the entry. */
  predicate FindsAt(m: Memory, s: Site, x: Entry) {
    Present(At(m, s)) && At(m, s) == x
  }

  lemma FindsUser(m: Memory, refs: map<Site, Entry>, s: Site)
    requires Tied(m, refs) && s.Pte?
    ensures Present(At(m, s)) <==> s in UserMap(refs)
    ensures s in UserMap(refs) ==> At(m, s) == UserMap(refs)[s]
  {
  }

  /** Insert then look up: the inserted page with its permissions, also when the same page was
      there before, and every other address of every address space finds what it found. */
  lemma InsertThenLookup(m: Memory, b: Book, e: nat, p: nat, i: nat, j: nat, perm: set<Bit>, s: Site, x: Entry)
    requires Core(m, b, Null) && Bounded(b) && Mappable(b, p) && s.Pte?
    requires e in m.pgdir && i < UTOPX && j < NPTENTRIES && !NoTable(m, e, i)
    ensures FindsAt(Insert(m, e, p, i, j, perm), Pte(e, i, j), Entry(p, perm + {P}))
    ensures s != Pte(e, i, j) ==> (FindsAt(Insert(m, e, p, i, j, perm), s, x) <==> FindsAt(m, s, x))
  {
    var n, c := Insert(m, e, p, i, j, perm), InsertBook(b, e, p, i, j, perm);
    InsertStep(m, b, e, p, i, j, perm);
    InsertMap(b, e, p, i, j, perm);
    FindsUser(m, b.refs, s);
    FindsUser(n, c.refs, s);
    FindsUser(n, c.refs, Pte(e, i, j));
  }

  /** The directory entry above an inserted page grants all that the page's own entry does. */
  lemma InsertWidens(m: Memory, b: Book, e: nat, p: nat, i: nat, j: nat, perm: set<Bit>)
    requires Core(m, b, Null) && Bounded(b) && Mappable(b, p)
    requires e in m.pgdir && i < UTOPX && j < NPTENTRIES && !NoTable(m, e, i)
    ensures At(Insert(m, e, p, i, j, perm), Pte(e, i, j)) == Entry(p, perm + {P})
    ensures perm + {P} <= At(Insert(m, e, p, i, j, perm), Pde(e, i)).flags
  {
    var n, c := Insert(m, e, p, i, j, perm), InsertBook(b, e, p, i, j, perm);
    InsertStep(m, b, e, p, i, j, perm);
    assert Tied(n, c.refs);
    assert Pte(e, i, j) in c.refs && c.refs[Pte(e, i, j)] == Entry(p, perm + {P});
    assert Pde(e, i) in c.refs;
  }

  lemma UnlinkedRefs(b: Book, s: Site)
    ensures Unlinked(b, s, Null).refs == b.refs - {s}
  {
  }

  lemma LookupLess(m: Memory, refs: map<Site, Entry>, n: Memory, k: Site, s: Site, x: Entry)
    requires Tied(m, refs) && Tied(n, refs - {k})
    ensures !Present(At(n, k))
    ensures s != k ==> (FindsAt(n, s, x) <==> FindsAt(m, s, x))
  {
    assert s in refs - {k} <==> s in refs && s != k;
    assert k !in refs - {k};
  }

  /** Remove then look up: nothing there, and every other address finds what it found. */
  lemma RemoveThenLookup(m: Memory, b: Book, e: nat, i: nat, j: nat, s: Site, x: Entry)
    requires Core(m, b, Null) && Bounded(b)
    ensures !Present(At(Remove(m, e, i, j), Pte(e, i, j)))
    ensures s != Pte(e, i, j) ==> (FindsAt(Remove(m, e, i, j), s, x) <==> FindsAt(m, s, x))
  {
    RemoveStep(m, b, e, i, j, Null);
    UnlinkedRefs(b, Pte(e, i, j));
    LookupLess(m, b.refs, Remove(m, e, i, j), Pte(e, i, j), s, x);
  }
}
