/** Page tables at any virtual address (kern/pmap.c).  Above UTOP an address space shares the
    kernel's page tables, whose mappings nobody counts; sys_ipc_try_send nevertheless inserts
    pages there. */
module HighMappings {
  import opened Paging
  import opened PageTables

  /** The word at any index of e's page directory. */
  function DirWord(m: Memory, e: nat, i: nat): Entry {
    if e in m.pgdir then Word(m.words, m.pgdir[e], i) else NOENTRY
  }

  /** The page-table word behind any index pair: below UTOP the entry of a site. */
  function EntryAt(m: Memory, e: nat, i: nat, j: nat): Entry {
    var d := DirWord(m, e, i);
    if Present(d) then Word(m.words, d.frame, j) else NOENTRY
  }

  // ---- pgdir_walk, page_remove and page_insert at any index --------------------------------------

  function WalkAny(m: Memory, e: nat, i: nat, create: bool): Memory {
    if Present(DirWord(m, e, i)) || !create || m.head.Null? then m
    else SetWord(IncRef(Alloc(m, true), m.head.page), DirOf(m, e), i, Entry(m.head.page, {P, W, U}))
  }

  function RemoveAny(m: Memory, e: nat, i: nat, j: nat): Memory {
    var x := EntryAt(m, e, i, j);
    if Present(x) then SetWord(DecRef(m, x.frame), DirWord(m, e, i).frame, j, NOENTRY) else m
  }

  predicate NoTableAny(m: Memory, e: nat, i: nat) {
    !Present(DirWord(m, e, i)) && m.head.Null?
  }

  /** page_insert once the page table exists: count, remove, write, widen the directory entry. */
  function FillAny(m: Memory, e: nat, p: nat, i: nat, j: nat, perm: set<Bit>): Memory {
    var n := SetWord(RemoveAny(IncRef(m, p), e, i, j), DirWord(m, e, i).frame, j, Entry(p, perm + {P}));
    var d := DirWord(n, e, i);
    SetWord(n, DirOf(m, e), i, Entry(d.frame, d.flags + perm))
  }

  function InsertAny(m: Memory, e: nat, p: nat, i: nat, j: nat, perm: set<Bit>): Memory {
    if NoTableAny(m, e, i) then m else FillAny(WalkAny(m, e, i, true), e, p, i, j, perm)
  }

  lemma LowEntry(m: Memory, e: nat, i: nat, j: nat)
    requires i < UTOPX && j < NPTENTRIES
    ensures DirWord(m, e, i) == DirEntry(m, e, i) && EntryAt(m, e, i, j) == At(m, Pte(e, i, j))
  {
  }

  /** Below UTOP these are the counted operations. */
  lemma LowSame(m: Memory, e: nat, i: nat, j: nat)
    requires i < UTOPX && j < NPTENTRIES
    ensures forall create :: WalkAny(m, e, i, create) == Walk(m, e, i, create)
    ensures RemoveAny(m, e, i, j) == Remove(m, e, i, j)
  {
    LowEntry(m, e, i, j);
  }

  lemma LowInsert(m: Memory, b: Book, e: nat, p: nat, i: nat, j: nat, perm: set<Bit>)
    requires Core(m, b, Null) && Bounded(b) && Mappable(b, p)
    requires e in m.pgdir && i < UTOPX && j < NPTENTRIES
    ensures NoTableAny(m, e, i) == NoTable(m, e, i)
    ensures InsertAny(m, e, p, i, j, perm) == Insert(m, e, p, i, j, perm)
  {
    LowEntry(m, e, i, j);
    LowSame(m, e, i, j);
    if !NoTable(m, e, i) {
      var w := Walk(m, e, i, true);
      WalkStep(m, b, e, i);
      LowSame(IncRef(w, p), e, i, j);
      LowEntry(w, e, i, j);
      LowFill(w, WalkBook(b, e, i).kind, e, p, i, j, perm);
    }
  }

  /** Neither dropping a user page nor writing a page table moves the directory's word. */
  lemma LowFill(w: Memory, kind: seq<Kind>, e: nat, p: nat, i: nat, j: nat, perm: set<Bit>)
    requires Typed(w, kind) && e in w.pgdir && i < UTOPX && j < NPTENTRIES && Present(DirEntry(w, e, i))
    ensures FillAny(w, e, p, i, j, perm) == Fill(w, e, p, i, j, perm)
  {
    LowEntry(w, e, i, j);
    LowSame(IncRef(w, p), e, i, j);
    TableTyped(w, kind, e, i);
    RootTyped(w, kind, e);
    var t := DirEntry(w, e, i).frame;
    var r := Remove(IncRef(w, p), e, i, j);
    var n := SetWord(r, t, j, Entry(p, perm + {P}));
    assert t != w.pgdir[e];
    assert r.pgdir == w.pgdir && n.pgdir == w.pgdir;
    assert r.words[w.pgdir[e]] == w.words[w.pgdir[e]];
    assert n.words[w.pgdir[e]] == w.words[w.pgdir[e]];
  }

  // ---- The kernel half ---------------------------------------------------------------------------

  /** Above UTOP every directory has kern_pgdir's page tables, which are pages set aside at boot, and
      itself at UVPT. */
  ghost predicate KernelHalf(m: Memory, kern: seq<Entry>, kind: seq<Kind>) {
    && |kern| == NPTENTRIES
    && (forall i :: UTOPX <= i < NPTENTRIES && i != UVPTX && Present(kern[i]) ==>
          kern[i].frame < |kind| && kind[kern[i].frame].Reserved?)
    && (forall e, i :: e in m.pgdir && UTOPX <= i < NPTENTRIES ==>
          && Present(DirWord(m, e, i)) == (i == UVPTX || Present(kern[i]))
          && (Present(DirWord(m, e, i)) ==> DirWord(m, e, i).frame == if i == UVPTX then m.pgdir[e] else kern[i].frame))
  }

  /** No directory that is left changed above UTOP. */
  ghost predicate SameUpper(m: Memory, n: Memory) {
    && (forall e :: e in n.pgdir ==> e in m.pgdir && n.pgdir[e] == m.pgdir[e])
    && (forall e, i {:trigger DirWord(n, e, i)} :: e in n.pgdir && UTOPX <= i < NPTENTRIES ==>
          DirWord(n, e, i) == DirWord(m, e, i))
  }

  ghost predicate StillReserved(was: seq<Kind>, now: seq<Kind>) {
    |was| == |now| && forall p :: 0 <= p < |was| && was[p].Reserved? ==> now[p].Reserved?
  }

  lemma KernelHalfKept(m: Memory, n: Memory, kern: seq<Entry>, was: seq<Kind>, now: seq<Kind>)
    requires KernelHalf(m, kern, was) && SameUpper(m, n) && StillReserved(was, now)
    ensures KernelHalf(n, kern, now)
  {
  }

  lemma SameUpperOf(m: Memory, n: Memory, k: Memory)
    requires SameUpper(m, n) && k.words == n.words && k.pgdir == n.pgdir
    ensures SameUpper(m, k)
  {
    forall e, i | e in k.pgdir && UTOPX <= i < NPTENTRIES ensures DirWord(k, e, i) == DirWord(m, e, i) {
      assert DirWord(k, e, i) == DirWord(n, e, i);
    }
  }

  lemma SameUpperTrans(a: Memory, b: Memory, c: Memory)
    requires SameUpper(a, b) && SameUpper(b, c)
    ensures SameUpper(a, c)
  {
  }

  /** Writing a user word of a directory, or any page that is no directory, keeps the upper halves. */
  lemma WriteUpper(m: Memory, kind: seq<Kind>, n: Memory, p: nat)
    requires Typed(m, kind) && p < |kind| && |n.words| == |m.words| && n.pgdir == m.pgdir
    requires n.words == m.words[p := n.words[p]]
    requires kind[p].Dir? ==>
               |n.words[p]| == NPTENTRIES && forall i :: UTOPX <= i < NPTENTRIES ==> n.words[p][i] == m.words[p][i]
    ensures SameUpper(m, n)
  {
    forall e, i | e in n.pgdir && UTOPX <= i < NPTENTRIES ensures DirWord(n, e, i) == DirWord(m, e, i) {
      RootTyped(m, kind, e);
    }
  }

  lemma RemoveUpper(m: Memory, b: Book, e: nat, i: nat, j: nat)
    requires Typed(m, b.kind) && i < UTOPX
    ensures SameUpper(m, Remove(m, e, i, j))
  {
    if Present(At(m, Pte(e, i, j))) {
      TableTyped(m, b.kind, e, i);
      WriteUpper(m, b.kind, Remove(m, e, i, j), DirEntry(m, e, i).frame);
    }
  }

  lemma AllocUpper(m: Memory, b: Book, zero: bool)
    requires Core(m, b, Null)
    ensures SameUpper(m, Alloc(m, zero))
  {
    if m.head.To? {
      AllocStep(m, b, zero);
      if zero {
        WriteUpper(m, b.kind, Alloc(m, zero), m.head.page);
      }
    }
  }

  lemma WalkUpper(m: Memory, b: Book, e: nat, i: nat)
    requires Core(m, b, Null) && e in m.pgdir && i < UTOPX
    ensures SameUpper(m, Walk(m, e, i, true))
  {
    if !Present(DirEntry(m, e, i)) && m.head.To? {
      AllocStep(m, b, true);
      AllocUpper(m, b, true);
      var a := Alloc(m, true);
      RootTyped(a, Popped(b).kind, e);
      WriteUpper(a, Popped(b).kind, Walk(m, e, i, true), m.pgdir[e]);
      SameUpperTrans(m, a, Walk(m, e, i, true));
    }
  }

  lemma FillUpper(w: Memory, kind: seq<Kind>, e: nat, p: nat, i: nat, j: nat, perm: set<Bit>)
    requires Typed(w, kind) && e in w.pgdir && i < UTOPX && j < NPTENTRIES && Present(DirEntry(w, e, i))
    ensures SameUpper(w, Fill(w, e, p, i, j, perm))
  {
    TableTyped(w, kind, e, i);
    RootTyped(w, kind, e);
    var t, d := DirEntry(w, e, i).frame, w.pgdir[e];
    var n := SetWord(Remove(IncRef(w, p), e, i, j), t, j, Entry(p, perm + {P}));
    SameAt(w, IncRef(w, p));
    assert n.words == w.words[t := n.words[t]];
    forall g, k | g in w.pgdir && UTOPX <= k < NPTENTRIES
      ensures DirWord(Fill(w, e, p, i, j, perm), g, k) == DirWord(w, g, k)
    {
      RootTyped(w, kind, g);
    }
  }

  lemma InsertUpper(m: Memory, b: Book, e: nat, p: nat, i: nat, j: nat, perm: set<Bit>)
    requires Core(m, b, Null) && e in m.pgdir && i < UTOPX && j < NPTENTRIES
    ensures SameUpper(m, Insert(m, e, p, i, j, perm))
  {
    if !NoTable(m, e, i) {
      WalkStep(m, b, e, i);
      WalkUpper(m, b, e, i);
      FillUpper(Walk(m, e, i, true), WalkBook(b, e, i).kind, e, p, i, j, perm);
      SameUpperTrans(m, Walk(m, e, i, true), Insert(m, e, p, i, j, perm));
    }
  }

  lemma WalkReserved(m: Memory, b: Book, e: nat, i: nat, s: Site)
    requires FreeList(m, b) && Typed(m, b.kind) && Tied(m, b.refs) && s.Pte?
    ensures var c := WalkBook(b, e, i);
            && StillReserved(b.kind, c.kind)
            && (s in c.refs ==> c.refs[s].frame < |c.kind| && !c.kind[c.refs[s].frame].Reserved?)
  {
    if b.free != [] {
      assert b.free[0] in b.free;
    }
    if s in b.refs {
      assert Present(At(m, s)) && b.kind[b.refs[s].frame].User?;
    }
  }

  lemma UnlinkReserved(b: Book, s: Site, pend: Link)
    requires s in b.refs ==> b.refs[s].frame < |b.kind| && !b.kind[b.refs[s].frame].Reserved?
    ensures StillReserved(b.kind, Unlinked(b, s, pend).kind)
  {
  }

  /** Only pages that were free or mapped change their use. */
  lemma InsertReserved(m: Memory, b: Book, e: nat, p: nat, i: nat, j: nat, perm: set<Bit>)
    requires FreeList(m, b) && Typed(m, b.kind) && Tied(m, b.refs) && Mappable(b, p)
    ensures StillReserved(b.kind, InsertBook(b, e, p, i, j, perm).kind)
  {
    var s, c := Pte(e, i, j), WalkBook(b, e, i);
    WalkReserved(m, b, e, i, s);
    UnlinkReserved(c, s, To(p));
  }

  // ---- Inserting above UTOP ------------------------------------------------------------------------

  /** The words that the page tables of the user halves are made of are as they were. */
  ghost predicate UserWordsKept(m: Memory, kind: seq<Kind>, n: Memory) {
    && n.pgdir == m.pgdir && |n.words| == |m.words| == |kind|
    && (forall q :: 0 <= q < |kind| ==> |n.words[q]| == NPTENTRIES)
    && (forall q :: 0 <= q < |kind| && kind[q].Table? ==> n.words[q] == m.words[q])
    && (forall q, k :: 0 <= q < |kind| && kind[q].Dir? && 0 <= k < UTOPX ==> Word(n.words, q, k) == Word(m.words, q, k))
  }

  lemma KeptSites(m: Memory, kind: seq<Kind>, n: Memory)
    requires Typed(m, kind) && UserWordsKept(m, kind, n)
    ensures forall s :: At(n, s) == At(m, s)
  {
    forall s ensures At(n, s) == At(m, s) {
      if !s.Root? && s.env in m.pgdir && s.pdx < UTOPX {
        RootTyped(m, kind, s.env);
        assert Word(n.words, m.pgdir[s.env], s.pdx) == Word(m.words, m.pgdir[s.env], s.pdx);
        if Present(DirEntry(m, s.env, s.pdx)) {
          TableTyped(m, kind, s.env, s.pdx);
        }
      }
    }
  }

  /** Page q is no page table, and if it is a directory then word k is above UTOP. */
  predicate Harmless(kind: seq<Kind>, q: nat, k: nat) {
    q < |kind| && !kind[q].Table? && (kind[q].Dir? ==> k >= UTOPX)
  }

  lemma KeptWrite(m: Memory, kind: seq<Kind>, n: Memory, q: nat, k: nat, x: Entry)
    requires UserWordsKept(m, kind, n) && Harmless(kind, q, k)
    ensures UserWordsKept(m, kind, SetWord(n, q, k, x))
  {
  }

  /** What insertion above UTOP starts from: p is a mapped user page, and the page that is mapped at
      the address now, if any, has a page structure. */
  ghost predicate Above(m: Memory, b: Book, kern: seq<Entry>, e: nat, p: nat, i: nat, j: nat) {
    && Core(m, b, Null) && Bounded(b) && KernelHalf(m, kern, b.kind)
    && e in m.pgdir && UTOPX <= i < NPTENTRIES && j < NPTENTRIES
    && p < |b.kind| && b.kind[p].User?
    && !NoTableAny(m, e, i) && (Present(EntryAt(m, e, i, j)) ==> EntryAt(m, e, i, j).frame < |m.ref|)
  }

  /** The page is mapped at the address already. */
  predicate SameFrame(m: Memory, e: nat, p: nat, i: nat, j: nat) {
    Present(EntryAt(m, e, i, j)) && EntryAt(m, e, i, j).frame == p
  }

  /** The page-table page, found or made: set aside, fresh, or the directory itself at UVPT. */
  lemma WalkAbove(m: Memory, b: Book, kern: seq<Entry>, e: nat, p: nat, i: nat, j: nat)
    requires Above(m, b, kern, e, p, i, j)
    ensures var w := WalkAny(m, e, i, true);
            var t := DirWord(w, e, i).frame;
            && UserWordsKept(m, b.kind, w) && |w.ref| == |m.ref| && w.ref[p] == m.ref[p]
            && Present(DirWord(w, e, i)) && t < |b.kind|
            && (if i == UVPTX then t == m.pgdir[e] else b.kind[t].Reserved? || b.kind[t].Free?)
            && EntryAt(w, e, i, j) == EntryAt(m, e, i, j)
            && (Present(DirWord(m, e, i)) ==> w == m)
            && (i == UVPTX ==> w == m)
  {
    RootTyped(m, b.kind, e);
    if !Present(DirWord(m, e, i)) {
      FreshAbove(m, b, e, p, i, j);
    }
  }

  lemma HeadIsFree(m: Memory, b: Book)
    requires FreeList(m, b) && m.head.To?
    ensures b.free != [] && m.head.page == b.free[0] < |b.kind| == |m.link| && b.kind[b.free[0]].Free?
  {
    assert b.free[0] in b.free;
  }

  lemma KeptZeroed(m: Memory, kind: seq<Kind>, n: Memory, h: nat)
    requires |m.words| == |kind| && (forall q :: 0 <= q < |kind| ==> |m.words[q]| == NPTENTRIES)
    requires h < |kind| && kind[h].Free? && n.pgdir == m.pgdir && n.words == m.words[h := ZeroPage()]
    ensures UserWordsKept(m, kind, n)
  {
  }

  /** A page table made for the occasion is empty. */
  lemma FreshAbove(m: Memory, b: Book, e: nat, p: nat, i: nat, j: nat)
    requires FreeList(m, b) && Typed(m, b.kind) && |m.ref| == |b.kind| && e in m.pgdir
    requires UTOPX <= i < NPTENTRIES && j < NPTENTRIES
    requires p < |b.kind| && b.kind[p].User? && m.head.To? && !Present(DirWord(m, e, i))
    ensures var w := WalkAny(m, e, i, true);
            && UserWordsKept(m, b.kind, w) && |w.ref| == |m.ref| && w.ref[p] == m.ref[p]
            && DirWord(w, e, i) == Entry(m.head.page, {P, W, U}) && m.head.page < |b.kind|
            && b.kind[m.head.page].Free? && EntryAt(w, e, i, j) == NOENTRY
  {
    HeadIsFree(m, b);
    RootTyped(m, b.kind, e);
    var h := m.head.page;
    var k := IncRef(Alloc(m, true), h);
    KeptZeroed(m, b.kind, k, h);
    KeptWrite(m, b.kind, k, m.pgdir[e], i, Entry(h, {P, W, U}));
    assert k.words[h] == ZeroPage();
  }

  lemma FillRef(w: Memory, e: nat, p: nat, i: nat, j: nat, perm: set<Bit>)
    requires p < |w.ref| && !SameFrame(w, e, p, i, j)
    ensures var n := FillAny(w, e, p, i, j, perm); |n.ref| == |w.ref| && n.ref[p] == (w.ref[p] + 1) % 0x1_0000
  {
    assert EntryAt(IncRef(w, p), e, i, j) == EntryAt(w, e, i, j);
  }

  lemma FillKept(m: Memory, kind: seq<Kind>, w: Memory, e: nat, p: nat, i: nat, j: nat, perm: set<Bit>)
    requires UserWordsKept(m, kind, w) && e in m.pgdir
    requires Harmless(kind, DirWord(w, e, i).frame, j) && Harmless(kind, m.pgdir[e], i)
    ensures UserWordsKept(m, kind, FillAny(w, e, p, i, j, perm))
  {
    var t, k := DirWord(w, e, i).frame, IncRef(w, p);
    var x := EntryAt(k, e, i, j);
    assert DirWord(k, e, i) == DirWord(w, e, i);
    var r := RemoveAny(k, e, i, j);
    if Present(x) {
      assert UserWordsKept(m, kind, DecRef(k, x.frame));
      KeptWrite(m, kind, DecRef(k, x.frame), t, j, NOENTRY);
    }
    KeptWrite(m, kind, r, t, j, Entry(p, perm + {P}));
    var n := SetWord(r, t, j, Entry(p, perm + {P}));
    var d := DirWord(n, e, i);
    KeptWrite(m, kind, n, m.pgdir[e], i, Entry(d.frame, d.flags + perm));
  }

  /** The count of a page that was not mapped there goes up, and no word of the user halves changes
      unless the address names a directory's user half through UVPT. */
  lemma FillAbove(m: Memory, b: Book, kern: seq<Entry>, e: nat, p: nat, i: nat, j: nat, perm: set<Bit>)
    requires Above(m, b, kern, e, p, i, j)
    ensures var n := InsertAny(m, e, p, i, j, perm);
            && p < |m.ref|
            && (!SameFrame(m, e, p, i, j) ==> |n.ref| == |m.ref| && n.ref[p] == (m.ref[p] + 1) % 0x1_0000)
            && (i != UVPTX || j >= UTOPX ==> UserWordsKept(m, b.kind, n))
  {
    WalkAbove(m, b, kern, e, p, i, j);
    RootTyped(m, b.kind, e);
    FillFrom(m, b.kind, WalkAny(m, e, i, true), e, p, i, j, perm);
  }

  lemma FillFrom(m: Memory, kind: seq<Kind>, w: Memory, e: nat, p: nat, i: nat, j: nat, perm: set<Bit>)
    requires UserWordsKept(m, kind, w) && p < |m.ref| == |w.ref| && w.ref[p] == m.ref[p] && e in m.pgdir && i >= UTOPX
    requires m.pgdir[e] < |kind| && !kind[m.pgdir[e]].Table?
    requires var t := DirWord(w, e, i).frame;
             t < |kind| && (if i == UVPTX then t == m.pgdir[e] else kind[t].Reserved? || kind[t].Free?)
    requires EntryAt(w, e, i, j) == EntryAt(m, e, i, j)
    ensures var n := FillAny(w, e, p, i, j, perm);
            && (!SameFrame(m, e, p, i, j) ==> |n.ref| == |m.ref| && n.ref[p] == (m.ref[p] + 1) % 0x1_0000)
            && (i != UVPTX || j >= UTOPX ==> UserWordsKept(m, kind, n))
  {
    if !SameFrame(m, e, p, i, j) {
      FillRef(w, e, p, i, j, perm);
    }
    if i != UVPTX || j >= UTOPX {
      FillKept(m, kind, w, e, p, i, j, perm);
    }
  }

  /** Through UVPT a user word of the directory itself is overwritten with the page. */
  lemma FillDirectory(m: Memory, b: Book, kern: seq<Entry>, e: nat, p: nat, i: nat, j: nat, perm: set<Bit>)
    requires Above(m, b, kern, e, p, i, j) && i == UVPTX && j < UTOPX
    ensures At(InsertAny(m, e, p, i, j, perm), Pde(e, j)) == Entry(p, perm + {P})
    ensures !SameFrame(m, e, p, i, j)
  {
    WalkAbove(m, b, kern, e, p, i, j);
    RootTyped(m, b.kind, e);
    assert EntryAt(m, e, i, j) == At(m, Pde(e, j));
  }

  lemma CountOfUser(m: Memory, b: Book, p: nat)
    requires Counted(m.ref, b, Null) && Bounded(b) && p < |b.kind| && b.kind[p].User?
    ensures p < |m.ref| && m.ref[p] == Count(b.refs, p) <= 0xFFFF
  {
  }

  /** With the same entries everywhere, the count can only be what it was. */
  lemma CountFromEntries(m: Memory, b: Book, n: Memory, c: Book, p: nat)
    requires Typed(m, b.kind) && Tied(m, b.refs) && UserWordsKept(m, b.kind, n) && Count(b.refs, p) > 0
    requires Core(n, c, Null)
    ensures p < |n.ref| && n.ref[p] == Count(b.refs, p) % 0x1_0000
  {
    KeptSites(m, b.kind, n);
    RefsDetermined(m, n, b.refs, c.refs);
    MappedIsUser(n, c, b, p);
  }

  /** A page that serves as a page table has one reference. */
  lemma CountAsTable(n: Memory, c: Book, p: nat, e: nat, j: nat)
    requires Core(n, c, Null) && Present(At(n, Pde(e, j))) && At(n, Pde(e, j)).frame == p
    ensures p < |n.ref| && n.ref[p] == 1
  {
    assert c.kind[p] == Table(e, j);
    CountOne(n, c, p);
  }

  lemma BreaksFrom(m: Memory, b: Book, n: Memory, c: Book, p: nat, e: nat, j: nat)
    requires Core(m, b, Null) && Bounded(b) && p < |b.kind| && b.kind[p].User? && Count(b.refs, p) > 0
    requires |n.ref| == |m.ref| && p < |m.ref| && n.ref[p] == (m.ref[p] + 1) % 0x1_0000
    requires || UserWordsKept(m, b.kind, n)
             || (Present(At(n, Pde(e, j))) && At(n, Pde(e, j)).frame == p)
    ensures !Valid(n, c)
  {
    CountOfUser(m, b, p);
    OneMore(m.ref[p]);
    if Core(n, c, Null) {
      NewCount(m, b, n, c, p, e, j);
    }
  }

  lemma NewCount(m: Memory, b: Book, n: Memory, c: Book, p: nat, e: nat, j: nat)
    requires Typed(m, b.kind) && Tied(m, b.refs) && Count(b.refs, p) > 0 && Core(n, c, Null)
    requires || UserWordsKept(m, b.kind, n)
             || (Present(At(n, Pde(e, j))) && At(n, Pde(e, j)).frame == p)
    ensures p < |n.ref| && (n.ref[p] == 1 || n.ref[p] == Count(b.refs, p) % 0x1_0000)
  {
    if UserWordsKept(m, b.kind, n) {
      CountFromEntries(m, b, n, c, p);
    } else {
      CountAsTable(n, c, p, e, j);
    }
  }

  lemma OneMore(x: nat)
    requires 0 < x <= 0xFFFF
    ensures (x + 1) % 0x1_0000 != 1 && (x + 1) % 0x1_0000 != x % 0x1_0000
  {
  }

  /** A page mapped above UTOP for the first time has a count that no page tables account for. */
  lemma AboveBreaks(m: Memory, b: Book, kern: seq<Entry>, e: nat, p: nat, i: nat, j: nat, perm: set<Bit>, c: Book)
    requires Above(m, b, kern, e, p, i, j) && !SameFrame(m, e, p, i, j) && Count(b.refs, p) > 0
    ensures !Valid(InsertAny(m, e, p, i, j, perm), c)
  {
    FillAbove(m, b, kern, e, p, i, j, perm);
    if i == UVPTX && j < UTOPX {
      FillDirectory(m, b, kern, e, p, i, j, perm);
    }
    BreaksFrom(m, b, InsertAny(m, e, p, i, j, perm), c, p, e, j);
  }

  lemma RefsDetermined(m: Memory, n: Memory, r: map<Site, Entry>, q: map<Site, Entry>)
    requires Tied(m, r) && Tied(n, q) && forall s :: At(n, s) == At(m, s)
    ensures q == r
  {
    forall s
      ensures s in q <==> s in r
      ensures s in q ==> q[s] == r[s]
    {
      assert At(n, s) == At(m, s);
    }
  }

  lemma MappedIsUser(n: Memory, c: Book, b: Book, p: nat)
    requires Typed(n, c.kind) && Tied(n, c.refs) && c.refs == b.refs && Count(b.refs, p) > 0
    ensures p < |c.kind| && !c.kind[p].Reserved?
  {
    var s :| s in Sites(b.refs, p);
    assert c.kind[At(n, s).frame] == KindAt(s);
  }

  /** What UVPT shows is page tables, the directory and kernel page tables: no user page. */
  lemma SelfEntry(m: Memory, b: Book, kern: seq<Entry>, e: nat, j: nat)
    requires Typed(m, b.kind) && KernelHalf(m, kern, b.kind) && e in m.pgdir && j < NPTENTRIES
    ensures var x := EntryAt(m, e, UVPTX, j); Present(x) ==> x.frame < |b.kind| && !b.kind[x.frame].User?
  {
    RootTyped(m, b.kind, e);
    assert EntryAt(m, e, UVPTX, j) == DirWord(m, e, j);
    assert j < UTOPX ==> DirWord(m, e, j) == At(m, Pde(e, j));
  }

  lemma SelfFrame(m: Memory, b: Book, kern: seq<Entry>, e: nat, p: nat, i: nat, j: nat)
    requires Above(m, b, kern, e, p, i, j) && SameFrame(m, e, p, i, j)
    ensures i != UVPTX && Present(DirWord(m, e, i)) && Present(kern[i]) && DirWord(m, e, i).frame == kern[i].frame
  {
    SelfEntry(m, b, kern, e, j);
  }

  lemma Undone(r: nat)
    requires r <= 0xFFFF
    ensures ((r + 1) % 0x1_0000 + 0xFFFF) % 0x1_0000 == r
  {
  }

  /** Re-inserting page p into page table t changes a word of t and the flags of a directory word. */
  lemma SameFill(m: Memory, e: nat, p: nat, i: nat, j: nat, perm: set<Bit>)
    requires SameFrame(m, e, p, i, j) && e in m.pgdir && p < |m.ref| && 0 < m.ref[p] <= 0xFFFF
    requires m.pgdir[e] < |m.words| && i < |m.words[m.pgdir[e]]| && DirWord(m, e, i).frame != m.pgdir[e]
    ensures var n, t, d := InsertAny(m, e, p, i, j, perm), DirWord(m, e, i).frame, m.pgdir[e];
            && n.ref == m.ref && n.link == m.link && n.head == m.head && n.pgdir == m.pgdir
            && |n.words| == |m.words|
            && (forall q :: 0 <= q < |m.words| && q != t && q != d ==> n.words[q] == m.words[q])
            && n.words[d] == m.words[d][i := Entry(t, DirWord(m, e, i).flags + perm)]
  {
    var k := IncRef(m, p);
    assert EntryAt(k, e, i, j) == EntryAt(m, e, i, j) && DirWord(k, e, i) == DirWord(m, e, i);
    Undone(m.ref[p]);
    assert DecRef(k, p).ref == m.ref;
  }

  /** Only flags above UTOP change. */
  lemma UpperReflagged(m: Memory, kind: seq<Kind>, kern: seq<Entry>, n: Memory, e: nat, i: nat, t: nat, x: Entry)
    requires Typed(m, kind) && KernelHalf(m, kern, kind) && e in m.pgdir && i < NPTENTRIES
    requires n.pgdir == m.pgdir && |n.words| == |m.words| && t < |kind| && kind[t].Reserved?
    requires forall q :: 0 <= q < |m.words| && q != t && q != m.pgdir[e] ==> n.words[q] == m.words[q]
    requires m.pgdir[e] < |m.words| && |m.words[m.pgdir[e]]| == NPTENTRIES
    requires n.words[m.pgdir[e]] == m.words[m.pgdir[e]][i := x]
    requires Present(x) && Present(DirWord(m, e, i)) && x.frame == DirWord(m, e, i).frame
    ensures KernelHalf(n, kern, kind)
  {
    forall g, k | g in m.pgdir && UTOPX <= k < NPTENTRIES
      ensures DirWord(n, g, k).frame == DirWord(m, g, k).frame
      ensures Present(DirWord(n, g, k)) == Present(DirWord(m, g, k))
    {
      RootTyped(m, kind, g);
    }
  }

  /** Mapping the page where it is mapped already changes no count. */
  lemma AboveKeeps(m: Memory, b: Book, kern: seq<Entry>, e: nat, p: nat, i: nat, j: nat, perm: set<Bit>)
    requires Above(m, b, kern, e, p, i, j) && SameFrame(m, e, p, i, j) && Count(b.refs, p) > 0 && NoLoose(b)
    ensures var n := InsertAny(m, e, p, i, j, perm); Valid(n, b) && KernelHalf(n, kern, b.kind)
  {
    CountOfUser(m, b, p);
    SelfFrame(m, b, kern, e, p, i, j);
    RootTyped(m, b.kind, e);
    SameFill(m, e, p, i, j, perm);
    FillAbove(m, b, kern, e, p, i, j, perm);
    KeepsFrom(m, b, kern, InsertAny(m, e, p, i, j, perm), e, i, perm);
  }

  lemma KeepsFrom(m: Memory, b: Book, kern: seq<Entry>, n: Memory, e: nat, i: nat, perm: set<Bit>)
    requires Valid(m, b) && KernelHalf(m, kern, b.kind) && UserWordsKept(m, b.kind, n)
    requires n.ref == m.ref && n.link == m.link && n.head == m.head
    requires e in m.pgdir && UTOPX <= i < NPTENTRIES && i != UVPTX && Present(DirWord(m, e, i))
    requires m.pgdir[e] < |m.words| == |n.words| && |m.words[m.pgdir[e]]| == NPTENTRIES
    requires n.words[m.pgdir[e]] ==
             m.words[m.pgdir[e]][i := Entry(kern[i].frame, DirWord(m, e, i).flags + perm)]
    requires forall q :: 0 <= q < |m.words| && q != kern[i].frame && q != m.pgdir[e] ==> n.words[q] == m.words[q]
    ensures Valid(n, b) && KernelHalf(n, kern, b.kind)
  {
    UpperReflagged(m, b.kind, kern, n, e, i, kern[i].frame, Entry(kern[i].frame, DirWord(m, e, i).flags + perm));
    SameState(m, b, n);
  }

  /** A state that differs in no user word and in no page structure is as good. */
  lemma SameState(m: Memory, b: Book, n: Memory)
    requires Valid(m, b) && UserWordsKept(m, b.kind, n) && n.ref == m.ref && n.link == m.link && n.head == m.head
    ensures Valid(n, b)
  {
    KeptSites(m, b.kind, n);
    SameTables(m, b, n, b.kind);
    SameFree(m, b, n, b);
  }

  /** sys_ipc_try_send above UTOP: some bookkeeping makes the counts right afterwards exactly when
      the page was mapped at that very address already. */
  lemma AboveExact(m: Memory, b: Book, kern: seq<Entry>, e: nat, p: nat, i: nat, j: nat, perm: set<Bit>)
    requires Above(m, b, kern, e, p, i, j) && NoLoose(b) && Count(b.refs, p) > 0
    ensures (exists c :: Valid(InsertAny(m, e, p, i, j, perm), c)) <==> SameFrame(m, e, p, i, j)
  {
    if SameFrame(m, e, p, i, j) {
      AboveKeeps(m, b, kern, e, p, i, j, perm);
    } else {
      forall c ensures !Valid(InsertAny(m, e, p, i, j, perm), c) {
        AboveBreaks(m, b, kern, e, p, i, j, perm, c);
      }
    }
  }

  lemma DropsLast(w: Memory, e: nat, p: nat, i: nat, j: nat, perm: set<Bit>)
    requires Present(EntryAt(w, e, i, j)) && EntryAt(w, e, i, j).frame < |w.ref| && EntryAt(w, e, i, j).frame != p
    requires w.ref[EntryAt(w, e, i, j).frame] == 1
    ensures var n, q := FillAny(w, e, p, i, j, perm), EntryAt(w, e, i, j).frame;
            |n.ref| == |w.ref| && n.ref[q] == 0 && n.head == To(q)
  {
    assert EntryAt(IncRef(w, p), e, i, j) == EntryAt(w, e, i, j);
  }

  /** A page sent to a receiver that passed no address goes to UTOP, where the envs array is mapped
      read-only: its first page, whose count is one, is put on the free list. */
  lemma EnvsPageFreed(m: Memory, b: Book, kern: seq<Entry>, e: nat, p: nat, perm: set<Bit>, q: nat)
    requires Above(m, b, kern, e, p, UTOPX, 0) && q < |b.kind| && b.kind[q].Reserved? && m.ref[q] == 1
    requires Present(EntryAt(m, e, UTOPX, 0)) && EntryAt(m, e, UTOPX, 0).frame == q && Count(b.refs, p) > 0
    ensures var n := InsertAny(m, e, p, UTOPX, 0, perm); q < |n.ref| && n.ref[q] == 0 && n.head == To(q)
    ensures forall c :: !Valid(InsertAny(m, e, p, UTOPX, 0, perm), c)
  {
    DropsLast(m, e, p, UTOPX, 0, perm);
    forall c ensures !Valid(InsertAny(m, e, p, UTOPX, 0, perm), c) {
      AboveBreaks(m, b, kern, e, p, UTOPX, 0, perm, c);
    }
  }
}
