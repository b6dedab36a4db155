/** The kernel's physical page allocator, page tables, environment memory and page
    system calls (kern/pmap.c, kern/env.c, kern/syscall.c) as one object whose fields
    the operations update in place. */
module KernelMemory {
  import opened Paging
  import opened PageTables
  import opened HighMappings
  import opened EnvTable
  import opened Common
  import opened Addresses

  /** The address is one that the page system calls take. */
  predicate PageAligned(va: nat) {
    va < 0xEEC0_0000 && va % 4096 == 0
  }

  /** The permissions that a page may be mapped with: no bit but these, and one of P and U. */
  predicate Grantable(perm: set<Bit>) {
    perm <= {P, U, W, COW, SHARE, AVAIL9} && (P in perm || U in perm)
  }

  /** The test that the page system calls make of a permission. */
  method PermOk(perm: set<Bit>) returns (ok: bool)
    ensures ok <==> Grantable(perm)
  {
    ok := perm <= PTE_SYSCALL && !(perm !! {U, P});
  }

  /** The tests that sys_ipc_try_send makes of the page to be sent. */
  method SourceOk(srcva: nat, perm: set<Bit>) returns (ok: bool)
    requires srcva < UTOP
    ensures ok <==> PageAligned(srcva) && Grantable(perm)
  {
    ok := PermOk(perm);
    ok := ok && srcva % PGSIZE == 0;
  }

  /** Pointers and indices stay inside pages[] and physical memory. */
  ghost predicate Sized(m: Memory) {
    && |m.ref| == |m.link| == |m.words|
    && (forall p :: 0 <= p < |m.words| ==> |m.words[p]| == NPTENTRIES)
    && (m.head.To? ==> m.head.page < |m.link|)
    && (forall e :: e in m.pgdir ==> m.pgdir[e] < |m.words|)
  }

  /** Dropping a reference leaves none. */
  predicate LastRef(ref: nat) {
    (ref + 0xFFFF) % 0x1_0000 == 0
  }

  /** None of the panics of KADDR, pa2page and page_free is in the way of removing what is mapped at
      (i, j): the page table and the page exist, and a page about to be freed is not free. */
  ghost predicate Reach(m: Memory, e: nat, i: nat, j: nat) {
    && Sized(m) && e in m.pgdir && i < NPTENTRIES && j < NPTENTRIES
    && (Present(DirWord(m, e, i)) ==> DirWord(m, e, i).frame < |m.words|)
    && (Present(EntryAt(m, e, i, j)) ==>
          var q := EntryAt(m, e, i, j).frame; q < |m.ref| && (LastRef(m.ref[q]) ==> m.link[q].Null?))
  }

  lemma CoreSized(m: Memory, b: Book, pend: Link)
    requires Core(m, b, pend)
    ensures Sized(m)
  {
    forall e | e in m.pgdir
      ensures m.pgdir[e] < |m.words|
    {
      RootTyped(m, b.kind, e);
    }
  }

  lemma CoreReach(m: Memory, b: Book, pend: Link, e: nat, i: nat, j: nat)
    requires Core(m, b, pend) && e in m.pgdir && i < UTOPX && j < NPTENTRIES
    ensures Reach(m, e, i, j)
  {
    CoreSized(m, b, pend);
    LowEntry(m, e, i, j);
    assert At(m, Pde(e, i)) == DirEntry(m, e, i);
  }

  /** What page_insert relies on once it has made the page table. */
  ghost predicate InsertReady(m: Memory, e: nat, p: nat, i: nat, j: nat) {
    && Sized(m) && e in m.pgdir && i < NPTENTRIES && j < NPTENTRIES && p < |m.ref|
    && (!NoTableAny(m, e, i) ==> Reach(IncRef(WalkAny(m, e, i, true), p), e, i, j))
  }

  lemma CoreInsertReady(m: Memory, b: Book, e: nat, p: nat, i: nat, j: nat)
    requires Core(m, b, Null) && Bounded(b) && Mappable(b, p)
    requires e in m.pgdir && i < UTOPX && j < NPTENTRIES
    ensures InsertReady(m, e, p, i, j)
  {
    CoreSized(m, b, Null);
    LowEntry(m, e, i, j);
    LowSame(m, e, i, j);
    if !NoTable(m, e, i) {
      WalkStep(m, b, e, i);
      var w, c := Walk(m, e, i, true), WalkBook(b, e, i);
      HeadFresh(m, b);
      WalkBookFrame(b, e, i, p);
      PendStep(w, c, p);
      CoreReach(IncRef(w, p), c, To(p), e, i, j);
    }
  }

  lemma AboveInsertReady(m: Memory, b: Book, kern: seq<Entry>, e: nat, p: nat, i: nat, j: nat)
    requires Above(m, b, kern, e, p, i, j)
    ensures InsertReady(m, e, p, i, j)
  {
    CoreSized(m, b, Null);
    WalkAbove(m, b, kern, e, p, i, j);
    WalkSized(m, b, e, i);
    var w := WalkAny(m, e, i, true);
    if Present(EntryAt(m, e, i, j)) {
      NotFreed(m, b, p, EntryAt(m, e, i, j).frame);
    }
    assert EntryAt(IncRef(w, p), e, i, j) == EntryAt(w, e, i, j) && DirWord(IncRef(w, p), e, i) == DirWord(w, e, i);
  }

  lemma WalkSized(m: Memory, b: Book, e: nat, i: nat)
    requires Core(m, b, Null) && e in m.pgdir && i < NPTENTRIES
    ensures Sized(WalkAny(m, e, i, true))
  {
    CoreSized(m, b, Null);
    if m.head.To? {
      AllocStep(m, b, true);
      CoreSized(Alloc(m, true), Popped(b), Null);
    }
  }

  /** A page whose count is one, or about to be, is not on the free list. */
  lemma NotFreed(m: Memory, b: Book, p: nat, q: nat)
    requires Core(m, b, Null) && p < |b.kind| && b.kind[p].User? && q < |b.kind|
    ensures LastRef(IncRef(m, p).ref[q]) ==> m.link[q].Null?
  {
    if b.kind[q].Free? {
      CountZero(m, b, q);
    }
  }

  const IOHOLE: nat := 96      // pages between IOPHYSMEM and EXTPHYSMEM
  const MPENTRY: nat := 7      // MPENTRY_PADDR / PGSIZE

  /** Pages that page_init marks in use: the first, the hole for devices and what the kernel has
      allocated after it, and the page for starting other processors. */
  predicate BootUsed(p: nat, basemem: nat, used: nat) {
    p == 0 || basemem <= p < basemem + 96 + used || p == 7
  }

  /** With no address space yet there is nothing to count. */
  lemma BootValid(m: Memory, b: Book, basemem: nat, used: nat)
    requires FreeList(m, b) && m.pgdir == map[] && b.refs == map[] && |m.words| == |m.ref| == |b.kind|
    requires forall p :: 0 <= p < |m.words| ==> |m.words[p]| == NPTENTRIES
    requires forall p :: 0 <= p < |m.ref| ==>
               && b.kind[p] == (if BootUsed(p, basemem, used) then Reserved else Free)
               && m.ref[p] == One(BootUsed(p, basemem, used))
    ensures Valid(m, b)
  {
    forall s
      ensures At(m, s) == NOENTRY
    {
    }
    forall p: nat
      ensures Count(b.refs, p) == 0
    {
      assert Sites(b.refs, p) == {};
    }
    assert Typed(m, b.kind) && Tied(m, b.refs);
    assert Counted(m.ref, b, Null);
  }

  /** Environment slots in use are the ones with an address space; the others are on
      env_free_list, once each. */
  ghost predicate EnvsOk(envs: seq<Env>, link: seq<Link>, head: Link, free: seq<nat>, pgdir: map<nat, nat>) {
    && TableOk(envs) && |link| == NENV
    && Chain(head, link, free)
    && (forall e: nat :: e in free <==> e < NENV && envs[e].status.FREE?)
    && (forall e: nat :: e in pgdir <==> e < NENV && !envs[e].status.FREE?)
  }

  class Kernel {
    var ref: seq<nat>             // pages[].pp_ref
    var link: seq<Link>           // pages[].pp_link
    var head: Link                // page_free_list
    var words: seq<seq<Entry>>    // physical memory
    var pgdir: map<nat, nat>      // envs[].env_pgdir
    var envs: seq<Env>
    var envLink: seq<Link>        // envs[].env_link
    var envHead: Link             // env_free_list
    var kern: seq<Entry>          // kern_pgdir above UTOP
    ghost var book: Book
    ghost var envFree: seq<nat>

    function M(): Memory
      reads `ref, `link, `head, `words, `pgdir
    {
      Memory(ref, link, head, words, pgdir)
    }

    /** page_init and env_init: page 0, the I/O hole with the boot-time allocations after
        it, and the MPENTRY page are in use; everything else is free, and so is every
        environment slot, lowest first. */
    constructor Boot(memory: seq<seq<Entry>>, basemem: nat, used: nat)
      requires forall p :: 0 <= p < |memory| ==> |memory[p]| == NPTENTRIES
      ensures Inv()
      ensures |ref| == |memory| && words == memory && pgdir == map[]
      ensures forall i :: 0 <= i < NPTENTRIES ==> kern[i] == NOENTRY
      ensures forall p :: 0 <= p < |memory| ==> (p in book.free <==> !BootUsed(p, basemem, used))
      ensures |envFree| == NENV && forall e :: 0 <= e < NENV ==> envFree[e] == e
    {
      kern := ZeroPage();
      words, pgdir := memory, map[];
      ref, link, head := seq(|memory|, _ => 0), seq(|memory|, _ => Null), Null;
      envs := seq(NENV, _ => Env(0, 0, FREE, 0, false, 0, 0, 0, {}));
      envLink, envHead := seq(NENV, _ => Null), Null;
      book := Book(seq(|memory|, _ => Reserved), [], map[]);
      envFree := [];
      new;
      PageInit(basemem, used);
      EnvInit();
      BootValid(M(), book, basemem, used);
    }

    /** The loop of page_init. */
    method PageInit(basemem: nat, used: nat)
      requires |ref| == |link| == |book.kind| && head.Null? && book.free == []
      requires forall p :: 0 <= p < |ref| ==> book.kind[p].Reserved? && link[p].Null?
      modifies `ref, `link, `head, `book
      ensures |ref| == |old(ref)| && FreeList(M(), book) && book.refs == old(book).refs
      ensures |book.kind| == |old(book).kind|
      ensures forall p :: 0 <= p < |ref| ==>
                && book.kind[p] == (if BootUsed(p, basemem, used) then Reserved else Free)
                && ref[p] == One(BootUsed(p, basemem, used))
    {
      for i := 0 to |ref|
        invariant |ref| == |link| == |book.kind| == |old(ref)| && book.refs == old(book).refs
        invariant FreeList(M(), book)
        invariant forall p :: 0 <= p < i ==>
                    && book.kind[p] == (if BootUsed(p, basemem, used) then Reserved else Free)
                    && ref[p] == One(BootUsed(p, basemem, used))
        invariant forall p :: i <= p < |ref| ==> book.kind[p].Reserved?
      {
        if i == 0 || basemem <= i < basemem + IOHOLE + used || i == MPENTRY {
          InitUsed(i);
        } else {
          InitFree(i);
        }
      }
    }

    method InitUsed(i: nat)
      requires i < |ref| == |link| == |book.kind| && FreeList(M(), book) && book.kind[i].Reserved?
      modifies `ref, `link
      ensures ref == old(ref)[i := 1] && |link| == |old(link)| && FreeList(M(), book)
    {
      ghost var m := M();
      assert link[i := Null] == link;
      ref := ref[i := 1];
      link := link[i := Null];
      SameFree(m, book, M(), book);
    }

    method InitFree(i: nat)
      requires i < |ref| == |link| == |book.kind| && FreeList(M(), book) && book.kind[i].Reserved?
      modifies `ref, `link, `head, `book
      ensures ref == old(ref)[i := 0] && |link| == |old(link)| && FreeList(M(), book)
      ensures book.kind == old(book).kind[i := Free] && book.refs == old(book).refs
    {
      ghost var m := M();
      PushFree(m, book, i);
      ref := ref[i := 0];
      link := link[i := head];
      head := To(i);
      book := Pushed(book, i);
      SameFree(Push(m, i), book, M(), book);
    }

    /** env_init: the slots go on the free list in order. */
    method EnvInit()
      requires |envs| == NENV == |envLink| && pgdir == map[] && envFree == [] && envHead.Null?
      requires forall e :: 0 <= e < NENV ==> envs[e].status.FREE?
      modifies `envs, `envLink, `envHead, `envFree
      ensures EnvsOk(envs, envLink, envHead, envFree, pgdir)
      ensures |envFree| == NENV && forall e :: 0 <= e < NENV ==> envFree[e] == e
    {
      var i := NENV;
      while i > 0
        invariant 0 <= i <= NENV && |envs| == NENV == |envLink|
        invariant forall e :: 0 <= e < NENV ==> envs[e].status.FREE?
        invariant forall e :: i <= e < NENV ==> envs[e].id == 0
        invariant Chain(envHead, envLink, envFree)
        invariant |envFree| == NENV - i && forall k :: 0 <= k < |envFree| ==> envFree[k] == i + k
      {
        i := i - 1;
        ChainFrame(envHead, envLink, envFree, i, envHead);
        envs := envs[i := envs[i].(id := 0, status := FREE)];
        envLink := envLink[i := envHead];
        envHead := To(i);
        assert ([i as nat] + envFree)[1..] == envFree;
        envFree := [i] + envFree;
      }
      forall e: nat
        ensures e in envFree <==> e < NENV && envs[e].status.FREE?
      {
        if e < NENV {
          assert envFree[e] == e;
        }
      }
    }

    /** boot_map_region, one page table's worth: pgdir_walk takes a page for directory index i of
        kern_pgdir, and the loop fills it.  The page stays in use for good. */
    method BootTable(i: nat, table: seq<Entry>) returns (ok: bool)
      requires Inv() && pgdir == map[] && UTOPX <= i < NPTENTRIES && i != UVPTX && |table| == NPTENTRIES
      modifies `ref, `link, `head, `words, `kern, `book
      ensures Inv() && ok == old(head).To?
      ensures !ok ==> M() == old(M()) && kern == old(kern)
      ensures ok ==>
                var p := old(head).page;
                p < |words| && p in old(book).free && words == old(words)[p := table] && ref == old(ref)[p := 1]
                && kern == old(kern)[i := Entry(p, {P, W, U})] && book.free == old(book).free[1..]
    {
      ok := head.To?;
      if !ok {
        return;
      }
      CoreSized(M(), book, Null);
      TakeStep(M(), book, table);
      ghost var n := SetPage(IncRef(Alloc(M(), true), head.page), head.page, table);
      TakeHalf(M(), n, kern, book, i);
      var pg := PageAlloc(true);
      var p := pg.page;
      ref := ref[p := (ref[p] + 1) % 0x1_0000];
      words := words[p := table];
      kern := kern[i := Entry(p, {P, W, U})];
      book := Taken(book);
      assert M() == n;
    }

    // ---- The page allocator ------------------------------------------------------------

    method PageAlloc(zero: bool) returns (pp: Link)
      requires Sized(M())
      modifies `link, `head, `words
      ensures pp == old(head) && M() == Alloc(old(M()), zero)
    {
      if head.Null? {
        return Null;
      }
      pp := head;
      head := link[pp.page];
      link := link[pp.page := Null];
      if zero {
        words := words[pp.page := ZeroPage()];
      }
    }

    /** The last two conditions are the ones whose failure makes page_free panic. */
    method PageFree(p: nat)
      requires p < |ref| == |link|
      requires ref[p] == 0 && link[p].Null?
      modifies `link, `head
      ensures M() == Push(old(M()), p)
    {
      link := link[p := head];
      head := To(p);
    }

    method PageDecref(p: nat)
      requires p < |ref| == |link| && (LastRef(ref[p]) ==> link[p].Null?)
      modifies `ref, `link, `head
      ensures M() == DecRef(old(M()), p)
    {
      ref := ref[p := (ref[p] + 0xFFFF) % 0x1_0000];
      if ref[p] == 0 {
        PageFree(p);
      }
    }

    // ---- Page tables ----------------------------------------------------------------------

    /** Returns the page-table page that holds the entries behind directory index i. */
    method PgdirWalk(e: nat, i: nat, create: bool) returns (t: Link)
      requires Sized(M()) && e in pgdir && i < NPTENTRIES
      modifies `ref, `link, `head, `words
      ensures M() == WalkAny(old(M()), e, i, create)
      ensures t == if Present(DirWord(M(), e, i)) then To(DirWord(M(), e, i).frame) else Null
      ensures t.Null? <==> !Present(DirWord(old(M()), e, i)) && (!create || old(head).Null?)
      // A new page table is an empty one that grants everything to user code.
      ensures t.To? && !Present(DirWord(old(M()), e, i)) ==>
                && old(head) == t && DirWord(M(), e, i) == Entry(t.page, {P, U, W})
                && (t.page != pgdir[e] ==> t.page < |words| && words[t.page] == ZeroPage())
      ensures |words| == |old(words)| && |words[pgdir[e]]| == NPTENTRIES
    {
      var d := pgdir[e];
      if !Present(words[d][i]) {
        if !create {
          return Null;
        }
        var newPage := PageAlloc(true);
        if newPage.Null? {
          return Null;
        }
        var p := newPage.page;
        ref := ref[p := (ref[p] + 1) % 0x1_0000];
        words := words[d := words[d][i := Entry(p, {P, W, U})]];
      }
      t := To(words[d][i].frame);
    }

    /** Returns the page mapped at (i, j), and the page-table page its entry is in. */
    method PageLookup(e: nat, i: nat, j: nat) returns (pp: Link, t: nat)
      requires Reach(M(), e, i, j)
      modifies `ref, `link, `head, `words
      ensures M() == old(M())
      ensures var x := EntryAt(M(), e, i, j);
              pp == (if Present(x) then To(x.frame) else Null)
      ensures pp.To? ==> t == DirWord(M(), e, i).frame < |words| && words[t][j] == EntryAt(M(), e, i, j)
    {
      t := 0;
      var table := PgdirWalk(e, i, false);
      if table.Null? {
        return Null, 0;
      }
      t := table.page;
      if !Present(words[t][j]) {
        return Null, t;
      }
      pp := To(words[t][j].frame);
    }

    method PageRemove(e: nat, i: nat, j: nat)
      requires Reach(M(), e, i, j)
      modifies `ref, `link, `head, `words
      ensures M() == RemoveAny(old(M()), e, i, j)
    {
      var pp, t := PageLookup(e, i, j);
      if pp.Null? {
        return;
      }
      PageDecref(pp.page);
      words := words[t := words[t][j := NOENTRY]];
    }

    method PageInsert(e: nat, p: nat, i: nat, j: nat, perm: set<Bit>) returns (r: int)
      requires InsertReady(M(), e, p, i, j)
      modifies `ref, `link, `head, `words
      ensures M() == InsertAny(old(M()), e, p, i, j, perm)
      ensures r == if NoTableAny(old(M()), e, i) then -E_NO_MEM else 0
    {
      var t := PgdirWalk(e, i, true);
      if t.Null? {
        return -E_NO_MEM;
      }
      ghost var w := M();
      ref := ref[p := (ref[p] + 1) % 0x1_0000];
      assert M() == IncRef(w, p);
      if Present(words[t.page][j]) {
        PageRemove(e, i, j);
      }
      assert M() == RemoveAny(IncRef(w, p), e, i, j);
      var d := pgdir[e];
      words := words[t.page := words[t.page][j := Entry(p, perm + {P})]];
      var x := words[d][i];
      words := words[d := words[d][i := Entry(x.frame, x.flags + perm)]];
      r := 0;
    }

    // ---- Page system calls --------------------------------------------------------------------

    /** Pages and page tables are in order. */
    ghost predicate Ok()
      reads `ref, `link, `head, `words, `pgdir, `kern, `book
    {
      Valid(M(), book) && KernelHalf(M(), kern, book.kind)
    }

    /** The invariant between system calls. */
    ghost predicate Inv()
      reads this
    {
      Ok() && EnvsOk(envs, envLink, envHead, envFree, pgdir)
    }

    ghost predicate Live(cur: nat)
      reads this
    {
      cur < NENV && cur in pgdir
    }

    /** The work of sys_page_alloc once its arguments have been checked. */
    method AllocAt(e: nat, va: nat, perm: set<Bit>) returns (r: int)
      requires Valid(M(), book) && e in pgdir && va < UTOP
      modifies `ref, `link, `head, `words, `book
      ensures Valid(M(), book) && SameUpper(old(M()), M()) && StillReserved(old(book).kind, book.kind)
      ensures r == if AllocFails(old(M()), e, Pdx(va)) then -E_NO_MEM else 0
      ensures r < 0 ==> book == old(book) && ref == old(ref) && link == old(link) && head == old(head)
      ensures r == 0 ==> old(book).free != []
      ensures r == 0 ==>
                var p := old(book).free[0];
                && UserMap(book.refs) == UserMap(old(book).refs)[PteOf(e, va) := Entry(p, perm + {P})]
                && p < |words| && words[p] == ZeroPage()
      ensures SameData(old(book).kind, old(words), words)
    {
      var i, j := Pdx(va), Ptx(va);
      PdxBound(va);
      SysAllocReady(M(), book, e, i, j);
      ghost var m := M();
      var pg := PageAlloc(true);
      if pg.Null? {
        return -E_NO_MEM;
      }
      r := InsertFresh(pg.page, e, i, j, perm, m);
    }

    /** page_insert of the page just allocated, or page_free when that fails; m is memory before the
        allocation. */
    method InsertFresh(p: nat, e: nat, i: nat, j: nat, perm: set<Bit>, ghost m: Memory) returns (r: int)
      requires Valid(m, book) && m.head == To(p) && M() == Alloc(m, true) && e in pgdir && i < UTOPX && j < NPTENTRIES
      requires book.free != [] && book.free[0] == p && InsertReady(M(), e, p, i, j)
      modifies `ref, `link, `head, `words, `book
      ensures r == if AllocFails(m, e, i) then -E_NO_MEM else 0
      ensures r < 0 ==> book == old(book) && AllocUndone(m, book, M())
      ensures r == 0 ==> FreshMap(m, old(book), p, Pte(e, i, j), perm, M(), book)
    {
      ghost var b := book;
      LowEntry(M(), e, i, j);
      r := PageInsert(e, p, i, j, perm);
      if r < 0 {
        UndoAlloc(m, b);
        PageFree(p);
        return;
      }
      FreshMapped(m, b, p, e, i, j, perm);
      book := InsertBook(Popped(b), e, p, i, j, perm);
    }

    method SysPageAlloc(cur: nat, envid: int, va: nat, perm: set<Bit>) returns (r: int)
      requires Inv() && Live(cur)
      modifies `ref, `link, `head, `words, `book
      ensures Inv()
      ensures !PageAligned(va) || !Grantable(perm) ==> r == -E_INVAL
      ensures PageAligned(va) && Grantable(perm) ==>
                match Envid2Env(envs, cur, envid, true)
                case BadEnv => r == -E_BAD_ENV
                case Found(e) => r == if AllocFails(old(M()), e, Pdx(va)) then -E_NO_MEM else 0
      ensures r < 0 ==> book == old(book) && ref == old(ref) && link == old(link) && head == old(head)
      ensures r == 0 ==>
                && old(book).free != []
                && var e, p := Envid2Env(envs, cur, envid, true).slot, old(book).free[0];
                   && UserMap(book.refs) == UserMap(old(book).refs)[PteOf(e, va) := Entry(p, perm + {P})]
                   && p < |words| && words[p] == ZeroPage()
      ensures SameData(old(book).kind, old(words), words)
      // Over virtual addresses: the page at va is new, and no other page has changed.
      ensures r == 0 ==>
                SetsPage(old(M()), M(), Envid2Env(envs, cur, envid, true).slot, va,
                         Some(Entry(old(book).free[0], perm + {P})))
      ensures r < 0 ==> SameSpaces(old(M()), M())
    {
      var ok := PermOk(perm);
      if va >= UTOP || va % PGSIZE != 0 || !ok {
        return -E_INVAL;
      }
      var found := Envid2Env(envs, cur, envid, true);
      if found.BadEnv? {
        return -E_BAD_ENV;
      }
      FoundLive(envs, pgdir, cur, envid, true);
      r := AllocAt(found.slot, va, perm);
      KernelHalfKept(old(M()), M(), kern, old(book).kind, book.kind);
      AllocSeen(old(M()), old(book), M(), book, found.slot, va, perm, r);
    }

    /** The work of sys_page_map once its arguments have been checked. */
    method MapAt(src: nat, srcva: nat, dst: nat, dstva: nat, perm: set<Bit>) returns (r: int)
      requires Valid(M(), book) && src in pgdir && dst in pgdir && srcva < UTOP && dstva < UTOP
      modifies `ref, `link, `head, `words, `book
      ensures r == MapCode(old(M()), PteOf(src, srcva), dst, Pdx(dstva), perm)
      ensures r < 0 ==> M() == old(M()) && book == old(book)
      ensures r == 0 ==> PteOf(src, srcva) in old(book).refs
      ensures r == 0 ==> MapDone(old(M()), old(book), M(), book, PteOf(src, srcva), PteOf(dst, dstva), perm)
    {
      var i, j := Pdx(dstva), Ptx(dstva);
      PdxBound(srcva);
      PdxBound(dstva);
      CoreReach(M(), book, Null, src, Pdx(srcva), Ptx(srcva));
      LowEntry(M(), src, Pdx(srcva), Ptx(srcva));
      var pg, t := PageLookup(src, Pdx(srcva), Ptx(srcva));
      if pg.Null? {
        return -E_INVAL;
      }
      if W !in words[t][Ptx(srcva)].flags && W in perm {
        return -E_INVAL;
      }
      r := MapPage(pg.page, dst, i, j, perm, PteOf(src, srcva));
    }

    /** page_insert of the page found at s. */
    method MapPage(p: nat, dst: nat, i: nat, j: nat, perm: set<Bit>, ghost s: Site) returns (r: int)
      requires Valid(M(), book) && s.Pte? && Present(At(M(), s)) && At(M(), s).frame == p
      requires dst in pgdir && i < UTOPX && j < NPTENTRIES
      modifies `ref, `link, `head, `words, `book
      ensures r == if NoTable(old(M()), dst, i) then -E_NO_MEM else 0
      ensures r < 0 ==> M() == old(M()) && book == old(book)
      ensures s in old(book).refs && (r == 0 ==> MapDone(old(M()), old(book), M(), book, s, Pte(dst, i, j), perm))
    {
      MapReady(M(), book, s, p, dst, i, j, perm);
      r := PageInsert(dst, p, i, j, perm);
      if r == 0 {
        book := InsertBook(book, dst, p, i, j, perm);
      }
    }

    method MapOk(src: nat, srcva: nat, dst: nat, dstva: nat, perm: set<Bit>) returns (r: int)
      requires Ok() && src in pgdir && dst in pgdir && srcva < UTOP && dstva < UTOP
      modifies `ref, `link, `head, `words, `book
      ensures r == MapCode(old(M()), PteOf(src, srcva), dst, Pdx(dstva), perm)
      ensures r < 0 ==> M() == old(M()) && book == old(book)
      ensures r == 0 ==> PteOf(src, srcva) in old(book).refs
      ensures r == 0 ==> MapDone(old(M()), old(book), M(), book, PteOf(src, srcva), PteOf(dst, dstva), perm)
      ensures r == 0 ==> (Ok() <==> RoomFor(old(M()), old(book).refs[PteOf(src, srcva)].frame, PteOf(dst, dstva)))
      ensures r == 0 ==> MapsPage(old(M()), M(), src, srcva, dst, dstva, perm)
      ensures r == -E_INVAL <==> !Grants(Translate(old(M()), src, srcva), perm)
    {
      CodeSeen(M(), book, src, srcva, dst, dstva, perm);
      r := MapAt(src, srcva, dst, dstva, perm);
      if r == 0 {
        KernelHalfKept(old(M()), M(), kern, old(book).kind, book.kind);
        MapSeen(old(M()), old(book), M(), book, src, srcva, dst, dstva, perm);
      }
    }

    /** After a successful sys_page_map the invariant holds exactly when the mapped page
        had room for one more reference. */
    method SysPageMap(cur: nat, srcid: int, srcva: nat, dstid: int, dstva: nat, perm: set<Bit>) returns (r: int)
      requires Inv() && Live(cur)
      modifies `ref, `link, `head, `words, `book
      ensures !PageAligned(srcva) || !PageAligned(dstva) || !Grantable(perm) ==> r == -E_INVAL
      ensures PageAligned(srcva) && PageAligned(dstva) && Grantable(perm) ==>
                match (Envid2Env(envs, cur, srcid, true), Envid2Env(envs, cur, dstid, true))
                case (Found(src), Found(dst)) => r == MapCode(old(M()), PteOf(src, srcva), dst, Pdx(dstva), perm)
                case _ => r == -E_BAD_ENV
      ensures r < 0 ==> M() == old(M()) && book == old(book)
      ensures r == 0 ==>
                var s := PteOf(Envid2Env(envs, cur, srcid, true).slot, srcva);
                var d := PteOf(Envid2Env(envs, cur, dstid, true).slot, dstva);
                && s in old(book).refs
                && MapDone(old(M()), old(book), M(), book, s, d, perm)
                && (Inv() <==> RoomFor(old(M()), old(book).refs[s].frame, d))
      // Over virtual addresses: the page at dstva is the one at srcva, and no other page has changed.
      ensures r == 0 ==>
                MapsPage(old(M()), M(), Envid2Env(envs, cur, srcid, true).slot, srcva,
                         Envid2Env(envs, cur, dstid, true).slot, dstva, perm)
      ensures r == -E_INVAL <==>
                || !PageAligned(srcva) || !PageAligned(dstva) || !Grantable(perm)
                || (&& Envid2Env(envs, cur, srcid, true).Found? && Envid2Env(envs, cur, dstid, true).Found?
                    && !Grants(Translate(old(M()), Envid2Env(envs, cur, srcid, true).slot, srcva), perm))
    {
      var ok := PermOk(perm);
      if srcva >= UTOP || srcva % PGSIZE != 0 || dstva >= UTOP || dstva % PGSIZE != 0 || !ok {
        return -E_INVAL;
      }
      var src := Envid2Env(envs, cur, srcid, true);
      if src.BadEnv? {
        return -E_BAD_ENV;
      }
      var dst := Envid2Env(envs, cur, dstid, true);
      if dst.BadEnv? {
        return -E_BAD_ENV;
      }
      FoundLive(envs, pgdir, cur, srcid, true);
      FoundLive(envs, pgdir, cur, dstid, true);
      r := MapOk(src.slot, srcva, dst.slot, dstva, perm);
    }

    /** page_remove on a consistent address space. */
    method RemoveAt(e: nat, i: nat, j: nat)
      requires Valid(M(), book) && e in pgdir && i < UTOPX && j < NPTENTRIES
      modifies `ref, `link, `head, `words, `book
      ensures Valid(M(), book) && SameUpper(old(M()), M())
      ensures book == Unlinked(old(book), Pte(e, i, j), Null)
      ensures book.refs == old(book).refs - {Pte(e, i, j)}
      ensures Reserves(book.kind) == Reserves(old(book).kind) && |book.kind| == |old(book).kind|
      ensures UserMap(book.refs) == UserMap(old(book).refs) - {Pte(e, i, j)}
      ensures SameData(old(book).kind, old(words), words)
    {
      CoreReach(M(), book, Null, e, i, j);
      RemoveDone(M(), book, e, i, j);
      LowSame(M(), e, i, j);
      PageRemove(e, i, j);
      book := Unlinked(book, Pte(e, i, j), Null);
    }

    method SysPageUnmap(cur: nat, envid: int, va: nat) returns (r: int)
      requires Inv() && Live(cur)
      modifies `ref, `link, `head, `words, `book
      ensures Inv()
      ensures r == if !PageAligned(va) then -E_INVAL
                   else if Envid2Env(envs, cur, envid, true).BadEnv? then -E_BAD_ENV else 0
      ensures r < 0 ==> M() == old(M()) && book == old(book)
      ensures r == 0 ==> UserMap(book.refs) ==
                           UserMap(old(book).refs) - {PteOf(Envid2Env(envs, cur, envid, true).slot, va)}
      ensures SameData(old(book).kind, old(words), words)
      // Over virtual addresses: there is no page at va, and no other page has changed.
      ensures r == 0 ==> SetsPage(old(M()), M(), Envid2Env(envs, cur, envid, true).slot, va, None)
    {
      if va >= UTOP || va % PGSIZE != 0 {
        return -E_INVAL;
      }
      var found := Envid2Env(envs, cur, envid, true);
      if found.BadEnv? {
        return -E_BAD_ENV;
      }
      FoundLive(envs, pgdir, cur, envid, true);
      PdxBound(va);
      RemoveAt(found.slot, Pdx(va), Ptx(va));
      ReservesStill(old(book).kind, book.kind);
      KernelHalfKept(old(M()), M(), kern, old(book).kind, book.kind);
      Clearing(old(M()), old(book).refs, M(), book.refs, found.slot, va);
      r := 0;
    }

    /** page_lookup and page_insert of sys_ipc_try_send for an address at or above UTOP. */
    method MapAbove(cur: nat, srcva: nat, dst: nat, dstva: Va, perm: set<Bit>) returns (r: int)
      requires Ok() && cur in pgdir && dst in pgdir && srcva < UTOP <= dstva
      modifies `ref, `link, `head, `words
      ensures r == AboveCode(old(M()), PteOf(cur, srcva), dst, Pdx(dstva), Ptx(dstva), perm)
      ensures r != 0 ==> M() == old(M())
      ensures r == 0 ==>
                var s, p := PteOf(cur, srcva), At(old(M()), PteOf(cur, srcva)).frame;
                && s in old(book).refs && old(book).refs[s].frame == p
                && Above(old(M()), old(book), kern, dst, p, Pdx(dstva), Ptx(dstva)) && Count(old(book).refs, p) > 0
                && M() == InsertAny(old(M()), dst, p, Pdx(dstva), Ptx(dstva), perm)
    {
      var i, j := Pdx(dstva), Ptx(dstva);
      PdxBound(srcva);
      PdxAbove(dstva);
      CoreReach(M(), book, Null, cur, Pdx(srcva), Ptx(srcva));
      LowEntry(M(), cur, Pdx(srcva), Ptx(srcva));
      var pg, t := PageLookup(cur, Pdx(srcva), Ptx(srcva));
      if pg.Null? {
        return -E_INVAL;
      }
      if W !in words[t][Ptx(srcva)].flags && W in perm {
        return -E_INVAL;
      }
      var d := words[pgdir[dst]][i];
      if !Present(d) && head.Null? {
        return -E_NO_MEM;
      }
      KernelTable(M(), book, kern, dst, i);
      if Present(d) && Present(words[d.frame][j]) && words[d.frame][j].frame >= |ref| {
        return PANIC;
      }
      SourceMapped(M(), book, PteOf(cur, srcva));
      AboveInsertReady(M(), book, kern, dst, pg.page, i, j);
      r := PageInsert(dst, pg.page, i, j, perm);
    }

    /** A sent page is mapped at the receiver's dstva without regard to UTOP.  Afterwards some
        bookkeeping makes the counts right exactly when the page had room for a reference below UTOP
        or, above, was mapped at that address already. */
    method SysIpcTrySend(cur: nat, envid: int, value: nat, srcva: nat, perm: set<Bit>) returns (r: int)
      requires Inv() && Live(cur)
      modifies `ref, `link, `head, `words, `book, `envs
      ensures match Envid2Env(old(envs), cur, envid, false)
              case BadEnv => r == -E_BAD_ENV
              case Found(dst) => dst < NENV && r == SendCode(old(M()), old(envs), cur, dst, srcva, perm)
      ensures r != 0 ==> M() == old(M()) && book == old(book) && envs == old(envs)
      ensures r == 0 ==>
                var dst := Envid2Env(old(envs), cur, envid, false).slot;
                && dst < NENV && old(envs)[dst].recving
                && envs == old(envs)[dst := Delivered(old(envs)[dst], old(envs)[cur].id, value, srcva < UTOP, perm)]
                && envs[dst] == old(envs)[dst].(from := old(envs)[cur].id, value := value, recving := false,
                                                status := RUNNABLE,
                                                perm := if srcva < 0xEEC0_0000 then perm else old(envs)[dst].perm)
                && (srcva >= UTOP ==> Inv() && M() == old(M()) && book == old(book))
                && (srcva < UTOP ==>
                      PageSent(old(M()), old(book), M(), book, PteOf(cur, srcva), dst, old(envs)[dst].dstva, perm,
                               Inv()))
                && (srcva < 0xEEC0_0000 ==>
                      && PageAligned(srcva) && Grantable(perm)
                      && SentSeen(old(M()), M(), cur, srcva, dst, old(envs)[dst].dstva, perm, Inv()))
    {
      var found := Envid2Env(envs, cur, envid, false);
      if found.BadEnv? {
        return -E_BAD_ENV;
      }
      FoundLive(envs, pgdir, cur, envid, false);
      var dst := found.slot;
      if !envs[dst].recving {
        return -E_IPC_NOT_RECV;
      }
      r := SendTo(cur, dst, value, srcva, perm);
    }

    /** sys_ipc_try_send once the receiver is known to wait. */
    method SendTo(cur: nat, dst: nat, value: nat, srcva: nat, perm: set<Bit>) returns (r: int)
      requires Ok() && EnvsOk(envs, envLink, envHead, envFree, pgdir) && cur < NENV && dst < NENV
      requires cur in pgdir && dst in pgdir && envs[dst].recving
      modifies `ref, `link, `head, `words, `book, `envs
      ensures EnvsOk(envs, envLink, envHead, envFree, pgdir)
      ensures r == SendCode(old(M()), old(envs), cur, dst, srcva, perm)
      ensures r != 0 ==> M() == old(M()) && book == old(book) && envs == old(envs)
      ensures r == 0 ==>
                && envs == old(envs)[dst := Delivered(old(envs)[dst], old(envs)[cur].id, value, srcva < UTOP, perm)]
                && (srcva >= UTOP ==> Ok() && M() == old(M()) && book == old(book))
                && (srcva < UTOP ==>
                      PageSent(old(M()), old(book), M(), book, PteOf(cur, srcva), dst, old(envs)[dst].dstva, perm,
                               Ok()))
                && (srcva < 0xEEC0_0000 ==>
                      SentSeen(old(M()), M(), cur, srcva, dst, old(envs)[dst].dstva, perm, Ok()))
    {
      if srcva < UTOP {
        var ok := SourceOk(srcva, perm);
        if !ok {
          return -E_INVAL;
        }
        r := SendPage(cur, srcva, dst, envs[dst].dstva, perm);
        if r != 0 {
          return;
        }
      }
      Deliver(dst, envs[cur].id, value, srcva < UTOP, perm);
      r := 0;
    }

    /** The end of sys_ipc_try_send. */
    method Deliver(dst: nat, from: int, value: nat, page: bool, perm: set<Bit>)
      requires EnvsOk(envs, envLink, envHead, envFree, pgdir) && dst in pgdir
      modifies `envs
      ensures EnvsOk(envs, envLink, envHead, envFree, pgdir)
      ensures |envs| == NENV && dst < NENV
      ensures envs == old(envs)[dst := Delivered(old(envs)[dst], from, value, page, perm)]
    {
      EnvsTouch(envs, envLink, envHead, envFree, pgdir, dst, Delivered(envs[dst], from, value, page, perm));
      envs := envs[dst := Delivered(envs[dst], from, value, page, perm)];
    }

    method SendPage(cur: nat, srcva: nat, dst: nat, dstva: Va, perm: set<Bit>) returns (r: int)
      requires Ok() && cur in pgdir && dst in pgdir && srcva < UTOP
      modifies `ref, `link, `head, `words, `book
      ensures r == if dstva < UTOP then MapCode(old(M()), PteOf(cur, srcva), dst, Pdx(dstva), perm)
                   else AboveCode(old(M()), PteOf(cur, srcva), dst, Pdx(dstva), Ptx(dstva), perm)
      ensures r != 0 ==> M() == old(M()) && book == old(book)
      ensures r == 0 ==> PageSent(old(M()), old(book), M(), book, PteOf(cur, srcva), dst, dstva, perm, Ok())
      ensures r == 0 ==> SentSeen(old(M()), M(), cur, srcva, dst, dstva, perm, Ok())
    {
      ghost var m, b, s := M(), book, PteOf(cur, srcva);
      if dstva < UTOP {
        r := MapOk(cur, srcva, dst, dstva, perm);
        if r == 0 && !RoomFor(m, b.refs[s].frame, PteOf(dst, dstva)) {
          NoOtherBook(M(), book);
        }
      } else {
        r := MapAbove(cur, srcva, dst, dstva, perm);
        if r == 0 {
          var p := b.refs[s].frame;
          AboveExact(m, b, kern, dst, p, Pdx(dstva), Ptx(dstva), perm);
          if SameFrame(m, dst, p, Pdx(dstva), Ptx(dstva)) {
            AboveKeeps(m, b, kern, dst, p, Pdx(dstva), Ptx(dstva), perm);
          }
          AboveSeen(m, b, M(), cur, srcva, dst, dstva, perm, Ok());
        }
      }
    }

    method SysIpcRecv(cur: nat, dstva: Va) returns (r: int)
      requires Inv() && Live(cur)
      modifies `envs
      ensures Inv()
      ensures r == if dstva < UTOP && dstva % PGSIZE != 0 then -E_INVAL else 0
      ensures envs == if r < 0 then old(envs)
                      else old(envs)[cur := old(envs)[cur].(recving := true, dstva := dstva, status := NOT_RUNNABLE)]
    {
      if dstva < UTOP && dstva % PGSIZE != 0 {
        return -E_INVAL;
      }
      EnvsTouch(envs, envLink, envHead, envFree, pgdir, cur,
                envs[cur].(recving := true, dstva := dstva, status := NOT_RUNNABLE));
      envs := envs[cur := envs[cur].(recving := true, dstva := dstva, status := NOT_RUNNABLE)];
      r := 0;
    }

    // ---- Address spaces of environments ---------------------------------------------------------

    /** The loops of env_setup_vm: clear the user half, copy the kernel half, and map the
        directory itself at UVPT. */
    method FillDir(p: nat)
      requires |kern| == NPTENTRIES && p < |words| && |words[p]| == NPTENTRIES
      modifies `words
      ensures words == old(words)[p := DirPage(kern, p)]
    {
      for i := 0 to UTOPX
        invariant |words| == |old(words)| && |words[p]| == NPTENTRIES
        invariant words == old(words)[p := words[p]]
        invariant forall k :: 0 <= k < i ==> words[p][k] == NOENTRY
      {
        words := words[p := words[p][i := NOENTRY]];
      }
      for i := UTOPX to NPTENTRIES
        invariant |words| == |old(words)| && |words[p]| == NPTENTRIES
        invariant words == old(words)[p := words[p]]
        invariant forall k :: 0 <= k < i ==> words[p][k] == if k < UTOPX then NOENTRY else kern[k]
      {
        words := words[p := words[p][i := kern[i]]];
      }
      words := words[p := words[p][UVPTX := Entry(p, {P, U})]];
      assert words[p] == DirPage(kern, p);
    }

    /** Gives slot e an address space with an empty user half and the kernel half of
        kern_pgdir, and a read-only view of its own page tables at UVPT. */
    method EnvSetupVm(e: nat) returns (r: int)
      requires Sized(M()) && |kern| == NPTENTRIES
      modifies `ref, `link, `head, `words, `pgdir
      ensures r == if old(head).Null? then -E_NO_MEM else 0
      ensures M() == SetupVm(old(M()), e, kern)
      // The new directory, word by word: nothing below UTOP, itself read-only at UVPT, else as the kernel's.
      ensures r == 0 ==>
                && e in pgdir && old(head) == To(pgdir[e]) && pgdir[e] < |words| && |words[pgdir[e]]| == 1024
                && forall i :: 0 <= i < 1024 ==>
                     words[pgdir[e]][i] == if i * 0x40_0000 < 0xEEC0_0000 then Entry(0, {})
                                           else if i * 0x40_0000 == 0xEF40_0000 then Entry(pgdir[e], {P, U})
                                           else kern[i]
    {
      var pg := PageAlloc(true);
      if pg.Null? {
        return -E_NO_MEM;
      }
      pgdir := pgdir[e := pg.page];
      ref := ref[pg.page := (ref[pg.page] + 1) % 0x1_0000];
      FillDir(pg.page);
      r := 0;
    }

    /** env_setup_vm for a slot without an address space. */
    method NewSpace(e: nat) returns (r: int)
      requires Ok() && e !in pgdir
      modifies `ref, `link, `head, `words, `pgdir, `book
      ensures Ok() && r == if old(head).Null? then -E_NO_MEM else 0
      ensures r < 0 ==> M() == old(M()) && book == old(book)
      ensures r == 0 ==>
                && pgdir.Keys == old(pgdir).Keys + {e} && UserMap(book.refs) == UserMap(old(book).refs)
                && (forall s :: s in UserMap(book.refs) ==> s.env != e)
      ensures SameData(old(book).kind, old(words), words)
    {
      ghost var m, n := M(), SetupVm(M(), e, kern);
      CoreSized(m, book, Null);
      r := EnvSetupVm(e);
      if r < 0 {
        return;
      }
      SetupStep(m, book, e, kern);
      FreshSpace(m, book, e);
      SetupUpper(m, book, e, kern);
      ghost var c := RootBook(Popped(book), e, book.free[0]);
      assert Valid(n, c) && KernelHalf(n, kern, c.kind);
      book := c;
      assert M() == n;
    }

    method EnvAlloc(parent: int) returns (r: int, e: nat)
      requires Inv()
      modifies `ref, `link, `head, `words, `pgdir, `book, `envs, `envHead, `envFree
      ensures Inv()
      ensures r == if old(envHead).Null? then -E_NO_FREE_ENV else if old(head).Null? then -E_NO_MEM else 0
      ensures r < 0 ==> M() == old(M()) && book == old(book) && envs == old(envs)
      ensures r == 0 ==>
                && e < NENV && old(envs)[e].status.FREE? && e in pgdir
                && UserMap(book.refs) == UserMap(old(book).refs)
                && (forall s :: s in UserMap(book.refs) ==> s.env != e)
                && envs == old(envs)[e := NewEnv(old(envs)[e], e, parent)]
      ensures SameData(old(book).kind, old(words), words)
    {
      e := 0;
      if envHead.Null? {
        return -E_NO_FREE_ENV, 0;
      }
      e := envHead.page;
      FreeSlot(envs, envLink, envHead, envFree, pgdir);
      r := NewSpace(e);
      if r < 0 {
        return;
      }
      EnvsAlloc(envs, envLink, envHead, envFree, old(pgdir), pgdir, parent);
      envs := envs[e := NewEnv(envs[e], e, parent)];
      envHead := envLink[e];
      envFree := envFree[1..];
    }

    method SysExofork(cur: nat) returns (r: int)
      requires Inv() && Live(cur)
      modifies `ref, `link, `head, `words, `pgdir, `book, `envs, `envHead, `envFree
      ensures Inv()
      ensures old(envHead).Null? ==> r == -E_NO_FREE_ENV
      ensures old(envHead).To? && old(head).Null? ==> r == -E_NO_MEM
      ensures r < 0 ==> M() == old(M()) && book == old(book) && envs == old(envs)
      ensures old(envHead).To? && old(head).To? ==>
                && r > 0 && Slot(r) < NENV && old(envs)[Slot(r)].status.FREE?
                && envs[Slot(r)].id == r && envs[Slot(r)].parent == old(envs)[cur].id
                && envs[Slot(r)].status.NOT_RUNNABLE? && envs[Slot(r)].runs == 0 && !envs[Slot(r)].recving
                && UserMap(book.refs) == UserMap(old(book).refs)
                && (forall s :: s in UserMap(book.refs) ==> s.env != Slot(r))
                && (forall d :: 0 <= d < NENV && d != Slot(r) ==> envs[d] == old(envs)[d])
      ensures SameData(old(book).kind, old(words), words)
    {
      var ret, e := EnvAlloc(envs[cur].id);
      if ret < 0 {
        return ret;
      }
      NextIdIssued(old(envs), e);
      EnvsTouch(envs, envLink, envHead, envFree, pgdir, e, envs[e].(status := NOT_RUNNABLE));
      envs := envs[e := envs[e].(status := NOT_RUNNABLE)];
      r := envs[e].id;
    }

    /** One turn of the inner loop of env_free; pt is the page table behind index i. */
    method ClearSlot(e: nat, i: nat, j: nat, pt: nat, ghost start: map<Site, Entry>)
      requires Valid(M(), book) && j < NPTENTRIES && SweptTo(start, book.refs, e, i, j)
      requires Pde(e, i) in book.refs && book.refs[Pde(e, i)].frame == pt
      modifies `ref, `link, `head, `words, `book
      ensures Valid(M(), book) && SweptTo(start, book.refs, e, i, j + 1) && SameUpper(old(M()), M())
      ensures Pde(e, i) in book.refs && book.refs[Pde(e, i)].frame == pt
      ensures Reserves(book.kind) == old(Reserves(book.kind)) && |book.kind| == |old(book).kind|
    {
      TableWords(M(), book, e, i, j);
      SweepOne(start, book.refs, e, i, j);
      if Present(words[pt][j]) {
        RemoveAt(e, i, j);
      } else {
        assert book.refs - {Pte(e, i, j)} == book.refs;
      }
    }

    /** The inner loop of env_free: unmap everything in one page table. */
    method ClearTable(e: nat, i: nat, pt: nat, ghost start: map<Site, Entry>)
      requires Valid(M(), book) && SweptTo(start, book.refs, e, i, 0)
      requires Pde(e, i) in book.refs && book.refs[Pde(e, i)].frame == pt
      modifies `ref, `link, `head, `words, `book
      ensures Valid(M(), book) && SweptTo(start, book.refs, e, i, NPTENTRIES) && SameUpper(old(M()), M())
      ensures Pde(e, i) in book.refs && book.refs[Pde(e, i)].frame == pt
      ensures Reserves(book.kind) == old(Reserves(book.kind)) && |book.kind| == |old(book).kind|
    {
      for j := 0 to NPTENTRIES
        invariant Valid(M(), book) && SweptTo(start, book.refs, e, i, j) && SameUpper(old(M()), M())
        invariant Pde(e, i) in book.refs && book.refs[Pde(e, i)].frame == pt
        invariant Reserves(book.kind) == old(Reserves(book.kind)) && |book.kind| == |old(book).kind|
      {
        ghost var k := M();
        ClearSlot(e, i, j, pt, start);
        SameUpperTrans(old(M()), k, M());
      }
    }

    /** Unhook an emptied page table and drop the reference to its page. */
    method FreeTable(e: nat, i: nat, t: nat)
      requires Valid(M(), book) && Pde(e, i) in book.refs && book.refs[Pde(e, i)].frame == t
      requires forall j :: Pte(e, i, j) !in book.refs
      modifies `ref, `link, `head, `words, `book
      ensures Valid(M(), book) && book.refs == old(book).refs - {Pde(e, i)} && SameUpper(old(M()), M())
      ensures Reserves(book.kind) == old(Reserves(book.kind)) && |book.kind| == |old(book).kind|
    {
      TableReady(M(), book, e, i);
      DropUpper(M(), book, e, i);
      var d := pgdir[e];
      ghost var n := DecRef(SetWord(M(), d, i, NOENTRY), t);
      words := words[d := words[d][i := NOENTRY]];
      PageDecref(t);
      book := Unlinked(book, Pde(e, i), Null);
      assert M() == n;
    }

    /** One turn of the outer loop of env_free. */
    method ClearDirEntry(e: nat, i: nat, ghost start: map<Site, Entry>)
      requires Valid(M(), book) && e in pgdir && i < UTOPX && SweptTo(start, book.refs, e, i, 0)
      modifies `ref, `link, `head, `words, `book
      ensures Valid(M(), book) && SweptTo(start, book.refs, e, i + 1, 0) && SameUpper(old(M()), M())
      ensures Reserves(book.kind) == old(Reserves(book.kind)) && |book.kind| == |old(book).kind|
    {
      DirWordIs(M(), book, e, i);
      var x := words[pgdir[e]][i];
      if !Present(x) {
        SweptNothing(M(), start, book, e, i);
        return;
      }
      ClearTable(e, i, x.frame, start);
      SweptTable(M(), book, start, e, i);
      SweepPde(start, book.refs, e, i);
      ghost var k := M();
      FreeTable(e, i, x.frame);
      SameUpperTrans(old(M()), k, M());
    }

    /** The loops of env_free over the user half of the address space. */
    method ClearSpace(e: nat)
      requires Valid(M(), book) && e in pgdir
      modifies `ref, `link, `head, `words, `book
      ensures Valid(M(), book) && SweptTo(old(book).refs, book.refs, e, UTOPX, 0) && SameUpper(old(M()), M())
      ensures Reserves(book.kind) == old(Reserves(book.kind)) && |book.kind| == |old(book).kind|
    {
      SweepStart(book.refs, e);
      for i := 0 to UTOPX
        invariant Valid(M(), book) && SweptTo(old(book).refs, book.refs, e, i, 0) && SameUpper(old(M()), M())
        invariant Reserves(book.kind) == old(Reserves(book.kind)) && |book.kind| == |old(book).kind|
      {
        ghost var k := M();
        ClearDirEntry(e, i, old(book).refs);
        SameUpperTrans(old(M()), k, M());
      }
    }

    method DropDir(e: nat)
      requires e in pgdir && pgdir[e] < |ref| == |link| && link[pgdir[e]].Null?
      modifies `ref, `link, `head, `pgdir
      ensures M() == DecRef(old(M()).(pgdir := old(pgdir) - {e}), old(pgdir)[e])
    {
      var p := pgdir[e];
      pgdir := pgdir - {e};
      PageDecref(p);
    }

    /** Drops an address space whose user half is empty. */
    method FreeDir(e: nat)
      requires Valid(M(), book) && e in pgdir && forall s :: s in book.refs && s.env == e ==> s.Root?
      modifies `ref, `link, `head, `pgdir, `book
      ensures Valid(M(), book) && pgdir == old(pgdir) - {e} && book.refs == old(book).refs - {Root(e)}
      ensures SameUpper(old(M()), M())
      ensures Reserves(book.kind) == old(Reserves(book.kind)) && |book.kind| == |old(book).kind|
    {
      ghost var n, c := DecRef(M().(pgdir := pgdir - {e}), pgdir[e]), Unlinked(book, Root(e), Null);
      DirReady(M(), book, e);
      RootUpper(M(), e);
      assert Valid(n, c) && SameUpper(M(), n);
      DropDir(e);
      book := c;
      assert M() == n;
    }

    /** The memory part of env_free: exactly the pages whose every reference was the
        environment's own become free. */
    method FreeSpace(e: nat)
      requires Valid(M(), book) && e in pgdir
      modifies `ref, `link, `head, `words, `pgdir, `book
      ensures Valid(M(), book) && pgdir == old(pgdir) - {e}
      ensures GoneWith(old(book).refs, book.refs, e) && FreedBy(old(book), book, e)
      ensures SameUpper(old(M()), M()) && StillReserved(old(book).kind, book.kind)
    {
      ghost var m, b := M(), book;
      ClearSpace(e);
      ghost var k, d := M(), book;
      SweptAll(k, b.refs, d, e);
      FreeDir(e);
      SameUpperTrans(m, k, M());
      ReservesStill(b.kind, book.kind);
      FreedExactly(m, b, M(), d, book, e);
    }

    /** Frees environment e and all memory it uses. */
    method EnvFree(e: nat)
      requires Inv() && e in pgdir
      modifies `ref, `link, `head, `words, `pgdir, `book, `envs, `envLink, `envHead, `envFree
      ensures Inv()
      ensures pgdir == old(pgdir) - {e}
      ensures envs == old(envs)[e := old(envs)[e].(status := FREE)]
      ensures GoneWith(old(book).refs, book.refs, e) && FreedBy(old(book), book, e)
    {
      EnvsFree(envs, envLink, envHead, envFree, pgdir, e);
      FreeSpace(e);
      KernelHalfKept(old(M()), M(), kern, old(book).kind, book.kind);
      envs := envs[e := envs[e].(status := FREE)];
      envLink := envLink[e := envHead];
      envHead := To(e);
      envFree := [e] + envFree;
    }
  }

  /** sys_page_alloc needs a page, and one more if the page table is missing. */
  predicate AllocFails(m: Memory, e: nat, i: nat) {
    m.head.Null? || NoTable(Alloc(m, true), e, i)
  }

  // ---- The page system calls over virtual addresses -----------------------------------------------

  /** What is found at an address can be mapped elsewhere with this permission. */
  predicate Grants(x: Option<Entry>, perm: set<Bit>) {
    x.Some? && (W in perm ==> W in x.value.flags)
  }

  /** The page at srcva of src is mapped at dstva of dst as well, writable only if it was at srcva; every
      other page of every address space is what it was. */
  ghost predicate MapsPage(m: Memory, n: Memory, src: nat, srcva: nat, dst: nat, dstva: nat, perm: set<Bit>) {
    var x := Translate(m, src, srcva);
    Grants(x, perm) && SetsPage(m, n, dst, dstva, Some(Entry(x.value.frame, perm + {P})))
  }

  lemma AllocSeen(m: Memory, b: Book, n: Memory, c: Book, e: nat, va: nat, perm: set<Bit>, r: int)
    requires Tied(m, b.refs) && Tied(n, c.refs)
    requires r == 0 ==>
               b.free != [] && UserMap(c.refs) == UserMap(b.refs)[PteOf(e, va) := Entry(b.free[0], perm + {P})]
    requires r < 0 ==> c == b
    ensures r == 0 ==> SetsPage(m, n, e, va, Some(Entry(b.free[0], perm + {P})))
    ensures r < 0 ==> SameSpaces(m, n)
  {
    if r == 0 {
      Setting(m, b.refs, n, c.refs, e, va, Entry(b.free[0], perm + {P}));
    } else if r < 0 {
      Keeping(m, b.refs, n, c.refs);
    }
  }

  /** sys_page_map refuses a page exactly when it may not be mapped so. */
  lemma CodeSeen(m: Memory, b: Book, src: nat, srcva: nat, dst: nat, dstva: nat, perm: set<Bit>)
    requires Tied(m, b.refs) && srcva < UTOP
    ensures MapCode(m, PteOf(src, srcva), dst, Pdx(dstva), perm) == -E_INVAL <==>
              !Grants(Translate(m, src, srcva), perm)
  {
    WalkFinds(m, b.refs, src, srcva);
  }

  lemma MapSeen(m: Memory, b: Book, n: Memory, c: Book, src: nat, srcva: nat, dst: nat, dstva: nat, perm: set<Bit>)
    requires Tied(m, b.refs) && srcva < UTOP && PteOf(src, srcva) in b.refs
    requires MapCode(m, PteOf(src, srcva), dst, Pdx(dstva), perm) == 0
    requires MapDone(m, b, n, c, PteOf(src, srcva), PteOf(dst, dstva), perm)
    ensures MapsPage(m, n, src, srcva, dst, dstva, perm)
  {
    WalkFinds(m, b.refs, src, srcva);
    Setting(m, b.refs, n, c.refs, dst, dstva, Entry(b.refs[PteOf(src, srcva)].frame, perm + {P}));
  }

  /** The environment envid2env finds is a live one. */
  lemma FoundLive(envs: seq<Env>, pgdir: map<nat, nat>, cur: nat, envid: int, checkperm: bool)
    requires |envs| == NENV && cur < NENV && cur in pgdir
    requires forall e: nat :: e in pgdir <==> e < NENV && !envs[e].status.FREE?
    ensures Envid2Env(envs, cur, envid, checkperm).Found? ==>
              Envid2Env(envs, cur, envid, checkperm).slot < NENV && Envid2Env(envs, cur, envid, checkperm).slot in pgdir
  {
  }

  lemma PdxBound(va: nat)
    requires va < UTOP
    ensures Pdx(va) < UTOPX && Ptx(va) < NPTENTRIES
  {
  }

  lemma SysAllocReady(m: Memory, b: Book, e: nat, i: nat, j: nat)
    requires Valid(m, b) && e in m.pgdir && i < UTOPX && j < NPTENTRIES
    ensures Sized(m)
    ensures m.head.To? ==> b.free != [] && m.head == To(b.free[0])
    ensures m.head.To? ==> InsertReady(Alloc(m, true), e, m.head.page, i, j)
  {
    CoreSized(m, b, Null);
    if m.head.To? {
      AllocStep(m, b, true);
      CoreInsertReady(Alloc(m, true), Popped(b), e, m.head.page, i, j);
    }
  }

  /** A successful sys_page_alloc keeps the invariant and maps one zeroed page. */
  lemma SysAllocDone(m: Memory, b: Book, e: nat, i: nat, j: nat, perm: set<Bit>)
    requires Valid(m, b) && e in m.pgdir && i < UTOPX && j < NPTENTRIES && !AllocFails(m, e, i)
    ensures b.free != []
    ensures var p := b.free[0];
            var c, n := InsertBook(Popped(b), e, p, i, j, perm), Insert(Alloc(m, true), e, p, i, j, perm);
            && Valid(n, c)
            && UserMap(c.refs) == UserMap(b.refs)[Pte(e, i, j) := Entry(p, perm + {P})]
            && SameData(b.kind, m.words, n.words) && p < |n.words| && n.words[p] == ZeroPage()
  {
    AllocStep(m, b, true);
    var n, c, p := Alloc(m, true), Popped(b), m.head.page;
    InsertStep(n, c, e, p, i, j, perm);
    InsertBound(n, c, e, p, i, j, perm);
    InsertMap(c, e, p, i, j, perm);
    assert LooseOnly(c, {p});
    InsertFrame(n, c, e, p, i, j, perm);
    FreshRoom(n, c, p);
    AllocData(m, b, n, c, Insert(n, e, p, i, j, perm));
  }

  /** Both, as page_insert leaves memory. */
  /** A zeroed page p has been mapped at s. */
  ghost predicate FreshMap(m: Memory, b: Book, p: nat, s: Site, perm: set<Bit>, n: Memory, c: Book) {
    && Valid(n, c) && SameUpper(m, n) && StillReserved(b.kind, c.kind)
    && UserMap(c.refs) == UserMap(b.refs)[s := Entry(p, perm + {P})]
    && SameData(b.kind, m.words, n.words) && p < |n.words| && n.words[p] == ZeroPage()
  }

  /** A page has been allocated and freed again: it is zeroed, and nothing else has changed. */
  ghost predicate AllocUndone(m: Memory, b: Book, n: Memory) {
    n == m.(words := n.words) && Valid(n, b) && SameUpper(m, n) && SameData(b.kind, m.words, n.words)
  }

  lemma FreshMapped(m: Memory, b: Book, p: nat, e: nat, i: nat, j: nat, perm: set<Bit>)
    requires Valid(m, b) && e in m.pgdir && i < UTOPX && j < NPTENTRIES && !AllocFails(m, e, i)
    requires b.free != [] && b.free[0] == p
    ensures FreshMap(m, b, p, Pte(e, i, j), perm,
                     InsertAny(Alloc(m, true), e, p, i, j, perm), InsertBook(Popped(b), e, p, i, j, perm))
  {
    SysAllocDone(m, b, e, i, j, perm);
    SysAllocUpper(m, b, e, i, j, perm);
  }

  lemma SysAllocUpper(m: Memory, b: Book, e: nat, i: nat, j: nat, perm: set<Bit>)
    requires Valid(m, b) && e in m.pgdir && i < UTOPX && j < NPTENTRIES && !AllocFails(m, e, i)
    ensures b.free != []
    ensures var p := b.free[0];
            var c, n := InsertBook(Popped(b), e, p, i, j, perm), Insert(Alloc(m, true), e, p, i, j, perm);
            n == InsertAny(Alloc(m, true), e, p, i, j, perm) && SameUpper(m, n) && StillReserved(b.kind, c.kind)
  {
    AllocStep(m, b, true);
    var n, c, p := Alloc(m, true), Popped(b), m.head.page;
    LowInsert(n, c, e, p, i, j, perm);
    AllocUpper(m, b, true);
    InsertUpper(n, c, e, p, i, j, perm);
    SameUpperTrans(m, n, Insert(n, e, p, i, j, perm));
    InsertReserved(n, c, e, p, i, j, perm);
    StillTrans(b.kind, c.kind, InsertBook(c, e, p, i, j, perm).kind);
  }

  lemma StillTrans(a: seq<Kind>, b: seq<Kind>, c: seq<Kind>)
    requires StillReserved(a, b) && StillReserved(b, c)
    ensures StillReserved(a, c)
  {
  }

  /** A page fresh from the free list was nobody's data. */
  lemma AllocData(m: Memory, b: Book, n: Memory, c: Book, z: Memory)
    requires b.free != [] && b.free[0] < |b.kind| == |m.words| && b.kind[b.free[0]].Free?
    requires m.head == To(b.free[0]) && n == Alloc(m, true) && c == Popped(b)
    requires SameData(c.kind, n.words, z.words)
    ensures SameData(b.kind, m.words, z.words) && z.words[b.free[0]] == ZeroPage()
  {
  }

  lemma FreshRoom(m: Memory, b: Book, p: nat)
    requires Core(m, b, Null) && p < |b.kind| && b.kind[p].Loose?
    ensures m.ref[p] == 0
  {
    CountZero(m, b, p);
  }

  /** Freeing the page just allocated gives back the allocator state. */
  lemma UndoAlloc(m: Memory, b: Book)
    requires Valid(m, b) && m.head.To?
    ensures var n := Alloc(m, true);
            && m.head.page < |n.ref| == |n.link| && n.ref[m.head.page] == 0 && n.link[m.head.page].Null?
            && AllocUndone(m, b, Push(n, m.head.page))
  {
    AllocStep(m, b, true);
    var n, c, p := Alloc(m, true), Popped(b), m.head.page;
    FreshRoom(n, c, p);
    PushStep(n, c, p, Null);
    UndoPop(m, b);
    AllocUpper(m, b, true);
    SameUpperOf(m, n, Push(n, p));
  }

  lemma UndoPop(m: Memory, b: Book)
    requires b.free != [] && m.head == To(b.free[0]) && b.free[0] < |m.link| == |b.kind| == |m.words|
    requires b.kind[b.free[0]].Free?
    ensures Pushed(Popped(b), b.free[0]) == b
    ensures Push(Alloc(m, true), b.free[0]) == m.(words := Alloc(m, true).words)
    ensures SameData(b.kind, m.words, Alloc(m, true).words)
  {
    var p := b.free[0];
    assert [p] + b.free[1..] == b.free;
    assert Upd(Upd(b.kind, p, Loose), p, Free) == b.kind;
    assert m.link[p := Null][p := m.link[p]] == m.link;
  }

  /** The result of sys_page_map after its argument checks. */
  function MapCode(m: Memory, src: Site, dst: nat, i: nat, perm: set<Bit>): int {
    var x := At(m, src);
    if !Present(x) || (W !in x.flags && W in perm) then -E_INVAL
    else if NoTable(m, dst, i) then -E_NO_MEM
    else 0
  }

  /** Mapping the page found at `src` at `dst` sets that key of the user map and no other
      and keeps all page contents; the counts stay right exactly when there was room. */
  ghost predicate MapDone(m: Memory, b: Book, n: Memory, c: Book, src: Site, dst: Site, perm: set<Bit>)
    requires src in b.refs
  {
    var p := b.refs[src].frame;
    && Core(n, c, Null) && NoLoose(c)
    && (Valid(n, c) <==> RoomFor(m, p, dst))
    && UserMap(c.refs) == UserMap(b.refs)[dst := Entry(p, perm + {P})]
    && SameData(b.kind, m.words, n.words) && SameUpper(m, n) && StillReserved(b.kind, c.kind)
  }

  lemma MapReady(m: Memory, b: Book, src: Site, p: nat, dst: nat, i: nat, j: nat, perm: set<Bit>)
    requires Valid(m, b) && src.Pte? && Present(At(m, src)) && At(m, src).frame == p
    requires dst in m.pgdir && i < UTOPX && j < NPTENTRIES
    ensures src in b.refs && InsertReady(m, dst, p, i, j) && NoTableAny(m, dst, i) == NoTable(m, dst, i)
    ensures !NoTable(m, dst, i) ==>
              MapDone(m, b, InsertAny(m, dst, p, i, j, perm), InsertBook(b, dst, p, i, j, perm),
                      src, Pte(dst, i, j), perm)
  {
    assert b.kind[p] == KindAt(src);
    CoreInsertReady(m, b, dst, p, i, j);
    LowInsert(m, b, dst, p, i, j, perm);
    if !NoTable(m, dst, i) {
      InsertUpper(m, b, dst, p, i, j, perm);
      InsertReserved(m, b, dst, p, i, j, perm);
      InsertStep(m, b, dst, p, i, j, perm);
      InsertBound(m, b, dst, p, i, j, perm);
      InsertMap(b, dst, p, i, j, perm);
      assert LooseOnly(b, {p});
      InsertFrame(m, b, dst, p, i, j, perm);
    }
  }

  /** Removing a mapping keeps the invariant, deletes that key and keeps page contents. */
  lemma RemoveDone(m: Memory, b: Book, e: nat, i: nat, j: nat)
    requires Valid(m, b)
    ensures var n, c := Remove(m, e, i, j), Unlinked(b, Pte(e, i, j), Null);
            && Valid(n, c) && |c.kind| == |b.kind|
            && UserMap(c.refs) == UserMap(b.refs) - {Pte(e, i, j)}
            && c.refs == b.refs - {Pte(e, i, j)} && Reserves(c.kind) == Reserves(b.kind)
            && SameData(b.kind, m.words, n.words) && StillReserved(b.kind, c.kind)
            && (i < UTOPX ==> SameUpper(m, n))
  {
    if i < UTOPX {
      RemoveUpper(m, b, e, i, j);
    }
    ReservesStill(b.kind, Unlinked(b, Pte(e, i, j), Null).kind);
    RemoveStep(m, b, e, i, j, Null);
    UnlinkedMap(b, Pte(e, i, j));
    UnlinkedReserves(m, b, Pte(e, i, j));
    RemoveData(m, b.kind, e, i, j);
  }

  lemma UnlinkedMap(b: Book, s: Site)
    ensures Unlinked(b, s, Null).refs == b.refs - {s}
    ensures UserMap(Unlinked(b, s, Null).refs) == UserMap(b.refs) - {s}
    ensures |Unlinked(b, s, Null).kind| == |b.kind|
    ensures NoLoose(b) ==> NoLoose(Unlinked(b, s, Null))
  {
  }

  lemma RemoveData(m: Memory, kind: seq<Kind>, e: nat, i: nat, j: nat)
    requires Typed(m, kind)
    ensures SameData(kind, m.words, Remove(m, e, i, j).words)
  {
    if Present(At(m, Pte(e, i, j))) {
      TableTyped(m, kind, e, i);
    }
  }

  /** pa2page panics: the kernel stops. */
  const PANIC: int := 1

  /** The result of mapping the page at `src` at an address above UTOP. */
  function AboveCode(m: Memory, src: Site, dst: nat, i: nat, j: nat, perm: set<Bit>): int {
    var x := At(m, src);
    if !Present(x) || (W !in x.flags && W in perm) then -E_INVAL
    else if NoTableAny(m, dst, i) then -E_NO_MEM
    else if Present(EntryAt(m, dst, i, j)) && EntryAt(m, dst, i, j).frame >= |m.ref| then PANIC
    else 0
  }

  /** The result of sys_ipc_try_send once the target is known. */
  function SendCode(m: Memory, envs: seq<Env>, cur: nat, dst: nat, srcva: nat, perm: set<Bit>): int
    requires dst < |envs|
  {
    var dstva := envs[dst].dstva;
    if !envs[dst].recving then -E_IPC_NOT_RECV
    else if srcva >= UTOP then 0
    else if !PageAligned(srcva) || !Grantable(perm) then -E_INVAL
    else if dstva < UTOP then MapCode(m, PteOf(cur, srcva), dst, Pdx(dstva), perm)
    else AboveCode(m, PteOf(cur, srcva), dst, Pdx(dstva), Ptx(dstva), perm)
  }

  /** Sending page p to dstva keeps the counts right. */
  predicate SendKeeps(m: Memory, p: nat, dst: nat, dstva: nat) {
    if dstva < UTOP then RoomFor(m, p, PteOf(dst, dstva)) else SameFrame(m, dst, p, Pdx(dstva), Ptx(dstva))
  }

  /** What a page sent leaves behind: below UTOP a mapping, above UTOP whatever page_insert writes.
      Some bookkeeping makes the counts right exactly when `ok`, and that when sending keeps them. */
  ghost predicate PageSent(m: Memory, b: Book, n: Memory, c: Book, src: Site, dst: nat, dstva: nat, perm: set<Bit>,
                           ok: bool) {
    && src in b.refs
    && (if dstva < UTOP then MapDone(m, b, n, c, src, PteOf(dst, dstva), perm)
        else c == b && n == InsertAny(m, dst, b.refs[src].frame, Pdx(dstva), Ptx(dstva), perm))
    && (ok <==> SendKeeps(m, b.refs[src].frame, dst, dstva))
    && (ok <==> exists d :: Valid(n, d))
  }

  /** Over virtual addresses: below UTOP the page at srcva is mapped at the receiver's dstva as well; above
      UTOP no page below has changed, as long as the counts are right. */
  ghost predicate SentSeen(m: Memory, n: Memory, src: nat, srcva: nat, dst: nat, dstva: nat, perm: set<Bit>, ok: bool) {
    && Grants(Translate(m, src, srcva), perm)
    && (if dstva < 0xEEC0_0000 then MapsPage(m, n, src, srcva, dst, dstva, perm) else ok ==> SameSpaces(m, n))
  }

  lemma AboveSeen(m: Memory, b: Book, n: Memory, src: nat, srcva: nat, dst: nat, dstva: Va, perm: set<Bit>, ok: bool)
    requires Tied(m, b.refs) && srcva < UTOP <= dstva && (ok ==> Tied(n, b.refs))
    requires AboveCode(m, PteOf(src, srcva), dst, Pdx(dstva), Ptx(dstva), perm) == 0
    ensures SentSeen(m, n, src, srcva, dst, dstva, perm, ok)
  {
    WalkFinds(m, b.refs, src, srcva);
    if ok {
      Keeping(m, b.refs, n, b.refs);
    }
  }

  lemma PdxAbove(va: Va)
    requires va >= UTOP
    ensures UTOPX <= Pdx(va) < NPTENTRIES && Ptx(va) < NPTENTRIES
  {
  }

  lemma KernelTable(m: Memory, b: Book, kern: seq<Entry>, e: nat, i: nat)
    requires Core(m, b, Null) && KernelHalf(m, kern, b.kind) && e in m.pgdir && UTOPX <= i < NPTENTRIES
    ensures m.pgdir[e] < |m.words| == |m.ref| && |m.words[m.pgdir[e]]| == NPTENTRIES
    ensures DirWord(m, e, i) == m.words[m.pgdir[e]][i]
    ensures Present(DirWord(m, e, i)) ==>
              DirWord(m, e, i).frame < |m.words| && |m.words[DirWord(m, e, i).frame]| == NPTENTRIES
  {
    RootTyped(m, b.kind, e);
  }

  lemma SourceMapped(m: Memory, b: Book, s: Site)
    requires Core(m, b, Null) && s.Pte? && Present(At(m, s))
    ensures s in b.refs && b.refs[s] == At(m, s) && Count(b.refs, At(m, s).frame) > 0
    ensures At(m, s).frame < |b.kind| && b.kind[At(m, s).frame].User?
  {
    CountPositive(b.refs, s);
  }

  /** References are determined by the page tables, so a count that does not fit fits no book. */
  lemma NoOtherBook(n: Memory, b: Book)
    requires Core(n, b, Null) && NoLoose(b) && !Valid(n, b)
    ensures forall c :: !Valid(n, c)
  {
    forall c ensures !Valid(n, c) {
      if Valid(n, c) {
        RefsDetermined(n, n, b.refs, c.refs);
      }
    }
  }

  function Delivered(env: Env, from: int, value: nat, page: bool, perm: set<Bit>): Env {
    env.(from := from, value := value, recving := false, status := RUNNABLE,
         perm := if page then perm else env.perm)
  }

  /** Changing a live environment without freeing it. */
  lemma EnvsTouch(envs: seq<Env>, link: seq<Link>, head: Link, free: seq<nat>, pgdir: map<nat, nat>, e: nat, x: Env)
    requires EnvsOk(envs, link, head, free, pgdir) && e in pgdir
    requires x.id == envs[e].id && !x.status.FREE?
    ensures EnvsOk(envs[e := x], link, head, free, pgdir)
  {
  }

  /** A page directory with an empty user half. */
  function DirPage(kern: seq<Entry>, p: nat): (page: seq<Entry>)
    requires |kern| == NPTENTRIES
    ensures EmptyDir(page)
  {
    seq(NPTENTRIES, k requires 0 <= k < NPTENTRIES =>
      if k < UTOPX then NOENTRY else if k == UVPTX then Entry(p, {P, U}) else kern[k])
  }

  /** What env_setup_vm makes of memory. */
  function SetupVm(m: Memory, e: nat, kern: seq<Entry>): Memory
    requires |kern| == NPTENTRIES
  {
    if m.head.Null? then m
    else
      var p := m.head.page;
      SetPage(IncRef(Alloc(m, true), p).(pgdir := m.pgdir[e := p]), p, DirPage(kern, p))
  }

  lemma SetupStep(m: Memory, b: Book, e: nat, kern: seq<Entry>)
    requires Valid(m, b) && m.head.To? && e !in m.pgdir && |kern| == NPTENTRIES
    ensures b.free != [] && m.head == To(b.free[0])
    ensures Valid(SetupVm(m, e, kern), RootBook(Popped(b), e, b.free[0]))
    ensures UserMap(RootBook(Popped(b), e, b.free[0]).refs) == UserMap(b.refs)
    ensures SameData(b.kind, m.words, SetupVm(m, e, kern).words)
  {
    AllocStep(m, b, true);
    var p := b.free[0];
    var k, c := Alloc(m, true), Popped(b);
    RootStep(k, c, e, p);
    var n, d := IncRef(k, p).(pgdir := m.pgdir[e := p]), RootBook(c, e, p);
    UpperStep(n, d, e, DirPage(kern, p));
    SetupBook(m, b, e);
    AllocData(m, b, k, c, k);
  }

  /** A slot without a directory has no mappings. */
  lemma FreshSpace(m: Memory, b: Book, e: nat)
    requires Core(m, b, Null) && e !in m.pgdir
    ensures forall s :: s in UserMap(b.refs) ==> s.env != e
  {
    forall s | s in UserMap(b.refs)
      ensures s.env != e
    {
      assert Present(At(m, s));
    }
  }

  lemma FreeSlot(envs: seq<Env>, link: seq<Link>, head: Link, free: seq<nat>, pgdir: map<nat, nat>)
    requires EnvsOk(envs, link, head, free, pgdir) && head.To?
    ensures free != [] && head.page == free[0] < NENV && envs[free[0]].status.FREE? && free[0] !in pgdir
  {
    assert free[0] in free;
  }

  lemma EnvsAlloc(envs: seq<Env>, link: seq<Link>, head: Link, free: seq<nat>, pgdir: map<nat, nat>,
                  pgdir': map<nat, nat>, parent: int)
    requires EnvsOk(envs, link, head, free, pgdir) && head.To?
    requires pgdir'.Keys == pgdir.Keys + {head.page}
    ensures head.page < NENV
    ensures EnvsOk(envs[head.page := NewEnv(envs[head.page], head.page, parent)], link, link[head.page], free[1..],
                   pgdir')
  {
    FreeSlot(envs, link, head, free, pgdir);
    NextIdIssued(envs, head.page);
    var rest := free[1..];
    assert free == [head.page] + rest && head.page !in rest;
    assert forall e :: e in rest <==> e in free && e != head.page;
    var envs' := envs[head.page := NewEnv(envs[head.page], head.page, parent)];
    assert TableOk(envs');
    forall e: nat
      ensures e in pgdir' <==> e < NENV && !envs'[e].status.FREE?
    {
      assert e in pgdir' <==> e in pgdir'.Keys;
    }
  }

  lemma SetupBook(m: Memory, b: Book, e: nat)
    requires Valid(m, b) && b.free != [] && Root(e) !in b.refs
    ensures Bounded(RootBook(Popped(b), e, b.free[0])) && NoLoose(RootBook(Popped(b), e, b.free[0]))
    ensures UserMap(RootBook(Popped(b), e, b.free[0]).refs) == UserMap(b.refs)
  {
    var p := b.free[0];
    var c := RootBook(Popped(b), e, p);
    CountZero(m, b, p);
    forall q | 0 <= q < |c.kind|
      ensures Count(c.refs, q) <= 0xFFFF
    {
      CountAdd(b.refs, Root(e), Entry(p, {P}), q);
    }
  }

  /** Site s has been passed by env_free's sweep over environment e. */
  predicate Swept(s: Site, e: nat, i: nat, j: nat) {
    s.env == e && match s
                  case Root(_) => false
                  case Pde(_, k) => k < i
                  case Pte(_, k, l) => k < i || (k == i && l < j)
  }

  ghost predicate SweptTo(start: map<Site, Entry>, refs: map<Site, Entry>, e: nat, i: nat, j: nat) {
    forall s :: (s in refs <==> s in start && !Swept(s, e, i, j)) && (s in refs ==> refs[s] == start[s])
  }

  lemma TableWords(m: Memory, b: Book, e: nat, i: nat, j: nat)
    requires Core(m, b, Null) && Pde(e, i) in b.refs && j < NPTENTRIES
    ensures e in m.pgdir && i < UTOPX && m.pgdir[e] < |m.words| && |m.words[m.pgdir[e]]| == NPTENTRIES
    ensures m.words[m.pgdir[e]][i] == b.refs[Pde(e, i)]
    ensures b.refs[Pde(e, i)].frame < |m.words| && |m.words[b.refs[Pde(e, i)].frame]| == NPTENTRIES
    ensures m.words[b.refs[Pde(e, i)].frame][j] == At(m, Pte(e, i, j))
    ensures Present(At(m, Pte(e, i, j))) <==> Pte(e, i, j) in b.refs
  {
    assert At(m, Pde(e, i)) == DirEntry(m, e, i);
    TableTyped(m, b.kind, e, i);
    RootTyped(m, b.kind, e);
  }

  lemma SweepOne(start: map<Site, Entry>, refs: map<Site, Entry>, e: nat, i: nat, j: nat)
    requires SweptTo(start, refs, e, i, j)
    ensures SweptTo(start, refs - {Pte(e, i, j)}, e, i, j + 1)
  {
  }

  lemma SweepPde(start: map<Site, Entry>, refs: map<Site, Entry>, e: nat, i: nat)
    requires SweptTo(start, refs, e, i, NPTENTRIES) && forall j :: Pte(e, i, j) !in refs
    ensures SweptTo(start, refs - {Pde(e, i)}, e, i + 1, 0)
  {
    forall s
      ensures s in refs - {Pde(e, i)} <==> s in start && !Swept(s, e, i + 1, 0)
    {
      assert s in refs <==> s in start && !Swept(s, e, i, NPTENTRIES);
      if s.Pte? && s.env == e && s.pdx == i {
        assert Pte(e, i, s.ptx) !in refs;
      }
    }
  }

  /** A cleared page table holds nothing. */
  lemma SweptTable(m: Memory, b: Book, start: map<Site, Entry>, e: nat, i: nat)
    requires Tied(m, b.refs) && SweptTo(start, b.refs, e, i, NPTENTRIES)
    ensures forall j :: Pte(e, i, j) !in b.refs
  {
    forall j
      ensures Pte(e, i, j) !in b.refs
    {
      assert Pte(e, i, j) in b.refs ==> Present(At(m, Pte(e, i, j)));
    }
  }

  /** A missing page table has nothing to sweep. */
  lemma SweptNothing(m: Memory, start: map<Site, Entry>, b: Book, e: nat, i: nat)
    requires Tied(m, b.refs) && SweptTo(start, b.refs, e, i, 0) && !Present(At(m, Pde(e, i)))
    ensures SweptTo(start, b.refs, e, i + 1, 0)
  {
    forall s
      ensures s in b.refs <==> s in start && !Swept(s, e, i + 1, 0)
    {
      assert s in b.refs <==> s in start && !Swept(s, e, i, 0);
      if s.env == e && !s.Root? && s.pdx == i {
        assert s in b.refs <==> Present(At(m, s));
        assert At(m, Pde(e, i)) == DirEntry(m, e, i);
      }
    }
  }

  lemma SweptAll(m: Memory, start: map<Site, Entry>, b: Book, e: nat)
    requires Tied(m, b.refs) && SweptTo(start, b.refs, e, UTOPX, 0)
    ensures forall s :: s in b.refs && s.env == e ==> s.Root?
  {
    forall s | s in b.refs && s.env == e
      ensures s.Root?
    {
      assert Present(At(m, s));
    }
  }

  /** All references to p belong to environment e, and there is one. */
  ghost predicate OnlyOwner(refs: map<Site, Entry>, p: nat, e: nat) {
    Sites(refs, p) != {} && forall s :: s in Sites(refs, p) ==> s.env == e
  }

  ghost function Reserves(kind: seq<Kind>): set<nat> {
    set p: nat | p < |kind| && kind[p].Reserved?
  }

  lemma EnvsFree(envs: seq<Env>, link: seq<Link>, head: Link, free: seq<nat>, pgdir: map<nat, nat>, e: nat)
    requires EnvsOk(envs, link, head, free, pgdir) && e in pgdir
    ensures EnvsOk(envs[e := envs[e].(status := FREE)], link[e := head], To(e), [e] + free, pgdir - {e})
  {
    ChainFrame(head, link, free, e, head);
    assert ([e] + free)[1..] == free;
  }

  lemma ReservesStill(was: seq<Kind>, now: seq<Kind>)
    ensures |was| == |now| && Reserves(now) == Reserves(was) ==> StillReserved(was, now)
  {
    if |was| == |now| && Reserves(now) == Reserves(was) {
      forall p | 0 <= p < |was| && was[p].Reserved? ensures now[p].Reserved? {
        assert p in Reserves(was);
      }
    }
  }

  /** Unhooking a page table leaves the upper halves alone. */
  lemma DropUpper(m: Memory, b: Book, e: nat, i: nat)
    requires Typed(m, b.kind) && Pde(e, i) in b.refs && e in m.pgdir && i < UTOPX
    ensures SameUpper(m, DecRef(SetWord(m, m.pgdir[e], i, NOENTRY), b.refs[Pde(e, i)].frame))
  {
    RootTyped(m, b.kind, e);
    WriteUpper(m, b.kind, DecRef(SetWord(m, m.pgdir[e], i, NOENTRY), b.refs[Pde(e, i)].frame), m.pgdir[e]);
  }

  lemma RootUpper(m: Memory, e: nat)
    requires e in m.pgdir
    ensures SameUpper(m, DecRef(m.(pgdir := m.pgdir - {e}), m.pgdir[e]))
  {
  }

  /** A new directory has the kernel's upper half. */
  lemma SetupUpper(m: Memory, b: Book, e: nat, kern: seq<Entry>)
    requires Valid(m, b) && KernelHalf(m, kern, b.kind) && m.head.To? && e !in m.pgdir
    ensures b.free != [] && KernelHalf(SetupVm(m, e, kern), kern, RootBook(Popped(b), e, b.free[0]).kind)
  {
    AllocStep(m, b, true);
    var n, p := SetupVm(m, e, kern), b.free[0];
    forall g, i | g in n.pgdir && UTOPX <= i < NPTENTRIES
      ensures DirWord(n, g, i) == if g == e then DirPage(kern, p)[i] else DirWord(m, g, i)
    {
      if g != e {
        RootTyped(m, b.kind, g);
      }
    }
  }

  /** Boot takes a page for a kernel page table and keeps it. */
  ghost function Taken(b: Book): Book {
    if b.free == [] then b else Book(Upd(b.kind, b.free[0], Reserved), b.free[1..], b.refs)
  }

  lemma TakeStep(m: Memory, b: Book, table: seq<Entry>)
    requires Valid(m, b) && m.head.To? && m.pgdir == map[] && |table| == NPTENTRIES
    ensures b.free != [] && m.head == To(b.free[0]) && b.free[0] < |b.kind| && b.kind[b.free[0]].Free?
    ensures m.ref[b.free[0]] == 0 && StillReserved(b.kind, Taken(b).kind)
    ensures Valid(SetPage(IncRef(Alloc(m, true), b.free[0]), b.free[0], table), Taken(b))
  {
    AllocStep(m, b, true);
    var p := b.free[0];
    assert m.ref[p] == 0 by { CountZero(m, b, p); }
    assert LooseOnly(Popped(b), {p});
    TakeLoose(Alloc(m, true), Popped(b), p, table);
    assert Upd(Popped(b).kind, p, Reserved) == Taken(b).kind;
  }

  lemma TakeLoose(m: Memory, b: Book, p: nat, table: seq<Entry>)
    requires Core(m, b, Null) && Bounded(b) && LooseOnly(b, {p}) && p < |b.kind| && b.kind[p].Loose?
    requires |table| == NPTENTRIES
    ensures Valid(SetPage(IncRef(m, p), p, table), b.(kind := Upd(b.kind, p, Reserved)))
  {
    var k := SetPage(m, p, table);
    FillStep(m, b, p, table, Null);
    ReserveStep(k, b, p);
    FillsAnyOrder(m, p, table);
  }

  lemma FillsAnyOrder(m: Memory, p: nat, table: seq<Entry>)
    ensures SetPage(IncRef(m, p), p, table) == IncRef(SetPage(m, p, table), p)
  {
  }

  lemma TakeHalf(m: Memory, n: Memory, kern: seq<Entry>, b: Book, i: nat)
    requires KernelHalf(m, kern, b.kind) && n.pgdir == map[] && UTOPX <= i < NPTENTRIES
    requires b.free != [] && b.free[0] < |b.kind| && StillReserved(b.kind, Taken(b).kind)
    ensures KernelHalf(n, kern[i := Entry(b.free[0], {P, W, U})], Taken(b).kind)
  {
  }

  /** A loose page is set aside, with a reference that no page table holds. */
  lemma ReserveStep(m: Memory, b: Book, p: nat)
    requires Core(m, b, Null) && Bounded(b) && LooseOnly(b, {p}) && p < |b.kind| && b.kind[p].Loose?
    ensures Valid(IncRef(m, p), b.(kind := Upd(b.kind, p, Reserved)))
  {
    var n, c := IncRef(m, p), b.(kind := Upd(b.kind, p, Reserved));
    assert FreeList(n, c) by { SameFree(m, b, n, c); }
    assert Typed(n, c.kind) && Tied(n, c.refs) by { ReserveTyped(m, b, n, p); }
    assert Counted(n.ref, c, Null) by { ReserveCount(m, b, p); }
  }

  lemma ReserveCount(m: Memory, b: Book, p: nat)
    requires Core(m, b, Null) && p < |b.kind| && b.kind[p].Loose?
    ensures Counted(IncRef(m, p).ref, b.(kind := Upd(b.kind, p, Reserved)), Null)
  {
    CountZero(m, b, p);
  }

  lemma ReserveTyped(m: Memory, b: Book, n: Memory, p: nat)
    requires Typed(m, b.kind) && Tied(m, b.refs) && p < |b.kind| && b.kind[p].Loose?
    requires n.words == m.words && n.pgdir == m.pgdir
    ensures Typed(n, Upd(b.kind, p, Reserved)) && Tied(n, b.refs)
  {
    SameAt(m, n);
    var kind := Upd(b.kind, p, Reserved);
    forall s | Present(At(n, s)) ensures At(n, s).frame < |kind| && kind[At(n, s).frame] == KindAt(s) {
      assert b.kind[At(m, s).frame] == KindAt(s);
    }
    forall q | 0 <= q < |kind| ensures Owned(n, kind[q], q) {
      OwnedMove(m, n, kind[q], q);
    }
  }

  /** Only pages that can be mapped or hold tables are ever freed. */
  lemma UnlinkedReserves(m: Memory, b: Book, s: Site)
    requires Typed(m, b.kind) && Tied(m, b.refs)
    ensures Reserves(Unlinked(b, s, Null).kind) == Reserves(b.kind)
  {
    if s in b.refs {
      assert Present(At(m, s));
      var p := b.refs[s].frame;
      assert p < |b.kind| && !b.kind[p].Reserved?;
    }
  }

  lemma DirWordIs(m: Memory, b: Book, e: nat, i: nat)
    requires Core(m, b, Null) && e in m.pgdir && i < UTOPX
    ensures m.pgdir[e] < |m.words| && |m.words[m.pgdir[e]]| == NPTENTRIES
    ensures m.words[m.pgdir[e]][i] == At(m, Pde(e, i))
    ensures Present(At(m, Pde(e, i))) <==> Pde(e, i) in b.refs
    ensures Pde(e, i) in b.refs ==> b.refs[Pde(e, i)] == At(m, Pde(e, i))
  {
    RootTyped(m, b.kind, e);
  }

  /** What freeing an emptied page table relies on and establishes. */
  lemma TableReady(m: Memory, b: Book, e: nat, i: nat)
    requires Valid(m, b) && Pde(e, i) in b.refs && forall j :: Pte(e, i, j) !in b.refs
    ensures e in m.pgdir && m.pgdir[e] < |m.words| && i < |m.words[m.pgdir[e]]| && i < UTOPX
    ensures var t, c := b.refs[Pde(e, i)].frame, Unlinked(b, Pde(e, i), Null);
            && t < |m.ref| == |m.link| && m.link[t].Null?
            && Valid(DecRef(SetWord(m, m.pgdir[e], i, NOENTRY), t), c)
            && c.refs == b.refs - {Pde(e, i)}
            && Reserves(c.kind) == Reserves(b.kind) && |c.kind| == |b.kind|
  {
    DropTable(m, b, e, i);
    RootTyped(m, b.kind, e);
    UnlinkedMap(b, Pde(e, i));
    UnlinkedReserves(m, b, Pde(e, i));
    assert b.kind[At(m, Pde(e, i)).frame] == Table(e, i);
  }

  lemma DirReady(m: Memory, b: Book, e: nat)
    requires Valid(m, b) && e in m.pgdir && forall s :: s in b.refs && s.env == e ==> s.Root?
    ensures Root(e) in b.refs
    ensures var p, c := m.pgdir[e], Unlinked(b, Root(e), Null);
            && p < |m.ref| == |m.link| && m.link[p].Null?
            && Valid(DecRef(m.(pgdir := m.pgdir - {e}), p), c)
            && c.refs == b.refs - {Root(e)}
            && Reserves(c.kind) == Reserves(b.kind) && |c.kind| == |b.kind|
  {
    DropRoot(m, b, e);
    RootTyped(m, b.kind, e);
    UnlinkedMap(b, Root(e));
    UnlinkedReserves(m, b, Root(e));
  }

  lemma SweepStart(refs: map<Site, Entry>, e: nat)
    ensures SweptTo(refs, refs, e, 0, 0)
  {
  }

  /** Exactly the pages that only environment e referenced are newly free. */
  ghost predicate FreedBy(b: Book, c: Book, e: nat) {
    && |c.kind| == |b.kind|
    && forall p :: 0 <= p < |b.kind| ==> (p in c.free <==> p in b.free || OnlyOwner(b.refs, p, e))
  }

  lemma FreedExactly(m: Memory, b: Book, n: Memory, d: Book, c: Book, e: nat)
    requires Valid(m, b) && Valid(n, c) && Reserves(c.kind) == Reserves(b.kind) && |c.kind| == |b.kind|
    requires c.refs == d.refs - {Root(e)} && forall s :: s in d.refs && s.env == e ==> s.Root?
    requires SweptTo(b.refs, d.refs, e, UTOPX, 0)
    ensures FreedBy(b, c, e) && GoneWith(b.refs, c.refs, e)
  {
    SweptGone(b, d, c, e);
    forall p | 0 <= p < |b.kind|
      ensures p in c.free <==> p in b.free || OnlyOwner(b.refs, p, e)
    {
      FreedPage(m, b, n, c, e, p);
    }
  }

  /** The references left are those of the other environments. */
  ghost predicate GoneWith(was: map<Site, Entry>, now: map<Site, Entry>, e: nat) {
    forall s :: (s in now <==> s in was && s.env != e) && (s in now ==> now[s] == was[s])
  }

  lemma SweptGone(b: Book, d: Book, c: Book, e: nat)
    requires c.refs == d.refs - {Root(e)} && forall s :: s in d.refs && s.env == e ==> s.Root?
    requires SweptTo(b.refs, d.refs, e, UTOPX, 0)
    ensures GoneWith(b.refs, c.refs, e)
  {
    forall s
      ensures (s in c.refs <==> s in b.refs && s.env != e) && (s in c.refs ==> c.refs[s] == b.refs[s])
    {
      assert s in d.refs <==> s in b.refs && !Swept(s, e, UTOPX, 0);
    }
  }

  lemma FreedPage(m: Memory, b: Book, n: Memory, c: Book, e: nat, p: nat)
    requires Valid(m, b) && Valid(n, c) && Reserves(c.kind) == Reserves(b.kind) && |c.kind| == |b.kind|
    requires GoneWith(b.refs, c.refs, e) && p < |b.kind|
    ensures p in c.free <==> p in b.free || OnlyOwner(b.refs, p, e)
  {
    FreeIsUnreferenced(m, b, p);
    FreeIsUnreferenced(n, c, p);
    assert b.kind[p].Reserved? <==> p in Reserves(b.kind);
    assert c.kind[p].Reserved? <==> p in Reserves(c.kind);
    SitesLeft(b, c, e, p);
    if b.kind[p].Reserved? {
      CountZero(m, b, p);
    }
  }

  lemma SitesLeft(b: Book, c: Book, e: nat, p: nat)
    requires GoneWith(b.refs, c.refs, e)
    ensures Sites(c.refs, p) == set s | s in Sites(b.refs, p) && s.env != e
  {
  }
}
