/** Virtual addresses (inc/mmu.h): what the processor's page walk finds, and how the page tables'
    entries stand for the pages of an address space. */
module Addresses {
  import opened Common
  import opened Paging

  const UTOP: nat := 0xEEC0_0000
  const PGSIZE: nat := 4096

  function Pdx(va: nat): nat {
    va / 0x40_0000
  }

  function Ptx(va: nat): nat {
    va / 0x1000 % 1024
  }

  /** The page-table entry of a virtual address. */
  function PteOf(e: nat, va: nat): Site {
    Pte(e, Pdx(va), Ptx(va))
  }

  /** The processor's walk: the top ten bits of the address select a word of the page directory, and
      the next ten a word of the page table found there. */
  function Translate(m: Memory, e: nat, va: nat): Option<Entry> {
    if e !in m.pgdir then None
    else
      var d := Word(m.words, m.pgdir[e], va / 0x40_0000);
      if !Present(d) then None
      else
        var x := Word(m.words, d.frame, va % 0x40_0000 / 0x1000);
        if Present(x) then Some(x) else None
  }

  lemma MiddleBits(i: nat, j: nat, k: nat)
    requires j < 1024 && k < 0x1000
    ensures var va := i * 0x40_0000 + j * 0x1000 + k;
            va / 0x40_0000 == i && va / 0x1000 % 1024 == j && va % 0x40_0000 / 0x1000 == j && va % 0x1000 == k
  {
    var va := i * 0x40_0000 + j * 0x1000 + k;
    assert va / 0x1000 == i * 1024 + j;
    assert va % 0x40_0000 == j * 0x1000 + k;
  }

  /** The indices and the offset are the address taken apart, and any of them can be had. */
  lemma AddressParts(va: nat)
    ensures va == Pdx(va) * 0x40_0000 + Ptx(va) * 0x1000 + va % 0x1000 && Ptx(va) < 1024
    ensures va < 0xEEC0_0000 <==> Pdx(va) < UTOPX
  {
    var i, r := va / 0x40_0000, va % 0x40_0000;
    MiddleBits(i, r / 0x1000, r % 0x1000);
    assert va == i * 0x40_0000 + (r / 0x1000) * 0x1000 + r % 0x1000;
  }

  /** Entries tell pages apart: two addresses share one exactly when they lie in the same page of the
      same environment. */
  lemma PteOfExact(e: nat, va: nat, d: nat, w: nat)
    ensures PteOf(e, va) == PteOf(d, w) <==> e == d && va / 0x1000 == w / 0x1000
    ensures va % 0x1000 == 0 && w % 0x1000 == 0 ==> (PteOf(e, va) == PteOf(d, w) <==> e == d && va == w)
  {
    AddressParts(va);
    AddressParts(w);
    SamePage(va, w);
  }

  lemma SamePage(va: nat, w: nat)
    ensures va / 0x1000 == w / 0x1000 <==> Pdx(va) == Pdx(w) && Ptx(va) == Ptx(w)
  {
    AddressParts(va);
    AddressParts(w);
    var x, y := Pdx(va) * 1024 + Ptx(va), Pdx(w) * 1024 + Ptx(w);
    assert va == x * 0x1000 + va % 0x1000 && w == y * 0x1000 + w % 0x1000;
    assert va / 0x1000 == x && w / 0x1000 == y;
  }

  /** Below UTOP the walk finds what the kernel keeps for the address's entry. */
  lemma WalkFinds(m: Memory, refs: map<Site, Entry>, e: nat, va: nat)
    requires Tied(m, refs) && va < 0xEEC0_0000
    ensures Translate(m, e, va) == if PteOf(e, va) in refs then Some(refs[PteOf(e, va)]) else None
  {
    AddressParts(va);
    MiddleBits(Pdx(va), Ptx(va), va % 0x1000);
    var s := PteOf(e, va);
    assert s in refs <==> Present(At(m, s));
  }

  /** Page va of environment e is now x, and every other page of every address space, below UTOP, is
      what it was. */
  ghost predicate SetsPage(m: Memory, n: Memory, e: nat, va: nat, x: Option<Entry>) {
    forall d: nat, w: nat :: w < 0xEEC0_0000 ==>
      Translate(n, d, w) == if d == e && w / 0x1000 == va / 0x1000 then x else Translate(m, d, w)
  }

  ghost predicate SameSpaces(m: Memory, n: Memory) {
    forall d: nat, w: nat :: w < 0xEEC0_0000 ==> Translate(n, d, w) == Translate(m, d, w)
  }

  /** Environment e has no page left, and nobody else has lost or gained one. */
  ghost predicate SpaceGone(m: Memory, n: Memory, e: nat) {
    forall d: nat, w: nat :: w < 0xEEC0_0000 ==> Translate(n, d, w) == if d == e then None else Translate(m, d, w)
  }

  lemma Setting(m: Memory, r: map<Site, Entry>, n: Memory, q: map<Site, Entry>, e: nat, va: nat, x: Entry)
    requires Tied(m, r) && Tied(n, q) && UserMap(q) == UserMap(r)[PteOf(e, va) := x]
    ensures SetsPage(m, n, e, va, Some(x))
  {
    forall d: nat, w: nat | w < 0xEEC0_0000
      ensures Translate(n, d, w) == if d == e && w / 0x1000 == va / 0x1000 then Some(x) else Translate(m, d, w)
    {
      WalkFinds(m, r, d, w);
      WalkFinds(n, q, d, w);
      PteOfExact(e, va, d, w);
      UserPart(r, PteOf(d, w));
      UserPart(q, PteOf(d, w));
    }
  }

  lemma Clearing(m: Memory, r: map<Site, Entry>, n: Memory, q: map<Site, Entry>, e: nat, va: nat)
    requires Tied(m, r) && Tied(n, q) && UserMap(q) == UserMap(r) - {PteOf(e, va)}
    ensures SetsPage(m, n, e, va, None)
  {
    forall d: nat, w: nat | w < 0xEEC0_0000
      ensures Translate(n, d, w) == if d == e && w / 0x1000 == va / 0x1000 then None else Translate(m, d, w)
    {
      WalkFinds(m, r, d, w);
      WalkFinds(n, q, d, w);
      PteOfExact(e, va, d, w);
      UserPart(r, PteOf(d, w));
      UserPart(q, PteOf(d, w));
    }
  }

  lemma UserPart(r: map<Site, Entry>, s: Site)
    requires s.Pte?
    ensures s in UserMap(r) <==> s in r
    ensures s in r ==> UserMap(r)[s] == r[s]
  {
  }

  lemma Keeping(m: Memory, r: map<Site, Entry>, n: Memory, q: map<Site, Entry>)
    requires Tied(m, r) && Tied(n, q) && UserMap(q) == UserMap(r)
    ensures SameSpaces(m, n)
  {
    forall d: nat, w: nat | w < 0xEEC0_0000 ensures Translate(n, d, w) == Translate(m, d, w) {
      WalkFinds(m, r, d, w);
      WalkFinds(n, q, d, w);
      UserPart(r, PteOf(d, w));
      UserPart(q, PteOf(d, w));
    }
  }

  lemma Losing(m: Memory, r: map<Site, Entry>, n: Memory, q: map<Site, Entry>, e: nat)
    requires Tied(m, r) && Tied(n, q)
    requires forall s :: (s in q <==> s in r && s.env != e) && (s in q ==> q[s] == r[s])
    ensures SpaceGone(m, n, e)
  {
    forall d: nat, w: nat | w < 0xEEC0_0000
      ensures Translate(n, d, w) == if d == e then None else Translate(m, d, w)
    {
      WalkFinds(m, r, d, w);
      WalkFinds(n, q, d, w);
    }
  }
}
