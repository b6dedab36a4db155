/** stab_binsearch (kern/kdebug.c): binary search for one type of symbol among stabs of mixed
    types, of which only those of that type are sorted by value. */
module Stabs {
  import opened Common

  newtype Addr = x: int | 0 <= x <= 0xffff_ffff

  datatype Stab = Stab(ty: int, value: Addr)

  /** The 32-bit increment. */
  function Inc(a: Addr): Addr {
    if a == 0xffff_ffff then 0 else a + 1
  }

  predicate InRange(stabs: seq<Stab>, left: int, right: int) {
    0 <= left && right < |stabs|
  }

  predicate Is(stabs: seq<Stab>, i: int, ty: int) {
    0 <= i < |stabs| && stabs[i].ty == ty
  }

  predicate Sorted(stabs: seq<Stab>, left: int, right: int, ty: int) {
    forall i, j :: left <= i < j <= right && Is(stabs, i, ty) && Is(stabs, j, ty) ==> stabs[i].value <= stabs[j].value
  }

  predicate NoneIn(stabs: seq<Stab>, from: int, to: int, ty: int) {
    forall i :: from <= i <= to ==> !Is(stabs, i, ty)
  }

  /** The inner loop: the last stab of the type in [l, m], or l - 1. */
  function Back(stabs: seq<Stab>, l: int, m: int, ty: int): int
    requires InRange(stabs, l, m)
    decreases m - l
  {
    if m < l then l - 1 else if stabs[m].ty == ty then m else Back(stabs, l, m - 1, ty)
  }

  lemma {:induction false} BackFinds(stabs: seq<Stab>, l: int, m: int, ty: int)
    requires InRange(stabs, l, m)
    ensures var k := Back(stabs, l, m, ty);
            l - 1 <= k && (m >= l ==> k <= m) && (k >= l ==> Is(stabs, k, ty)) && NoneIn(stabs, k + 1, m, ty)
            && (m < l ==> k == l - 1)
    decreases m - l
  {
    if m >= l && stabs[m].ty != ty { BackFinds(stabs, l, m - 1, ty); }
  }

  /** A stab at exactly addr that the search meets, and the right end of its interval then. */
  datatype Hit = Hit(at: int, right: int)

  /** Where the search first meets a stab at exactly addr. */
  function MeetsAt(stabs: seq<Stab>, l: int, r: int, ty: int, addr: Addr): (hit: Option<Hit>)
    requires InRange(stabs, l, r)
    ensures hit.Some? ==> l <= hit.value.at <= hit.value.right <= r
    ensures hit.Some? ==> Is(stabs, hit.value.at, ty) && stabs[hit.value.at].value == addr
    decreases r - l + 1
  {
    if l > r then None
    else
      BackFinds(stabs, l, (l + r) / 2, ty);
      var m := Back(stabs, l, (l + r) / 2, ty);
      if m < l || stabs[m].value < addr then MeetsAt(stabs, (l + r) / 2 + 1, r, ty, addr)
      else if stabs[m].value > addr then MeetsAt(stabs, l, m - 1, ty, addr)
      else Some(Hit(m, r))
  }

  /** The search meets addr, and then takes the successor of addr for a match of its own;
      or the successor wraps to zero. */
  ghost predicate Misled(stabs: seq<Stab>, left: int, right: int, ty: int, addr: Addr)
    requires InRange(stabs, left, right)
  {
    var hit := MeetsAt(stabs, left, right, ty, addr);
    hit.Some? && (addr == 0xffff_ffff ||
                  exists b :: left <= b <= hit.value.right && Is(stabs, b, ty) && stabs[b].value == addr + 1)
  }

  /** A misled search for 0xfffffffe meets 0xffffffff and wraps; the region then ends just before that
      stab, which is right after all if the stab there is of the type and not above addr. */
  ghost predicate Repaired(stabs: seq<Stab>, left: int, right: int, ty: int, addr: Addr)
    requires InRange(stabs, left, right)
  {
    addr == 0xffff_fffe && Misled(stabs, left, right, ty, addr) &&
      var hit := MeetsAt(stabs, left, right, ty, addr).value;
      var next := MeetsAt(stabs, hit.at, hit.right, ty, 0xffff_ffff);
      next.Some? && Is(stabs, next.value.at - 1, ty) && stabs[next.value.at - 1].value <= addr
  }

  /** A caller can rule it out: no stab of the type at addr, or none at its successor. */
  lemma NeverMisled(stabs: seq<Stab>, left: int, right: int, ty: int, addr: Addr)
    requires InRange(stabs, left, right)
    requires || (forall i :: left <= i <= right && Is(stabs, i, ty) ==> stabs[i].value != addr)
             || (addr < 0xffff_ffff &&
                   forall i :: left <= i <= right && Is(stabs, i, ty) ==> stabs[i].value != addr + 1)
    ensures !Misled(stabs, left, right, ty, addr)
  {
    var _ := MeetsAt(stabs, left, right, ty, addr);
  }

  /** Two neighbours at 5 and 6 mislead the search for 5; the same two stabs followed by two of
      another type do not, since the probe then falls on 6 first. */
  lemma LayoutDecides()
    ensures Misled([Stab(36, 5), Stab(36, 6)], 0, 1, 36, 5)
    ensures !Misled([Stab(36, 5), Stab(36, 6), Stab(68, 0), Stab(68, 0)], 0, 3, 36, 5)
  {
    var two := [Stab(36, 5), Stab(36, 6)];
    assert Back(two, 0, 0, 36) == 0;
    assert MeetsAt(two, 0, 1, 36, 5) == Some(Hit(0, 1));
    assert Is(two, 1, 36) && two[1].value == 6;
    var four := [Stab(36, 5), Stab(36, 6), Stab(68, 0), Stab(68, 0)];
    assert Back(four, 0, 1, 36) == 1;
    assert Back(four, 0, 0, 36) == 0;
    assert MeetsAt(four, 0, 0, 36, 5) == Some(Hit(0, 0));
    assert MeetsAt(four, 0, 3, 36, 5) == Some(Hit(0, 0));
  }

  /** `left` is the last stab of the type at or below addr. */
  ghost predicate LastAtMost(stabs: seq<Stab>, from: int, to: int, ty: int, addr: Addr, left: int) {
    && from <= left <= to && Is(stabs, left, ty) && stabs[left].value <= addr
    && forall i :: left < i <= to && Is(stabs, i, ty) ==> stabs[i].value > addr
  }

  /** `right` is just before the next stab of the type after `left`, or the region's end. */
  ghost predicate EndOf(stabs: seq<Stab>, to: int, ty: int, left: int, right: int) {
    && left <= right <= to && NoneIn(stabs, left + 1, right, ty)
    && (right < to ==> Is(stabs, right + 1, ty))
  }

  ghost predicate SomeAtMost(stabs: seq<Stab>, from: int, to: int, ty: int, addr: Addr) {
    exists i :: from <= i <= to && Is(stabs, i, ty) && stabs[i].value <= addr
  }

  // ---- One round of the search ---------------------------------------------------------------------

  /** The loop's variables; region_right is always r. */
  datatype Search = Search(l: int, r: int, left: int, any: bool, addr: Addr)

  /** What the round does with its probe m, the last stab of the type in [l, mid]. */
  function Move(stabs: seq<Stab>, s: Search, m: int, mid: int): Search {
    if m < s.l || !(0 <= m < |stabs|) then s.(l := mid + 1)
    else if stabs[m].value < s.addr then s.(l := mid + 1, left := m, any := true)
    else if stabs[m].value > s.addr then s.(r := m - 1, any := true)
    else s.(l := m, left := m, any := true, addr := Inc(s.addr))
  }

  predicate Probed(stabs: seq<Stab>, ty: int, s: Search, m: int, mid: int) {
    && s.l <= mid <= s.r && s.l - 1 <= m <= mid && (m >= s.l ==> Is(stabs, m, ty)) && NoneIn(stabs, m + 1, mid, ty)
  }

  function Middle(s: Search): int {
    (s.l + s.r) / 2
  }

  lemma BackProbes(stabs: seq<Stab>, ty: int, s: Search, m: int)
    requires InRange(stabs, s.l, s.r) && s.l <= s.r && m == Back(stabs, s.l, Middle(s), ty)
    ensures Probed(stabs, ty, s, m, Middle(s))
    ensures MeetsAt(stabs, s.l, s.r, ty, s.addr) ==
            if m >= s.l && stabs[m].value == s.addr then Some(Hit(m, s.r))
            else MeetsAt(stabs, Move(stabs, s, m, Middle(s)).l, Move(stabs, s, m, Middle(s)).r, ty, s.addr)
  {
    BackFinds(stabs, s.l, Middle(s), ty);
  }

  /** Rounds left, twice over, plus one while the exact-match branch is still to be taken at l. */
  function Measure(stabs: seq<Stab>, ty: int, s: Search): int {
    2 * (s.r - s.l + 1) + if s.l <= s.r && Is(stabs, s.l, ty) && stabs[s.l].value == s.addr then 1 else 0
  }

  ghost predicate Bounds(stabs: seq<Stab>, from: int, to: int, ty: int, s: Search) {
    && from <= s.l && s.r <= to && from <= s.left
    && (s.l <= s.r + 1 || (s.l == from && s.r == to))
    && (s.any || (s.r == to && s.left == from && NoneIn(stabs, from, s.l - 1, ty)))
    && (s.any ==> exists i :: from <= i <= to && Is(stabs, i, ty))
  }

  /** Each round makes progress, whatever the stabs are. */
  lemma MoveBounds(stabs: seq<Stab>, from: int, to: int, ty: int, s: Search, m: int, mid: int)
    requires InRange(stabs, from, to) && Bounds(stabs, from, to, ty, s) && Probed(stabs, ty, s, m, mid)
    ensures Bounds(stabs, from, to, ty, Move(stabs, s, m, mid))
    ensures 0 <= Measure(stabs, ty, Move(stabs, s, m, mid)) < Measure(stabs, ty, s)
  {
    if m >= s.l { assert from <= m <= to && Is(stabs, m, ty); }
  }

  /** Stabs beyond r are above addr; `left` is the last one before l, if there is one. */
  ghost predicate Narrowed(stabs: seq<Stab>, from: int, to: int, ty: int, addr: Addr, s: Search, found: bool) {
    && (s.r < to ==> Is(stabs, s.r + 1, ty))
    && (forall i :: s.r < i <= to && Is(stabs, i, ty) ==> stabs[i].value > addr)
    && (!found ==> s.left == from)
    && (if found
        then && s.left <= s.l && s.left <= s.r && Is(stabs, s.left, ty) && stabs[s.left].value <= addr
             && NoneIn(stabs, s.left + 1, s.l - 1, ty)
        else NoneIn(stabs, from, s.l - 1, ty))
  }

  datatype Phase = Before(found: bool) | Met | Wrapped | Lost(floor: int)

  ghost predicate KnowsBefore(stabs: seq<Stab>, from: int, to: int, ty: int, addr: Addr, s: Search, found: bool)
    requires InRange(stabs, from, to)
  {
    && s.addr == addr && Narrowed(stabs, from, to, ty, addr, s, found) && from <= s.l && s.r <= to
    && (s.any ==> found || s.r < to)
    && MeetsAt(stabs, s.l, s.r, ty, addr) == MeetsAt(stabs, from, to, ty, addr)
  }

  /** Every stab at addr + 1 that was in the interval when addr was met is still in it. */
  ghost predicate KnowsMet(stabs: seq<Stab>, from: int, to: int, ty: int, addr: Addr, s: Search, hit: int) {
    && addr < 0xffff_ffff && s.addr == addr + 1 && Narrowed(stabs, from, to, ty, addr, s, true)
    && s.r <= hit <= to
    && forall b :: from <= b <= hit && Is(stabs, b, ty) && stabs[b].value == addr + 1 ==> s.l <= b <= s.r
  }

  ghost predicate KnowsWrapped(stabs: seq<Stab>, to: int, ty: int, s: Search) {
    && s.addr == 0 && s.l == s.left && s.left <= to && Is(stabs, s.left, ty)
    && stabs[s.left].value == 0xffff_ffff && s.l <= s.r + 1
  }

  /** The search has settled at or above a stab beyond addr. */
  ghost predicate KnowsLost(stabs: seq<Stab>, from: int, ty: int, addr: Addr, s: Search, floor: int) {
    && addr < 0xffff_fffe
    && from <= floor <= s.r && floor <= s.l && floor <= s.left && Is(stabs, floor, ty) && stabs[floor].value == addr + 1
    && (s.addr > addr + 1 || s.l > floor)
  }

  /** After addr is met, what comes next is what would be met from there. */
  ghost predicate KnowsNext(stabs: seq<Stab>, from: int, to: int, ty: int, addr: Addr, s: Search)
    requires InRange(stabs, from, to)
  {
    var hit := MeetsAt(stabs, from, to, ty, addr);
    && hit.Some? && KnowsMet(stabs, from, to, ty, addr, s, hit.value.right) && from <= s.l && s.r <= to
    && MeetsAt(stabs, s.l, s.r, ty, addr + 1) == MeetsAt(stabs, hit.value.at, hit.value.right, ty, addr + 1)
  }

  /** The address has wrapped: at once for 0xffffffff, after the next stab for 0xfffffffe. */
  ghost predicate KnowsTop(stabs: seq<Stab>, from: int, to: int, ty: int, addr: Addr, at: int)
    requires InRange(stabs, from, to)
  {
    var hit := MeetsAt(stabs, from, to, ty, addr);
    && hit.Some?
    && (addr == 0xffff_ffff ||
          (addr == 0xffff_fffe && Misled(stabs, from, to, ty, addr) && SomeAtMost(stabs, from, to, ty, addr) &&
           var next := MeetsAt(stabs, hit.value.at, hit.value.right, ty, 0xffff_ffff);
           next.Some? && next.value.at == at))
  }

  /** What holds of a sorted region, before and after the search meets addr. */
  ghost predicate Knows(stabs: seq<Stab>, from: int, to: int, ty: int, addr: Addr, s: Search, p: Phase)
    requires InRange(stabs, from, to)
  {
    match p
    case Before(found) => KnowsBefore(stabs, from, to, ty, addr, s, found)
    case Met => KnowsNext(stabs, from, to, ty, addr, s)
    case Wrapped => KnowsWrapped(stabs, to, ty, s) && KnowsTop(stabs, from, to, ty, addr, s.left)
    case Lost(floor) =>
      && Misled(stabs, from, to, ty, addr) && SomeAtMost(stabs, from, to, ty, addr)
      && KnowsLost(stabs, from, ty, addr, s, floor)
  }

  lemma NarrowLow(stabs: seq<Stab>, from: int, to: int, ty: int, addr: Addr, s: Search, found: bool, m: int, mid: int)
    requires Narrowed(stabs, from, to, ty, addr, s, found) && Probed(stabs, ty, s, m, mid)
    ensures m < s.l ==> Narrowed(stabs, from, to, ty, addr, s.(l := mid + 1), found)
    ensures m >= s.l && stabs[m].value <= addr ==>
              && Narrowed(stabs, from, to, ty, addr, s.(l := mid + 1, left := m), true)
              && Narrowed(stabs, from, to, ty, addr, s.(l := m, left := m), true)
  {
  }

  lemma NarrowHigh(stabs: seq<Stab>, from: int, to: int, ty: int, addr: Addr, s: Search, found: bool, m: int, mid: int)
    requires InRange(stabs, from, to) && Bounds(stabs, from, to, ty, s) && Sorted(stabs, from, to, ty)
    requires Narrowed(stabs, from, to, ty, addr, s, found) && Probed(stabs, ty, s, m, mid)
    requires m >= s.l && stabs[m].value > addr
    ensures Narrowed(stabs, from, to, ty, addr, s.(r := m - 1), found)
  {
  }

  lemma SameNarrowed(stabs: seq<Stab>, from: int, to: int, ty: int, addr: Addr, s: Search, t: Search, found: bool)
    requires Narrowed(stabs, from, to, ty, addr, s, found) && t.l == s.l && t.r == s.r && t.left == s.left
    ensures Narrowed(stabs, from, to, ty, addr, t, found)
  {
  }

  lemma MoveBefore(stabs: seq<Stab>, from: int, to: int, ty: int, addr: Addr, s: Search, found: bool, m: int, mid: int)
    requires InRange(stabs, from, to) && Sorted(stabs, from, to, ty) && Bounds(stabs, from, to, ty, s)
    requires Narrowed(stabs, from, to, ty, addr, s, found) && Probed(stabs, ty, s, m, mid)
    requires s.addr == addr || (found && addr < 0xffff_ffff && s.addr == addr + 1)
    requires m >= s.l && stabs[m].value == s.addr ==> s.addr == addr
    ensures Narrowed(stabs, from, to, ty, addr, Move(stabs, s, m, mid), found || (m >= s.l && stabs[m].value <= addr))
  {
    var t := Move(stabs, s, m, mid);
    NarrowLow(stabs, from, to, ty, addr, s, found, m, mid);
    if m >= s.l {
      if stabs[m].value > s.addr {
        NarrowHigh(stabs, from, to, ty, addr, s, found, m, mid);
        SameNarrowed(stabs, from, to, ty, addr, s.(r := m - 1), t, found);
      } else if stabs[m].value < s.addr {
        SameNarrowed(stabs, from, to, ty, addr, s.(l := mid + 1, left := m), t, true);
      } else {
        SameNarrowed(stabs, from, to, ty, addr, s.(l := m, left := m), t, true);
      }
    }
  }

  lemma ProbeBefore(stabs: seq<Stab>, from: int, to: int, ty: int, addr: Addr, s: Search, found: bool, m: int, mid: int)
    returns (q: Phase)
    requires InRange(stabs, from, to) && Sorted(stabs, from, to, ty) && Bounds(stabs, from, to, ty, s) && s.l <= s.r
    requires KnowsBefore(stabs, from, to, ty, addr, s, found) && Probed(stabs, ty, s, m, mid)
    requires MeetsAt(stabs, s.l, s.r, ty, s.addr) ==
             if m >= s.l && stabs[m].value == s.addr then Some(Hit(m, s.r))
             else MeetsAt(stabs, Move(stabs, s, m, mid).l, Move(stabs, s, m, mid).r, ty, s.addr)
    ensures Knows(stabs, from, to, ty, addr, Move(stabs, s, m, mid), q)
  {
    MoveBefore(stabs, from, to, ty, addr, s, found, m, mid);
    if m >= s.l && stabs[m].value == addr {
      MeetsHere(stabs, from, to, ty, addr, s, m);
      q := if addr == 0xffff_ffff then Wrapped else Met;
    } else {
      q := Before(found || (m >= s.l && stabs[m].value <= addr));
    }
  }

  lemma MeetsHere(stabs: seq<Stab>, from: int, to: int, ty: int, addr: Addr, s: Search, m: int)
    requires InRange(stabs, from, to) && Bounds(stabs, from, to, ty, s) && Sorted(stabs, from, to, ty)
    requires s.l <= m <= s.r
    requires Is(stabs, m, ty) && stabs[m].value == addr
    ensures addr < 0xffff_ffff ==>
              forall b :: from <= b <= s.r && Is(stabs, b, ty) && stabs[b].value == addr + 1 ==> m <= b <= s.r
  {
  }

  /** After addr is met: on to Met again, or to Lost at a stab that is at addr + 1. */
  lemma ProbeMet(stabs: seq<Stab>, from: int, to: int, ty: int, addr: Addr, s: Search, hit: int, m: int, mid: int)
    requires InRange(stabs, from, to) && Sorted(stabs, from, to, ty) && Bounds(stabs, from, to, ty, s)
    requires KnowsMet(stabs, from, to, ty, addr, s, hit) && Probed(stabs, ty, s, m, mid)
    ensures if m >= s.l && stabs[m].value == addr + 1
            then if addr == 0xffff_fffe then KnowsWrapped(stabs, to, ty, Move(stabs, s, m, mid)) && m <= s.r
                 else KnowsLost(stabs, from, ty, addr, Move(stabs, s, m, mid), m)
            else KnowsMet(stabs, from, to, ty, addr, Move(stabs, s, m, mid), hit)
  {
    if !(m >= s.l && stabs[m].value == addr + 1) {
      MoveBefore(stabs, from, to, ty, addr, s, true, m, mid);
    }
  }

  lemma ProbeWrapped(stabs: seq<Stab>, from: int, to: int, ty: int, addr: Addr, s: Search, m: int, mid: int)
    requires InRange(stabs, from, to) && Sorted(stabs, from, to, ty) && Bounds(stabs, from, to, ty, s)
    requires KnowsWrapped(stabs, to, ty, s) && Probed(stabs, ty, s, m, mid)
    ensures KnowsWrapped(stabs, to, ty, Move(stabs, s, m, mid)) && Move(stabs, s, m, mid).left == s.left
  {
  }

  lemma ProbeLost(stabs: seq<Stab>, from: int, to: int, ty: int, addr: Addr, s: Search, floor: int, m: int, mid: int)
    requires InRange(stabs, from, to) && Sorted(stabs, from, to, ty) && Bounds(stabs, from, to, ty, s)
    requires KnowsLost(stabs, from, ty, addr, s, floor) && Probed(stabs, ty, s, m, mid)
    ensures KnowsLost(stabs, from, ty, addr, Move(stabs, s, m, mid), floor)
  {
  }

  lemma ProbeNext(stabs: seq<Stab>, from: int, to: int, ty: int, addr: Addr, s: Search, m: int)
    requires InRange(stabs, from, to) && Sorted(stabs, from, to, ty) && s.l <= s.r && Bounds(stabs, from, to, ty, s)
    requires KnowsNext(stabs, from, to, ty, addr, s) && m == Back(stabs, s.l, Middle(s), ty)
    requires Probed(stabs, ty, s, m, Middle(s))
    ensures var t := Move(stabs, s, m, Middle(s));
            if m >= s.l && stabs[m].value == addr + 1
            then && SomeAtMost(stabs, from, to, ty, addr) && Misled(stabs, from, to, ty, addr)
                 && (if addr == 0xffff_fffe
                     then KnowsWrapped(stabs, to, ty, t) && KnowsTop(stabs, from, to, ty, addr, m)
                     else KnowsLost(stabs, from, ty, addr, t, m))
            else KnowsNext(stabs, from, to, ty, addr, t)
  {
    var hit := MeetsAt(stabs, from, to, ty, addr).value;
    BackProbes(stabs, ty, s, m);
    ProbeMet(stabs, from, to, ty, addr, s, hit.right, m, Middle(s));
    assert from <= s.left <= to && Is(stabs, s.left, ty) && stabs[s.left].value <= addr;
    if m >= s.l && stabs[m].value == addr + 1 {
      assert from <= m <= hit.right && Is(stabs, m, ty);
    } else {
      MoveBounds(stabs, from, to, ty, s, m, Middle(s));
    }
  }

  lemma ProbeKnows(stabs: seq<Stab>, from: int, to: int, ty: int, addr: Addr, s: Search, p: Phase, m: int)
    returns (q: Phase)
    requires InRange(stabs, from, to) && Sorted(stabs, from, to, ty) && s.l <= s.r && Bounds(stabs, from, to, ty, s)
    requires Knows(stabs, from, to, ty, addr, s, p) && m == Back(stabs, s.l, Middle(s), ty)
    ensures Knows(stabs, from, to, ty, addr, Move(stabs, s, m, Middle(s)), q)
  {
    var mid := Middle(s);
    BackProbes(stabs, ty, s, m);
    q := p;
    match p
    case Before(found) => q := ProbeBefore(stabs, from, to, ty, addr, s, found, m, mid);
    case Met =>
      ProbeNext(stabs, from, to, ty, addr, s, m);
      if m >= s.l && stabs[m].value == addr + 1 {
        q := if addr == 0xffff_fffe then Wrapped else Lost(m);
      }
    case Wrapped => ProbeWrapped(stabs, from, to, ty, addr, s, m, mid);
    case Lost(floor) => ProbeLost(stabs, from, to, ty, addr, s, floor, m, mid);
  }

  /** What holds between rounds. */
  ghost predicate Between(stabs: seq<Stab>, from: int, to: int, ty: int, addr: Addr, s: Search, p: Phase)
    requires InRange(stabs, from, to)
  {
    Bounds(stabs, from, to, ty, s) && (Sorted(stabs, from, to, ty) ==> Knows(stabs, from, to, ty, addr, s, p))
  }

  /** Each round makes progress, whatever the stabs are, and keeps what is known of a sorted
      region, moving from phase to phase. */
  lemma Round(stabs: seq<Stab>, from: int, to: int, ty: int, addr: Addr, s: Search, p: Phase, m: int) returns (q: Phase)
    requires InRange(stabs, from, to) && Between(stabs, from, to, ty, addr, s, p) && s.l <= s.r
    requires m == Back(stabs, s.l, Middle(s), ty)
    ensures Between(stabs, from, to, ty, addr, Move(stabs, s, m, Middle(s)), q)
    ensures 0 <= Measure(stabs, ty, Move(stabs, s, m, Middle(s))) < Measure(stabs, ty, s)
  {
    BackProbes(stabs, ty, s, m);
    MoveBounds(stabs, from, to, ty, s, m, Middle(s));
    q := p;
    if Sorted(stabs, from, to, ty) { q := ProbeKnows(stabs, from, to, ty, addr, s, p, m); }
  }

  /** What the final walk from r down to `left` gives. */
  ghost predicate Settles(stabs: seq<Stab>, ty: int, s: Search, left: int) {
    && (if s.r <= s.left then left == s.r else s.left <= left <= s.r)
    && NoneIn(stabs, left + 1, s.r, ty) && (left > s.left ==> Is(stabs, left, ty))
  }

  /** The search is right exactly when it is not misled, or is repaired. */
  ghost predicate Verdict(stabs: seq<Stab>, from: int, to: int, ty: int, addr: Addr, left: int, right: int)
    requires InRange(stabs, from, to)
  {
    if Misled(stabs, from, to, ty, addr) && !Repaired(stabs, from, to, ty, addr)
    then !LastAtMost(stabs, from, to, ty, addr, left)
    else SomeAtMost(stabs, from, to, ty, addr) ==>
           LastAtMost(stabs, from, to, ty, addr, left) && EndOf(stabs, to, ty, left, right)
  }

  /** The search never met addr, or met nothing after it. */
  lemma OutcomePlain(stabs: seq<Stab>, from: int, to: int, ty: int, addr: Addr, s: Search, found: bool, left: int)
    requires InRange(stabs, from, to) && s.l > s.r && s.any && Bounds(stabs, from, to, ty, s)
    requires Narrowed(stabs, from, to, ty, addr, s, found) && Settles(stabs, ty, s, left)
    ensures SomeAtMost(stabs, from, to, ty, addr) ==>
              LastAtMost(stabs, from, to, ty, addr, left) && EndOf(stabs, to, ty, left, s.r)
  {
  }

  /** The address has wrapped, so the region ends before the stab met last. */
  lemma OutcomeTop(stabs: seq<Stab>, from: int, to: int, ty: int, addr: Addr, s: Search, left: int)
    requires InRange(stabs, from, to) && Sorted(stabs, from, to, ty) && s.l > s.r && Bounds(stabs, from, to, ty, s)
    requires KnowsWrapped(stabs, to, ty, s) && KnowsTop(stabs, from, to, ty, addr, s.left)
    requires Settles(stabs, ty, s, left)
    ensures Verdict(stabs, from, to, ty, addr, left, s.r)
  {
    assert left == s.r == s.left - 1;
    if addr == 0xffff_ffff {
      assert !LastAtMost(stabs, from, to, ty, addr, left);
    } else {
      TopRight(stabs, from, to, ty, s.left);
    }
  }

  /** Ending just before a stab at 0xffffffff is right for 0xfffffffe exactly if the stab there counts. */
  lemma TopRight(stabs: seq<Stab>, from: int, to: int, ty: int, at: int)
    requires InRange(stabs, from, to) && Sorted(stabs, from, to, ty) && from < at <= to
    requires Is(stabs, at, ty) && stabs[at].value == 0xffff_ffff
    ensures LastAtMost(stabs, from, to, ty, 0xffff_fffe, at - 1) <==>
              Is(stabs, at - 1, ty) && stabs[at - 1].value <= 0xffff_fffe
    ensures EndOf(stabs, to, ty, at - 1, at - 1)
  {
  }

  lemma OutcomeLost(stabs: seq<Stab>, from: int, to: int, ty: int, addr: Addr, s: Search, floor: int, left: int)
    requires InRange(stabs, from, to) && Sorted(stabs, from, to, ty) && s.l > s.r && Bounds(stabs, from, to, ty, s)
    requires KnowsLost(stabs, from, ty, addr, s, floor) && Settles(stabs, ty, s, left)
    ensures !LastAtMost(stabs, from, to, ty, addr, left)
  {
  }

  lemma Outcome(stabs: seq<Stab>, from: int, to: int, ty: int, addr: Addr, s: Search, p: Phase, left: int)
    requires InRange(stabs, from, to) && Sorted(stabs, from, to, ty) && Bounds(stabs, from, to, ty, s)
    requires s.l > s.r && s.any
    requires Knows(stabs, from, to, ty, addr, s, p) && Settles(stabs, ty, s, left)
    ensures Verdict(stabs, from, to, ty, addr, left, s.r)
  {
    match p
    case Before(found) => OutcomePlain(stabs, from, to, ty, addr, s, found, left);
    case Met => OutcomePlain(stabs, from, to, ty, addr, s, true, left);
    case Wrapped => OutcomeTop(stabs, from, to, ty, addr, s, left);
    case Lost(floor) => OutcomeLost(stabs, from, to, ty, addr, s, floor, left);
  }

  lemma OutcomeAbove(stabs: seq<Stab>, from: int, to: int, ty: int, addr: Addr, s: Search, p: Phase, left: int)
    requires InRange(stabs, from, to) && s.l > s.r && s.any && Bounds(stabs, from, to, ty, s)
    requires Knows(stabs, from, to, ty, addr, s, p) && Settles(stabs, ty, s, left)
    ensures !SomeAtMost(stabs, from, to, ty, addr) ==>
              && from - 1 <= s.r < to && NoneIn(stabs, from, s.r, ty) && Is(stabs, s.r + 1, ty)
              && left == if s.r < from then s.r else from
  {
  }

  /** Both inner loops: walk back from `start` to the last stab of the type, not below `floor`. */
  method WalkBack(stabs: seq<Stab>, floor: int, start: int, ty: int) returns (m: int)
    requires InRange(stabs, floor, start)
    ensures m <= start && (start < floor ==> m == start) && (start >= floor ==> floor - 1 <= m)
    ensures m >= floor ==> Is(stabs, m, ty)
    ensures NoneIn(stabs, m + 1, start, ty)
    ensures start >= floor ==> m == Back(stabs, floor, start, ty)
  {
    m := start;
    while m >= floor && stabs[m].ty != ty
      invariant m <= start && (start < floor ==> m == start) && (start >= floor ==> floor - 1 <= m)
      invariant NoneIn(stabs, m + 1, start, ty)
      invariant start >= floor ==> Back(stabs, floor, m, ty) == Back(stabs, floor, start, ty)
    {
      m := m - 1;
    }
  }

  /** The main loop; it ends on every input. */
  method Narrow(stabs: seq<Stab>, regionLeft: int, regionRight: int, ty: int, addr0: Addr)
    returns (left: int, right: int, any: bool, ghost s: Search, ghost phase: Phase)
    requires InRange(stabs, regionLeft, regionRight)
    ensures s.l > s.r == right && s.left == left && s.any == any
    ensures Between(stabs, regionLeft, regionRight, ty, addr0, s, phase)
  {
    var l, r, addr := regionLeft, regionRight, addr0;
    left, right, any, phase := regionLeft, regionRight, false, Before(false);
    s := Search(l, r, left, any, addr);
    while l <= r
      invariant s == Search(l, r, left, any, addr) && right == r
      invariant Between(stabs, regionLeft, regionRight, ty, addr0, s, phase)
      decreases Measure(stabs, ty, s)
    {
      var trueM := (l + r) / 2;
      var m := WalkBack(stabs, l, trueM, ty);
      phase := Round(stabs, regionLeft, regionRight, ty, addr0, s, phase, m);
      s := Move(stabs, s, m, Middle(s));
      if m < l {
        l := trueM + 1;
        continue;
      }
      any := true;
      if stabs[m].value < addr {
        left := m;
        l := trueM + 1;
      } else if stabs[m].value > addr {
        right := m - 1;
        r := m - 1;
      } else {
        left := m;
        l := m;
        addr := Inc(addr);
      }
    }
  }

  method StabBinsearch(stabs: seq<Stab>, regionLeft: int, regionRight: int, ty: int, addr0: Addr)
    returns (left: int, right: int)
    requires InRange(stabs, regionLeft, regionRight)
    // No stab of the type: an empty region.
    ensures NoneIn(stabs, regionLeft, regionRight, ty) ==> left == regionLeft && right == regionLeft - 1
    // One at or below addr: found, with its extent, exactly if the search is not misled or is repaired.
    ensures Sorted(stabs, regionLeft, regionRight, ty) && SomeAtMost(stabs, regionLeft, regionRight, ty, addr0) ==>
              Verdict(stabs, regionLeft, regionRight, ty, addr0, left, right)
    // All above addr: the region before the first one, which is not empty as the comments say.
    ensures Sorted(stabs, regionLeft, regionRight, ty) && !SomeAtMost(stabs, regionLeft, regionRight, ty, addr0)
            && !NoneIn(stabs, regionLeft, regionRight, ty) ==>
              && regionLeft - 1 <= right < regionRight && NoneIn(stabs, regionLeft, right, ty)
              && Is(stabs, right + 1, ty)
              && left == if right < regionLeft then right else regionLeft
  {
    ghost var s, phase;
    var any;
    left, right, any, s, phase := Narrow(stabs, regionLeft, regionRight, ty, addr0);
    if !any {
      right := left - 1;
    } else {
      left := WalkBack(stabs, left + 1, right, ty);
      if Sorted(stabs, regionLeft, regionRight, ty) {
        Outcome(stabs, regionLeft, regionRight, ty, addr0, s, phase, left);
        OutcomeAbove(stabs, regionLeft, regionRight, ty, addr0, s, phase, left);
      }
    }
  }
}
