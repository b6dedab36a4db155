/** Whole runs of system calls that move pages and environments about. */
module KernelRun {
  import opened Paging
  import opened EnvTable
  import opened PageTables
  import opened HighMappings
  import opened KernelMemory
  import opened Common
  import opened Addresses

  /** A system call by environment `cur`, or the end of an environment. */
  datatype Syscall =
    | PageAlloc(cur: nat, envid: int, va: nat, perm: set<Bit>)
    | PageMap(cur: nat, srcid: int, srcva: nat, dstid: int, dstva: nat, perm: set<Bit>)
    | PageUnmap(cur: nat, envid: int, va: nat)
    | IpcTrySend(cur: nat, envid: int, value: nat, srcva: nat, perm: set<Bit>)
    | IpcRecv(cur: nat, at: Va)
    | Exofork(cur: nat)
    | Free(cur: nat)

  predicate Live(m: Memory, envs: seq<Env>, call: Syscall) {
    call.cur in m.pgdir && call.cur < NENV == |envs|
  }

  /** The counts stay right: a page that gets mapped has room for a reference, and is not sent to an
      address above UTOP unless it is mapped there. */
  predicate Keeps(m: Memory, envs: seq<Env>, call: Syscall)
    requires Live(m, envs, call)
  {
    match call
    case PageMap(cur, srcid, srcva, dstid, dstva, perm) =>
      (var src, dst := Envid2Env(envs, cur, srcid, true), Envid2Env(envs, cur, dstid, true);
       MapRefused(m, src, srcva, dst, dstva, perm) ||
         RoomFor(m, At(m, PteOf(src.slot, srcva)).frame, PteOf(dst.slot, dstva)))
    case IpcTrySend(cur, envid, value, srcva, perm) =>
      (var dst := Envid2Env(envs, cur, envid, false);
       dst.BadEnv? || dst.slot >= NENV || srcva >= UTOP || SendCode(m, envs, cur, dst.slot, srcva, perm) != 0 ||
         SendKeeps(m, At(m, PteOf(cur, srcva)).frame, dst.slot, envs[dst.slot].dstva))
    case _ => true
  }

  predicate MapRefused(m: Memory, src: Found, srcva: nat, dst: Found, dstva: nat, perm: set<Bit>) {
    !PageAligned(srcva) || !PageAligned(dstva) || !Grantable(perm) || src.BadEnv? || dst.BadEnv?
      || MapCode(m, PteOf(src.slot, srcva), dst.slot, Pdx(dstva), perm) != 0
  }

  /** pa2page stops the kernel. */
  predicate Panics(m: Memory, envs: seq<Env>, call: Syscall)
    requires Live(m, envs, call)
  {
    call.IpcTrySend? &&
      var dst := Envid2Env(envs, call.cur, call.envid, false);
      dst.Found? && dst.slot < NENV && SendCode(m, envs, call.cur, dst.slot, call.srcva, call.perm) == PANIC
  }

  predicate MayCall(m: Memory, envs: seq<Env>, call: Syscall) {
    Live(m, envs, call) && Keeps(m, envs, call) && !Panics(m, envs, call)
  }

  /** What the invariant says of every physical page: its count is the number of page-table,
      directory and root references to it, and the free list holds exactly the unreferenced
      pages, each once. */
  ghost predicate PagesCounted(k: Kernel)
    reads k
  {
    && |k.ref| == |k.book.kind|
    && (forall p: nat :: p < |k.ref| ==>
          && (p in k.book.free <==> k.ref[p] == 0)
          && (p in k.book.free <==> !k.book.kind[p].Reserved? && Sites(k.book.refs, p) == {})
          && (!k.book.kind[p].Reserved? ==> k.ref[p] == |Sites(k.book.refs, p)|))
    && Chain(k.head, k.link, k.book.free)
  }

  lemma InvCounts(k: Kernel)
    requires k.Inv()
    ensures PagesCounted(k)
  {
    assert |k.ref| == |k.book.kind|;
    forall p: nat | p < |k.ref|
      ensures p in k.book.free <==> k.ref[p] == 0
      ensures p in k.book.free <==> !k.book.kind[p].Reserved? && Sites(k.book.refs, p) == {}
      ensures !k.book.kind[p].Reserved? ==> k.ref[p] == |Sites(k.book.refs, p)|
    {
      FreeIsUnreferenced(k.M(), k.book, p);
    }
  }

  // ---- What each call does ---------------------------------------------------------------------

  /** The kernel's state at one moment. */
  datatype Snap = Snap(m: Memory, b: Book, envs: seq<Env>, envHead: Link)

  ghost function Now(k: Kernel): Snap
    reads k
  {
    Snap(k.M(), k.book, k.envs, k.envHead)
  }

  ghost function Map(s: Snap): map<Site, Entry> {
    UserMap(s.b.refs)
  }

  ghost predicate Unchanged(s: Snap, t: Snap) {
    Map(t) == Map(s) && t.envs == s.envs
  }

  /** The page behind `src` becomes mapped at `dst` as well. */
  ghost predicate MapsTo(s: Snap, t: Snap, src: Site, dst: Site, perm: set<Bit>) {
    src in Map(s) && Map(t) == Map(s)[dst := Entry(Map(s)[src].frame, perm + {P})]
  }

  ghost predicate AllocEffect(s: Snap, t: Snap, cur: nat, envid: int, va: nat, perm: set<Bit>)
    requires |s.envs| == NENV && cur < NENV
  {
    var found := Envid2Env(s.envs, cur, envid, true);
    if !PageAligned(va) || !Grantable(perm) || found.BadEnv? || AllocFails(s.m, found.slot, Pdx(va))
    then Unchanged(s, t)
    else s.b.free != [] && t.envs == s.envs && Map(t) == Map(s)[PteOf(found.slot, va) := Entry(s.b.free[0], perm + {P})]
  }

  ghost predicate MapEffect(s: Snap, t: Snap, cur: nat, srcid: int, srcva: nat, dstid: int, dstva: nat, perm: set<Bit>)
    requires |s.envs| == NENV && cur < NENV
  {
    var src, dst := Envid2Env(s.envs, cur, srcid, true), Envid2Env(s.envs, cur, dstid, true);
    if MapRefused(s.m, src, srcva, dst, dstva, perm) then Unchanged(s, t)
    else t.envs == s.envs && MapsTo(s, t, PteOf(src.slot, srcva), PteOf(dst.slot, dstva), perm)
  }

  ghost predicate SendEffect(s: Snap, t: Snap, cur: nat, envid: int, value: nat, srcva: nat, perm: set<Bit>)
    requires |s.envs| == NENV && cur < NENV
  {
    var found := Envid2Env(s.envs, cur, envid, false);
    if found.BadEnv? || found.slot >= NENV || SendCode(s.m, s.envs, cur, found.slot, srcva, perm) != 0
    then Unchanged(s, t)
    else
      && t.envs == s.envs[found.slot := Delivered(s.envs[found.slot], s.envs[cur].id, value, srcva < UTOP, perm)]
      && (if srcva < UTOP && s.envs[found.slot].dstva < UTOP
          then MapsTo(s, t, PteOf(cur, srcva), PteOf(found.slot, s.envs[found.slot].dstva), perm)
          else Map(t) == Map(s))
  }

  ghost predicate UnmapEffect(s: Snap, t: Snap, cur: nat, envid: int, va: nat)
    requires |s.envs| == NENV && cur < NENV
  {
    var found := Envid2Env(s.envs, cur, envid, true);
    if !PageAligned(va) || found.BadEnv? then Unchanged(s, t)
    else t.envs == s.envs && Map(t) == Map(s) - {PteOf(found.slot, va)}
  }

  ghost predicate RecvEffect(s: Snap, t: Snap, cur: nat, dstva: Va)
    requires |s.envs| == NENV && cur < NENV
  {
    if dstva < UTOP && dstva % PGSIZE != 0 then Unchanged(s, t)
    else
      && Map(t) == Map(s)
      && t.envs == s.envs[cur := s.envs[cur].(recving := true, dstva := dstva, status := NOT_RUNNABLE)]
  }

  /** A new environment starts with no mappings. */
  ghost predicate ForkEffect(s: Snap, t: Snap, cur: nat)
    requires |s.envs| == NENV && cur < NENV
  {
    if s.envHead.Null? || s.m.head.Null? then Unchanged(s, t)
    else
      && Map(t) == Map(s) && |t.envs| == NENV
      && exists e: nat ::
           && e < NENV && s.envs[e].status.FREE? && t.envs[e].status.NOT_RUNNABLE? && t.envs[e].parent == s.envs[cur].id
           && (forall d :: 0 <= d < NENV && d != e ==> t.envs[d] == s.envs[d])
           && (forall x :: x in Map(t) ==> x.env != e)
  }

  /** The address spaces and the environments after a call, failures included. */
  ghost predicate Effect(s: Snap, call: Syscall, t: Snap)
    requires |s.envs| == NENV && call.cur < NENV
  {
    match call
    case PageAlloc(cur, envid, va, perm) => AllocEffect(s, t, cur, envid, va, perm)
    case PageMap(cur, srcid, srcva, dstid, dstva, perm) => MapEffect(s, t, cur, srcid, srcva, dstid, dstva, perm)
    case PageUnmap(cur, envid, va) => UnmapEffect(s, t, cur, envid, va)
    case IpcTrySend(cur, envid, value, srcva, perm) => SendEffect(s, t, cur, envid, value, srcva, perm)
    case IpcRecv(cur, dstva) => RecvEffect(s, t, cur, dstva)
    case Exofork(cur) => ForkEffect(s, t, cur)
    case Free(cur) =>
      && t.envs == s.envs[cur := s.envs[cur].(status := FREE)]
      && GoneWith(s.b.refs, t.b.refs, cur) && FreedBy(s.b, t.b, cur)
  }

  // ---- What processes see ------------------------------------------------------------------------

  /** The effect of a call on what the processor finds at each address of each environment. */
  ghost predicate Seen(s: Snap, call: Syscall, t: Snap)
    requires |s.envs| == NENV && call.cur < NENV
  {
    match call
    case PageAlloc(cur, envid, va, perm) =>
      (var found := Envid2Env(s.envs, cur, envid, true);
       if !PageAligned(va) || !Grantable(perm) || found.BadEnv? || AllocFails(s.m, found.slot, Pdx(va))
       then SameSpaces(s.m, t.m)
       else s.b.free != [] && SetsPage(s.m, t.m, found.slot, va, Some(Entry(s.b.free[0], perm + {P}))))
    case PageMap(cur, srcid, srcva, dstid, dstva, perm) =>
      (var src, dst := Envid2Env(s.envs, cur, srcid, true), Envid2Env(s.envs, cur, dstid, true);
       if MapRefused(s.m, src, srcva, dst, dstva, perm) then SameSpaces(s.m, t.m)
       else MapsPage(s.m, t.m, src.slot, srcva, dst.slot, dstva, perm))
    case PageUnmap(cur, envid, va) =>
      (var found := Envid2Env(s.envs, cur, envid, true);
       if !PageAligned(va) || found.BadEnv? then SameSpaces(s.m, t.m)
       else SetsPage(s.m, t.m, found.slot, va, None))
    case IpcTrySend(cur, envid, value, srcva, perm) =>
      (var found := Envid2Env(s.envs, cur, envid, false);
       if found.BadEnv? || found.slot >= NENV || SendCode(s.m, s.envs, cur, found.slot, srcva, perm) != 0
          || srcva >= 0xEEC0_0000 || s.envs[found.slot].dstva >= 0xEEC0_0000
       then SameSpaces(s.m, t.m)
       else MapsPage(s.m, t.m, cur, srcva, found.slot, s.envs[found.slot].dstva, perm))
    case Free(cur) => SpaceGone(s.m, t.m, cur)
    case _ => SameSpaces(s.m, t.m)
  }

  lemma SeenCopy(s: Snap, t: Snap, src: nat, srcva: nat, dst: nat, dstva: nat, perm: set<Bit>)
    requires Tied(s.m, s.b.refs) && Tied(t.m, t.b.refs) && srcva < 0xEEC0_0000
    requires MapCode(s.m, PteOf(src, srcva), dst, Pdx(dstva), perm) == 0
    requires MapsTo(s, t, PteOf(src, srcva), PteOf(dst, dstva), perm)
    ensures MapsPage(s.m, t.m, src, srcva, dst, dstva, perm)
  {
    var r := s.b.refs;
    UserPart(r, PteOf(src, srcva));
    WalkFinds(s.m, r, src, srcva);
    Setting(s.m, r, t.m, t.b.refs, dst, dstva, Entry(r[PteOf(src, srcva)].frame, perm + {P}));
  }

  lemma SeenSame(s: Snap, t: Snap)
    requires Tied(s.m, s.b.refs) && Tied(t.m, t.b.refs) && Map(t) == Map(s)
    ensures SameSpaces(s.m, t.m)
  {
    Keeping(s.m, s.b.refs, t.m, t.b.refs);
  }

  lemma SeenAlloc(s: Snap, call: Syscall, t: Snap)
    requires Tied(s.m, s.b.refs) && Tied(t.m, t.b.refs) && |s.envs| == NENV && call.cur < NENV
    requires Effect(s, call, t) && call.PageAlloc?
    ensures Seen(s, call, t)
  {
    var e := Envid2Env(s.envs, call.cur, call.envid, true);
    if Map(t) == Map(s) {
      SeenSame(s, t);
    }
    if e.Found? && s.b.free != [] && t.envs == s.envs {
      var x := Entry(s.b.free[0], call.perm + {P});
      if Map(t) == Map(s)[PteOf(e.slot, call.va) := x] {
        Setting(s.m, s.b.refs, t.m, t.b.refs, e.slot, call.va, x);
      }
    }
  }

  lemma SeenMap(s: Snap, call: Syscall, t: Snap)
    requires Tied(s.m, s.b.refs) && Tied(t.m, t.b.refs) && |s.envs| == NENV && call.cur < NENV
    requires Effect(s, call, t) && call.PageMap?
    ensures Seen(s, call, t)
  {
    var src, dst := Envid2Env(s.envs, call.cur, call.srcid, true), Envid2Env(s.envs, call.cur, call.dstid, true);
    if MapRefused(s.m, src, call.srcva, dst, call.dstva, call.perm) {
      SeenSame(s, t);
    } else {
      SeenCopy(s, t, src.slot, call.srcva, dst.slot, call.dstva, call.perm);
    }
  }

  lemma SeenSend(s: Snap, call: Syscall, t: Snap)
    requires Tied(s.m, s.b.refs) && Tied(t.m, t.b.refs) && |s.envs| == NENV && call.cur < NENV
    requires Effect(s, call, t) && call.IpcTrySend?
    ensures Seen(s, call, t)
  {
    var found := Envid2Env(s.envs, call.cur, call.envid, false);
    if found.BadEnv? || found.slot >= NENV || SendCode(s.m, s.envs, call.cur, found.slot, call.srcva, call.perm) != 0
       || call.srcva >= UTOP || s.envs[found.slot].dstva >= UTOP {
      SeenSame(s, t);
    } else {
      SeenCopy(s, t, call.cur, call.srcva, found.slot, s.envs[found.slot].dstva, call.perm);
    }
  }

  /** The effect on the kernel's map is the effect on what processes see. */
  lemma EffectSeen(s: Snap, call: Syscall, t: Snap)
    requires Tied(s.m, s.b.refs) && Tied(t.m, t.b.refs) && |s.envs| == NENV && call.cur < NENV && Effect(s, call, t)
    ensures Seen(s, call, t)
  {
    match call
    case PageAlloc(_, _, _, _) => SeenAlloc(s, call, t);
    case PageMap(_, _, _, _, _, _) => SeenMap(s, call, t);
    case PageUnmap(cur, envid, va) =>
      var found := Envid2Env(s.envs, cur, envid, true);
      if !PageAligned(va) || found.BadEnv? {
        SeenSame(s, t);
      } else {
        Clearing(s.m, s.b.refs, t.m, t.b.refs, found.slot, va);
      }
    case IpcTrySend(_, _, _, _, _) => SeenSend(s, call, t);
    case Free(cur) => Losing(s.m, s.b.refs, t.m, t.b.refs, cur);
    case _ => SeenSame(s, t);
  }

  // ---- Runs --------------------------------------------------------------------------------------

  method DoMap(k: Kernel, cur: nat, srcid: int, srcva: nat, dstid: int, dstva: nat, perm: set<Bit>)
    requires k.Inv() && Live(k.M(), k.envs, PageMap(cur, srcid, srcva, dstid, dstva, perm))
    modifies k
    ensures MapEffect(old(Now(k)), Now(k), cur, srcid, srcva, dstid, dstva, perm)
    ensures k.Inv() <==> Keeps(old(k.M()), old(k.envs), PageMap(cur, srcid, srcva, dstid, dstva, perm))
  {
    ghost var m, b := k.M(), k.book;
    var r := k.SysPageMap(cur, srcid, srcva, dstid, dstva, perm);
    if r >= 0 {
      ghost var s := PteOf(Envid2Env(k.envs, cur, srcid, true).slot, srcva);
      SourceMapped(m, b, s);
    }
  }

  /** What sys_ipc_try_send promises of the kernel's map; ok says whether the invariant holds after it. */
  ghost predicate SendResult(s: Snap, t: Snap, cur: nat, envid: int, value: nat, srcva: nat, perm: set<Bit>, ok: bool)
    requires |s.envs| == NENV && cur < NENV
  {
    match Envid2Env(s.envs, cur, envid, false)
    case BadEnv => ok && t == s
    case Found(dst) =>
      && dst < NENV
      && if SendCode(s.m, s.envs, cur, dst, srcva, perm) != 0 then ok && t == s
         else
           && t.envs == s.envs[dst := Delivered(s.envs[dst], s.envs[cur].id, value, srcva < UTOP, perm)]
           && (if srcva >= UTOP then ok && t.m == s.m && t.b == s.b
               else PageSent(s.m, s.b, t.m, t.b, PteOf(cur, srcva), dst, s.envs[dst].dstva, perm, ok))
  }

  method SendCall(k: Kernel, cur: nat, envid: int, value: nat, srcva: nat, perm: set<Bit>)
    requires k.Inv() && Live(k.M(), k.envs, IpcTrySend(cur, envid, value, srcva, perm))
    modifies k
    ensures SendResult(old(Now(k)), Now(k), cur, envid, value, srcva, perm, k.Inv())
  {
    var _ := k.SysIpcTrySend(cur, envid, value, srcva, perm);
  }

  lemma SendDone(s: Snap, t: Snap, cur: nat, envid: int, value: nat, srcva: nat, perm: set<Bit>, ok: bool)
    requires |s.envs| == NENV && cur < NENV && cur in s.m.pgdir && Tied(s.m, s.b.refs)
    requires SendResult(s, t, cur, envid, value, srcva, perm, ok)
    ensures SendEffect(s, t, cur, envid, value, srcva, perm)
    ensures ok <==> Keeps(s.m, s.envs, IpcTrySend(cur, envid, value, srcva, perm))
  {
    var found := Envid2Env(s.envs, cur, envid, false);
    if found.Found? && SendCode(s.m, s.envs, cur, found.slot, srcva, perm) == 0 && srcva < UTOP {
      SentEffect(s, t, PteOf(cur, srcva), found.slot, s.envs[found.slot].dstva, perm, ok);
    }
  }

  method DoSend(k: Kernel, cur: nat, envid: int, value: nat, srcva: nat, perm: set<Bit>)
    requires k.Inv() && Live(k.M(), k.envs, IpcTrySend(cur, envid, value, srcva, perm))
    modifies k
    ensures SendEffect(old(Now(k)), Now(k), cur, envid, value, srcva, perm)
    ensures k.Inv() <==> Keeps(old(k.M()), old(k.envs), IpcTrySend(cur, envid, value, srcva, perm))
  {
    ghost var s := Now(k);
    SendCall(k, cur, envid, value, srcva, perm);
    SendDone(s, Now(k), cur, envid, value, srcva, perm, k.Inv());
  }

  lemma SentEffect(s: Snap, t: Snap, src: Site, dst: nat, dstva: nat, perm: set<Bit>, ok: bool)
    requires Tied(s.m, s.b.refs) && src.Pte? && PageSent(s.m, s.b, t.m, t.b, src, dst, dstva, perm, ok)
    ensures if dstva < UTOP then MapsTo(s, t, src, PteOf(dst, dstva), perm) else Map(t) == Map(s)
    ensures ok <==> SendKeeps(s.m, At(s.m, src).frame, dst, dstva)
  {
  }

  method DoAlloc(k: Kernel, cur: nat, envid: int, va: nat, perm: set<Bit>)
    requires k.Inv() && Live(k.M(), k.envs, PageAlloc(cur, envid, va, perm))
    modifies k
    ensures k.Inv() && AllocEffect(old(Now(k)), Now(k), cur, envid, va, perm)
  {
    var _ := k.SysPageAlloc(cur, envid, va, perm);
  }

  method DoUnmap(k: Kernel, cur: nat, envid: int, va: nat)
    requires k.Inv() && Live(k.M(), k.envs, PageUnmap(cur, envid, va))
    modifies k
    ensures k.Inv() && UnmapEffect(old(Now(k)), Now(k), cur, envid, va)
  {
    var _ := k.SysPageUnmap(cur, envid, va);
  }

  method DoRecv(k: Kernel, cur: nat, dstva: Va)
    requires k.Inv() && Live(k.M(), k.envs, IpcRecv(cur, dstva))
    modifies k
    ensures k.Inv() && RecvEffect(old(Now(k)), Now(k), cur, dstva)
  {
    var _ := k.SysIpcRecv(cur, dstva);
  }

  method DoFork(k: Kernel, cur: nat)
    requires k.Inv() && Live(k.M(), k.envs, Exofork(cur))
    modifies k
    ensures k.Inv() && ForkEffect(old(Now(k)), Now(k), cur)
  {
    var r := k.SysExofork(cur);
    if r >= 0 {
      assert Slot(r) < NENV;
    }
  }

  /** Each call of a live environment has its effect, and keeps the invariant exactly when it keeps
      the counts. */
  method Perform(k: Kernel, call: Syscall)
    requires k.Inv() && Live(k.M(), k.envs, call)
    modifies k
    ensures Effect(old(Now(k)), call, Now(k))
    ensures k.Inv() <==> Keeps(old(k.M()), old(k.envs), call)
    ensures k.Inv() ==> Seen(old(Now(k)), call, Now(k))
  {
    ghost var s := Now(k);
    Dispatch(k, call);
    if k.Inv() {
      EffectSeen(s, call, Now(k));
    }
  }

  method Dispatch(k: Kernel, call: Syscall)
    requires k.Inv() && Live(k.M(), k.envs, call)
    modifies k
    ensures Effect(old(Now(k)), call, Now(k))
    ensures k.Inv() <==> Keeps(old(k.M()), old(k.envs), call)
  {
    match call
    case PageAlloc(cur, envid, va, perm) => DoAlloc(k, cur, envid, va, perm);
    case PageMap(cur, srcid, srcva, dstid, dstva, perm) => DoMap(k, cur, srcid, srcva, dstid, dstva, perm);
    case PageUnmap(cur, envid, va) => DoUnmap(k, cur, envid, va);
    case IpcTrySend(cur, envid, value, srcva, perm) => DoSend(k, cur, envid, value, srcva, perm);
    case IpcRecv(cur, dstva) => DoRecv(k, cur, dstva);
    case Exofork(cur) => DoFork(k, cur);
    case Free(cur) => k.EnvFree(cur);
  }

  /** One call's place in a run: it had its effect, and the counts were exact before it. */
  ghost predicate Happened(s: Snap, call: Syscall, t: Snap) {
    Valid(s.m, s.b) && |s.envs| == NENV && call.cur < NENV && Effect(s, call, t) && Seen(s, call, t)
  }

  /** The states of a run of the first calls. */
  ghost predicate Follows(trace: seq<Snap>, calls: seq<Syscall>) {
    0 < |trace| <= |calls| + 1 && forall i :: 0 <= i < |trace| - 1 ==> Happened(trace[i], calls[i], trace[i + 1])
  }

  lemma FollowsOn(trace: seq<Snap>, calls: seq<Syscall>, t: Snap)
    requires Follows(trace, calls) && |trace| <= |calls| && Happened(trace[|trace| - 1], calls[|trace| - 1], t)
    ensures Follows(trace + [t], calls)
  {
    var u := trace + [t];
    forall i | 0 <= i < |u| - 1 ensures Happened(u[i], calls[i], u[i + 1]) {
      if i < |trace| - 1 { assert Happened(trace[i], calls[i], trace[i + 1]); }
    }
  }

  method Next(k: Kernel, calls: seq<Syscall>, n: nat, ghost trace: seq<Snap>) returns (ghost on: seq<Snap>)
    requires k.Inv() && n < |calls| && MayCall(k.M(), k.envs, calls[n])
    requires |trace| == n + 1 && Follows(trace, calls) && trace[n] == Now(k)
    modifies k
    ensures k.Inv() && on == trace + [Now(k)] && Follows(on, calls)
  {
    Perform(k, calls[n]);
    on := trace + [Now(k)];
    FollowsOn(trace, calls, Now(k));
  }

  /** Any sequence of calls, failed ones included, has the effects of its calls one by one and
      keeps every count exact in every state; it stops early only where a call breaks the guard. */
  method Run(k: Kernel, calls: seq<Syscall>) returns (n: nat, ghost trace: seq<Snap>)
    requires k.Inv()
    modifies k
    ensures k.Inv() && PagesCounted(k)
    ensures n <= |calls| && (n < |calls| ==> !MayCall(k.M(), k.envs, calls[n]))
    ensures |trace| == n + 1 && trace[0] == old(Now(k)) && trace[n] == Now(k) && Follows(trace, calls)
  {
    n, trace := 0, [Now(k)];
    while n < |calls| && MayCall(k.M(), k.envs, calls[n])
      invariant k.Inv() && n <= |calls| && |trace| == n + 1
      invariant trace[0] == old(Now(k)) && trace[n] == Now(k) && Follows(trace, calls)
    {
      trace := Next(k, calls, n, trace);
      n := n + 1;
    }
    InvCounts(k);
  }
}
