/** Copy-on-write fork (lib/fork.c) against eager page copying (user/dumbfork.c).
    Environments run concurrently; every system call, and every word the fault handler
    copies, is one step. */
module CowFork {
  import opened Paging

  const LAST: nat := 955 * 1024 - 2      // PGNUM(USTACKTOP): fork copies the pages below
  const UXPN: nat := 955 * 1024 - 1      // the exception stack page
  const PFTEMP: nat := 2047              // where pgfault maps the new page
  const PAGEWORDS: nat := 1024

  type Page = seq<int>

  datatype Va = Va(env: nat, pn: nat)

  /** Where an environment is inside pgfault. */
  datatype Fault =
    | NoFault
    | Taken(pn: nat)              // entered, before sys_page_alloc
    | Copying(pn: nat, k: nat)    // PFTEMP mapped, k words copied
    | Remapped(pn: nat)           // new page mapped at pn, before sys_page_unmap

  /** Where an environment is inside fork. */
  datatype Fork =
    | NoFork
    | Born(child: nat)                             // after sys_exofork
    | Duping(child: nat, next: nat, half: bool)    // half: between the two calls of duppage

  datatype Task = Task(fork: Fork, fault: Fault)

  datatype State = State(
    maps: map<Va, Entry>,      // every address space
    data: seq<Page>,           // physical pages
    tasks: map<nat, Task>,     // environments that exist
    runnable: set<nat>)

  datatype Action =
    | Read(e: nat, pn: nat, k: nat)
    | Write(e: nat, pn: nat, k: nat, x: int)
    | Trap(e: nat, pn: nat)
    | PfAlloc(e: nat, q: nat)
    | PfCopy(e: nat)
    | PfMap(e: nat)
    | PfUnmap(e: nat)
    | Exofork(e: nat, c: nat)
    | ForkStack(e: nat, c: nat, q: nat)
    | Skip(e: nat)
    | DupMap(e: nat, c: nat, pn: nat)
    | DupRemap(e: nat, c: nat, pn: nat, late: bool)
    | Launch(e: nat, c: nat)
    | Abort(e: nat)

  predicate Writable(x: Entry) {
    W in x.flags
  }

  /** The test duppage makes before it uses PTE_COW. */
  predicate Cowable(x: Entry) {
    W in x.flags || COW in x.flags
  }

  function ZeroData(): Page {
    seq(PAGEWORDS, _ => 0)
  }

  predicate Unused(s: State, q: nat) {
    q < |s.data| && forall v :: v in s.maps ==> s.maps[v].frame != q
  }

  /** The environment is running its own code (which may be the body of fork). */
  predicate Active(s: State, e: nat) {
    e in s.runnable && e in s.tasks && s.tasks[e].fault.NoFault?
  }

  predicate InFault(s: State, e: nat) {
    e in s.runnable && e in s.tasks
  }

  predicate Mapped(s: State, v: Va) {
    v in s.maps && s.maps[v].frame < |s.data|
  }

  predicate Enabled(s: State, a: Action) {
    match a
    case Read(e, pn, k) =>
      Active(s, e) && Mapped(s, Va(e, pn)) && k < PAGEWORDS
    case Write(e, pn, k, x) =>
      Active(s, e) && Mapped(s, Va(e, pn)) && Writable(s.maps[Va(e, pn)]) && k < PAGEWORDS
    case Trap(e, pn) =>
      Active(s, e) && Va(e, pn) in s.maps && !Writable(s.maps[Va(e, pn)]) && COW in s.maps[Va(e, pn)].flags
    case PfAlloc(e, q) =>
      InFault(s, e) && s.tasks[e].fault.Taken? && Unused(s, q)
    case PfCopy(e) =>
      && InFault(s, e) && s.tasks[e].fault.Copying? && s.tasks[e].fault.k < PAGEWORDS
      && Mapped(s, Va(e, PFTEMP)) && Mapped(s, Va(e, s.tasks[e].fault.pn))
    case PfMap(e) =>
      && InFault(s, e) && s.tasks[e].fault.Copying? && s.tasks[e].fault.k == PAGEWORDS
      && Va(e, PFTEMP) in s.maps
    case PfUnmap(e) =>
      InFault(s, e) && s.tasks[e].fault.Remapped?
    case Exofork(e, c) =>
      Active(s, e) && s.tasks[e].fork.NoFork? && c !in s.tasks
    case ForkStack(e, c, q) =>
      Active(s, e) && s.tasks[e].fork == Born(c) && Unused(s, q)
    case Skip(e) =>
      && Active(s, e) && s.tasks[e].fork.Duping? && !s.tasks[e].fork.half && s.tasks[e].fork.next < LAST
      && Va(e, s.tasks[e].fork.next) !in s.maps
    case DupMap(e, c, pn) =>
      Active(s, e) && s.tasks[e].fork == Duping(c, pn, false) && pn < LAST && Va(e, pn) in s.maps
    case DupRemap(e, c, pn, late) =>
      && Active(s, e) && s.tasks[e].fork == Duping(c, pn, true)
      && Va(e, pn) in s.maps && Va(c, pn) in s.maps
      && late == (s.maps[Va(e, pn)].frame == s.maps[Va(c, pn)].frame)
    case Launch(e, c) =>
      Active(s, e) && s.tasks[e].fork == Duping(c, LAST, false)
    case Abort(e) =>
      Active(s, e) && (s.tasks[e].fork.Duping? ==> !s.tasks[e].fork.half)
  }

  /** What the first call of duppage maps in the child. */
  function ChildEntry(x: Entry): Entry {
    Entry(x.frame, if Cowable(x) then {P, U, COW} else if SHARE in x.flags then x.flags * PTE_SYSCALL + {P} else {P, U})
  }

  function SetTask(s: State, e: nat, t: Task): State {
    s.(tasks := s.tasks[e := t])
  }

  function SetFault(s: State, e: nat, f: Fault): State
    requires e in s.tasks
  {
    SetTask(s, e, s.tasks[e].(fault := f))
  }

  function SetFork(s: State, e: nat, f: Fork): State
    requires e in s.tasks
  {
    SetTask(s, e, s.tasks[e].(fork := f))
  }

  function Poke(s: State, p: nat, k: nat, x: int): State
    requires p < |s.data|
  {
    s.(data := s.data[p := if k < |s.data[p]| then s.data[p][k := x] else s.data[p]])
  }

  function Peek(s: State, p: nat, k: nat): int
    requires p < |s.data|
  {
    if k < |s.data[p]| then s.data[p][k] else 0
  }

  function Step(s: State, a: Action): State
    requires Enabled(s, a)
  {
    match a
    case Read(_, _, _) => s
    case Write(e, pn, k, x) => Poke(s, s.maps[Va(e, pn)].frame, k, x)
    case Trap(e, pn) => SetFault(s, e, Taken(pn))
    case PfAlloc(e, q) =>
      SetFault(s.(maps := s.maps[Va(e, PFTEMP) := Entry(q, {P, W, U})], data := s.data[q := ZeroData()]),
               e, Copying(s.tasks[e].fault.pn, 0))
    case PfCopy(e) =>
      var f := s.tasks[e].fault;
      SetFault(Poke(s, s.maps[Va(e, PFTEMP)].frame, f.k, Peek(s, s.maps[Va(e, f.pn)].frame, f.k)),
               e, Copying(f.pn, f.k + 1))
    case PfMap(e) =>
      var pn := s.tasks[e].fault.pn;
      SetFault(s.(maps := s.maps[Va(e, pn) := Entry(s.maps[Va(e, PFTEMP)].frame, {P, W, U})]), e, Remapped(pn))
    case PfUnmap(e) => SetFault(s.(maps := s.maps - {Va(e, PFTEMP)}), e, NoFault)
    case Exofork(e, c) => SetFork(SetTask(s, c, Task(NoFork, NoFault)), e, Born(c))
    case ForkStack(e, c, q) =>
      SetFork(s.(maps := s.maps[Va(c, UXPN) := Entry(q, {P, W, U})], data := s.data[q := ZeroData()]),
              e, Duping(c, 0, false))
    case Skip(e) => SetFork(s, e, s.tasks[e].fork.(next := s.tasks[e].fork.next + 1))
    case DupMap(e, c, pn) =>
      var x := s.maps[Va(e, pn)];
      SetFork(s.(maps := s.maps[Va(c, pn) := ChildEntry(x)]), e,
              if Cowable(x) then Duping(c, pn, true) else Duping(c, pn + 1, false))
    case DupRemap(e, c, pn, _) =>
      SetFork(s.(maps := s.maps[Va(e, pn) := Entry(s.maps[Va(e, pn)].frame, {P, U, COW})]), e, Duping(c, pn + 1, false))
    case Launch(e, c) => SetFork(s, e, NoFork).(runnable := s.runnable + {c})
    case Abort(e) => SetFork(s, e, NoFork)
  }

  // ---- The specification: private memories, copied eagerly -------------------------------

  datatype Spec = Spec(mem: map<Va, Page>, writable: set<Va>)

  function CopyPage(t: Spec, from: Va, to: Va): Spec {
    if from in t.mem then
      Spec(t.mem[to := t.mem[from]], if from in t.writable then t.writable + {to} else t.writable - {to})
    else
      t
  }

  /** duppage copies the parent's page.  A late copy, made at the end of duppage, counts
      instead of the first one: the child does not run before fork is done. */
  function SpecStep(t: Spec, a: Action): Spec {
    match a
    case Write(e, pn, k, x) =>
      var v := Va(e, pn);
      if v in t.mem && k < |t.mem[v]| then t.(mem := t.mem[v := t.mem[v][k := x]]) else t
    case ForkStack(_, c, _) => Spec(t.mem[Va(c, UXPN) := ZeroData()], t.writable + {Va(c, UXPN)})
    case DupMap(e, c, pn) => CopyPage(t, Va(e, pn), Va(c, pn))
    case DupRemap(e, c, pn, late) => if late then CopyPage(t, Va(e, pn), Va(c, pn)) else t
    case _ => t
  }

  // ---- The invariant -------------------------------------------------------------------------

  /** The environment that is duplicating its page pn into environment c. */
  ghost predicate HalfDup(s: State, e: nat, c: nat, pn: nat) {
    e in s.tasks && s.tasks[e].fork == Duping(c, pn, true)
  }

  /** v and w are the two names of a page that pgfault has just moved into place. */
  ghost predicate FaultTwins(s: State, v: Va, w: Va) {
    && v.env == w.env && v.env in s.tasks && s.tasks[v.env].fault.Remapped?
    && ((v.pn == PFTEMP && w.pn == s.tasks[v.env].fault.pn) || (w.pn == PFTEMP && v.pn == s.tasks[v.env].fault.pn))
  }

  /** v is a page being duplicated and w its copy in the child. */
  ghost predicate DupTwins(s: State, v: Va, w: Va) {
    v.pn == w.pn && HalfDup(s, v.env, w.env, v.pn)
  }

  /** A page that is mapped writable has exactly one mapping, except in the middle of
      pgfault and of duppage. */
  ghost predicate Exclusive(s: State) {
    forall v, w :: v in s.maps && w in s.maps && v != w && s.maps[v].frame == s.maps[w].frame && Writable(s.maps[v]) ==>
      FaultTwins(s, v, w) || DupTwins(s, v, w)
  }

  ghost predicate WellFormed(s: State) {
    && (forall p :: 0 <= p < |s.data| ==> |s.data[p]| == PAGEWORDS)
    && (forall v :: v in s.maps ==> v.env in s.tasks && s.maps[v].frame < |s.data|)
    && s.runnable <= s.tasks.Keys
  }

  /** The handler's progress. */
  ghost predicate FaultOk(s: State, e: nat)
    requires WellFormed(s) && e in s.tasks
  {
    var f := s.tasks[e].fault;
    && (f.Copying? || f.Remapped? <==> Va(e, PFTEMP) in s.maps)
    && (!f.NoFault? ==> Va(e, f.pn) in s.maps && f.pn != PFTEMP)
    && (f.Taken? || f.Copying? ==> COW in s.maps[Va(e, f.pn)].flags && !Writable(s.maps[Va(e, f.pn)]))
    && (f.Copying? ==> f.k <= PAGEWORDS && Writable(s.maps[Va(e, PFTEMP)])
                       && s.maps[Va(e, PFTEMP)].frame != s.maps[Va(e, f.pn)].frame)
    && (f.Copying? ==> s.maps[Va(e, PFTEMP)].flags == {P, W, U})
    && (f.Copying? ==> forall k :: 0 <= k < f.k ==>
          s.data[s.maps[Va(e, PFTEMP)].frame][k] == s.data[s.maps[Va(e, f.pn)].frame][k])
    && (f.Remapped? ==> s.maps[Va(e, PFTEMP)] == s.maps[Va(e, f.pn)] && Writable(s.maps[Va(e, PFTEMP)]))
  }

  /** The child of a fork in progress: it does not run, nobody else is making it, and it
      has so far exactly the parent's pages below `next`. */
  ghost predicate ForkOk(s: State, e: nat)
    requires e in s.tasks
  {
    var f := s.tasks[e].fork;
    !f.NoFork? ==>
      && f.child in s.tasks && f.child !in s.runnable && f.child != e
      && s.tasks[f.child] == Task(NoFork, NoFault)
      && (forall d :: d in s.tasks && d != e && !s.tasks[d].fork.NoFork? ==> s.tasks[d].fork.child != f.child)
      && (f.Born? ==> forall pn :: Va(f.child, pn) !in s.maps)
      && (f.Duping? ==> f.next <= LAST && (f.half ==> f.next < LAST && f.next != PFTEMP))
      && (f.Duping? && f.half ==> Va(e, f.next) in s.maps && Cowable(s.maps[Va(e, f.next)]))
      && (f.Duping? && f.half ==> Va(f.child, f.next) in s.maps && Cowable(s.maps[Va(f.child, f.next)]))
      && (f.Duping? ==> forall pn: nat :: pn != PFTEMP && pn < LAST ==>
            (Va(f.child, pn) in s.maps <==> Va(e, pn) in s.maps && (pn < f.next || (pn == f.next && f.half))))
  }

  ghost predicate Faults(s: State)
    requires WellFormed(s)
  {
    forall e :: e in s.tasks ==> FaultOk(s, e)
  }

  ghost predicate Forks(s: State) {
    forall e :: e in s.tasks ==> ForkOk(s, e)
  }

  /** While duppage is between its two calls the child's page may lag behind. */
  ghost predicate Lagging(s: State, v: Va) {
    exists e :: HalfDup(s, e, v.env, v.pn) && Va(e, v.pn) in s.maps && v in s.maps
                && s.maps[Va(e, v.pn)].frame == s.maps[v].frame && Writable(s.maps[Va(e, v.pn)])
  }

  /** Each environment's pages hold what its private memory holds. */
  ghost predicate Agrees(s: State, t: Spec)
    requires WellFormed(s)
  {
    forall v :: v in s.maps && v.pn != PFTEMP ==>
      && v in t.mem && |t.mem[v]| == PAGEWORDS
      && (Cowable(s.maps[v]) <==> v in t.writable)
      && (Lagging(s, v) || t.mem[v] == s.data[s.maps[v].frame])
  }

  ghost predicate Inv(s: State, t: Spec) {
    && WellFormed(s) && Exclusive(s)
    && Faults(s) && Forks(s)
    && Agrees(s, t)
  }

  // ---- Every step keeps the invariant ------------------------------------------------------

  /** A running environment is nobody's unborn child. */
  lemma NotLagging(s: State, e: nat, pn: nat)
    requires Forks(s) && e in s.runnable
    ensures !Lagging(s, Va(e, pn))
  {
  }

  /** Forks in progress do not depend on page contents. */
  lemma SameForks(s: State, z: State)
    requires Forks(s) && z.maps == s.maps && z.tasks == s.tasks && z.runnable == s.runnable
    ensures Forks(z)
  {
    forall d | d in z.tasks
      ensures ForkOk(z, d)
    {
      assert ForkOk(s, d);
    }
  }

  lemma SameLag(s: State, z: State, v: Va)
    requires z.maps == s.maps && z.tasks == s.tasks
    ensures Lagging(z, v) <==> Lagging(s, v)
  {
    assert forall e :: HalfDup(s, e, v.env, v.pn) <==> HalfDup(z, e, v.env, v.pn);
  }

  /** Writing to a page touches no page that a handler is copying. */
  lemma WriteFaults(s: State, e: nat, pn: nat, k: nat, x: int)
    requires WellFormed(s) && Exclusive(s) && Faults(s) && Forks(s)
    requires Active(s, e) && Va(e, pn) in s.maps && Writable(s.maps[Va(e, pn)])
    ensures WellFormed(Poke(s, s.maps[Va(e, pn)].frame, k, x))
    ensures Faults(Poke(s, s.maps[Va(e, pn)].frame, k, x))
  {
    var v := Va(e, pn);
    var z := Poke(s, s.maps[v].frame, k, x);
    assert FaultOk(s, e) && ForkOk(s, e);
    forall d | d in z.tasks
      ensures FaultOk(z, d)
    {
      assert FaultOk(s, d);
      var f := s.tasks[d].fault;
      if f.Copying? {
        assert !FaultTwins(s, v, Va(d, PFTEMP)) && !DupTwins(s, v, Va(d, PFTEMP));
        assert !FaultTwins(s, v, Va(d, f.pn)) && !DupTwins(s, v, Va(d, f.pn));
        assert s.maps[Va(d, PFTEMP)].frame != s.maps[v].frame && s.maps[v].frame != s.maps[Va(d, f.pn)].frame;
      }
    }
  }

  lemma WriteAgrees(s: State, t: Spec, e: nat, pn: nat, k: nat, x: int)
    requires Inv(s, t) && Enabled(s, Write(e, pn, k, x))
    requires WellFormed(Step(s, Write(e, pn, k, x)))
    ensures Agrees(Step(s, Write(e, pn, k, x)), SpecStep(t, Write(e, pn, k, x)))
  {
    var a, o := Write(e, pn, k, x), Va(e, pn);
    var z, u := Step(s, a), SpecStep(t, a);
    NotLagging(s, e, pn);
    forall v | v in z.maps && v.pn != PFTEMP
      ensures v in u.mem && |u.mem[v]| == PAGEWORDS
      ensures Cowable(z.maps[v]) <==> v in u.writable
      ensures Lagging(z, v) || u.mem[v] == z.data[z.maps[v].frame]
    {
      SameLag(s, z, v);
      if v != o && s.maps[v].frame == s.maps[o].frame {
        assert FaultTwins(s, o, v) || DupTwins(s, o, v);
        assert HalfDup(s, e, v.env, v.pn);
      }
    }
  }

  lemma KeepWrite(s: State, t: Spec, e: nat, pn: nat, k: nat, x: int)
    requires Inv(s, t) && Enabled(s, Write(e, pn, k, x))
    ensures Inv(Step(s, Write(e, pn, k, x)), SpecStep(t, Write(e, pn, k, x)))
  {
    var z := Step(s, Write(e, pn, k, x));
    WriteFaults(s, e, pn, k, x);
    WriteAgrees(s, t, e, pn, k, x);
    SameForks(s, z);
    SameExclusive(s, z);
  }

  lemma SameExclusive(s: State, z: State)
    requires Exclusive(s) && z.maps == s.maps
    requires forall v, w :: FaultTwins(s, v, w) ==> FaultTwins(z, v, w)
    requires forall e, c, pn :: HalfDup(s, e, c, pn) ==> HalfDup(z, e, c, pn)
    ensures Exclusive(z)
  {
    forall v, w | v in z.maps && w in z.maps && v != w && z.maps[v].frame == z.maps[w].frame && Writable(z.maps[v])
      ensures FaultTwins(z, v, w) || DupTwins(z, v, w)
    {
      assert FaultTwins(s, v, w) || DupTwins(s, v, w);
    }
  }

  /** Steps that change neither mappings nor data nor the half-way points. */
  lemma KeepMaps(s: State, t: Spec, z: State)
    requires WellFormed(s) && Exclusive(s) && Agrees(s, t)
    requires z.maps == s.maps && z.data == s.data && z.tasks.Keys >= s.tasks.Keys && z.runnable <= z.tasks.Keys
    requires forall v, w :: FaultTwins(s, v, w) ==> FaultTwins(z, v, w)
    requires forall e, c, pn :: HalfDup(s, e, c, pn) <==> HalfDup(z, e, c, pn)
    ensures WellFormed(z) && Exclusive(z) && Agrees(z, t)
  {
    SameExclusive(s, z);
    forall v | v in z.maps
      ensures Lagging(s, v) ==> Lagging(z, v)
    {
      if Lagging(s, v) {
        var e :| HalfDup(s, e, v.env, v.pn) && Va(e, v.pn) in s.maps && v in s.maps
                 && s.maps[Va(e, v.pn)].frame == s.maps[v].frame && Writable(s.maps[Va(e, v.pn)]);
        assert HalfDup(z, e, v.env, v.pn);
      }
    }
  }

  lemma KeepTrap(s: State, t: Spec, e: nat, pn: nat)
    requires Inv(s, t) && Enabled(s, Trap(e, pn))
    ensures Inv(Step(s, Trap(e, pn)), t)
  {
    var z := Step(s, Trap(e, pn));
    KeepMaps(s, t, z);
    forall d | d in z.tasks
      ensures FaultOk(z, d)
    {
      assert FaultOk(s, d) && FaultOk(s, e);
    }
    forall d | d in z.tasks
      ensures ForkOk(z, d)
    {
      assert ForkOk(s, d) && ForkOk(s, e);
    }
  }

  /** A page written by the handler of e is seen through PFTEMP only. */
  lemma OnlyTemp(s: State, e: nat, v: Va)
    requires WellFormed(s) && Exclusive(s) && Faults(s) && Forks(s)
    requires e in s.tasks && s.tasks[e].fault.Copying? && v in s.maps && v != Va(e, PFTEMP)
    ensures s.maps[v].frame != s.maps[Va(e, PFTEMP)].frame
  {
    assert FaultOk(s, e) && ForkOk(s, e);
    assert !FaultTwins(s, Va(e, PFTEMP), v) && !DupTwins(s, Va(e, PFTEMP), v);
  }

  /** A step of e's handler does not disturb forks in progress: e runs, so it is nobody's
      unborn child, and fork never looks at PFTEMP. */
  lemma HandlerForks(s: State, z: State, e: nat)
    requires Forks(s) && e in s.runnable && e in s.tasks
    requires z.runnable == s.runnable && z.tasks.Keys == s.tasks.Keys
    requires z.tasks[e].fork == s.tasks[e].fork && forall d :: d in s.tasks && d != e ==> z.tasks[d] == s.tasks[d]
    requires forall v: Va :: v.env != e || v.pn != PFTEMP ==>
               (v in z.maps <==> v in s.maps) && (v in z.maps ==> (Cowable(z.maps[v]) <==> Cowable(s.maps[v])))
    ensures Forks(z)
  {
    forall d | d in z.tasks
      ensures ForkOk(z, d)
    {
      assert ForkOk(s, d);
    }
  }

  /** ... nor the handlers of other environments. */
  lemma HandlerFaults(s: State, z: State, e: nat)
    requires WellFormed(s) && WellFormed(z) && Faults(s)
    requires z.tasks.Keys == s.tasks.Keys && forall d :: d in s.tasks && d != e ==> z.tasks[d] == s.tasks[d]
    requires forall v: Va :: v.env != e ==> (v in z.maps <==> v in s.maps) && (v in z.maps ==> z.maps[v] == s.maps[v])
    requires forall v :: v in s.maps && v.env != e ==> z.data[s.maps[v].frame] == s.data[s.maps[v].frame]
    requires e in z.tasks ==> FaultOk(z, e)
    ensures Faults(z)
  {
    forall d | d in z.tasks
      ensures FaultOk(z, d)
    {
      assert FaultOk(s, d);
    }
  }

  /** Lagging survives when parent and child entries and the fork stay. */
  lemma LagMoves(s: State, z: State, v: Va)
    requires forall e :: HalfDup(s, e, v.env, v.pn) ==>
               && HalfDup(z, e, v.env, v.pn)
               && (Va(e, v.pn) in s.maps && v in s.maps && s.maps[Va(e, v.pn)].frame == s.maps[v].frame
                   && Writable(s.maps[Va(e, v.pn)]) ==>
                     && Va(e, v.pn) in z.maps && v in z.maps
                     && z.maps[Va(e, v.pn)] == s.maps[Va(e, v.pn)] && z.maps[v] == s.maps[v])
    ensures Lagging(s, v) ==> Lagging(z, v)
  {
    if Lagging(s, v) {
      var e :| HalfDup(s, e, v.env, v.pn) && Va(e, v.pn) in s.maps && v in s.maps
               && s.maps[Va(e, v.pn)].frame == s.maps[v].frame && Writable(s.maps[Va(e, v.pn)]);
      assert HalfDup(z, e, v.env, v.pn);
    }
  }

  /** A handler step that leaves an agreeing page, or replaces it by an equal one. */
  lemma HandlerAgrees(s: State, t: Spec, z: State, e: nat)
    requires WellFormed(s) && WellFormed(z) && Forks(s) && Agrees(s, t) && e in s.runnable && e in s.tasks
    requires z.tasks.Keys == s.tasks.Keys && z.tasks[e].fork == s.tasks[e].fork
    requires forall d :: d in s.tasks && d != e ==> z.tasks[d] == s.tasks[d]
    requires forall v: Va :: v.pn != PFTEMP ==> (v in z.maps <==> v in s.maps)
    requires forall v :: v in z.maps && v.pn != PFTEMP ==>
               && z.data[z.maps[v].frame] == s.data[s.maps[v].frame] && (Cowable(z.maps[v]) <==> Cowable(s.maps[v]))
               && (z.maps[v] == s.maps[v] || (v.env == e && !Writable(s.maps[v])))
    ensures Agrees(z, t)
  {
    forall v | v in z.maps && v.pn != PFTEMP
      ensures Lagging(s, v) ==> Lagging(z, v)
    {
      if v.env != e {
        forall d | HalfDup(s, d, v.env, v.pn)
          ensures HalfDup(z, d, v.env, v.pn)
        {
        }
        LagMoves(s, z, v);
      } else {
        NotLagging(s, e, v.pn);
      }
    }
  }

  lemma KeepPfAlloc(s: State, t: Spec, e: nat, q: nat)
    requires Inv(s, t) && Enabled(s, PfAlloc(e, q))
    ensures Inv(Step(s, PfAlloc(e, q)), t)
  {
    var z := Step(s, PfAlloc(e, q));
    assert FaultOk(s, e);
    PfAllocExclusive(s, e, q);
    HandlerFaults(s, z, e);
    HandlerForks(s, z, e);
    HandlerAgrees(s, t, z, e);
  }

  lemma PfAllocExclusive(s: State, e: nat, q: nat)
    requires WellFormed(s) && Exclusive(s) && Faults(s) && Enabled(s, PfAlloc(e, q))
    ensures WellFormed(Step(s, PfAlloc(e, q))) && Exclusive(Step(s, PfAlloc(e, q)))
  {
    var z := Step(s, PfAlloc(e, q));
    assert FaultOk(s, e);
    forall v, w | v in z.maps && w in z.maps && v != w && z.maps[v].frame == z.maps[w].frame && Writable(z.maps[v])
      ensures FaultTwins(z, v, w) || DupTwins(z, v, w)
    {
      assert FaultTwins(s, v, w) || DupTwins(s, v, w);
    }
  }

  lemma KeepPfCopy(s: State, t: Spec, e: nat)
    requires Inv(s, t) && Enabled(s, PfCopy(e))
    ensures Inv(Step(s, PfCopy(e)), t)
  {
    var z := Step(s, PfCopy(e));
    assert FaultOk(s, e);
    assert WellFormed(z);
    forall v | v in s.maps && v != Va(e, PFTEMP)
      ensures z.data[s.maps[v].frame] == s.data[s.maps[v].frame]
    {
      OnlyTemp(s, e, v);
    }
    SameExclusive(s, z);
    HandlerFaults(s, z, e);
    HandlerForks(s, z, e);
    HandlerAgrees(s, t, z, e);
  }

  lemma KeepPfMap(s: State, t: Spec, e: nat)
    requires Inv(s, t) && Enabled(s, PfMap(e))
    ensures Inv(Step(s, PfMap(e)), t)
  {
    var z := Step(s, PfMap(e));
    var o := Va(e, s.tasks[e].fault.pn);
    CopiedWhole(s, e);
    PfMapExclusive(s, e);
    PfMapFault(s, e);
    HandlerFaults(s, z, e);
    HandlerForks(s, z, e);
    HandlerAgrees(s, t, z, e);
  }

  lemma CopiedWhole(s: State, e: nat)
    requires WellFormed(s) && Faults(s) && Enabled(s, PfMap(e))
    ensures Va(e, s.tasks[e].fault.pn) in s.maps && s.tasks[e].fault.pn != PFTEMP
    ensures s.data[s.maps[Va(e, s.tasks[e].fault.pn)].frame] == s.data[s.maps[Va(e, PFTEMP)].frame]
    ensures !Writable(s.maps[Va(e, s.tasks[e].fault.pn)]) && COW in s.maps[Va(e, s.tasks[e].fault.pn)].flags
  {
    assert FaultOk(s, e);
  }

  lemma PfMapFault(s: State, e: nat)
    requires WellFormed(s) && Faults(s) && Enabled(s, PfMap(e))
    ensures WellFormed(Step(s, PfMap(e))) && FaultOk(Step(s, PfMap(e)), e)
  {
    assert FaultOk(s, e);
    var z := Step(s, PfMap(e));
    assert WellFormed(z);
    assert z.maps[Va(e, PFTEMP)] == s.maps[Va(e, PFTEMP)];
    assert z.maps[Va(e, PFTEMP)].flags == {P, W, U};
  }

  lemma PfMapExclusive(s: State, e: nat)
    requires WellFormed(s) && Exclusive(s) && Faults(s) && Forks(s) && Enabled(s, PfMap(e))
    ensures Exclusive(Step(s, PfMap(e)))
  {
    var z := Step(s, PfMap(e));
    var o, tmp := Va(e, s.tasks[e].fault.pn), Va(e, PFTEMP);
    assert FaultOk(s, e);
    forall v, w | v in z.maps && w in z.maps && v != w && z.maps[v].frame == z.maps[w].frame && Writable(z.maps[v])
      ensures FaultTwins(z, v, w) || DupTwins(z, v, w)
    {
      if v != tmp {
        OnlyTemp(s, e, v);
      }
      if w != tmp {
        OnlyTemp(s, e, w);
      }
      assert v != o && w != o ==> FaultTwins(s, v, w) || DupTwins(s, v, w);
    }
  }

  lemma KeepPfUnmap(s: State, t: Spec, e: nat)
    requires Inv(s, t) && Enabled(s, PfUnmap(e))
    ensures Inv(Step(s, PfUnmap(e)), t)
  {
    var z := Step(s, PfUnmap(e));
    assert FaultOk(s, e);
    assert WellFormed(z);
    forall v, w | v in z.maps && w in z.maps && v != w && z.maps[v].frame == z.maps[w].frame && Writable(z.maps[v])
      ensures FaultTwins(z, v, w) || DupTwins(z, v, w)
    {
      assert FaultTwins(s, v, w) || DupTwins(s, v, w);
    }
    HandlerFaults(s, z, e);
    HandlerForks(s, z, e);
    HandlerAgrees(s, t, z, e);
  }

  /** Faults are not disturbed by steps that leave every faulting environment's mappings
      and the pages behind them alone. */
  lemma ForkFaults(s: State, z: State, e: nat)
    requires WellFormed(s) && WellFormed(z) && Faults(s) && Active(s, e)
    requires forall d :: d in s.tasks ==> d in z.tasks && z.tasks[d].fault == s.tasks[d].fault
    requires forall d :: d in z.tasks && d !in s.tasks ==> z.tasks[d].fault.NoFault? && Va(d, PFTEMP) !in z.maps
    requires |z.data| == |s.data|
    requires forall v :: v in s.maps ==> v in z.maps && (v.env != e ==> z.maps[v] == s.maps[v])
    requires forall v :: v in s.maps ==> z.data[s.maps[v].frame] == s.data[s.maps[v].frame]
    requires forall v :: v in z.maps && v.pn == PFTEMP ==> v in s.maps
    ensures Faults(z)
  {
    forall d | d in z.tasks
      ensures FaultOk(z, d)
    {
      if d in s.tasks {
        assert FaultOk(s, d);
      }
    }
  }

  lemma ExoforkForks(s: State, e: nat, c: nat)
    requires Forks(s) && Enabled(s, Exofork(e, c))
    requires s.runnable <= s.tasks.Keys && forall v :: v in s.maps ==> v.env in s.tasks
    ensures Forks(Step(s, Exofork(e, c)))
  {
    var z := Step(s, Exofork(e, c));
    assert ForkOk(s, e);
    forall d | d in z.tasks
      ensures ForkOk(z, d)
    {
      if d in s.tasks {
        assert ForkOk(s, d);
      }
    }
  }

  lemma KeepExofork(s: State, t: Spec, e: nat, c: nat)
    requires Inv(s, t) && Enabled(s, Exofork(e, c))
    ensures Inv(Step(s, Exofork(e, c)), t)
  {
    var z := Step(s, Exofork(e, c));
    assert ForkOk(s, e);
    KeepMaps(s, t, z);
    ForkFaults(s, z, e);
    ExoforkForks(s, e, c);
  }

  lemma SkipForks(s: State, e: nat)
    requires Forks(s) && Enabled(s, Skip(e))
    ensures Forks(Step(s, Skip(e)))
  {
    var z := Step(s, Skip(e));
    assert ForkOk(s, e);
    forall d | d in z.tasks
      ensures ForkOk(z, d)
    {
      if d in s.tasks {
        assert ForkOk(s, d);
      }
    }
  }

  lemma KeepSkip(s: State, t: Spec, e: nat)
    requires Inv(s, t) && Enabled(s, Skip(e))
    ensures Inv(Step(s, Skip(e)), t)
  {
    var z := Step(s, Skip(e));
    assert ForkOk(s, e);
    KeepMaps(s, t, z);
    ForkFaults(s, z, e);
    SkipForks(s, e);
  }

  lemma LaunchForks(s: State, e: nat, c: nat)
    requires Forks(s) && Enabled(s, Launch(e, c))
    ensures Forks(Step(s, Launch(e, c)))
  {
    var z := Step(s, Launch(e, c));
    assert ForkOk(s, e);
    forall d | d in z.tasks
      ensures ForkOk(z, d)
    {
      if d in s.tasks {
        assert ForkOk(s, d);
      }
    }
  }

  lemma KeepLaunch(s: State, t: Spec, e: nat, c: nat)
    requires Inv(s, t) && Enabled(s, Launch(e, c))
    ensures Inv(Step(s, Launch(e, c)), t)
  {
    var z := Step(s, Launch(e, c));
    assert ForkOk(s, e);
    KeepMaps(s, t, z);
    ForkFaults(s, z, e);
    LaunchForks(s, e, c);
  }

  lemma AbortForks(s: State, e: nat)
    requires Forks(s) && Enabled(s, Abort(e))
    ensures Forks(Step(s, Abort(e)))
  {
    var z := Step(s, Abort(e));
    assert ForkOk(s, e);
    forall d | d in z.tasks
      ensures ForkOk(z, d)
    {
      if d in s.tasks {
        assert ForkOk(s, d);
      }
    }
  }

  lemma KeepAbort(s: State, t: Spec, e: nat)
    requires Inv(s, t) && Enabled(s, Abort(e))
    ensures Inv(Step(s, Abort(e)), t)
  {
    var z := Step(s, Abort(e));
    assert ForkOk(s, e);
    KeepMaps(s, t, z);
    ForkFaults(s, z, e);
    AbortForks(s, e);
  }

  /** A new page that holds its own copy. */
  lemma GrowAgrees(s: State, t: Spec, z: State, u: Spec, n: Va)
    requires WellFormed(s) && WellFormed(z) && Agrees(s, t) && |z.data| == |s.data|
    requires n !in s.maps && n in z.maps && z.maps == s.maps[n := z.maps[n]]
    requires forall v :: v in s.maps ==> z.data[s.maps[v].frame] == s.data[s.maps[v].frame]
    requires n in u.mem && u.mem == t.mem[n := u.mem[n]] && u.mem[n] == z.data[z.maps[n].frame]
    requires Cowable(z.maps[n]) <==> n in u.writable
    requires forall v :: v != n ==> (v in u.writable <==> v in t.writable)
    requires forall e, c, pn :: HalfDup(s, e, c, pn) ==> HalfDup(z, e, c, pn)
    ensures Agrees(z, u)
  {
    forall v | v in s.maps
      ensures Lagging(s, v) ==> Lagging(z, v)
    {
      LagMoves(s, z, v);
    }
  }

  lemma StackExclusive(s: State, e: nat, c: nat, q: nat)
    requires Exclusive(s) && Enabled(s, ForkStack(e, c, q))
    ensures Exclusive(Step(s, ForkStack(e, c, q)))
  {
    var z := Step(s, ForkStack(e, c, q));
    forall v, w | v in z.maps && w in z.maps && v != w && z.maps[v].frame == z.maps[w].frame && Writable(z.maps[v])
      ensures FaultTwins(z, v, w) || DupTwins(z, v, w)
    {
      assert FaultTwins(s, v, w) || DupTwins(s, v, w);
    }
  }

  lemma StackAgrees(s: State, t: Spec, e: nat, c: nat, q: nat)
    requires WellFormed(s) && Agrees(s, t) && Enabled(s, ForkStack(e, c, q)) && Va(c, UXPN) !in s.maps && c in s.tasks
    ensures WellFormed(Step(s, ForkStack(e, c, q)))
    ensures Agrees(Step(s, ForkStack(e, c, q)), SpecStep(t, ForkStack(e, c, q)))
  {
    GrowAgrees(s, t, Step(s, ForkStack(e, c, q)), SpecStep(t, ForkStack(e, c, q)), Va(c, UXPN));
  }

  lemma KeepForkStack(s: State, t: Spec, e: nat, c: nat, q: nat)
    requires Inv(s, t) && Enabled(s, ForkStack(e, c, q))
    ensures Inv(Step(s, ForkStack(e, c, q)), SpecStep(t, ForkStack(e, c, q)))
  {
    assert ForkOk(s, e);
    StackAgrees(s, t, e, c, q);
    StackExclusive(s, e, c, q);
    StackForks(s, e, c, q);
    ForkFaults(s, Step(s, ForkStack(e, c, q)), e);
  }

  lemma StackForks(s: State, e: nat, c: nat, q: nat)
    requires Forks(s) && Enabled(s, ForkStack(e, c, q))
    ensures Forks(Step(s, ForkStack(e, c, q)))
  {
    var z := Step(s, ForkStack(e, c, q));
    assert ForkOk(s, e);
    forall d | d in z.tasks
      ensures ForkOk(z, d)
    {
      assert ForkOk(s, d);
    }
  }

  /** What duppage knows about the page it is about to share. */
  lemma DupSource(s: State, e: nat, c: nat, pn: nat)
    requires WellFormed(s) && Faults(s) && Forks(s) && Active(s, e) && Va(e, pn) in s.maps
    requires s.tasks[e].fork.Duping? && s.tasks[e].fork.child == c && s.tasks[e].fork.next == pn && pn < LAST
    ensures pn != PFTEMP && pn != UXPN && c != e && c in s.tasks && c !in s.runnable
    ensures !s.tasks[e].fork.half ==> Va(c, pn) !in s.maps
    ensures forall d, k :: !HalfDup(s, d, e, k) && (d != e ==> !HalfDup(s, d, c, k))
  {
    assert FaultOk(s, e) && ForkOk(s, e);
  }

  lemma DupExclusive(s: State, e: nat, c: nat, pn: nat)
    requires WellFormed(s) && Exclusive(s) && Faults(s) && Forks(s) && Enabled(s, DupMap(e, c, pn))
    ensures Exclusive(Step(s, DupMap(e, c, pn)))
  {
    var z := Step(s, DupMap(e, c, pn));
    var o, n := Va(e, pn), Va(c, pn);
    DupSource(s, e, c, pn);
    forall v | v in s.maps && v != o && s.maps[v].frame == s.maps[o].frame
      ensures !Writable(s.maps[v])
    {
      assert !FaultTwins(s, v, o) && !DupTwins(s, v, o);
    }
    forall v, w | v in z.maps && w in z.maps && v != w && z.maps[v].frame == z.maps[w].frame && Writable(z.maps[v])
      ensures FaultTwins(z, v, w) || DupTwins(z, v, w)
    {
      if w != n {
        assert FaultTwins(s, v, w) || DupTwins(s, v, w);
      }
    }
  }

  lemma DupForks(s: State, e: nat, c: nat, pn: nat)
    requires WellFormed(s) && Faults(s) && Forks(s) && Enabled(s, DupMap(e, c, pn))
    ensures Forks(Step(s, DupMap(e, c, pn)))
  {
    var z := Step(s, DupMap(e, c, pn));
    DupSource(s, e, c, pn);
    assert ForkOk(s, e);
    forall d | d in z.tasks
      ensures ForkOk(z, d)
    {
      assert ForkOk(s, d);
    }
  }

  lemma DupAgrees(s: State, t: Spec, e: nat, c: nat, pn: nat)
    requires WellFormed(s) && Agrees(s, t) && Enabled(s, DupMap(e, c, pn))
    requires pn != PFTEMP && Va(c, pn) !in s.maps && !Lagging(s, Va(e, pn)) && c in s.tasks && c != e
    ensures WellFormed(Step(s, DupMap(e, c, pn)))
    ensures Agrees(Step(s, DupMap(e, c, pn)), SpecStep(t, DupMap(e, c, pn)))
  {
    GrowAgrees(s, t, Step(s, DupMap(e, c, pn)), SpecStep(t, DupMap(e, c, pn)), Va(c, pn));
  }

  lemma DupFaults(s: State, e: nat, c: nat, pn: nat)
    requires WellFormed(s) && Faults(s) && Enabled(s, DupMap(e, c, pn)) && pn != PFTEMP && c in s.tasks
    requires Va(c, pn) !in s.maps
    ensures WellFormed(Step(s, DupMap(e, c, pn))) && Faults(Step(s, DupMap(e, c, pn)))
  {
    var z := Step(s, DupMap(e, c, pn));
    assert WellFormed(z);
    forall d | d in z.tasks
      ensures FaultOk(z, d)
    {
      assert FaultOk(s, d);
    }
  }

  lemma KeepDupMap(s: State, t: Spec, e: nat, c: nat, pn: nat)
    requires Inv(s, t) && Enabled(s, DupMap(e, c, pn))
    ensures Inv(Step(s, DupMap(e, c, pn)), SpecStep(t, DupMap(e, c, pn)))
  {
    DupSource(s, e, c, pn);
    NotLagging(s, e, pn);
    DupAgrees(s, t, e, c, pn);
    DupExclusive(s, e, c, pn);
    DupForks(s, e, c, pn);
    DupFaults(s, e, c, pn);
  }

  lemma RemapExclusive(s: State, e: nat, c: nat, pn: nat, late: bool)
    requires WellFormed(s) && Exclusive(s) && Faults(s) && Forks(s) && Enabled(s, DupRemap(e, c, pn, late))
    ensures Exclusive(Step(s, DupRemap(e, c, pn, late)))
  {
    var z := Step(s, DupRemap(e, c, pn, late));
    assert ForkOk(s, e);
    forall v, w | v in z.maps && w in z.maps && v != w && z.maps[v].frame == z.maps[w].frame && Writable(z.maps[v])
      ensures FaultTwins(z, v, w) || DupTwins(z, v, w)
    {
      assert FaultTwins(s, v, w) || DupTwins(s, v, w);
    }
  }

  lemma RemapForks(s: State, e: nat, c: nat, pn: nat, late: bool)
    requires Forks(s) && Enabled(s, DupRemap(e, c, pn, late))
    ensures Forks(Step(s, DupRemap(e, c, pn, late)))
  {
    var z := Step(s, DupRemap(e, c, pn, late));
    assert ForkOk(s, e);
    forall d | d in z.tasks
      ensures ForkOk(z, d)
    {
      assert ForkOk(s, d);
    }
  }

  lemma RemapAgrees(s: State, t: Spec, e: nat, c: nat, pn: nat, late: bool)
    requires WellFormed(s) && Agrees(s, t) && Enabled(s, DupRemap(e, c, pn, late))
    requires pn != PFTEMP && c != e && Cowable(s.maps[Va(e, pn)]) && Cowable(s.maps[Va(c, pn)])
    requires !Lagging(s, Va(e, pn)) && (!late ==> !Lagging(s, Va(c, pn)))
    requires forall d :: d != c ==> !HalfDup(s, e, d, pn)
    ensures WellFormed(Step(s, DupRemap(e, c, pn, late)))
    ensures Agrees(Step(s, DupRemap(e, c, pn, late)), SpecStep(t, DupRemap(e, c, pn, late)))
  {
    var z, u := Step(s, DupRemap(e, c, pn, late)), SpecStep(t, DupRemap(e, c, pn, late));
    forall v | v in z.maps && v.pn != PFTEMP
      ensures v in u.mem && |u.mem[v]| == PAGEWORDS
      ensures Cowable(z.maps[v]) <==> v in u.writable
      ensures Lagging(z, v) || u.mem[v] == z.data[z.maps[v].frame]
    {
      if v != Va(c, pn) && v != Va(e, pn) {
        LagMoves(s, z, v);
      }
    }
  }

  /** The child's page only lags behind while it shares the parent's. */
  lemma LagsByParent(s: State, e: nat, c: nat, pn: nat)
    requires HalfDup(s, e, c, pn) && forall d :: d != e ==> !HalfDup(s, d, c, pn)
    ensures Lagging(s, Va(c, pn)) ==>
              Va(e, pn) in s.maps && Va(c, pn) in s.maps && s.maps[Va(e, pn)].frame == s.maps[Va(c, pn)].frame
  {
  }

  lemma KeepDupRemap(s: State, t: Spec, e: nat, c: nat, pn: nat, late: bool)
    requires Inv(s, t) && Enabled(s, DupRemap(e, c, pn, late))
    ensures Inv(Step(s, DupRemap(e, c, pn, late)), SpecStep(t, DupRemap(e, c, pn, late)))
  {
    assert ForkOk(s, e);
    DupSource(s, e, c, pn);
    NotLagging(s, e, pn);
    LagsByParent(s, e, c, pn);
    RemapAgrees(s, t, e, c, pn, late);
    RemapExclusive(s, e, c, pn, late);
    RemapForks(s, e, c, pn, late);
    ForkFaults(s, Step(s, DupRemap(e, c, pn, late)), e);
  }

  lemma KeepStep(s: State, t: Spec, a: Action)
    requires Inv(s, t) && Enabled(s, a)
    ensures Inv(Step(s, a), SpecStep(t, a))
  {
    match a
    case Read(_, _, _) =>
    case Write(e, pn, k, x) => KeepWrite(s, t, e, pn, k, x);
    case Trap(e, pn) => KeepTrap(s, t, e, pn);
    case PfAlloc(e, q) => KeepPfAlloc(s, t, e, q);
    case PfCopy(e) => KeepPfCopy(s, t, e);
    case PfMap(e) => KeepPfMap(s, t, e);
    case PfUnmap(e) => KeepPfUnmap(s, t, e);
    case Exofork(e, c) => KeepExofork(s, t, e, c);
    case ForkStack(e, c, q) => KeepForkStack(s, t, e, c, q);
    case Skip(e) => KeepSkip(s, t, e);
    case DupMap(e, c, pn) => KeepDupMap(s, t, e, c, pn);
    case DupRemap(e, c, pn, late) => KeepDupRemap(s, t, e, c, pn, late);
    case Launch(e, c) => KeepLaunch(s, t, e, c);
    case Abort(e) => KeepAbort(s, t, e);
  }

  // ---- Whole runs ------------------------------------------------------------------------------

  ghost predicate Run(s: State, acts: seq<Action>)
    decreases |acts|
  {
    acts == [] || (Enabled(s, acts[0]) && Run(Step(s, acts[0]), acts[1..]))
  }

  /** The values read along a run, in copy-on-write memory and in private memories. */
  ghost function Reads(s: State, acts: seq<Action>): seq<int>
    requires Run(s, acts)
    decreases |acts|
  {
    if acts == [] then []
    else
      var rest := Reads(Step(s, acts[0]), acts[1..]);
      match acts[0]
      case Read(e, pn, k) => [Peek(s, s.maps[Va(e, pn)].frame, k)] + rest
      case _ => rest
  }

  ghost function SpecReads(t: Spec, acts: seq<Action>): seq<int>
    decreases |acts|
  {
    if acts == [] then []
    else
      var rest := SpecReads(SpecStep(t, acts[0]), acts[1..]);
      match acts[0]
      case Read(e, pn, k) =>
        var v := Va(e, pn);
        [if v in t.mem && k < |t.mem[v]| then t.mem[v][k] else 0] + rest
      case _ => rest
  }

  /** Copy-on-write fork refines eager copying: in every interleaving, over any tree of
      forks, every environment reads what it would read from private memories. */
  lemma {:induction false} ForkRefinesCopying(s: State, t: Spec, acts: seq<Action>)
    requires Inv(s, t) && Run(s, acts)
    ensures Reads(s, acts) == SpecReads(t, acts)
    decreases |acts|
  {
    if acts != [] {
      var a := acts[0];
      KeepStep(s, t, a);
      ForkRefinesCopying(Step(s, a), SpecStep(t, a), acts[1..]);
      if a.Read? {
        NotLagging(s, a.e, a.pn);
        assert FaultOk(s, a.e);
      }
    }
  }

  /** No system call or fault is in progress, and writable pages are private. */
  ghost predicate Quiet(s: State) {
    && WellFormed(s)
    && (forall e :: e in s.tasks ==> s.tasks[e] == Task(NoFork, NoFault) && Va(e, PFTEMP) !in s.maps)
    && (forall v, w :: v in s.maps && w in s.maps && v != w && s.maps[v].frame == s.maps[w].frame ==>
          !Writable(s.maps[v]))
  }

  ghost function Private(s: State): Spec
    requires WellFormed(s)
  {
    Spec(map v | v in s.maps :: s.data[s.maps[v].frame], set v | v in s.maps && Cowable(s.maps[v]))
  }

  /** From any quiet state, every run reads what private memories would give. */
  lemma ForkIsCopying(s: State, acts: seq<Action>)
    requires Quiet(s) && Run(s, acts)
    ensures Reads(s, acts) == SpecReads(Private(s), acts)
  {
    assert Inv(s, Private(s));
    ForkRefinesCopying(s, Private(s), acts);
  }

  // ---- What a child starts with ----------------------------------------------------------------------

  /** Above the pages that are copied, the child of a fork under way has a zeroed page of its own for its
      exception stack, and nothing else. */
  ghost predicate StackOk(s: State, e: nat)
    requires WellFormed(s) && e in s.tasks
  {
    var f := s.tasks[e].fork;
    f.Duping? ==>
      && Va(f.child, UXPN) in s.maps && s.maps[Va(f.child, UXPN)].flags == {P, W, U}
      && s.data[s.maps[Va(f.child, UXPN)].frame] == ZeroData()
      && forall pn :: pn >= LAST && pn != UXPN ==> Va(f.child, pn) !in s.maps
  }

  ghost predicate Stacks(s: State)
    requires WellFormed(s)
  {
    forall e :: e in s.tasks ==> StackOk(s, e)
  }

  /** Nobody else has the child's exception stack page. */
  lemma StackAlone(s: State, t: Spec, e: nat, w: Va)
    requires Inv(s, t) && e in s.tasks && s.tasks[e].fork.Duping? && StackOk(s, e)
    requires w in s.maps && w != Va(s.tasks[e].fork.child, UXPN)
    ensures s.maps[w].frame != s.maps[Va(s.tasks[e].fork.child, UXPN)].frame
  {
    var v := Va(s.tasks[e].fork.child, UXPN);
    assert ForkOk(s, e);
    assert !FaultTwins(s, v, w) && !DupTwins(s, v, w);
  }

  /** A step that leaves the child's pages above LAST alone. */
  lemma StackKept(s: State, t: Spec, z: State, e: nat)
    requires Inv(s, t) && WellFormed(z) && e in s.tasks && e in z.tasks && StackOk(s, e)
    requires s.tasks[e].fork.Duping? && z.tasks[e].fork.Duping? && z.tasks[e].fork.child == s.tasks[e].fork.child
    requires forall pn :: pn >= LAST ==>
               var v := Va(s.tasks[e].fork.child, pn);
               (v in z.maps <==> v in s.maps) && (v in s.maps ==> z.maps[v] == s.maps[v])
    requires var v := Va(s.tasks[e].fork.child, UXPN);
             v in s.maps && s.maps[v].frame < |z.data| && z.data[s.maps[v].frame] == s.data[s.maps[v].frame]
    ensures StackOk(z, e)
  {
  }

  /** Data written by a step is not on the exception stack of a child in the making. */
  lemma StackUnwritten(s: State, t: Spec, a: Action, e: nat)
    requires Inv(s, t) && Stacks(s) && Enabled(s, a) && e in s.tasks && s.tasks[e].fork.Duping?
    ensures var p := s.maps[Va(s.tasks[e].fork.child, UXPN)].frame;
            p < |Step(s, a).data| && Step(s, a).data[p] == s.data[p]
  {
    assert StackOk(s, e) && ForkOk(s, e);
    match a
    case Write(d, pn, _, _) => StackAlone(s, t, e, Va(d, pn));
    case PfCopy(d) => StackAlone(s, t, e, Va(d, PFTEMP));
    case _ =>
  }

  /** Nor are its mappings there changed. */
  lemma StackUnmoved(s: State, t: Spec, a: Action, e: nat, pn: nat)
    requires Inv(s, t) && Stacks(s) && Enabled(s, a) && e in s.tasks && s.tasks[e].fork.Duping? && pn >= LAST
    ensures var v := Va(s.tasks[e].fork.child, pn);
            && (v in Step(s, a).maps <==> v in s.maps)
            && (v in s.maps ==> Step(s, a).maps[v] == s.maps[v])
  {
    assert ForkOk(s, e);
    match a
    case ForkStack(d, _, _) => assert ForkOk(s, d);
    case DupMap(d, _, _) => assert ForkOk(s, d);
    case DupRemap(d, _, _, _) => assert ForkOk(s, d);
    case _ =>
  }

  lemma StackStep(s: State, t: Spec, a: Action)
    requires Inv(s, t) && Stacks(s) && Enabled(s, a)
    ensures WellFormed(Step(s, a)) && Stacks(Step(s, a))
  {
    KeepStep(s, t, a);
    var z := Step(s, a);
    forall e | e in z.tasks ensures StackOk(z, e) {
      if z.tasks[e].fork.Duping? {
        StackFrom(s, t, a, e);
      }
    }
  }

  lemma StackFrom(s: State, t: Spec, a: Action, e: nat)
    requires Inv(s, t) && Stacks(s) && Enabled(s, a) && WellFormed(Step(s, a))
    requires e in Step(s, a).tasks && Step(s, a).tasks[e].fork.Duping?
    ensures StackOk(Step(s, a), e)
  {
    var z := Step(s, a);
    assert e in s.tasks && ForkOk(s, e);
    if a.ForkStack? && a.e == e {
      assert s.tasks[e].fork == Born(a.c);
    } else {
      assert s.tasks[e].fork.Duping? && z.tasks[e].fork.child == s.tasks[e].fork.child;
      assert StackOk(s, e);
      forall pn | pn >= LAST
        ensures var v := Va(s.tasks[e].fork.child, pn);
                (v in z.maps <==> v in s.maps) && (v in s.maps ==> z.maps[v] == s.maps[v])
      {
        StackUnmoved(s, t, a, e, pn);
      }
      StackUnwritten(s, t, a, e);
      StackKept(s, t, z, e);
    }
  }

  /** The states at the end of a run. */
  ghost function After(s: State, acts: seq<Action>): State
    requires Run(s, acts)
    decreases |acts|
  {
    if acts == [] then s else After(Step(s, acts[0]), acts[1..])
  }

  ghost function SpecAfter(t: Spec, acts: seq<Action>): Spec
    decreases |acts|
  {
    if acts == [] then t else SpecAfter(SpecStep(t, acts[0]), acts[1..])
  }

  lemma {:induction false} RunKeeps(s: State, t: Spec, acts: seq<Action>)
    requires Inv(s, t) && Stacks(s) && Run(s, acts)
    ensures Inv(After(s, acts), SpecAfter(t, acts)) && Stacks(After(s, acts))
    decreases |acts|
  {
    if acts != [] {
      KeepStep(s, t, acts[0]);
      StackStep(s, t, acts[0]);
      RunKeeps(Step(s, acts[0]), SpecStep(t, acts[0]), acts[1..]);
    }
  }

  /** Page pn of the child is the parent's, with the copied contents. */
  lemma ChildPage(s: State, t: Spec, e: nat, c: nat, pn: nat)
    requires Inv(s, t) && Enabled(s, Launch(e, c)) && pn < LAST
    ensures Va(c, pn) in s.maps <==> Va(e, pn) in s.maps
    ensures Va(c, pn) in s.maps ==>
              Va(c, pn) in t.mem && t.mem[Va(c, pn)] == s.data[s.maps[Va(c, pn)].frame]
  {
    assert ForkOk(s, e) && FaultOk(s, e) && FaultOk(s, c);
    NotLagging(Step(s, Launch(e, c)), c, pn) by {
      KeepLaunch(s, t, e, c);
    }
    KeepLaunch(s, t, e, c);
  }

  /** Below USTACKTOP environment c has exactly the pages of e, holding its private copies. */
  ghost predicate HasCopies(s: State, t: Spec, e: nat, c: nat)
    requires WellFormed(s)
  {
    forall pn: nat :: pn * 4096 < 0xEEBF_E000 ==>
      && (Va(c, pn) in s.maps <==> Va(e, pn) in s.maps)
      && (Va(c, pn) in s.maps ==> Va(c, pn) in t.mem && t.mem[Va(c, pn)] == s.data[s.maps[Va(c, pn)].frame])
  }

  /** From USTACKTOP on it has one page, at UXSTACKTOP - PGSIZE: zeroed, writable, and nobody else's. */
  ghost predicate HasFreshStack(s: State, c: nat)
    requires WellFormed(s)
  {
    var stack := Va(c, 0xEEBFF);
    && (forall pn: nat :: pn * 4096 >= 0xEEBF_E000 ==> (Va(c, pn) in s.maps <==> pn * 4096 == 0xEEBF_F000))
    && stack in s.maps && s.maps[stack].flags == {P, W, U} && s.data[s.maps[stack].frame] == seq(1024, _ => 0)
    && forall v :: v in s.maps && v != stack ==> s.maps[v].frame != s.maps[stack].frame
  }

  lemma ChildCopies(s: State, t: Spec, e: nat, c: nat)
    requires Inv(s, t) && Enabled(s, Launch(e, c))
    ensures HasCopies(s, t, e, c)
  {
    forall pn: nat | pn * 4096 < 0xEEBF_E000
      ensures Va(c, pn) in s.maps <==> Va(e, pn) in s.maps
      ensures Va(c, pn) in s.maps ==> Va(c, pn) in t.mem && t.mem[Va(c, pn)] == s.data[s.maps[Va(c, pn)].frame]
    {
      ChildPage(s, t, e, c, pn);
    }
  }

  lemma ChildStack(s: State, t: Spec, e: nat, c: nat)
    requires Inv(s, t) && Stacks(s) && Enabled(s, Launch(e, c))
    ensures HasFreshStack(s, c)
  {
    assert StackOk(s, e);
    forall v | v in s.maps && v != Va(c, 0xEEBFF) ensures s.maps[v].frame != s.maps[Va(c, 0xEEBFF)].frame {
      StackAlone(s, t, e, v);
    }
  }

  /** A child that becomes runnable, in any run from a quiet state: below USTACKTOP it has exactly its
      parent's pages, holding exactly the copies; above, a fresh exception stack and nothing else. */
  lemma ChildComplete(s: State, acts: seq<Action>, e: nat, c: nat)
    requires Quiet(s) && Run(s, acts) && Enabled(After(s, acts), Launch(e, c))
    ensures var z, t := Step(After(s, acts), Launch(e, c)), SpecAfter(Private(s), acts);
            c in z.runnable && WellFormed(z) && HasCopies(z, t, e, c) && HasFreshStack(z, c)
  {
    var x, t := After(s, acts), SpecAfter(Private(s), acts);
    assert Inv(x, t) && Stacks(x) by {
      assert Inv(s, Private(s)) && Stacks(s);
      RunKeeps(s, Private(s), acts);
    }
    ChildCopies(x, t, e, c);
    ChildStack(x, t, e, c);
    KeepLaunch(x, t, e, c);
    SamePages(x, Step(x, Launch(e, c)), t, e, c);
  }

  lemma SamePages(s: State, z: State, t: Spec, e: nat, c: nat)
    requires WellFormed(s) && WellFormed(z) && z.maps == s.maps && z.data == s.data
    requires HasCopies(s, t, e, c) && HasFreshStack(s, c)
    ensures HasCopies(z, t, e, c) && HasFreshStack(z, c)
  {
  }

  // ---- fork and pgfault run to their end -----------------------------------------------------------------

  /** How much of a fork is left: two calls of duppage for each page below USTACKTOP, and the launch. */
  function ForkLeft(f: Fork): int {
    match f
    case NoFork => 0
    case Born(_) => 2 * 0xEEBFE + 2
    case Duping(_, next, half) => 2 * (0xEEBFE - next) + if half then 0 else 1
  }

  /** A fork under way has a next step, given a free page for the exception stack, and each step brings
      it nearer to its end, which is the launch of the child. */
  lemma ForkGoesOn(s: State, t: Spec, e: nat, q: nat) returns (a: Action)
    requires Inv(s, t) && Active(s, e) && !s.tasks[e].fork.NoFork? && Unused(s, q)
    ensures a.ForkStack? || a.Skip? || a.DupMap? || a.DupRemap? || a.Launch?
    ensures a.e == e && Enabled(s, a) && e in Step(s, a).tasks
    ensures 0 <= ForkLeft(Step(s, a).tasks[e].fork) < ForkLeft(s.tasks[e].fork)
    ensures Step(s, a).tasks[e].fork.NoFork? ==> a == Launch(e, s.tasks[e].fork.child)
  {
    assert ForkOk(s, e);
    match s.tasks[e].fork
    case Born(c) => a := ForkStack(e, c, q);
    case Duping(c, next, half) =>
      if half {
        a := DupRemap(e, c, next, s.maps[Va(e, next)].frame == s.maps[Va(c, next)].frame);
      } else if next == LAST {
        a := Launch(e, c);
      } else if Va(e, next) in s.maps {
        a := DupMap(e, c, next);
      } else {
        a := Skip(e);
      }
  }

  function FaultLeft(f: Fault): nat {
    match f
    case NoFault => 0
    case Taken(_) => 1024 + 3
    case Copying(_, k) => if k <= 1024 then 1024 - k + 2 else 0
    case Remapped(_) => 1
  }

  /** So does a fault, given a free page. */
  lemma FaultGoesOn(s: State, t: Spec, e: nat, q: nat) returns (a: Action)
    requires Inv(s, t) && InFault(s, e) && !s.tasks[e].fault.NoFault? && Unused(s, q)
    ensures a.PfAlloc? || a.PfCopy? || a.PfMap? || a.PfUnmap?
    ensures a.e == e && Enabled(s, a) && e in Step(s, a).tasks
    ensures FaultLeft(Step(s, a).tasks[e].fault) < FaultLeft(s.tasks[e].fault)
  {
    assert FaultOk(s, e);
    match s.tasks[e].fault
    case Taken(_) => a := PfAlloc(e, q);
    case Copying(_, k) => if k < PAGEWORDS { a := PfCopy(e); } else { a := PfMap(e); }
    case Remapped(_) => a := PfUnmap(e);
  }

  /** pgfault moves nothing but the faulting page and its own page at PFTEMP, 0x7ff000. */
  lemma HandlerTouches(s: State, t: Spec, a: Action, v: Va)
    requires Inv(s, t) && Enabled(s, a) && (a.PfAlloc? || a.PfCopy? || a.PfMap? || a.PfUnmap?)
    requires v != Va(a.e, 0x7FF) && v != Va(a.e, s.tasks[a.e].fault.pn)
    ensures v in Step(s, a).maps <==> v in s.maps
    ensures v in s.maps ==> Step(s, a).maps[v] == s.maps[v]
    ensures v in s.maps ==>
              && s.maps[v].frame < |s.data| == |Step(s, a).data|
              && Step(s, a).data[s.maps[v].frame] == s.data[s.maps[v].frame]
  {
    assert FaultOk(s, a.e);
    if a.PfCopy? && v in s.maps {
      assert !FaultTwins(s, Va(a.e, PFTEMP), v);
      assert ForkOk(s, a.e);
    }
  }

  /** When pgfault returns the page is writable and holds what it held before the fault, and PFTEMP is
      free again. */
  lemma FaultResolved(s: State, t: Spec, e: nat)
    requires Inv(s, t) && Enabled(s, PfUnmap(e))
    ensures var z, pn := Step(s, PfUnmap(e)), s.tasks[e].fault.pn;
            && Va(e, 0x7FF) !in z.maps && Va(e, pn) in z.maps && W in z.maps[Va(e, pn)].flags
            && Va(e, pn) in t.mem && z.maps[Va(e, pn)].frame < |z.data|
            && z.data[z.maps[Va(e, pn)].frame] == t.mem[Va(e, pn)]
  {
    assert FaultOk(s, e);
    NotLagging(s, e, s.tasks[e].fault.pn);
  }

  /** duppage keeps a PTE_SHARE page shared exactly when it is neither writable nor copy-on-write: the
      test for those comes first. */
  lemma SharedOnlyIfReadOnly(s: State, e: nat, c: nat, pn: nat)
    requires Enabled(s, DupMap(e, c, pn)) && SHARE in s.maps[Va(e, pn)].flags
    ensures var x, y := s.maps[Va(e, pn)], Step(s, DupMap(e, c, pn)).maps[Va(c, pn)];
            && y.frame == x.frame
            && (SHARE in y.flags <==> !(W in x.flags || COW in x.flags))
            && (SHARE in y.flags ==> y.flags == x.flags * PTE_SYSCALL + {P})
  {
  }

  // ---- dumbfork ------------------------------------------------------------------------------------

  const UTEMP: nat := 0x400      // the page number of UTEMP

  /** dumbfork's duppage: allocate page q in the child, map it at UTEMP, copy, and unmap. */
  function DumbPage(s: State, e: nat, c: nat, pn: nat, q: nat): State
    requires Va(e, pn) in s.maps && s.maps[Va(e, pn)].frame < |s.data| && q < |s.data|
  {
    var a := s.(maps := s.maps[Va(c, pn) := Entry(q, {P, W, U})], data := s.data[q := ZeroData()]);
    var b := a.(maps := a.maps[Va(e, UTEMP) := Entry(q, {P, W, U})]);
    var d := b.(data := b.data[q := b.data[s.maps[Va(e, pn)].frame]]);
    d.(maps := d.maps - {Va(e, UTEMP)})
  }

  /** One call copies one page and leaves every other page of every environment alone: it is the copy
      that the specification of fork makes. */
  lemma DumbPageCopies(s: State, e: nat, c: nat, pn: nat, q: nat)
    requires WellFormed(s) && Va(e, pn) in s.maps && Unused(s, q) && c != e && c in s.tasks && Va(e, UTEMP) !in s.maps
    ensures WellFormed(DumbPage(s, e, c, pn, q))
    ensures Private(DumbPage(s, e, c, pn, q)).mem == CopyPage(Private(s), Va(e, pn), Va(c, pn)).mem
    ensures Va(e, UTEMP) !in DumbPage(s, e, c, pn, q).maps
    ensures forall g, n :: g != c ==> (Va(g, n) in DumbPage(s, e, c, pn, q).maps <==> Va(g, n) in s.maps)
  {
  }

  /** The loop of dumbfork over the pages of the program. */
  function DumbFork(s: State, e: nat, c: nat, pns: seq<nat>, qs: seq<nat>): State
    decreases |pns|
  {
    if pns == [] || qs == [] || Va(e, pns[0]) !in s.maps || s.maps[Va(e, pns[0])].frame >= |s.data| || qs[0] >= |s.data|
    then s
    else DumbFork(DumbPage(s, e, c, pns[0], qs[0]), e, c, pns[1..], qs[1..])
  }

  function CopyAll(t: Spec, e: nat, c: nat, pns: seq<nat>): Spec
    decreases |pns|
  {
    if pns == [] then t else CopyAll(CopyPage(t, Va(e, pns[0]), Va(c, pns[0])), e, c, pns[1..])
  }

  lemma {:induction false} CopyAllMem(t: Spec, u: Spec, e: nat, c: nat, pns: seq<nat>)
    requires t.mem == u.mem
    ensures CopyAll(t, e, c, pns).mem == CopyAll(u, e, c, pns).mem
    decreases |pns|
  {
    if pns != [] {
      CopyAllMem(CopyPage(t, Va(e, pns[0]), Va(c, pns[0])), CopyPage(u, Va(e, pns[0]), Va(c, pns[0])), e, c, pns[1..]);
    }
  }

  /** dumbfork is the eager copying that fork refines: from a state with enough unused pages it gives
      the child private copies of the parent's pages. */
  lemma {:induction false} DumbForkCopies(s: State, e: nat, c: nat, pns: seq<nat>, qs: seq<nat>)
    requires WellFormed(s) && c != e && c in s.tasks && Va(e, UTEMP) !in s.maps && |qs| == |pns|
    requires (forall i :: 0 <= i < |pns| ==> Va(e, pns[i]) in s.maps)
    requires (forall i :: 0 <= i < |qs| ==> Unused(s, qs[i])) && (forall i, j :: 0 <= i < j < |qs| ==> qs[i] != qs[j])
    ensures WellFormed(DumbFork(s, e, c, pns, qs))
    ensures Private(DumbFork(s, e, c, pns, qs)).mem == CopyAll(Private(s), e, c, pns).mem
    decreases |pns|
  {
    if pns != [] {
      var t := DumbPage(s, e, c, pns[0], qs[0]);
      DumbPageCopies(s, e, c, pns[0], qs[0]);
      forall i | 0 <= i < |qs[1..]| ensures Unused(t, qs[1..][i]) {
        assert qs[1..][i] == qs[i + 1];
      }
      DumbForkCopies(t, e, c, pns[1..], qs[1..]);
      CopyAllMem(Private(t), CopyPage(Private(s), Va(e, pns[0]), Va(c, pns[0])), e, c, pns[1..]);
    }
  }
}
