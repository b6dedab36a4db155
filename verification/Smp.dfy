/** Environments on several processors under the big kernel lock (kern/trap.c, env.c,
    sched.c, syscall.c, spinlock.c).  Lock operations go one memory access at a time;
    the kernel's work between taking and releasing the lock is one step. */
module Smp {
  import opened Common
  import opened EnvTable

  datatype Ring = UserRing | KernelRing

  /** Where a processor goes once it has the lock. */
  datatype Resume = ToCheck(ring: Ring) | ToWork(ring: Ring)

  datatype Exit = ToUser | ToHalt

  datatype Pc =
    | Running                    // user code
    | Halted                     // hlt in sched_halt
    | Enter(ring: Ring)          // trap(): before the exchange on cpu_status
    | Check(ring: Ring)          // trap(): before the test of tf_cs
    | LockTest(back: Resume)     // spin_lock: the holding check
    | LockSpin(back: Resume)     // spin_lock: the exchange on `locked`
    | LockOwn(back: Resume)      // spin_lock: recording the owner
    | Work(ring: Ring)           // holding the lock
    | UnlockTest(exit: Exit)     // spin_unlock: the holding check
    | UnlockOwn(exit: Exit)      // spin_unlock: clearing the owner
    | UnlockFree(exit: Exit)     // spin_unlock: the exchange on `locked`
    | Monitor                    // no environment left: the kernel monitor, for good
    | Panicked

  datatype Cpu = Cpu(pc: Pc, halted: bool, env: Option<nat>)

  datatype System = System(cpus: seq<Cpu>, locked: bool, owner: Option<nat>, envs: seq<Env>, free: seq<nat>)

  /** What the current environment asks of the kernel. */
  datatype Call =
    | Other                                     // anything that touches no environment state
    | Yield
    | SetStatus(envid: int, runnable: bool)
    | Destroy(envid: int)
    | Exofork(mem: bool)                        // mem: a page directory can be had
    | Send(envid: int, value: nat)
    | Recv(dstva: Va)

  // ---- The kernel's work --------------------------------------------------------------------

  /** The slot k places after `begin`, going round. */
  function Nth(begin: nat, k: nat): (e: nat)
    ensures e < NENV
  {
    (begin + k) % 1024
  }

  /** sched_yield's search: the first RUNNABLE environment from `begin`, n slots on. */
  function PickFrom(envs: seq<Env>, begin: nat, i: nat): Option<nat>
    decreases NENV - i
  {
    if i >= NENV then None
    else
      var e := Nth(begin, i);
      if e < |envs| && envs[e].status.RUNNABLE? then Some(e) else PickFrom(envs, begin, i + 1)
  }

  function Pick(envs: seq<Env>, cur: Option<nat>): Option<nat> {
    PickFrom(envs, if cur.Some? then cur.value else 0, 0)
  }

  function SetStatusOf(envs: seq<Env>, e: nat, st: Status): seq<Env> {
    if e < |envs| then envs[e := envs[e].(status := st)] else envs
  }

  /** env_run: the outgoing environment becomes RUNNABLE if it was RUNNING. */
  function Dispatch(envs: seq<Env>, cur: Option<nat>, e: nat): seq<Env> {
    var out := if cur.Some? && cur.value < |envs| && envs[cur.value].status.RUNNING?
               then SetStatusOf(envs, cur.value, RUNNABLE) else envs;
    if e < |out| then out[e := out[e].(status := RUNNING, runs := out[e].runs + 1)] else out
  }

  datatype Job = Job(envs: seq<Env>, free: seq<nat>, cur: Option<nat>, resched: bool)

  /** env_free, as far as the environment table goes. */
  function FreeEnv(w: Job, e: nat): Job {
    w.(envs := SetStatusOf(w.envs, e, FREE), free := [e] + w.free)
  }

  /** env_destroy: an environment running elsewhere is only marked. */
  function DestroyEnv(w: Job, e: nat): Job {
    if e >= |w.envs| then w
    else if w.envs[e].status.RUNNING? && w.cur != Some(e) then w.(envs := SetStatusOf(w.envs, e, DYING))
    else
      var x := FreeEnv(w, e);
      if w.cur == Some(e) then x.(cur := None, resched := true) else x
  }

  /** What sys_ipc_try_send does to the receiver. */
  function Delivered(env: Env, from: int, value: nat): Env {
    env.(from := from, value := value, recving := false, status := RUNNABLE)
  }

  /** A system call of environment `cur`. */
  function Perform(w: Job, cur: nat, call: Call): Job
    requires |w.envs| == NENV && cur < NENV
  {
    match call
    case Other => w
    case Yield => w.(resched := true)
    case SetStatus(envid, runnable) =>
      (match Envid2Env(w.envs, cur, envid, true)
       case BadEnv => w
       case Found(e) => w.(envs := SetStatusOf(w.envs, e, if runnable then RUNNABLE else NOT_RUNNABLE)))
    case Destroy(envid) =>
      (match Envid2Env(w.envs, cur, envid, true)
       case BadEnv => w
       case Found(e) => DestroyEnv(w, e))
    case Exofork(mem) =>
      if w.free == [] || !mem || w.free[0] >= NENV then w
      else
        var e := w.free[0];
        w.(envs := w.envs[e := NewEnv(w.envs[e], e, w.envs[cur].id).(status := NOT_RUNNABLE)], free := w.free[1..])
    case Send(envid, value) =>
      (match Envid2Env(w.envs, cur, envid, false)
       case BadEnv => w
       case Found(e) =>
         if e < NENV && w.envs[e].recving
         then w.(envs := w.envs[e := Delivered(w.envs[e], w.envs[cur].id, value)])
         else w)
    case Recv(dstva) =>
      if Misaligned(dstva) then w
      else
        var waits := w.envs[cur].(recving := true, dstva := dstva, status := NOT_RUNNABLE);
        w.(envs := w.envs[cur := waits], resched := true)
  }

  /** trap() from where the lock is held to the choice of what to run next. */
  function Handle(s: System, c: nat, call: Call): Job
    requires c < |s.cpus| && s.cpus[c].pc.Work? && |s.envs| == NENV
  {
    var w := Job(s.envs, s.free, s.cpus[c].env, false);
    if s.cpus[c].pc.ring.KernelRing? || w.cur.None? || w.cur.value >= NENV then w.(resched := true)
    else if s.envs[w.cur.value].status.DYING? then FreeEnv(w, w.cur.value).(cur := None, resched := true)
    else Perform(w, w.cur.value, call)
  }

  /** What runs next: the current environment if trap() may return to it, else sched_yield's choice. */
  function Next(w: Job): Option<nat> {
    var running := w.cur.Some? && w.cur.value < |w.envs| && w.envs[w.cur.value].status.RUNNING?;
    if !w.resched && running then w.cur
    else
      var p := Pick(w.envs, w.cur);
      if p.Some? then p else if running then w.cur else None
  }

  /** sched_halt finds nothing that could ever run. */
  predicate Idle(envs: seq<Env>) {
    forall e :: 0 <= e < |envs| ==> envs[e].status.FREE? || envs[e].status.NOT_RUNNABLE?
  }

  /** What env_run or sched_halt leave behind. */
  function Leave(s: System, c: nat, w: Job): System
    requires c < |s.cpus|
  {
    var next := Next(w);
    if next.Some? then
      s.(envs := Dispatch(w.envs, w.cur, next.value), free := w.free,
         cpus := s.cpus[c := s.cpus[c].(pc := UnlockTest(ToUser), env := next)])
    else if Idle(w.envs) then
      s.(envs := w.envs, free := w.free, cpus := s.cpus[c := s.cpus[c].(pc := Monitor, env := w.cur)])
    else
      s.(envs := w.envs, free := w.free,
         cpus := s.cpus[c := s.cpus[c].(pc := UnlockTest(ToHalt), env := None, halted := true)])
  }

  // ---- Steps of one processor --------------------------------------------------------------------

  predicate Holding(s: System, c: nat) {
    s.locked && s.owner == Some(c)
  }

  function Goto(s: System, c: nat, pc: Pc): System
    requires c < |s.cpus|
  {
    s.(cpus := s.cpus[c := s.cpus[c].(pc := pc)])
  }

  /** One step of processor c; `call` says what its environment wants if it gets to work. */
  function Step(s: System, c: nat, call: Call): System
    requires c < |s.cpus| && |s.envs| == NENV
  {
    var cpu := s.cpus[c];
    match cpu.pc
    case Running => Goto(s, c, Enter(UserRing))
    case Halted => Goto(s, c, Enter(KernelRing))
    case Enter(ring) =>
      var t := s.(cpus := s.cpus[c := cpu.(halted := false)]);
      Goto(t, c, if cpu.halted then LockTest(ToCheck(ring)) else Check(ring))
    case Check(ring) => Goto(s, c, if ring.UserRing? then LockTest(ToWork(ring)) else Work(ring))
    case LockTest(back) => Goto(s, c, if Holding(s, c) then Panicked else LockSpin(back))
    case LockSpin(back) => if s.locked then s else Goto(s.(locked := true), c, LockOwn(back))
    case LockOwn(back) =>
      Goto(s.(owner := Some(c)), c, match back case ToCheck(ring) => Check(ring) case ToWork(ring) => Work(ring))
    case Work(ring) => if ring.UserRing? && cpu.env.None? then Goto(s, c, Panicked) else Leave(s, c, Handle(s, c, call))
    case UnlockTest(exit) => Goto(s, c, if Holding(s, c) then UnlockOwn(exit) else Panicked)
    case UnlockOwn(exit) => Goto(s.(owner := None), c, UnlockFree(exit))
    case UnlockFree(exit) => Goto(s.(locked := false), c, if exit.ToUser? then Running else Halted)
    case Monitor => s
    case Panicked => s
  }

  // ---- The invariant ------------------------------------------------------------------------------

  /** Between the exchange that takes the lock and the one that frees it. */
  predicate Holds(pc: Pc) {
    match pc
    case Check(ring) => ring.KernelRing?
    case LockOwn(_) | Work(_) | UnlockTest(_) | UnlockOwn(_) | UnlockFree(_) | Monitor => true
    case _ => false
  }

  /** The lock word, its owner field and the program counters agree; h is the holder. */
  ghost predicate LockInv(s: System, h: Option<nat>) {
    && (s.locked <==> h.Some?)
    && (h.Some? ==> h.value < |s.cpus|)
    && (forall c: nat :: c < |s.cpus| ==> (Holds(s.cpus[c].pc) <==> h == Some(c)))
    && s.owner == if h.Some? && !s.cpus[h.value].pc.LockOwn? && !s.cpus[h.value].pc.UnlockFree? then h else None
  }

  /** cpu_status and cpu_env at each program point; no processor has panicked. */
  predicate CpuOk(cpu: Cpu) {
    match cpu.pc
    case Running => !cpu.halted && cpu.env.Some?
    case Halted => cpu.halted && cpu.env.None?
    case Enter(ring) => cpu.halted == ring.KernelRing? && cpu.env.Some? == ring.UserRing?
    case Check(_) | Work(_) => !cpu.halted && cpu.env.Some? == cpu.pc.ring.UserRing?
    case LockTest(_) | LockSpin(_) | LockOwn(_) =>
      && !cpu.halted && (cpu.pc.back.ToCheck? ==> cpu.pc.back.ring.KernelRing?)
      && cpu.env.Some? == cpu.pc.back.ring.UserRing?
    case UnlockTest(_) | UnlockOwn(_) | UnlockFree(_) =>
      cpu.halted == cpu.pc.exit.ToHalt? && cpu.env.Some? == cpu.pc.exit.ToUser?
    case Monitor => !cpu.halted
    case Panicked => false
  }

  predicate OnCpu(st: Status) {
    st.RUNNING? || st.DYING?
  }

  /** The environment table alone. */
  ghost predicate TableInv(envs: seq<Env>, free: seq<nat>) {
    && TableOk(envs)
    && (forall e :: 0 <= e < NENV ==> envs[e].recving && !envs[e].status.FREE? ==> envs[e].status.NOT_RUNNABLE?)
    && (forall i, j :: 0 <= i < j < |free| ==> free[i] != free[j])
    && (forall e: nat :: e in free ==> e < NENV && envs[e].status.FREE?)
    && (forall e: nat :: e < NENV && envs[e].status.FREE? ==> e in free)
  }

  predicate RunsOn(s: System, c: nat, e: nat) {
    c < |s.cpus| && s.cpus[c].env == Some(e)
  }

  /** RUNNING and DYING environments are exactly those that some processor has as its own,
      and no two processors share one. */
  ghost predicate Assigned(s: System) {
    && |s.envs| == NENV
    && (forall c: nat, e: nat :: RunsOn(s, c, e) && !s.cpus[c].pc.Monitor? ==> e < NENV && OnCpu(s.envs[e].status))
    && (forall e: nat :: e < NENV && OnCpu(s.envs[e].status) ==> exists c: nat :: RunsOn(s, c, e))
    && (forall c: nat, d: nat, e: nat :: RunsOn(s, c, e) && RunsOn(s, d, e) ==> c == d)
  }

  ghost predicate InvAt(s: System, h: Option<nat>) {
    && LockInv(s, h)
    && (forall c :: 0 <= c < |s.cpus| ==> CpuOk(s.cpus[c]))
    && TableInv(s.envs, s.free)
    && Assigned(s)
  }

  ghost predicate Inv(s: System) {
    exists h :: InvAt(s, h)
  }

  // ---- The lock steps -----------------------------------------------------------------------------

  function Holder(s: System, c: nat, h: Option<nat>): Option<nat>
    requires c < |s.cpus|
  {
    match s.cpus[c].pc
    case LockSpin(_) => if s.locked then h else Some(c)
    case UnlockFree(_) => None
    case _ => h
  }

  lemma LockCounters(s: System, c: nat, call: Call, h: Option<nat>)
    requires LockInv(s, h) && c < |s.cpus| && !s.cpus[c].pc.Work? && |s.envs| == NENV && CpuOk(s.cpus[c])
    ensures LockInv(Step(s, c, call), Holder(s, c, h))
  {
  }

  lemma LockCpu(s: System, c: nat, call: Call, h: Option<nat>)
    requires LockInv(s, h) && c < |s.cpus| && !s.cpus[c].pc.Work? && |s.envs| == NENV && CpuOk(s.cpus[c])
    ensures |Step(s, c, call).cpus| == |s.cpus| && CpuOk(Step(s, c, call).cpus[c])
  {
  }

  lemma LockAssigned(s: System, c: nat, t: System)
    requires Assigned(s) && c < |s.cpus| == |t.cpus| && s.envs == t.envs
    requires forall d :: 0 <= d < |s.cpus| ==> t.cpus[d].env == s.cpus[d].env
    requires forall d :: 0 <= d < |s.cpus| ==> t.cpus[d].pc.Monitor? == s.cpus[d].pc.Monitor?
    ensures Assigned(t)
  {
    forall d: nat, e: nat ensures RunsOn(t, d, e) == RunsOn(s, d, e) {
    }
    forall e: nat | e < NENV && OnCpu(t.envs[e].status) ensures exists d: nat :: RunsOn(t, d, e) {
      var d: nat :| RunsOn(s, d, e);
      assert RunsOn(t, d, e);
    }
  }

  lemma LockStep(s: System, c: nat, call: Call, h: Option<nat>)
    requires InvAt(s, h) && c < |s.cpus| && !s.cpus[c].pc.Work?
    ensures InvAt(Step(s, c, call), Holder(s, c, h))
  {
    LockCounters(s, c, call, h);
    LockCpu(s, c, call, h);
    LockAssigned(s, c, Step(s, c, call));
  }

  // ---- The kernel's work ---------------------------------------------------------------------------

  ghost predicate Elsewhere(s: System, c: nat, e: nat) {
    exists d: nat :: d != c && RunsOn(s, d, e)
  }

  /** What holds between the pieces of work of processor c. */
  ghost predicate JobOk(s: System, c: nat, w: Job) {
    && TableInv(w.envs, w.free)
    && (forall e: nat :: Elsewhere(s, c, e) ==> e < NENV && OnCpu(w.envs[e].status))
    && (forall e: nat :: e < NENV && OnCpu(w.envs[e].status) ==> w.cur == Some(e) || Elsewhere(s, c, e))
    && (w.cur.Some? ==> w.cur.value < NENV && !Elsewhere(s, c, w.cur.value) && !w.envs[w.cur.value].status.FREE?)
  }

  lemma JobStart(s: System, c: nat, h: Option<nat>)
    requires InvAt(s, h) && c < |s.cpus| && s.cpus[c].pc.Work?
    ensures JobOk(s, c, Job(s.envs, s.free, s.cpus[c].env, false))
    ensures s.cpus[c].env.Some? ==> OnCpu(s.envs[s.cpus[c].env.value].status)
  {
    assert forall d: nat :: d < |s.cpus| && s.cpus[d].pc.Monitor? ==> d == c;
    if s.cpus[c].env.Some? {
      assert RunsOn(s, c, s.cpus[c].env.value);
    }
    forall e: nat | e < NENV && OnCpu(s.envs[e].status) ensures s.cpus[c].env == Some(e) || Elsewhere(s, c, e) {
      var d: nat :| RunsOn(s, d, e);
    }
  }

  lemma PickFromFinds(envs: seq<Env>, begin: nat, i: nat)
    requires |envs| == NENV && i <= NENV
    ensures var p := PickFrom(envs, begin, i);
            if p.Some? then p.value < NENV && envs[p.value].status.RUNNABLE?
            else forall k :: i <= k < NENV ==> !envs[Nth(begin, k)].status.RUNNABLE?
    decreases NENV - i
  {
    if i < NENV { PickFromFinds(envs, begin, i + 1); }
  }

  lemma Around(begin: nat, e: nat) returns (k: nat)
    requires begin < 1024 && e < 1024
    ensures k < 1024 && Nth(begin, k) == e
  {
    k := (e + 1024 - begin) % 1024;
  }

  /** sched_yield finds a RUNNABLE environment exactly when there is one. */
  lemma PickFinds(envs: seq<Env>, cur: Option<nat>)
    requires |envs| == NENV && (cur.Some? ==> cur.value < NENV)
    ensures var p := Pick(envs, cur);
            if p.Some? then p.value < NENV && envs[p.value].status.RUNNABLE?
            else forall e :: 0 <= e < NENV ==> !envs[e].status.RUNNABLE?
  {
    var begin := if cur.Some? then cur.value else 0;
    PickFromFinds(envs, begin, 0);
    if Pick(envs, cur).None? {
      forall e | 0 <= e < NENV ensures !envs[e].status.RUNNABLE? {
        var k := Around(begin, e);
      }
    }
  }

  lemma DispatchOk(envs: seq<Env>, free: seq<nat>, cur: Option<nat>, e: nat)
    requires TableInv(envs, free) && e < NENV && (cur.Some? ==> cur.value < NENV)
    requires envs[e].status.RUNNABLE? || (cur == Some(e) && envs[e].status.RUNNING?)
    ensures var out := Dispatch(envs, cur, e);
            && TableInv(out, free) && out[e].status.RUNNING?
            && (forall i :: 0 <= i < NENV && i != e ==>
                  out[i].status == if cur == Some(i) && envs[i].status.RUNNING? then RUNNABLE else envs[i].status)
  {
  }

  /** The environment processor c ends up with. */
  ghost predicate OwnOk(s: System, c: nat, cpu: Cpu, envs: seq<Env>) {
    cpu.env.Some? ==>
      && cpu.env.value < |envs| == NENV && !Elsewhere(s, c, cpu.env.value)
      && (cpu.pc.Monitor? || OnCpu(envs[cpu.env.value].status))
  }

  lemma LeaveRuns(s: System, c: nat, w: Job)
    requires c < |s.cpus| && JobOk(s, c, w) && Next(w).Some?
    requires w.cur.Some? ==> !w.envs[w.cur.value].status.DYING?
    ensures Next(w).value < NENV && JobOk(s, c, Job(Dispatch(w.envs, w.cur, Next(w).value), w.free, Next(w), false))
    ensures Dispatch(w.envs, w.cur, Next(w).value)[Next(w).value].status.RUNNING?
  {
    PickFinds(w.envs, w.cur);
    DispatchOk(w.envs, w.free, w.cur, Next(w).value);
  }

  lemma LeaveStops(s: System, c: nat, w: Job)
    requires c < |s.cpus| && JobOk(s, c, w) && Next(w).None?
    requires w.cur.Some? ==> !w.envs[w.cur.value].status.DYING?
    ensures JobOk(s, c, Job(w.envs, w.free, None, false))
  {
  }

  lemma LeaveJob(s: System, c: nat, w: Job)
    requires c < |s.cpus| && JobOk(s, c, w)
    requires w.cur.Some? ==> !w.envs[w.cur.value].status.DYING?
    ensures var t := Leave(s, c, w);
            && JobOk(s, c, Job(t.envs, t.free, if t.cpus[c].pc.Monitor? then None else t.cpus[c].env, false))
            && CpuOk(t.cpus[c].(halted := t.cpus[c].pc == UnlockTest(ToHalt)))
            && OwnOk(s, c, t.cpus[c], t.envs)
  {
    if Next(w).Some? { LeaveRuns(s, c, w); } else { LeaveStops(s, c, w); }
  }

  lemma JobEnd(s: System, c: nat, t: System, h: Option<nat>)
    requires LockInv(s, h) && Assigned(s) && c < |s.cpus| && s.cpus[c].pc.Work?
    requires |t.cpus| == |s.cpus| && t.cpus == s.cpus[c := t.cpus[c]]
    requires JobOk(s, c, Job(t.envs, t.free, if t.cpus[c].pc.Monitor? then None else t.cpus[c].env, false))
    requires OwnOk(s, c, t.cpus[c], t.envs)
    ensures Assigned(t)
  {
    forall d: nat, e: nat | d != c ensures RunsOn(t, d, e) == RunsOn(s, d, e) {
    }
    forall d: nat, e: nat | d != c && RunsOn(t, d, e)
      ensures e < NENV && OnCpu(t.envs[e].status) && t.cpus[c].env != Some(e)
    {
      assert RunsOn(s, d, e) && Elsewhere(s, c, e);
    }
    forall e: nat | e < NENV && OnCpu(t.envs[e].status) ensures exists d: nat :: RunsOn(t, d, e) {
      if t.cpus[c].env == Some(e) {
        assert RunsOn(t, c, e);
      } else {
        assert Elsewhere(s, c, e);
        var d: nat :| d != c && RunsOn(s, d, e);
        assert RunsOn(t, d, e);
      }
    }
  }

  lemma LeaveOk(s: System, c: nat, w: Job, h: Option<nat>)
    requires InvAt(s, h) && c < |s.cpus| && s.cpus[c].pc.Work? && JobOk(s, c, w)
    requires w.cur.Some? ==> !w.envs[w.cur.value].status.DYING?
    ensures InvAt(Leave(s, c, w), h)
  {
    var t := Leave(s, c, w);
    LeaveJob(s, c, w);
    JobEnd(s, c, t, h);
    assert CpuOk(s.cpus[c]);
    assert t.cpus[c].halted == (t.cpus[c].pc == UnlockTest(ToHalt));
  }

  /** A live environment's record changes. */
  lemma Rewrite(s: System, c: nat, w: Job, e: nat, x: Env)
    requires JobOk(s, c, w) && e < NENV && !w.envs[e].status.FREE? && !x.status.FREE? && x.id == w.envs[e].id
    requires x.recving ==> x.status.NOT_RUNNABLE?
    requires w.cur == Some(e) || OnCpu(x.status) == OnCpu(w.envs[e].status)
    ensures JobOk(s, c, w.(envs := w.envs[e := x]))
  {
  }

  /** An environment that runs nowhere else is freed. */
  lemma FreeOk(s: System, c: nat, w: Job, e: nat)
    requires JobOk(s, c, w) && e < NENV && !w.envs[e].status.FREE? && !Elsewhere(s, c, e)
    ensures JobOk(s, c, FreeEnv(w, e).(cur := if w.cur == Some(e) then None else w.cur))
  {
    var x := FreeEnv(w, e);
    assert e !in w.free;
    assert forall i: nat :: i in x.free <==> i == e || i in w.free;
  }

  /** The head of the free list becomes a new environment. */
  lemma NewOk(s: System, c: nat, w: Job, parent: int)
    requires JobOk(s, c, w) && w.free != []
    ensures w.free[0] < NENV
    ensures var e := w.free[0];
            JobOk(s, c, w.(envs := w.envs[e := NewEnv(w.envs[e], e, parent).(status := NOT_RUNNABLE)],
                           free := w.free[1..]))
  {
    var e := w.free[0];
    assert e in w.free;
    NextIdIssued(w.envs, e);
    assert forall i: nat :: i in w.free[1..] <==> i != e && i in w.free;
  }

  // ---- Which system calls keep the invariant -------------------------------------------------------

  /** The environment whose system call processor c is about to carry out. */
  predicate Performs(s: System, c: nat, cur: nat) {
    && c < |s.cpus| && s.cpus[c].pc == Work(UserRing) && s.cpus[c].env == Some(cur)
    && cur < |s.envs| && !s.envs[cur].status.DYING?
  }

  /** sys_env_set_status must leave alone an environment that is on another processor, and
      must not wake one that waits for a message; env_destroy must leave alone one that
      is already DYING elsewhere. */
  predicate CallOk(envs: seq<Env>, cur: nat, call: Call)
    requires |envs| == NENV && cur < NENV
  {
    match call
    case SetStatus(envid, runnable) =>
      (match Envid2Env(envs, cur, envid, true)
       case BadEnv => true
       case Found(e) => e == cur || (e < NENV && !OnCpu(envs[e].status) && !(runnable && envs[e].recving)))
    case Destroy(envid) =>
      (match Envid2Env(envs, cur, envid, true)
       case BadEnv => true
       case Found(e) => e == cur || (e < NENV && !envs[e].status.DYING?))
    case _ => true
  }

  predicate Guarded(s: System, c: nat, call: Call)
    requires c < |s.cpus| && |s.envs| == NENV
  {
    s.cpus[c].env.Some? && Performs(s, c, s.cpus[c].env.value) ==> CallOk(s.envs, s.cpus[c].env.value, call)
  }

  lemma DestroyOk(s: System, c: nat, w: Job, e: nat)
    requires JobOk(s, c, w) && e < NENV && !w.envs[e].status.FREE?
    requires w.cur == Some(e) || !w.envs[e].status.DYING?
    ensures JobOk(s, c, DestroyEnv(w, e))
  {
    if w.envs[e].status.RUNNING? && w.cur != Some(e) {
      Rewrite(s, c, w, e, w.envs[e].(status := DYING));
    } else {
      FreeOk(s, c, w, e);
    }
  }

  lemma PerformOk(s: System, c: nat, w: Job, cur: nat, call: Call)
    requires JobOk(s, c, w) && w.cur == Some(cur) && w.envs[cur].status.RUNNING? && CallOk(w.envs, cur, call)
    ensures var x := Perform(w, cur, call);
            JobOk(s, c, x) && (x.cur.Some? ==> !x.envs[x.cur.value].status.DYING?)
  {
    match call
    case Other =>
    case Yield =>
    case SetStatus(envid, runnable) =>
      match Envid2Env(w.envs, cur, envid, true) {
        case BadEnv =>
        case Found(e) => Rewrite(s, c, w, e, w.envs[e].(status := if runnable then RUNNABLE else NOT_RUNNABLE));
      }
    case Destroy(envid) =>
      match Envid2Env(w.envs, cur, envid, true) {
        case BadEnv =>
        case Found(e) => DestroyOk(s, c, w, e);
      }
    case Exofork(mem) => if w.free != [] { NewOk(s, c, w, w.envs[cur].id); }
    case Send(envid, value) =>
      match Envid2Env(w.envs, cur, envid, false) {
        case BadEnv =>
        case Found(e) =>
          if w.envs[e].recving {
            Rewrite(s, c, w, e, Delivered(w.envs[e], w.envs[cur].id, value));
          }
      }
    case Recv(dstva) =>
      if !Misaligned(dstva) {
        Rewrite(s, c, w, cur, w.envs[cur].(recving := true, dstva := dstva, status := NOT_RUNNABLE));
      }
  }

  lemma WorkStep(s: System, c: nat, call: Call, h: Option<nat>)
    requires InvAt(s, h) && c < |s.cpus| && s.cpus[c].pc.Work? && Guarded(s, c, call)
    ensures InvAt(Step(s, c, call), h)
  {
    JobStart(s, c, h);
    assert CpuOk(s.cpus[c]);
    var w := Job(s.envs, s.free, s.cpus[c].env, false);
    if s.cpus[c].pc.ring.UserRing? {
      var cur := w.cur.value;
      if s.envs[cur].status.DYING? {
        FreeOk(s, c, w, cur);
      } else {
        PerformOk(s, c, w, cur, call);
      }
    }
    LeaveOk(s, c, Handle(s, c, call), h);
  }

  /** Every step of every processor keeps the invariant, given the guards. */
  lemma StepKeepsInv(s: System, c: nat, call: Call)
    requires Inv(s) && c < |s.cpus| && |s.envs| == NENV && Guarded(s, c, call)
    ensures Inv(Step(s, c, call))
  {
    var h :| InvAt(s, h);
    if s.cpus[c].pc.Work? { WorkStep(s, c, call, h); } else { LockStep(s, c, call, h); }
  }

  lemma Stays(s: System, c: nat, call: Call, cur: nat)
    requires Performs(s, c, cur) && |s.envs| == NENV && s.envs[cur].status.RUNNING? && !CallOk(s.envs, cur, call)
    ensures var e := Envid2Env(s.envs, cur, call.envid, true).slot;
            && e < NENV && e != cur
            && Step(s, c, call).envs[e] ==
               (s.envs[e].(status := if call.Destroy? then FREE else if call.runnable then RUNNABLE else NOT_RUNNABLE))
  {
  }

  /** The guards are exact: a step that breaks them breaks the invariant. */
  lemma GuardExact(s: System, c: nat, call: Call)
    requires Inv(s) && c < |s.cpus| && |s.envs| == NENV
    ensures Inv(Step(s, c, call)) <==> Guarded(s, c, call)
  {
    if Guarded(s, c, call) {
      StepKeepsInv(s, c, call);
    } else {
      var h :| InvAt(s, h);
      var cur, t := s.cpus[c].env.value, Step(s, c, call);
      assert RunsOn(s, c, cur);
      Stays(s, c, call, cur);
      var e := Envid2Env(s.envs, cur, call.envid, true).slot;
      if OnCpu(s.envs[e].status) {
        var d: nat :| RunsOn(s, d, e);
        assert RunsOn(t, d, e) && !t.cpus[d].pc.Monitor?;
        assert !Assigned(t);
      } else {
        assert !TableInv(t.envs, t.free);
      }
    }
  }

  function NewSlot(e: nat): Env {
    if e == 0 then Env(4096, 0, RUNNING, 1, false, 0, 0, 0, {})
    else if e == 1 then Env(4097, 4096, NOT_RUNNABLE, 0, true, 0, 0, 0, {})
    else Env(0, 0, FREE, 0, false, 0, 0, 0, {})
  }

  /** The guards are needed: a parent that marks its child RUNNABLE while the child waits for a message
      breaks the invariant. */
  lemma UnguardedBreaks() returns (s: System, call: Call)
    ensures |s.cpus| == 1 && |s.envs| == NENV && Inv(s) && !Guarded(s, 0, call) && !Inv(Step(s, 0, call))
  {
    var envs := seq(NENV, e requires 0 <= e => NewSlot(e));
    var free := seq(NENV - 2, i requires 0 <= i => (i + 2) as nat);
    s := System([Cpu(Work(UserRing), false, Some(0))], true, Some(0), envs, free);
    call := SetStatus(4097, true);
    assert 4096 == 1 * GENSTEP + 0 && 4097 == 1 * GENSTEP + 1;
    assert Issued(4096, 0) && Issued(4097, 1);
    forall e: nat | e < NENV && envs[e].status.FREE? ensures e in free {
      assert free[e - 2] == e;
    }
    assert TableInv(envs, free);
    assert RunsOn(s, 0, 0);
    assert InvAt(s, Some(0));
    assert Slot(4097) == 1;
    GuardExact(s, 0, call);
  }

  // ---- Whole runs -----------------------------------------------------------------------------------

  datatype Act = Act(cpu: nat, call: Call)

  predicate Enabled(s: System, a: Act) {
    a.cpu < |s.cpus| && |s.envs| == NENV
  }

  lemma HandleShape(s: System, c: nat, call: Call)
    requires Enabled(s, Act(c, call)) && s.cpus[c].pc.Work?
    ensures |Handle(s, c, call).envs| == NENV
  {
  }

  lemma StepShape(s: System, a: Act)
    requires Enabled(s, a)
    ensures var t := Step(s, a.cpu, a.call);
            && |t.cpus| == |s.cpus| && |t.envs| == NENV
            && (forall d :: 0 <= d < |s.cpus| && d != a.cpu ==> t.cpus[d] == s.cpus[d])
            && (!s.cpus[a.cpu].pc.Work? ==> t.envs == s.envs && t.cpus[a.cpu].env == s.cpus[a.cpu].env)
  {
    if s.cpus[a.cpu].pc.Work? { HandleShape(s, a.cpu, a.call); }
  }

  /** The states of a run: one more than its acts. */
  ghost predicate Run(states: seq<System>, acts: seq<Act>) {
    && |states| == |acts| + 1
    && (forall i :: 0 <= i < |acts| ==> Enabled(states[i], acts[i]))
    && (forall i :: 0 <= i < |acts| ==> states[i + 1] == Step(states[i], acts[i].cpu, acts[i].call))
  }

  ghost predicate GuardedRun(states: seq<System>, acts: seq<Act>) {
    Run(states, acts) && forall i :: 0 <= i < |acts| ==> Guarded(states[i], acts[i].cpu, acts[i].call)
  }

  /** i386_init and mp_main: processors about to take the lock, environments FREE or RUNNABLE. */
  ghost predicate Boot(s: System) {
    && !s.locked && s.owner.None? && TableInv(s.envs, s.free)
    && (forall c :: 0 <= c < |s.cpus| ==> s.cpus[c] == Cpu(LockTest(ToWork(KernelRing)), false, None))
    && (forall e :: 0 <= e < |s.envs| ==> s.envs[e].status.FREE? || s.envs[e].status.RUNNABLE?)
  }

  lemma BootInv(s: System)
    requires Boot(s)
    ensures Inv(s)
  {
    assert InvAt(s, None);
  }

  lemma {:induction false} RunKeepsInv(states: seq<System>, acts: seq<Act>, n: nat)
    requires GuardedRun(states, acts) && Inv(states[0]) && n <= |acts|
    ensures Inv(states[n])
  {
    if n > 0 {
      RunKeepsInv(states, acts, n - 1);
      StepKeepsInv(states[n - 1], acts[n - 1].cpu, acts[n - 1].call);
    }
  }

  /** In every state of every guarded run from boot no processor has panicked, at most one
      holds the lock, and whenever the lock is free each RUNNING or DYING environment is on
      exactly one processor while no other environment is on any. */
  lemma Safety(states: seq<System>, acts: seq<Act>, n: nat)
    requires GuardedRun(states, acts) && Boot(states[0]) && n <= |acts|
    ensures var s := states[n];
            && |s.envs| == NENV
            && (forall c :: 0 <= c < |s.cpus| ==> !s.cpus[c].pc.Panicked?)
            && (forall c, d :: 0 <= c < |s.cpus| && 0 <= d < |s.cpus| && Holds(s.cpus[c].pc) && Holds(s.cpus[d].pc) ==>
                  c == d)
            && (forall c: nat, d: nat, e: nat :: RunsOn(s, c, e) && RunsOn(s, d, e) ==> c == d)
            && (!s.locked ==>
                  forall e: nat :: e < NENV ==> ((exists c: nat :: RunsOn(s, c, e)) <==> OnCpu(s.envs[e].status)))
            && (forall e :: 0 <= e < NENV && s.envs[e].recving && !s.envs[e].status.FREE? ==>
                  s.envs[e].status.NOT_RUNNABLE?)
  {
    BootInv(states[0]);
    RunKeepsInv(states, acts, n);
    var h :| InvAt(states[n], h);
    forall c | 0 <= c < |states[n].cpus| ensures !states[n].cpus[c].pc.Panicked? {
      assert CpuOk(states[n].cpus[c]);
    }
  }

  // ---- One acquisition and one release per visit to the kernel -------------------------------------------

  predicate Outside(pc: Pc) {
    pc.Running? || pc.Halted?
  }

  function Bit01(b: bool): nat {
    if b then 1 else 0
  }

  /** In the kernel and still without the lock. */
  predicate Waits(pc: Pc) {
    !Outside(pc) && !Holds(pc)
  }

  predicate Enters(s: System, a: Act, c: nat) {
    a.cpu == c < |s.cpus| && Outside(s.cpus[c].pc)
  }

  predicate Takes(s: System, a: Act, c: nat) {
    a.cpu == c < |s.cpus| && s.cpus[c].pc.LockSpin? && !s.locked
  }

  predicate Frees(s: System, a: Act, c: nat) {
    a.cpu == c < |s.cpus| && s.cpus[c].pc.UnlockFree?
  }

  lemma PhaseStep(s: System, a: Act, c: nat)
    requires Inv(s) && Enabled(s, a) && Guarded(s, a.cpu, a.call) && c < |s.cpus|
    ensures var t := Step(s, a.cpu, a.call);
            && |t.cpus| == |s.cpus|
            && Bit01(Enters(s, a, c)) + Bit01(Waits(s.cpus[c].pc)) == Bit01(Takes(s, a, c)) + Bit01(Waits(t.cpus[c].pc))
            && Bit01(Takes(s, a, c)) + Bit01(Holds(s.cpus[c].pc)) == Bit01(Frees(s, a, c)) + Bit01(Holds(t.cpus[c].pc))
  {
    StepShape(s, a);
    StepKeepsInv(s, a.cpu, a.call);
    var h :| InvAt(s, h);
    assert CpuOk(s.cpus[c]);
  }

  /** How often processor c enters the kernel, takes the lock and frees it in the first n acts. */
  ghost function Entries(states: seq<System>, acts: seq<Act>, c: nat, n: nat): nat
    requires n <= |acts| <= |states|
  {
    if n == 0 then 0 else Entries(states, acts, c, n - 1) + Bit01(Enters(states[n - 1], acts[n - 1], c))
  }

  ghost function Acquisitions(states: seq<System>, acts: seq<Act>, c: nat, n: nat): nat
    requires n <= |acts| <= |states|
  {
    if n == 0 then 0 else Acquisitions(states, acts, c, n - 1) + Bit01(Takes(states[n - 1], acts[n - 1], c))
  }

  ghost function Releases(states: seq<System>, acts: seq<Act>, c: nat, n: nat): nat
    requires n <= |acts| <= |states|
  {
    if n == 0 then 0 else Releases(states, acts, c, n - 1) + Bit01(Frees(states[n - 1], acts[n - 1], c))
  }

  /** Each entry takes the lock exactly once and each exit frees it exactly once: the
      counts differ only by a visit that is under way. */
  lemma {:induction false} LockBalance(states: seq<System>, acts: seq<Act>, c: nat, n: nat)
    requires GuardedRun(states, acts) && Inv(states[0]) && c < |states[0].cpus| && n <= |acts|
    ensures |states[n].cpus| == |states[0].cpus|
    ensures Entries(states, acts, c, n) + Bit01(Waits(states[0].cpus[c].pc))
              == Acquisitions(states, acts, c, n) + Bit01(Waits(states[n].cpus[c].pc))
    ensures Acquisitions(states, acts, c, n) + Bit01(Holds(states[0].cpus[c].pc))
              == Releases(states, acts, c, n) + Bit01(Holds(states[n].cpus[c].pc))
  {
    if n > 0 {
      LockBalance(states, acts, c, n - 1);
      RunKeepsInv(states, acts, n - 1);
      PhaseStep(states[n - 1], acts[n - 1], c);
    }
  }

  // ---- Messages ------------------------------------------------------------------------------------------

  /** A successful sys_ipc_try_send to slot e. */
  predicate SendsTo(s: System, a: Act, e: nat) {
    && Enabled(s, a) && s.cpus[a.cpu].env.Some? && Performs(s, a.cpu, s.cpus[a.cpu].env.value)
    && a.call.Send? && e < NENV && s.envs[e].recving
    && Envid2Env(s.envs, s.cpus[a.cpu].env.value, a.call.envid, false) == Found(e)
  }

  predicate Receives(s: System, a: Act, e: nat) {
    Enabled(s, a) && Performs(s, a.cpu, e) && a.call.Recv? && !Misaligned(a.call.dstva)
  }

  /** sys_exofork gives slot e to a new environment. */
  predicate Reissues(s: System, a: Act, e: nat) {
    && Enabled(s, a) && s.cpus[a.cpu].env.Some? && Performs(s, a.cpu, s.cpus[a.cpu].env.value)
    && a.call == Exofork(true) && s.free != [] && s.free[0] == e < NENV
  }

  predicate SameMail(x: Env, y: Env) {
    x.recving == y.recving && x.from == y.from && x.value == y.value
  }

  lemma LeaveMail(s: System, c: nat, w: Job, e: nat)
    requires c < |s.cpus| && |w.envs| == NENV && e < NENV
    ensures |Leave(s, c, w).envs| == NENV && SameMail(Leave(s, c, w).envs[e], w.envs[e])
  {
  }

  lemma HandleMail(s: System, a: Act, e: nat)
    requires Enabled(s, a) && e < NENV && s.cpus[a.cpu].pc.Work?
    ensures var w := Handle(s, a.cpu, a.call);
            && |w.envs| == NENV
            && w.envs[e].recving ==
               (Receives(s, a, e) || (s.envs[e].recving && !SendsTo(s, a, e) && !Reissues(s, a, e)))
            && (SendsTo(s, a, e) ==>
                  w.envs[e].from == s.envs[s.cpus[a.cpu].env.value].id && w.envs[e].value == a.call.value)
            && (!SendsTo(s, a, e) ==> w.envs[e].from == s.envs[e].from && w.envs[e].value == s.envs[e].value)
  {
  }

  /** What a step does to slot e's message fields. */
  ghost predicate Mail(s: System, a: Act, t: System, e: nat) {
    && e < NENV == |s.envs| == |t.envs|
    && t.envs[e].recving == (Receives(s, a, e) || (s.envs[e].recving && !SendsTo(s, a, e) && !Reissues(s, a, e)))
    && (SendsTo(s, a, e) ==> t.envs[e].from == s.envs[s.cpus[a.cpu].env.value].id && t.envs[e].value == a.call.value)
    && (!SendsTo(s, a, e) ==> t.envs[e].from == s.envs[e].from && t.envs[e].value == s.envs[e].value)
  }

  lemma MailStep(s: System, a: Act, e: nat)
    requires Enabled(s, a) && e < NENV
    ensures Mail(s, a, Step(s, a.cpu, a.call), e)
  {
    StepShape(s, a);
    if s.cpus[a.cpu].pc.Work? {
      HandleMail(s, a, e);
      LeaveMail(s, a.cpu, Handle(s, a.cpu, a.call), e);
    }
  }

  ghost predicate MailRun(states: seq<System>, acts: seq<Act>, e: nat) {
    |states| == |acts| + 1 && forall i :: 0 <= i < |acts| ==> Mail(states[i], acts[i], states[i + 1], e)
  }

  lemma RunsMail(states: seq<System>, acts: seq<Act>, e: nat)
    requires Run(states, acts) && e < NENV
    ensures MailRun(states, acts, e)
  {
    forall i | 0 <= i < |acts| ensures Mail(states[i], acts[i], states[i + 1], e) {
      MailStep(states[i], acts[i], e);
    }
  }

  lemma {:induction false} MailIntact(states: seq<System>, acts: seq<Act>, i: nat, n: nat, e: nat)
    requires MailRun(states, acts, e) && i < n <= |acts| && SendsTo(states[i], acts[i], e)
    requires forall k :: i < k < n ==> !Receives(states[k], acts[k], e)
    ensures |states[n].envs| == NENV && !states[n].envs[e].recving
    ensures states[n].envs[e].from == states[i].envs[states[i].cpus[acts[i].cpu].env.value].id
    ensures states[n].envs[e].value == acts[i].call.value
  {
    assert Mail(states[n - 1], acts[n - 1], states[n - 1 + 1], e);
    if n > i + 1 { MailIntact(states, acts, i, n - 1, e); }
  }

  /** From a send until the environment next receives, sender and value stay as sent. */
  lemma MessageIntact(states: seq<System>, acts: seq<Act>, i: nat, n: nat, e: nat)
    requires Run(states, acts) && i < n <= |acts| && SendsTo(states[i], acts[i], e)
    requires forall k :: i < k < n ==> !Receives(states[k], acts[k], e)
    ensures |states[n].envs| == NENV && !states[n].envs[e].recving
    ensures states[n].envs[e].from == states[i].envs[states[i].cpus[acts[i].cpu].env.value].id
    ensures states[n].envs[e].value == acts[i].call.value
  {
    RunsMail(states, acts, e);
    MailIntact(states, acts, i, n, e);
  }

  /** Between two sends that succeed the environment has received. */
  lemma Rendezvous(states: seq<System>, acts: seq<Act>, i: nat, j: nat, e: nat)
    requires Run(states, acts) && i < j < |acts| && SendsTo(states[i], acts[i], e) && SendsTo(states[j], acts[j], e)
    ensures exists k :: i < k < j && Receives(states[k], acts[k], e)
  {
    if forall k :: i < k < j ==> !Receives(states[k], acts[k], e) {
      MessageIntact(states, acts, i, j, e);
    }
  }

  ghost function Sends(states: seq<System>, acts: seq<Act>, e: nat, n: nat): nat
    requires n <= |acts| <= |states|
  {
    if n == 0 then 0 else Sends(states, acts, e, n - 1) + Bit01(SendsTo(states[n - 1], acts[n - 1], e))
  }

  ghost function Recvs(states: seq<System>, acts: seq<Act>, e: nat, n: nat): nat
    requires n <= |acts| <= |states|
  {
    if n == 0 then 0 else Recvs(states, acts, e, n - 1) + Bit01(Receives(states[n - 1], acts[n - 1], e))
  }

  /** Receives that ended because the waiting environment was destroyed and its slot reissued. */
  ghost function Lost(states: seq<System>, acts: seq<Act>, e: nat, n: nat): nat
    requires n <= |acts| <= |states| && e < NENV
  {
    if n == 0 then 0
    else Lost(states, acts, e, n - 1)
         + Bit01(Reissues(states[n - 1], acts[n - 1], e) && states[n - 1].envs[e].recving)
  }

  /** Each successful send consumes exactly one receive. */
  lemma {:induction false} MessageBalance(states: seq<System>, acts: seq<Act>, e: nat, n: nat)
    requires GuardedRun(states, acts) && Inv(states[0]) && e < NENV && n <= |acts|
    ensures |states[0].envs| == |states[n].envs| == NENV
    ensures Recvs(states, acts, e, n) + Bit01(states[0].envs[e].recving)
              == Sends(states, acts, e, n) + Lost(states, acts, e, n) + Bit01(states[n].envs[e].recving)
  {
    RunKeepsInv(states, acts, n);
    if n > 0 {
      var s, a := states[n - 1], acts[n - 1];
      MessageBalance(states, acts, e, n - 1);
      MailStep(s, a, e);
      RunKeepsInv(states, acts, n - 1);
      if Receives(s, a, e) { assert RunsOn(s, a.cpu, e); }
    }
  }

  // ---- What each system call means ---------------------------------------------------------------------------

  /** The RUNNABLE slot that comes first, going round from `begin`. */
  ghost predicate Nearest(envs: seq<Env>, begin: nat, e: nat) {
    && |envs| == NENV && begin < NENV && e < NENV && envs[e].status.RUNNABLE?
    && forall d: nat :: d < NENV && envs[d].status.RUNNABLE? ==> Distance(begin, e) <= Distance(begin, d)
  }

  function Ran(env: Env): Env {
    env.(status := RUNNING, runs := env.runs + 1)
  }

  /** Processor c leaves the kernel for environment e of the table `envs`. */
  ghost predicate Runs(s: System, c: nat, envs: seq<Env>, e: nat, t: System)
    requires c < |s.cpus|
  {
    && e < |envs| && t.envs == envs[e := Ran(envs[e])]
    && t.cpus == s.cpus[c := s.cpus[c].(pc := UnlockTest(ToUser), env := Some(e))]
  }

  predicate SomeRunnable(envs: seq<Env>) {
    exists d :: 0 <= d < |envs| && envs[d].status.RUNNABLE?
  }

  predicate IsRunning(envs: seq<Env>, cur: Option<nat>) {
    cur.Some? && cur.value < |envs| && envs[cur.value].status.RUNNING?
  }

  /** Processor c gives up environment cur: the nearest RUNNABLE one runs and cur waits its turn; or cur
      goes on; or there is nothing to run, and the processor halts, or stops in the monitor if no
      environment is left that could ever run. */
  ghost predicate Yields(s: System, c: nat, envs: seq<Env>, cur: Option<nat>, t: System)
    requires c < |s.cpus|
  {
    var left := if IsRunning(envs, cur) then envs[cur.value := envs[cur.value].(status := RUNNABLE)] else envs;
    if SomeRunnable(envs) then
      exists e: nat :: Nearest(envs, if cur.Some? then cur.value else 0, e) && Runs(s, c, left, e, t)
    else if IsRunning(envs, cur) then Runs(s, c, envs, cur.value, t)
    else
      && t.envs == envs
      && t.cpus == s.cpus[c := if exists e :: 0 <= e < |envs| && OnCpu(envs[e].status)
                               then Cpu(UnlockTest(ToHalt), true, None)
                               else s.cpus[c].(pc := Monitor, env := cur)]
  }

  /** What a system call of cur does to the table and to processor c. */
  ghost predicate Effect(s: System, c: nat, cur: nat, call: Call, t: System)
    requires Performs(s, c, cur) && TableInv(s.envs, s.free)
  {
    var goesOn := t.free == s.free && Runs(s, c, s.envs, cur, t);
    match call
    case Other => goesOn
    case Yield => t.free == s.free && Yields(s, c, s.envs, Some(cur), t)
    case SetStatus(envid, runnable) =>
      (match Envid2Env(s.envs, cur, envid, true)
       case BadEnv => goesOn
       case Found(e) =>
         && e < NENV && t.free == s.free
         && var envs := s.envs[e := s.envs[e].(status := if runnable then RUNNABLE else NOT_RUNNABLE)];
            if e == cur then Yields(s, c, envs, Some(cur), t) else Runs(s, c, envs, cur, t))
    case Destroy(envid) =>
      (match Envid2Env(s.envs, cur, envid, true)
       case BadEnv => goesOn
       case Found(e) =>
         && e < NENV
         && if e == cur then
              t.free == [e] + s.free && Yields(s, c, s.envs[e := s.envs[e].(status := FREE)], None, t)
            else if s.envs[e].status.RUNNING? then
              t.free == s.free && Runs(s, c, s.envs[e := s.envs[e].(status := DYING)], cur, t)
            else
              t.free == [e] + s.free && Runs(s, c, s.envs[e := s.envs[e].(status := FREE)], cur, t))
    case Exofork(mem) =>
      if s.free == [] || !mem then goesOn
      else
        var e := s.free[0];
        && e < NENV && t.free == s.free[1..]
        && var child := s.envs[e].(id := NextId(s.envs[e].id, e), parent := s.envs[cur].id, status := NOT_RUNNABLE,
                                   runs := 0, recving := false);
           Runs(s, c, s.envs[e := child], cur, t)
    case Send(envid, value) =>
      (match Envid2Env(s.envs, cur, envid, false)
       case BadEnv => goesOn
       case Found(e) =>
         && e < NENV
         && if !s.envs[e].recving then goesOn
            else
              && t.free == s.free
              && var got := s.envs[e].(from := s.envs[cur].id, value := value, recving := false, status := RUNNABLE);
                 Runs(s, c, s.envs[e := got], cur, t))
    case Recv(dstva) =>
      if dstva < 0xEEC0_0000 && dstva % 4096 != 0 then goesOn
      else
        && t.free == s.free
        && var waits := s.envs[cur].(recving := true, dstva := dstva, status := NOT_RUNNABLE);
           Yields(s, c, s.envs[cur := waits], Some(cur), t)
  }

  /** The search finds the nearest RUNNABLE slot. */
  lemma PickNearest(envs: seq<Env>, cur: Option<nat>)
    requires |envs| == NENV && (cur.Some? ==> cur.value < NENV)
    ensures SomeRunnable(envs) <==> Pick(envs, cur).Some?
    ensures SomeRunnable(envs) ==> Nearest(envs, if cur.Some? then cur.value else 0, Pick(envs, cur).value)
  {
    PickFinds(envs, cur);
    var begin := if cur.Some? then cur.value else 0;
    if SomeRunnable(envs) {
      forall d: nat | d < NENV && envs[d].status.RUNNABLE?
        ensures Pick(envs, cur).Some? && Distance(begin, Pick(envs, cur).value) <= Distance(begin, d)
      {
        DistanceLaws(begin, d, 0);
        var j := PickFirst(envs, begin, 0, Distance(begin, d));
        DistanceLaws(begin, d, j);
        NthDistance(begin, j);
      }
    }
  }

  lemma NthDistance(begin: nat, j: nat)
    requires begin < 1024 && j < 1024
    ensures Distance(begin, Nth(begin, j)) == j
  {
    assert Nth(begin, j) == if begin + j < 1024 then begin + j else begin + j - 1024;
  }

  lemma LeaveSwitches(s: System, c: nat, w: Job)
    requires c < |s.cpus| && |w.envs| == NENV && (w.cur.Some? ==> w.cur.value < NENV)
    requires (w.resched || !IsRunning(w.envs, w.cur)) && SomeRunnable(w.envs)
    ensures Yields(s, c, w.envs, w.cur, Leave(s, c, w)) && Leave(s, c, w).free == w.free
  {
    PickNearest(w.envs, w.cur);
    var e := Pick(w.envs, w.cur).value;
    assert Next(w) == Some(e);
    var left := if IsRunning(w.envs, w.cur) then w.envs[w.cur.value := w.envs[w.cur.value].(status := RUNNABLE)]
                else w.envs;
    assert Runs(s, c, left, e, Leave(s, c, w));
  }

  lemma IdleIs(envs: seq<Env>)
    requires !SomeRunnable(envs)
    ensures Idle(envs) <==> !exists e :: 0 <= e < |envs| && OnCpu(envs[e].status)
  {
  }

  lemma LeaveYields(s: System, c: nat, w: Job)
    requires c < |s.cpus| && |w.envs| == NENV && (w.cur.Some? ==> w.cur.value < NENV)
    requires w.resched || !IsRunning(w.envs, w.cur)
    ensures Yields(s, c, w.envs, w.cur, Leave(s, c, w)) && Leave(s, c, w).free == w.free
  {
    PickNearest(w.envs, w.cur);
    if SomeRunnable(w.envs) {
      LeaveSwitches(s, c, w);
    } else {
      IdleIs(w.envs);
    }
  }

  lemma LeaveGoesOn(s: System, c: nat, w: Job, cur: nat)
    requires c < |s.cpus| && |w.envs| == NENV && w.cur == Some(cur) && cur < NENV
    requires !w.resched && IsRunning(w.envs, w.cur)
    ensures Runs(s, c, w.envs, cur, Leave(s, c, w)) && Leave(s, c, w).free == w.free
  {
  }

  /** sys_exofork takes the first free slot. */
  lemma ForkEffect(s: System, c: nat, cur: nat, mem: bool)
    requires Performs(s, c, cur) && TableInv(s.envs, s.free) && s.envs[cur].status.RUNNING?
    ensures Effect(s, c, cur, Exofork(mem), Step(s, c, Exofork(mem)))
  {
    if s.free != [] {
      assert s.free[0] in s.free;
    }
    LeaveGoesOn(s, c, Handle(s, c, Exofork(mem)), cur);
  }

  /** Every system call has its effect. */
  lemma CallEffect(s: System, c: nat, cur: nat, call: Call)
    requires Performs(s, c, cur) && TableInv(s.envs, s.free) && s.envs[cur].status.RUNNING?
    ensures Effect(s, c, cur, call, Step(s, c, call))
  {
    var w := Handle(s, c, call);
    if call.Exofork? {
      ForkEffect(s, c, cur, call.mem);
    } else if w.resched || !IsRunning(w.envs, w.cur) {
      LeaveYields(s, c, w);
    } else {
      LeaveGoesOn(s, c, w, cur);
    }
  }

  /** A processor woken from its halt looks for work; an environment that was destroyed from elsewhere
      is freed as soon as its processor enters the kernel. */
  lemma IdleEffect(s: System, c: nat, call: Call)
    requires c < |s.cpus| && |s.envs| == NENV && s.cpus[c].pc.Work? && CpuOk(s.cpus[c])
    requires s.cpus[c].env.Some? ==> s.cpus[c].env.value < NENV && s.envs[s.cpus[c].env.value].status.DYING?
    ensures var t := Step(s, c, call);
            match s.cpus[c].env
            case None => t.free == s.free && Yields(s, c, s.envs, None, t)
            case Some(e) =>
              t.free == [e] + s.free && Yields(s, c, s.envs[e := s.envs[e].(status := FREE)], None, t)
  {
    LeaveYields(s, c, Handle(s, c, call));
  }

  // ---- The way in and out of the kernel -----------------------------------------------------------------------

  /** The state after n steps of processor c alone. */
  function Alone(s: System, c: nat, call: Call, n: nat): System
    requires c < |s.cpus| && |s.envs| == NENV
    decreases n
  {
    if n == 0 then s
    else
      var t := Step(s, c, call);
      if c < |t.cpus| && |t.envs| == NENV then Alone(t, c, call, n - 1) else t
  }

  /** A trap from user code, or the interrupt that wakes a halted processor, takes the lock if it is free
      and gets to work, changing nothing else. */
  lemma EntersKernel(s: System, c: nat, call: Call)
    requires c < |s.cpus| && |s.envs| == NENV && CpuOk(s.cpus[c]) && (s.cpus[c].pc.Running? || s.cpus[c].pc.Halted?)
    requires !s.locked && s.owner == None
    ensures var ring := if s.cpus[c].pc.Running? then UserRing else KernelRing;
            Alone(s, c, call, 6) ==
            s.(locked := true, owner := Some(c), cpus := s.cpus[c := s.cpus[c].(pc := Work(ring), halted := false)])
  {
    var s1 := Step(s, c, call);
    var s2 := Step(s1, c, call);
    var s3 := Step(s2, c, call);
    var s4 := Step(s3, c, call);
    var s5 := Step(s4, c, call);
    var s6 := Step(s5, c, call);
    assert Alone(s5, c, call, 1) == s6;
    assert Alone(s4, c, call, 2) == s6;
    assert Alone(s3, c, call, 3) == s6;
    assert Alone(s2, c, call, 4) == s6;
    assert Alone(s1, c, call, 5) == s6;
    var ring := if s.cpus[c].pc.Running? then UserRing else KernelRing;
    assert s6.cpus == s.cpus[c := s.cpus[c].(pc := Work(ring), halted := false)];
  }

  /** On its way out a processor frees the lock and runs user code, or halts. */
  lemma LeavesKernel(s: System, c: nat, call: Call)
    requires c < |s.cpus| && |s.envs| == NENV && s.cpus[c].pc.UnlockTest? && Holding(s, c)
    ensures var pc := if s.cpus[c].pc.exit.ToUser? then Running else Halted;
            Alone(s, c, call, 3) == s.(locked := false, owner := None, cpus := s.cpus[c := s.cpus[c].(pc := pc)])
  {
    var s1 := Step(s, c, call);
    var s2 := Step(s1, c, call);
    var s3 := Step(s2, c, call);
    assert Alone(s2, c, call, 1) == s3;
    assert Alone(s1, c, call, 2) == s3;
    assert s3.cpus == s.cpus[c := s.cpus[c].(pc := s3.cpus[c].pc)];
  }

  // ---- Bounded waiting -------------------------------------------------------------------------------------

  /** How far round the table slot t lies after slot cur. */
  function Distance(cur: nat, t: nat): (d: nat)
    requires cur < 1024 && t < 1024
    ensures d < 1024
  {
    (t + 1024 - cur) % 1024
  }

  lemma DistanceLaws(cur: nat, t: nat, k: nat)
    requires cur < 1024 && t < 1024 && k <= Distance(cur, t)
    ensures Nth(cur, Distance(cur, t)) == t && (Distance(cur, t) == 0 <==> cur == t)
    ensures Nth(cur, 0) == cur && Distance(Nth(cur, k), t) == Distance(cur, t) - k
  {
    assert Distance(cur, t) == if cur <= t then t - cur else t + 1024 - cur;
    assert Nth(cur, k) == if cur + k < 1024 then cur + k else cur + k - 1024;
  }

  /** The search stops at the first RUNNABLE slot on its way. */
  lemma {:induction false} PickFirst(envs: seq<Env>, begin: nat, i: nat, k: nat) returns (j: nat)
    requires |envs| == NENV && i <= k < NENV && envs[Nth(begin, k)].status.RUNNABLE?
    ensures i <= j <= k && PickFrom(envs, begin, i) == Some(Nth(begin, j)) && envs[Nth(begin, j)].status.RUNNABLE?
    decreases k - i
  {
    if envs[Nth(begin, i)].status.RUNNABLE? { j := i; } else { j := PickFirst(envs, begin, i + 1, k); }
  }

  /** sched_yield runs on processor c. */
  predicate Decides(s: System, a: Act, c: nat) {
    && Enabled(s, a) && a.cpu == c && s.cpus[c].pc.Work?
    && var w := Handle(s, c, a.call);
       w.resched || w.cur.None? || w.cur.value >= |w.envs| || !w.envs[w.cur.value].status.RUNNING?
  }

  /** The current environment of processor c survives the system call and does not mark
      itself RUNNABLE. */
  predicate KeepsTurn(s: System, a: Act, c: nat) {
    Enabled(s, a) && a.cpu == c && s.cpus[c].pc.Work? ==>
      && s.cpus[c].env.Some? && Performs(s, c, s.cpus[c].env.value)
      && (a.call.Destroy? ==> Envid2Env(s.envs, s.cpus[c].env.value, a.call.envid, true) != Found(s.cpus[c].env.value))
      && (a.call.SetStatus? && a.call.runnable ==>
            Envid2Env(s.envs, s.cpus[c].env.value, a.call.envid, true) != Found(s.cpus[c].env.value))
  }

  lemma CloserJob(w: Job, t: nat, s: System, c: nat)
    requires |w.envs| == NENV && w.cur.Some? && w.cur.value < NENV && t < NENV && c < |s.cpus|
    requires !w.envs[w.cur.value].status.RUNNABLE? && w.cur.value != t
    requires Leave(s, c, w).envs[t].status.RUNNABLE?
    ensures Next(w).Some? && Next(w).value < NENV
    ensures w.resched || !w.envs[w.cur.value].status.RUNNING? ==> Distance(Next(w).value, t) < Distance(w.cur.value, t)
    ensures !w.resched && w.envs[w.cur.value].status.RUNNING? ==> Next(w) == w.cur
  {
    var cur := w.cur.value;
    assert w.envs[t].status.RUNNABLE?;
    DistanceLaws(cur, t, 0);
    var j := PickFirst(w.envs, cur, 0, Distance(cur, t));
    DistanceLaws(cur, t, j);
    assert Pick(w.envs, w.cur) == Some(Nth(cur, j));
  }

  lemma HandleKeeps(s: System, a: Act, c: nat)
    requires Enabled(s, a) && a.cpu == c && s.cpus[c].pc.Work? && KeepsTurn(s, a, c)
    requires s.envs[s.cpus[c].env.value].status.RUNNING? && TableInv(s.envs, s.free)
    ensures var w := Handle(s, c, a.call);
            && |w.envs| == NENV && w.cur == s.cpus[c].env && !w.envs[w.cur.value].status.RUNNABLE?
  {
  }

  /** Processor c has an environment and is not in the monitor. */
  predicate Busy(s: System, c: nat) {
    c < |s.cpus| && s.cpus[c].env.Some? && s.cpus[c].env.value < NENV && !s.cpus[c].pc.Monitor?
  }

  /** A scheduling decision of processor c that passes over t brings its turn nearer;
      no other step moves it away. */
  lemma Closer(s: System, a: Act, c: nat, t: nat, u: System)
    requires Inv(s) && Enabled(s, a) && t < NENV && KeepsTurn(s, a, c) && Busy(s, c)
    requires u == Step(s, a.cpu, a.call) && |u.envs| == NENV
    requires s.envs[t].status.RUNNABLE? && u.envs[t].status.RUNNABLE?
    ensures Busy(u, c) && Distance(u.cpus[c].env.value, t) + Bit01(Decides(s, a, c)) <= Distance(s.cpus[c].env.value, t)
  {
    StepShape(s, a);
    if a.cpu == c && s.cpus[c].pc.Work? {
      var h :| InvAt(s, h);
      assert RunsOn(s, c, s.cpus[c].env.value);
      HandleKeeps(s, a, c);
      CloserJob(Handle(s, c, a.call), t, s, c);
    }
  }

  ghost function Decisions(states: seq<System>, acts: seq<Act>, c: nat, n: nat): nat
    requires n <= |acts| <= |states|
  {
    if n == 0 then 0 else Decisions(states, acts, c, n - 1) + Bit01(Decides(states[n - 1], acts[n - 1], c))
  }

  lemma {:induction false} TurnNears(states: seq<System>, acts: seq<Act>, c: nat, t: nat, n: nat)
    requires |states| == |acts| + 1 && t < NENV && n <= |acts| && Busy(states[0], c)
    requires forall i :: 0 <= i < |acts| && Busy(states[i], c) ==> Nears(states[i], acts[i], states[i + 1], c, t)
    ensures Busy(states[n], c)
    ensures Distance(states[n].cpus[c].env.value, t) + Decisions(states, acts, c, n)
              <= Distance(states[0].cpus[c].env.value, t)
  {
    if n > 0 {
      TurnNears(states, acts, c, t, n - 1);
      assert Nears(states[n - 1], acts[n - 1], states[n - 1 + 1], c, t);
    }
  }

  ghost predicate Nears(s: System, a: Act, u: System, c: nat, t: nat) {
    && Busy(s, c) && Busy(u, c) && t < NENV
    && Distance(u.cpus[c].env.value, t) + Bit01(Decides(s, a, c)) <= Distance(s.cpus[c].env.value, t)
  }

  /** Any processor passes over an environment that stays RUNNABLE at most NENV - 2
      times: decision NENV - 1 at the latest dispatches it. */
  lemma BoundedWaiting(states: seq<System>, acts: seq<Act>, c: nat, t: nat)
    requires GuardedRun(states, acts) && Inv(states[0]) && c < |states[0].cpus| && t < NENV
    requires states[0].cpus[c].env.Some? && !states[0].cpus[c].pc.Monitor?
    requires forall i :: 0 <= i < |acts| ==> KeepsTurn(states[i], acts[i], c)
    requires forall i :: 0 <= i < |states| ==> |states[i].envs| == NENV && states[i].envs[t].status.RUNNABLE?
    ensures Decisions(states, acts, c, |acts|) <= NENV - 2
  {
    assert RunsOn(states[0], c, states[0].cpus[c].env.value);
    forall i | 0 <= i < |acts| && Busy(states[i], c) ensures Nears(states[i], acts[i], states[i + 1], c, t) {
      RunKeepsInv(states, acts, i);
      Closer(states[i], acts[i], c, t, states[i + 1]);
    }
    TurnNears(states, acts, c, t, |acts|);
    RunKeepsInv(states, acts, |acts|);
    Apart(states[|acts|], c, t);
  }

  lemma Apart(s: System, c: nat, t: nat)
    requires Inv(s) && Busy(s, c) && t < NENV && |s.envs| == NENV && s.envs[t].status.RUNNABLE?
    ensures Distance(s.cpus[c].env.value, t) > 0
  {
    assert RunsOn(s, c, s.cpus[c].env.value);
    DistanceLaws(s.cpus[c].env.value, t, 0);
  }
}
