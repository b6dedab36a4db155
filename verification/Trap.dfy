/** The kernel's work under the lock as the code does it, in place, proved against the
    step functions of Smp (kern/trap.c, sched.c, env.c, syscall.c). */
module Trap {
  import opened Common
  import opened EnvTable
  import opened Smp

  class Machine {
    var cpus: seq<Cpu>
    var locked: bool
    var owner: Option<nat>
    var envs: seq<Env>
    var free: seq<nat>

    constructor (s: System)
      ensures View() == s
    {
      cpus, locked, owner, envs, free := s.cpus, s.locked, s.owner, s.envs, s.free;
    }

    function View(): System
      reads this
    {
      System(cpus, locked, owner, envs, free)
    }

    /** The work in hand of processor c. */
    function Hand(c: nat, resched: bool): Job
      reads this
      requires c < |cpus|
    {
      Job(envs, free, cpus[c].env, resched)
    }

    method EnvRun(c: nat, e: nat)
      requires c < |cpus| && e < |envs|
      modifies this
      ensures View() == old(View()).(envs := Dispatch(old(envs), old(cpus)[c].env, e),
                                     cpus := old(cpus)[c := old(cpus)[c].(pc := UnlockTest(ToUser), env := Some(e))])
    {
      var cur := cpus[c].env;
      if cur.Some? && cur.value < |envs| && envs[cur.value].status.RUNNING? {
        envs := envs[cur.value := envs[cur.value].(status := RUNNABLE)];
      }
      cpus := cpus[c := cpus[c].(env := Some(e))];
      envs := envs[e := envs[e].(status := RUNNING)];
      envs := envs[e := envs[e].(runs := envs[e].runs + 1)];
      cpus := cpus[c := cpus[c].(pc := UnlockTest(ToUser))];
    }

    method SchedHalt(c: nat)
      requires c < |cpus| && |envs| == NENV && Next(Hand(c, true)).None?
      modifies this
      ensures View() == Leave(old(View()), c, old(Hand(c, true)))
    {
      var i := 0;
      while i < NENV && (envs[i].status.FREE? || envs[i].status.NOT_RUNNABLE?)
        invariant 0 <= i <= NENV
        invariant forall e :: 0 <= e < i ==> envs[e].status.FREE? || envs[e].status.NOT_RUNNABLE?
      {
        i := i + 1;
      }
      if i == NENV {
        cpus := cpus[c := cpus[c].(pc := Monitor)];
      } else {
        cpus := cpus[c := cpus[c].(env := None)];
        cpus := cpus[c := cpus[c].(halted := true)];
        cpus := cpus[c := cpus[c].(pc := UnlockTest(ToHalt))];
      }
    }

    method SchedYield(c: nat)
      requires c < |cpus| && |envs| == NENV
      modifies this
      ensures View() == Leave(old(View()), c, old(Hand(c, true)))
    {
      var cur := cpus[c].env;
      var begin := if cur.Some? then cur.value else 0;
      var i := 0;
      while i < NENV && !envs[Nth(begin, i)].status.RUNNABLE?
        invariant 0 <= i <= NENV
        invariant Pick(envs, cur) == PickFrom(envs, begin, i)
      {
        i := i + 1;
      }
      if i < NENV {
        EnvRun(c, Nth(begin, i));
      } else if cur.Some? && cur.value < NENV && envs[cur.value].status.RUNNING? {
        EnvRun(c, cur.value);
      } else {
        SchedHalt(c);
      }
    }

    /** env_free's part in the environment table. */
    method Release(e: nat)
      requires e < |envs|
      modifies this`envs, this`free
      ensures envs == SetStatusOf(old(envs), e, FREE) && free == [e] + old(free)
    {
      envs := envs[e := envs[e].(status := FREE)];
      free := [e] + free;
    }

    /** Returns whether sched_yield is to run. */
    method EnvDestroy(c: nat, e: nat) returns (resched: bool)
      requires c < |cpus| && e < |envs|
      modifies this`envs, this`free, this`cpus
      ensures |cpus| == |old(cpus)| && Hand(c, resched) == DestroyEnv(old(Hand(c, false)), e)
      ensures cpus == old(cpus)[c := old(cpus)[c].(env := cpus[c].env)]
    {
      resched := false;
      if envs[e].status.RUNNING? && cpus[c].env != Some(e) {
        envs := envs[e := envs[e].(status := DYING)];
        return;
      }
      Release(e);
      if cpus[c].env == Some(e) {
        cpus := cpus[c := cpus[c].(env := None)];
        resched := true;
      }
    }

    /** sys_exofork's part in the environment table. */
    method Fork(cur: nat)
      requires free != [] && free[0] < |envs| && cur < |envs|
      modifies `envs, `free
      ensures var e := old(free)[0];
              envs == old(envs)[e := NewEnv(old(envs)[e], e, old(envs)[cur].id).(status := NOT_RUNNABLE)]
      ensures free == old(free)[1..]
    {
      var e := free[0];
      envs := envs[e := NewEnv(envs[e], e, envs[cur].id)];
      envs := envs[e := envs[e].(status := NOT_RUNNABLE)];
      free := free[1..];
    }

    /** The end of sys_ipc_try_send. */
    method Deliver(e: nat, from: int, value: nat)
      requires e < |envs|
      modifies `envs
      ensures envs == old(envs)[e := Delivered(old(envs)[e], from, value)]
    {
      envs := envs[e := envs[e].(from := from)];
      envs := envs[e := envs[e].(value := value)];
      envs := envs[e := envs[e].(recving := false)];
      envs := envs[e := envs[e].(status := RUNNABLE)];
    }

    /** sys_ipc_recv before it yields. */
    method Receive(cur: nat, dstva: Va)
      requires cur < |envs|
      modifies `envs
      ensures envs == old(envs)[cur := old(envs)[cur].(recving := true, dstva := dstva, status := NOT_RUNNABLE)]
    {
      envs := envs[cur := envs[cur].(recving := true)];
      envs := envs[cur := envs[cur].(dstva := dstva)];
      envs := envs[cur := envs[cur].(status := NOT_RUNNABLE)];
    }

    method Syscall(c: nat, cur: nat, call: Call) returns (resched: bool)
      requires c < |cpus| && |envs| == NENV && cur < NENV && cpus[c].env == Some(cur)
      modifies this`envs, this`free, this`cpus
      ensures |cpus| == |old(cpus)| && Hand(c, resched) == Perform(old(Hand(c, false)), cur, call)
      ensures cpus == old(cpus)[c := old(cpus)[c].(env := cpus[c].env)]
    {
      resched := false;
      match call
      case Other =>
      case Yield => resched := true;
      case SetStatus(envid, runnable) =>
        var found := Envid2Env(envs, cur, envid, true);
        if found.Found? && found.slot < NENV {
          envs := envs[found.slot := envs[found.slot].(status := if runnable then RUNNABLE else NOT_RUNNABLE)];
        }
      case Destroy(envid) =>
        var found := Envid2Env(envs, cur, envid, true);
        if found.Found? && found.slot < NENV {
          resched := EnvDestroy(c, found.slot);
        }
      case Exofork(mem) =>
        if free != [] && mem && free[0] < NENV {
          Fork(cur);
        }
      case Send(envid, value) =>
        var found := Envid2Env(envs, cur, envid, false);
        if found.Found? && found.slot < NENV && envs[found.slot].recving {
          Deliver(found.slot, envs[cur].id, value);
        }
      case Recv(dstva) =>
        if !Misaligned(dstva) {
          Receive(cur, dstva);
          resched := true;
        }
    }

    /** The end of trap(): back to the current environment if it is still RUNNING. */
    method Return(c: nat, resched: bool)
      requires c < |cpus| && |envs| == NENV
      modifies this
      ensures View() == Leave(old(View()), c, old(Hand(c, resched)))
    {
      if !resched && cpus[c].env.Some? && cpus[c].env.value < NENV && envs[cpus[c].env.value].status.RUNNING? {
        EnvRun(c, cpus[c].env.value);
      } else {
        SchedYield(c);
      }
    }

    /** A trap from a current environment, or from a halted processor. */
    method Serve(c: nat, call: Call)
      requires c < |cpus| && |envs| == NENV && cpus[c].pc.Work? && (cpus[c].env.Some? ==> cpus[c].env.value < NENV)
      requires cpus[c].pc.ring.UserRing? ==> cpus[c].env.Some?
      modifies this
      ensures View() == Leave(old(View()), c, Handle(old(View()), c, call))
    {
      ghost var s := View();
      var cur := cpus[c].env;
      var resched := true;
      if cpus[c].pc.ring.UserRing? {
        if envs[cur.value].status.DYING? {
          Release(cur.value);
          cpus := cpus[c := cpus[c].(env := None)];
        } else {
          resched := Syscall(c, cur.value, call);
        }
      }
      ghost var t, w := View(), Handle(s, c, call);
      assert Hand(c, resched) == w;
      HandleShape(s, c, call);
      Return(c, resched);
      LeaveSame(s, t, c, w);
    }

    /** trap() from the point where the lock is held. */
    method Trap(c: nat, call: Call)
      requires c < |cpus| && |envs| == NENV && cpus[c].pc.Work? && (cpus[c].env.Some? ==> cpus[c].env.value < NENV)
      modifies this
      ensures View() == Step(old(View()), c, call)
      ensures TableInv(old(envs), old(free)) ==>
                (forall cur: nat :: Performs(old(View()), c, cur) && old(envs)[cur].status.RUNNING? ==>
                   Effect(old(View()), c, cur, call, View()))
    {
      if TableInv(envs, free) && cpus[c].env.Some? && Performs(View(), c, cpus[c].env.value)
         && envs[cpus[c].env.value].status.RUNNING? {
        CallEffect(View(), c, cpus[c].env.value, call);
      }
      if cpus[c].pc.ring.UserRing? && cpus[c].env.None? {
        cpus := cpus[c := cpus[c].(pc := Panicked)];
      } else {
        Serve(c, call);
      }
    }
  }

  /** The way out of the kernel does not look at what the work in hand replaces. */
  lemma LeaveSame(s: System, t: System, c: nat, w: Job)
    requires c < |s.cpus| == |t.cpus| && s.locked == t.locked && s.owner == t.owner
    requires t.cpus == s.cpus[c := s.cpus[c].(env := t.cpus[c].env)]
    ensures Leave(s, c, w) == Leave(t, c, w)
  {
    var x, y := Leave(s, c, w).cpus[c], Leave(t, c, w).cpus[c];
    assert s.cpus[c := x] == t.cpus[c := x] && s.cpus[c := y] == t.cpus[c := y];
  }
}
