/** Environment descriptors and their identifiers (inc/env.h, kern/env.c). */
module EnvTable {
  import opened Paging

  const NENV: nat := 1024
  const GENSTEP: int := 4096            // 1 << ENVGENSHIFT
  const PERIOD: nat := 0x8_0000 - 1     // identifiers a slot goes through before one repeats

  const E_BAD_ENV: int := 2
  const E_INVAL: int := 3
  const E_NO_MEM: int := 4
  const E_NO_FREE_ENV: int := 5
  const E_IPC_NOT_RECV: int := 7

  /** A 32-bit virtual address. */
  type Va = x: nat | x < 0x1_0000_0000

  /** An address below UTOP that sys_ipc_recv rejects. */
  predicate Misaligned(dstva: Va) {
    dstva < 0xEEC0_0000 && dstva % 4096 != 0
  }

  datatype Status = FREE | DYING | RUNNABLE | RUNNING | NOT_RUNNABLE

  datatype Env = Env(
    id: int,
    parent: int,
    status: Status,
    runs: nat,
    recving: bool,
    dstva: Va,
    value: nat,
    from: int,
    perm: set<Bit>)

  /** The value of a 32-bit signed sum. */
  function Int32(x: int): int {
    (x + 0x8000_0000) % 0x1_0000_0000 - 0x8000_0000
  }

  /** ENVX: the low ten bits of an identifier. */
  function Slot(id: int): nat {
    id % NENV
  }

  /** The identifier env_alloc gives to a slot whose last identifier was `id`. */
  function NextId(id: int, slot: nat): int {
    var sum := Int32(id + GENSTEP);
    var generation := sum - sum % NENV;
    (if generation <= 0 then GENSTEP else generation) + slot
  }

  /** The environment record env_alloc leaves in a slot. */
  function NewEnv(env: Env, e: nat, parent: int): Env {
    env.(id := NextId(env.id, e), parent := parent, status := RUNNABLE, runs := 0, recving := false)
  }

  /** An identifier that env_alloc can have produced for the slot. */
  ghost predicate Issued(id: int, slot: nat) {
    slot < NENV && exists k :: 1 <= k <= PERIOD && id == k * GENSTEP + slot
  }

  /** Slots hold 0 until first used, and then an identifier of their own. */
  ghost predicate TableOk(envs: seq<Env>) {
    |envs| == NENV && forall e :: 0 <= e < NENV ==>
      (envs[e].id == 0 && envs[e].status.FREE?) || Issued(envs[e].id, e)
  }

  datatype Found = BadEnv | Found(slot: nat)

  function Envid2Env(envs: seq<Env>, cur: nat, envid: int, checkperm: bool): Found
    requires |envs| == NENV && cur < NENV
  {
    if envid == 0 then
      Found(cur)
    else
      var e := Slot(envid);
      if envs[e].status.FREE? || envs[e].id != envid then
        BadEnv
      else if checkperm && e != cur && envs[e].parent != envs[cur].id then
        BadEnv
      else
        Found(e)
  }

  lemma NextIdOf(k: nat, slot: nat)
    requires k <= PERIOD && slot < NENV
    ensures k == 0 ==> NextId(0, slot) == GENSTEP + slot
    ensures NextId(k * GENSTEP + slot, slot) == (if k == PERIOD then 1 else k + 1) * GENSTEP + slot
  {
    var id := k * GENSTEP + slot;
    if k == PERIOD {
      assert Int32(id + GENSTEP) == id + GENSTEP - 0x1_0000_0000;
    } else {
      var sum := Int32(id + GENSTEP);
      assert sum == (k + 1) * GENSTEP + slot == (4 * (k + 1)) * NENV + slot;
      assert sum % NENV == slot;
    }
  }

  lemma LowBits(q: nat, slot: nat)
    requires slot < 1024
    ensures (1024 * q + slot) % 1024 == slot
  {
  }

  lemma IssuedSlot(id: int, slot: nat)
    requires Issued(id, slot)
    ensures id > 0 && Slot(id) == slot
  {
    var k: nat :| 1 <= k <= PERIOD && id == k * GENSTEP + slot;
    assert id == 1024 * (4 * k) + slot;
    LowBits(4 * k, slot);
  }

  /** A new identifier is positive and carries its slot number. */
  lemma NextIdIssued(envs: seq<Env>, e: nat)
    requires TableOk(envs) && e < NENV
    ensures Issued(NextId(envs[e].id, e), e)
    ensures NextId(envs[e].id, e) > 0 && Slot(NextId(envs[e].id, e)) == e
  {
    var k: nat := if envs[e].id == 0 then 0 else var k: nat :| 1 <= k <= PERIOD && envs[e].id == k * GENSTEP + e; k;
    NextIdOf(k, e);
    NextIdOf(0, e);
    var next: nat := if k == PERIOD then 1 else k + 1;
    assert NextId(envs[e].id, e) == next * GENSTEP + e;
    IssuedSlot(NextId(envs[e].id, e), e);
  }

  /** Live identifiers are positive, pairwise distinct and carry their slot number. */
  lemma LiveIdsDistinct(envs: seq<Env>, d: nat, e: nat)
    requires TableOk(envs) && d < NENV && e < NENV && d != e
    requires !envs[d].status.FREE? && !envs[e].status.FREE?
    ensures envs[d].id > 0 && envs[d].id != envs[e].id && Slot(envs[d].id) == d
  {
    IssuedSlot(envs[d].id, d);
    IssuedSlot(envs[e].id, e);
  }

  /** envid2env takes 0 for the caller, and otherwise finds an environment exactly when a live one has
      that identifier and the caller may touch it: itself or a child. */
  lemma Envid2EnvExact(envs: seq<Env>, cur: nat, envid: int, checkperm: bool, e: nat)
    requires TableOk(envs) && cur < NENV && e < NENV
    ensures Envid2Env(envs, cur, envid, checkperm) == Found(e) <==>
              if envid == 0 then e == cur
              else
                && !envs[e].status.FREE? && envs[e].id == envid
                && (checkperm ==> e == cur || envs[e].parent == envs[cur].id)
    ensures Envid2Env(envs, cur, envid, checkperm).Found? ==> Envid2Env(envs, cur, envid, checkperm).slot < NENV
  {
    if envid != 0 && !envs[e].status.FREE? && envs[e].id == envid {
      IssuedSlot(envid, e);
    }
  }

  /** The identifier of a slot after it has been reissued n times. */
  function Reissued(id: int, slot: nat, n: nat): int
    decreases n
  {
    if n == 0 then id else NextId(Reissued(id, slot, n - 1), slot)
  }

  lemma NextResidue(x: nat)
    ensures (x + 1) % PERIOD == if x % PERIOD + 1 == PERIOD then 0 else x % PERIOD + 1
  {
    var q, r := x / PERIOD, x % PERIOD;
    if r + 1 < PERIOD {
      QuotientResidue(q, r + 1);
    } else {
      QuotientResidue(q + 1, 0);
    }
  }

  lemma SmallResidue(x: nat)
    requires x < PERIOD
    ensures x % PERIOD == x
  {
  }

  lemma QuotientResidue(q: nat, r: nat)
    requires r < PERIOD
    ensures (PERIOD * q + r) % PERIOD == r
  {
  }

  lemma {:induction false} ReissuedForm(k: nat, slot: nat, n: nat)
    requires 1 <= k <= PERIOD && slot < NENV
    ensures Reissued(k * GENSTEP + slot, slot, n) == ((k - 1 + n) % PERIOD + 1) * GENSTEP + slot
  {
    if n > 0 {
      ReissuedForm(k, slot, n - 1);
      NextIdOf((k - 1 + (n - 1)) % PERIOD + 1, slot);
      NextResidue(k - 1 + (n - 1));
    } else {
      SmallResidue(k - 1);
    }
  }

  /** An identifier comes back exactly after a multiple of 2^19 - 1 reissues of its
      slot; until then it is stale and envid2env rejects it. */
  lemma StaleIdRejected(envs: seq<Env>, cur: nat, past: int, slot: nat, n: nat, checkperm: bool)
    requires TableOk(envs) && cur < NENV && Issued(past, slot)
    requires envs[slot].id == Reissued(past, slot, n)
    ensures envs[slot].id == past <==> n % PERIOD == 0
    ensures n % PERIOD != 0 ==> Envid2Env(envs, cur, past, checkperm).BadEnv?
  {
    var k: nat :| 1 <= k <= PERIOD && past == k * GENSTEP + slot;
    IssuedSlot(past, slot);
    ReissuedForm(k, slot, n);
    Cyclic(k - 1, n);
  }

  lemma Cyclic(a: nat, n: nat)
    requires a < PERIOD
    ensures (a + n) % PERIOD == a <==> n % PERIOD == 0
  {
    var q, r := n / PERIOD, n % PERIOD;
    assert a + n == PERIOD * q + (a + r);
    if a + r < PERIOD {
      QuotientResidue(q, a + r);
    } else {
      assert a + n == PERIOD * (q + 1) + (a + r - PERIOD);
      QuotientResidue(q + 1, a + r - PERIOD);
    }
  }
}
