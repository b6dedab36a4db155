/** When is the other end of a pipe closed?  lib/pipe.c answers from reference counts, and
    the order in which lib/fd.c maps and unmaps pages makes the answer right.  One
    processor; each system call is a step, and processes interleave between steps. */
module PipeClose {
  import opened Common

  const MAXFD: nat := 32

  datatype End = Rd | Wr

  /** What the Fd page and the first data page of a descriptor are mapped to. */
  datatype FdMap = NoFd | PipeFd(end: End) | OtherFd
  datatype DataMap = NoData | PipeData | OtherData
  datatype Slot = Slot(fd: FdMap, data: DataMap)

  datatype After = Stop | Dup(from: nat, to: nat)

  /** Where an environment is in close, dup or _pipeisclosed. */
  datatype Op =
    | Idle
    | CloseFd(k: nat, after: After)        // devpipe_close: unmap fd
    | CloseData(k: nat, after: After)      // devpipe_close: unmap data
    | CloseAgain(k: nat, after: After)     // fd_close: unmap fd
    | DupData(from: nat, to: nat)        // dup: map data
    | DupFd(from: nat, to: nat)          // dup: map fd
    | ErrFd(k: nat)                        // dup's error path: unmap fd
    | ErrData(k: nat)                      // dup's error path: unmap data
    | Check(k: nat, n: nat, fds: Option<nat>, pipes: Option<nat>)
    | Answered(k: nat, closed: bool)

  datatype World = World(slots: seq<Slot>, ops: seq<Op>, runs: seq<nat>, cur: nat)

  datatype Action =
    | Switch(env: nat)
    | Close(k: nat)
    | Duplicate(from: nat, to: nat)
    | IsClosed(k: nat)
    | ReadFd                               // pageref(fd); C leaves the order of the two open
    | ReadPipe                             // pageref(p)
    | Go(ok: bool)                         // the next step; ok: a mapping call succeeds
    | Exit                                 // env_free drops every mapping in one system call

  /** The environment whose descriptor table slot k belongs to. */
  function Owner(k: nat): nat {
    k / 32
  }

  predicate Shape(w: World) {
    |w.slots| == 32 * |w.ops| && |w.runs| == |w.ops| && w.cur < |w.ops|
  }

  predicate Mine(w: World, e: nat, k: nat) {
    k < |w.slots| && Owner(k) == e
  }

  // ---- Reference counts --------------------------------------------------------------------------

  function FdRefs(slots: seq<Slot>, f: FdMap): nat {
    if slots == [] then 0
    else FdRefs(slots[..|slots| - 1], f) + if slots[|slots| - 1].fd == f then 1 else 0
  }

  function PipeRefs(slots: seq<Slot>): nat {
    if slots == [] then 0
    else PipeRefs(slots[..|slots| - 1]) + if slots[|slots| - 1].data.PipeData? then 1 else 0
  }

  predicate Stray(s: Slot) {
    s.data.PipeData? && !s.fd.PipeFd?
  }

  function Strays(slots: seq<Slot>): nat {
    if slots == [] then 0
    else Strays(slots[..|slots| - 1]) + if Stray(slots[|slots| - 1]) then 1 else 0
  }

  predicate Backed(slots: seq<Slot>) {
    forall k :: 0 <= k < |slots| && slots[k].fd.PipeFd? ==> slots[k].data.PipeData?
  }

  lemma {:induction false} Balance(slots: seq<Slot>)
    requires Backed(slots)
    ensures PipeRefs(slots) == FdRefs(slots, PipeFd(Rd)) + FdRefs(slots, PipeFd(Wr)) + Strays(slots)
  {
    if slots != [] {
      Balance(slots[..|slots| - 1]);
      var f := slots[|slots| - 1].fd;
      if f.PipeFd? { assert f.end.Rd? || f.end.Wr?; }
    }
  }

  lemma {:induction false} NoRefs(slots: seq<Slot>, f: FdMap)
    ensures FdRefs(slots, f) == 0 <==> forall k :: 0 <= k < |slots| ==> slots[k].fd != f
  {
    if slots != [] {
      var front := slots[..|slots| - 1];
      NoRefs(front, f);
      assert forall k :: 0 <= k < |front| ==> slots[k] == front[k];
    }
  }

  lemma {:induction false} NoStrays(slots: seq<Slot>)
    ensures Strays(slots) == 0 <==> forall k :: 0 <= k < |slots| ==> !Stray(slots[k])
  {
    if slots != [] {
      var front := slots[..|slots| - 1];
      NoStrays(front);
      assert forall k :: 0 <= k < |front| ==> slots[k] == front[k];
    }
  }

  function Other(end: End): End {
    if end.Rd? then Wr else Rd
  }

  /** No environment has this end of the pipe open. */
  predicate Gone(w: World, end: End) {
    forall k :: 0 <= k < |w.slots| ==> w.slots[k].fd != PipeFd(end)
  }

  // ---- Steps ---------------------------------------------------------------------------------------

  function Put(w: World, k: nat, s: Slot, op: Op): World
    requires Shape(w)
  {
    w.(slots := if k < |w.slots| then w.slots[k := s] else w.slots, ops := w.ops[w.cur := op])
  }

  function Then(w: World, op: Op): World
    requires Shape(w)
  {
    w.(ops := w.ops[w.cur := op])
  }

  /** fd_close, entered with the descriptor mapped. */
  function CloseOp(s: Slot, k: nat, after: After): Op {
    if s.fd.PipeFd? then CloseFd(k, after) else CloseAgain(k, after)
  }

  function Advance(w: World, ok: bool): World
    requires Shape(w)
  {
    match w.ops[w.cur]
    case CloseFd(k, after) => if k < |w.slots| then Put(w, k, w.slots[k].(fd := NoFd), CloseData(k, after)) else w
    case CloseData(k, after) =>
      if k < |w.slots| then Put(w, k, w.slots[k].(data := NoData), CloseAgain(k, after)) else w
    case CloseAgain(k, after) =>
      if k < |w.slots| then
        Put(w, k, w.slots[k].(fd := NoFd), if after.Dup? then DupData(after.from, after.to) else Idle)
      else w
    case DupData(o, n) =>
      if o >= |w.slots| || n >= |w.slots| then w
      else if w.slots[o].data.NoData? then Then(w, DupFd(o, n))
      else if ok then Put(w, n, w.slots[n].(data := w.slots[o].data), DupFd(o, n))
      else Then(w, ErrFd(n))
    case DupFd(o, n) =>
      if o >= |w.slots| || n >= |w.slots| then w
      else if w.slots[o].fd.NoFd? || !ok then Then(w, ErrFd(n))
      else Put(w, n, w.slots[n].(fd := w.slots[o].fd), Idle)
    case ErrFd(k) => if k < |w.slots| then Put(w, k, w.slots[k].(fd := NoFd), ErrData(k)) else w
    case ErrData(k) => if k < |w.slots| then Put(w, k, w.slots[k].(data := NoData), Idle) else w
    case Check(k, n, fds, pipes) =>
      if fds.None? || pipes.None? then w
      else if n == w.runs[w.cur] then Then(w, Answered(k, fds == pipes))
      else Then(w, Check(k, w.runs[w.cur], None, None))
    case _ => w
  }

  predicate Ready(op: Op) {
    op.Idle? || op.Answered?
  }

  function Step(w: World, a: Action): World
    requires Shape(w)
  {
    var op := w.ops[w.cur];
    match a
    case Switch(e) => if e < |w.ops| then w.(cur := e, runs := w.runs[e := w.runs[e] + 1]) else w
    case Close(k) =>
      if Ready(op) && Mine(w, w.cur, k) && !w.slots[k].fd.NoFd? then Then(w, CloseOp(w.slots[k], k, Stop)) else w
    case Duplicate(o, n) =>
      if Ready(op) && Mine(w, w.cur, o) && Mine(w, w.cur, n) && !w.slots[o].fd.NoFd? then
        Then(w, if w.slots[n].fd.NoFd? then DupData(o, n) else CloseOp(w.slots[n], n, Dup(o, n)))
      else w
    case IsClosed(k) =>
      if Ready(op) && Mine(w, w.cur, k) && w.slots[k].fd.PipeFd?
      then Then(w, Check(k, w.runs[w.cur], None, None))
      else w
    case ReadFd =>
      if op.Check? && op.k < |w.slots| then Then(w, op.(fds := Some(FdRefs(w.slots, w.slots[op.k].fd)))) else w
    case ReadPipe => if op.Check? then Then(w, op.(pipes := Some(PipeRefs(w.slots)))) else w
    case Go(ok) => Advance(w, ok)
    case Exit =>
      w.(slots := seq(|w.slots|, k requires 0 <= k < |w.slots| =>
                        if Owner(k) == w.cur then Slot(NoFd, NoData) else w.slots[k]),
         ops := w.ops[w.cur := Idle])
  }

  // ---- The invariant -----------------------------------------------------------------------------------

  /** The one slot an operation may leave with its data page mapped and its fd page not. */
  predicate InFlight(op: Op, k: nat) {
    match op
    case CloseData(j, _) => j == k
    case DupFd(_, j) => j == k
    case ErrFd(j) => j == k
    case ErrData(j) => j == k
    case _ => false
  }

  predicate AfterOk(w: World, e: nat, k: nat, after: After) {
    after.Dup? ==> after.to == k && Mine(w, e, after.from)
  }

  /** What an environment in the middle of an operation relies on. */
  predicate OpOk(w: World, e: nat)
    requires Shape(w) && e < |w.ops|
  {
    match w.ops[e]
    case CloseFd(k, after) => Mine(w, e, k) && AfterOk(w, e, k, after)
    case CloseData(k, after) => Mine(w, e, k) && AfterOk(w, e, k, after) && w.slots[k].fd.NoFd?
    case CloseAgain(k, after) => Mine(w, e, k) && AfterOk(w, e, k, after) && !w.slots[k].data.PipeData?
    case DupData(o, n) => Mine(w, e, o) && Mine(w, e, n) && w.slots[n].fd.NoFd? && !w.slots[n].data.PipeData?
    case DupFd(o, n) =>
      Mine(w, e, o) && Mine(w, e, n) && w.slots[n].fd.NoFd? && w.slots[n].data.PipeData? == w.slots[o].data.PipeData?
    case ErrFd(k) => Mine(w, e, k) && w.slots[k].fd.NoFd?
    case ErrData(k) => Mine(w, e, k) && w.slots[k].fd.NoFd?
    case Check(k, n, fds, pipes) =>
      && Mine(w, e, k) && w.slots[k].fd.PipeFd? && n <= w.runs[e]
      && (e == w.cur && n == w.runs[e] ==>
            && (fds.Some? ==> fds.value == FdRefs(w.slots, w.slots[k].fd))
            && (pipes.Some? ==> pipes.value == PipeRefs(w.slots)))
    case Answered(k, closed) =>
      Mine(w, e, k) && w.slots[k].fd.PipeFd? && (closed ==> Gone(w, Other(w.slots[k].fd.end)))
    case _ => true
  }

  predicate Accounted(w: World)
    requires Shape(w)
  {
    forall k :: 0 <= k < |w.slots| && Stray(w.slots[k]) ==> InFlight(w.ops[Owner(k)], k)
  }

  ghost predicate Inv(w: World) {
    && Shape(w) && Backed(w.slots) && Accounted(w)
    && forall e :: 0 <= e < |w.ops| ==> OpOk(w, e)
  }

  /** An established pipe, nothing in progress. */
  ghost predicate Established(w: World) {
    && Shape(w) && (forall e :: 0 <= e < |w.ops| ==> w.ops[e].Idle?)
    && (forall k :: 0 <= k < |w.slots| ==> (w.slots[k].fd.PipeFd? <==> w.slots[k].data.PipeData?))
  }

  lemma EstablishedInv(w: World)
    requires Established(w)
    ensures Inv(w)
  {
  }

  /** Only the current environment's slots and operation change, and no closed end is reopened. */
  predicate Local(w: World, v: World) {
    && (forall end :: Gone(w, end) ==> Gone(v, end))
    && Shape(w) && Shape(v) && |v.ops| == |w.ops| && v.runs == w.runs && v.cur == w.cur
    && (forall k :: 0 <= k < |w.slots| && Owner(k) != w.cur ==> v.slots[k] == w.slots[k])
    && (forall e :: 0 <= e < |w.ops| && e != w.cur ==> v.ops[e] == w.ops[e])
  }

  lemma LocalInv(w: World, v: World)
    requires Inv(w) && Local(w, v) && OpOk(v, v.cur)
    requires forall k :: 0 <= k < |v.slots| && Owner(k) == v.cur && v.slots[k].fd.PipeFd? ==> v.slots[k].data.PipeData?
    requires forall k :: 0 <= k < |v.slots| && Owner(k) == v.cur && Stray(v.slots[k]) ==> InFlight(v.ops[v.cur], k)
    ensures Inv(v)
  {
    forall e | 0 <= e < |v.ops| ensures OpOk(v, e) {
      assert OpOk(w, e);
    }
    forall k | 0 <= k < |v.slots| && Stray(v.slots[k]) ensures InFlight(v.ops[Owner(k)], k) {
    }
  }

  lemma SwitchInv(w: World, e: nat)
    requires Inv(w)
    ensures Inv(Step(w, Switch(e)))
  {
    var v := Step(w, Switch(e));
    forall d | 0 <= d < |v.ops| ensures OpOk(v, d) {
      assert OpOk(w, d);
    }
  }

  /** The current environment changes slot k and goes on with op. */
  lemma PutInv(w: World, k: nat, x: Slot, op: Op)
    requires Inv(w) && Mine(w, w.cur, k) && OpOk(Put(w, k, x, op), w.cur)
    requires x.fd.PipeFd? ==> x.data.PipeData? && exists j :: 0 <= j < |w.slots| && w.slots[j].fd == x.fd
    requires Stray(x) ==> InFlight(op, k)
    requires forall j: nat :: InFlight(w.ops[w.cur], j) ==> j == k
    ensures Inv(Put(w, k, x, op))
  {
    LocalInv(w, Put(w, k, x, op));
  }

  lemma ThenInv(w: World, op: Op)
    requires Inv(w) && OpOk(Then(w, op), w.cur)
    requires forall j: nat :: InFlight(w.ops[w.cur], j) ==> InFlight(op, j)
    ensures Inv(Then(w, op))
  {
    LocalInv(w, Then(w, op));
  }

  lemma DupInv(w: World, ok: bool)
    requires Inv(w) && (w.ops[w.cur].DupData? || w.ops[w.cur].DupFd?)
    ensures Inv(Advance(w, ok))
  {
    assert OpOk(w, w.cur);
    var op := w.ops[w.cur];
    var o, n := op.from, op.to;
    if op.DupData? {
      if w.slots[o].data.NoData? {
        ThenInv(w, DupFd(o, n));
      } else if ok {
        PutInv(w, n, w.slots[n].(data := w.slots[o].data), DupFd(o, n));
      } else {
        ThenInv(w, ErrFd(n));
      }
    } else {
      if w.slots[o].fd.NoFd? || !ok {
        ThenInv(w, ErrFd(n));
      } else {
        assert !Stray(w.slots[o]);
        PutInv(w, n, w.slots[n].(fd := w.slots[o].fd), Idle);
      }
    }
  }

  /** The answer is true exactly when the other end is mapped nowhere and no environment is
      part-way through a close or dup of this pipe. */
  lemma AnswerExact(w: World, ok: bool)
    requires Inv(w) && w.ops[w.cur].Check? && Advance(w, ok).ops[w.cur].Answered?
    ensures var k := w.ops[w.cur].k;
            && k < |w.slots| && w.slots[k].fd.PipeFd?
            && (Advance(w, ok).ops[w.cur].closed <==>
                  && Gone(w, Other(w.slots[k].fd.end))
                  && (forall j :: 0 <= j < |w.slots| ==> !Stray(w.slots[j])))
  {
    var k := w.ops[w.cur].k;
    assert OpOk(w, w.cur);
    var end := w.slots[k].fd.end;
    Balance(w.slots);
    NoRefs(w.slots, PipeFd(Other(end)));
    NoStrays(w.slots);
  }

  lemma CheckInv(w: World, ok: bool)
    requires Inv(w) && w.ops[w.cur].Check?
    ensures Inv(Advance(w, ok))
  {
    assert OpOk(w, w.cur);
    var op := w.ops[w.cur];
    if op.fds.Some? && op.pipes.Some? {
      if op.n == w.runs[w.cur] {
        AnswerExact(w, ok);
        ThenInv(w, Answered(op.k, op.fds == op.pipes));
      } else {
        ThenInv(w, Check(op.k, w.runs[w.cur], None, None));
      }
    }
  }

  lemma AdvanceInv(w: World, ok: bool)
    requires Inv(w)
    ensures Inv(Advance(w, ok))
  {
    assert OpOk(w, w.cur);
    match w.ops[w.cur]
    case CloseFd(k, after) => PutInv(w, k, w.slots[k].(fd := NoFd), CloseData(k, after));
    case CloseData(k, after) => PutInv(w, k, w.slots[k].(data := NoData), CloseAgain(k, after));
    case CloseAgain(k, after) =>
      PutInv(w, k, w.slots[k].(fd := NoFd), if after.Dup? then DupData(after.from, after.to) else Idle);
    case DupData(_, _) => DupInv(w, ok);
    case DupFd(_, _) => DupInv(w, ok);
    case ErrFd(k) => PutInv(w, k, w.slots[k].(fd := NoFd), ErrData(k));
    case ErrData(k) => PutInv(w, k, w.slots[k].(data := NoData), Idle);
    case Check(_, _, _, _) => CheckInv(w, ok);
    case _ =>
  }

  lemma ExitInv(w: World)
    requires Inv(w)
    ensures Inv(Step(w, Exit))
  {
    LocalInv(w, Step(w, Exit));
  }

  /** Every action keeps the invariant. */
  lemma StepInv(w: World, a: Action)
    requires Inv(w)
    ensures Inv(Step(w, a))
  {
    assert OpOk(w, w.cur);
    var op := w.ops[w.cur];
    match a
    case Switch(e) => SwitchInv(w, e);
    case Go(ok) => AdvanceInv(w, ok);
    case Exit => ExitInv(w);
    case Close(k) => if Step(w, a) != w { ThenInv(w, CloseOp(w.slots[k], k, Stop)); }
    case Duplicate(o, n) =>
      if Step(w, a) != w {
        ThenInv(w, if w.slots[n].fd.NoFd? then DupData(o, n) else CloseOp(w.slots[n], n, Dup(o, n)));
      }
    case IsClosed(k) => if Step(w, a) != w { ThenInv(w, Check(k, w.runs[w.cur], None, None)); }
    case ReadFd => if op.Check? { ThenInv(w, op.(fds := Some(FdRefs(w.slots, w.slots[op.k].fd)))); }
    case ReadPipe => if op.Check? { ThenInv(w, op.(pipes := Some(PipeRefs(w.slots)))); }
  }

  // ---- The closed test ---------------------------------------------------------------------------------

  /** pageref(pipe) is at least pageref(read fd) + pageref(write fd). */
  lemma PipeCountsBoth(w: World)
    requires Inv(w)
    ensures PipeRefs(w.slots) >= FdRefs(w.slots, PipeFd(Rd)) + FdRefs(w.slots, PipeFd(Wr))
  {
    Balance(w.slots);
  }

  /** An end that is closed everywhere stays closed. */
  lemma GoneStep(w: World, a: Action, end: End)
    requires Inv(w) && Gone(w, end)
    ensures Gone(Step(w, a), end)
  {
  }

  ghost predicate Run(worlds: seq<World>, acts: seq<Action>) {
    && |worlds| == |acts| + 1
    && (forall i :: 0 <= i < |worlds| ==> Shape(worlds[i]))
    && (forall i :: 0 <= i < |acts| ==> worlds[i + 1] == Step(worlds[i], acts[i]))
  }

  lemma {:induction false} RunInv(worlds: seq<World>, acts: seq<Action>, n: nat)
    requires Run(worlds, acts) && Established(worlds[0]) && n <= |acts|
    ensures Inv(worlds[n])
  {
    if n > 0 {
      RunInv(worlds, acts, n - 1);
      StepInv(worlds[n - 1], acts[n - 1]);
    }
  }

  lemma {:induction false} RunGone(worlds: seq<World>, acts: seq<Action>, i: nat, n: nat, end: End)
    requires Run(worlds, acts) && Established(worlds[0]) && i <= n <= |acts| && Gone(worlds[i], end)
    ensures Gone(worlds[n], end)
  {
    if i < n {
      RunGone(worlds, acts, i, n - 1, end);
      RunInv(worlds, acts, n - 1);
      GoneStep(worlds[n - 1], acts[n - 1], end);
    }
  }

  /** Act i is the one by which the current environment's test answers. */
  ghost predicate Answers(worlds: seq<World>, acts: seq<Action>, i: nat)
    requires Run(worlds, acts) && i < |acts|
  {
    && acts[i].Go? && worlds[i].ops[worlds[i].cur].Check?
    && worlds[i + 1].cur == worlds[i].cur && worlds[i + 1].ops[worlds[i].cur].Answered?
  }

  /** In every interleaving of closes, dups, exits and tests: a test that answers "closed"
      means the other end is open nowhere, then and ever after. */
  lemma ClosedIsClosed(worlds: seq<World>, acts: seq<Action>, i: nat, n: nat)
    requires Run(worlds, acts) && Established(worlds[0]) && i < |acts| && i <= n <= |acts|
    requires Answers(worlds, acts, i) && worlds[i + 1].ops[worlds[i].cur].closed
    ensures var k := worlds[i].ops[worlds[i].cur].k;
            k < |worlds[i].slots| && worlds[i].slots[k].fd.PipeFd? && Gone(worlds[n], Other(worlds[i].slots[k].fd.end))
  {
    RunInv(worlds, acts, i);
    AnswerExact(worlds[i], acts[i].ok);
    var k := worlds[i].ops[worlds[i].cur].k;
    RunGone(worlds, acts, i, n, Other(worlds[i].slots[k].fd.end));
  }

  /** Once the other end is closed and no environment is inside close or dup, every test
      that answers says so. */
  lemma ClosedIsSeen(worlds: seq<World>, acts: seq<Action>, i: nat)
    requires Run(worlds, acts) && Established(worlds[0]) && i < |acts| && Answers(worlds, acts, i)
    requires forall e :: 0 <= e < |worlds[i].ops| ==> Ready(worlds[i].ops[e]) || worlds[i].ops[e].Check?
    ensures var k := worlds[i].ops[worlds[i].cur].k;
            && k < |worlds[i].slots| && worlds[i].slots[k].fd.PipeFd?
            && (worlds[i + 1].ops[worlds[i].cur].closed <==> Gone(worlds[i], Other(worlds[i].slots[k].fd.end)))
  {
    RunInv(worlds, acts, i);
    AnswerExact(worlds[i], acts[i].ok);
    var w := worlds[i];
    forall j | 0 <= j < |w.slots| ensures !Stray(w.slots[j]) {
      assert !InFlight(w.ops[Owner(j)], j);
    }
  }

  /** A test left undisturbed does answer. */
  lemma UndisturbedAnswers(w: World, ok: bool)
    requires Inv(w) && w.ops[w.cur].Check? && w.ops[w.cur].n == w.runs[w.cur]
    ensures var v := Step(Step(w, ReadFd), ReadPipe);
            Shape(v) && Step(v, Go(ok)).ops[w.cur].Answered?
  {
    assert OpOk(w, w.cur);
  }

  // ---- close and dup do their work ---------------------------------------------------------------------

  /** Other environments' steps leave an environment's descriptors and operation alone. */
  lemma OthersLeave(w: World, a: Action, e: nat)
    requires Inv(w) && e < |w.ops| && (w.cur != e || a.Switch?)
    ensures Step(w, a).ops[e] == w.ops[e] && |Step(w, a).slots| == |w.slots|
    ensures forall k: nat :: Mine(w, e, k) ==> Step(w, a).slots[k] == w.slots[k]
  {
    assert OpOk(w, w.cur);
  }

  /** Environment e is closing slot k, a pipe's; the next steps are the ones of its operation. */
  predicate Closing(w: World, e: nat, k: nat, after: After) {
    && Shape(w) && e < |w.ops| && Mine(w, e, k)
    && match w.ops[e]
       case CloseFd(j, a) => j == k && a == after
       case CloseData(j, a) => j == k && a == after && w.slots[k].fd.NoFd?
       case CloseAgain(j, a) => j == k && a == after && w.slots[k].data.NoData?
       case _ => false
  }

  /** The steps that a close has left. */
  function Left(op: Op): nat {
    match op
    case CloseFd(_, _) => 3
    case CloseData(_, _) => 2
    case CloseAgain(_, _) => 1
    case _ => 0
  }

  lemma ClosingStep(w: World, a: Action, e: nat, k: nat, after: After)
    requires Inv(w) && Closing(w, e, k, after)
    ensures var v := Step(w, a);
            if w.cur == e && a.Exit? then v.ops[e].Idle? && v.slots[k] == Slot(NoFd, NoData)
            else if w.cur == e && a.Go? && w.ops[e].CloseAgain? then
              && v.ops[e] == (if after.Dup? then DupData(after.from, after.to) else Idle)
              && v.slots == w.slots[k := Slot(NoFd, NoData)]
            else Closing(v, e, k, after) && (w.cur == e && a.Go? ==> Left(v.ops[e]) + 1 == Left(w.ops[e]))
  {
    if w.cur != e || a.Switch? {
      OthersLeave(w, a, e);
    }
  }

  /** Whatever else happens meanwhile, a close that returns has unmapped both pages of the descriptor. */
  lemma {:induction false} CloseCloses(worlds: seq<World>, acts: seq<Action>, i: nat, n: nat, e: nat, k: nat)
    requires Run(worlds, acts) && Established(worlds[0]) && i < n <= |acts| && worlds[i].cur == e
    requires acts[i] == Close(k) && Ready(worlds[i].ops[e]) && Mine(worlds[i], e, k) && worlds[i].slots[k].fd.PipeFd?
    requires forall m :: i < m < n ==> e < |worlds[m].ops| && !Ready(worlds[m].ops[e])
    ensures e < |worlds[n].ops| && k < |worlds[n].slots|
    ensures if Ready(worlds[n].ops[e]) then worlds[n].slots[k] == Slot(NoFd, NoData) else Closing(worlds[n], e, k, Stop)
    decreases n
  {
    RunInv(worlds, acts, n - 1);
    assert worlds[n] == Step(worlds[n - 1], acts[n - 1]);
    if i + 1 < n {
      CloseCloses(worlds, acts, i, n - 1, e, k);
      ClosingStep(worlds[n - 1], acts[n - 1], e, k, Stop);
    }
  }

  /** A dup in its second half: data is mapped before fd, and undone if either mapping fails. */
  predicate Duping(w: World, e: nat, from: nat, to: nat) {
    && Shape(w) && e < |w.ops| && Mine(w, e, from) && Mine(w, e, to)
    && match w.ops[e]
       case DupData(o, n) => o == from && n == to && w.slots[to] == Slot(NoFd, NoData)
       case DupFd(o, n) => o == from && n == to && w.slots[to] == Slot(NoFd, w.slots[from].data)
       case ErrFd(n) => n == to && w.slots[to].fd.NoFd?
       case ErrData(n) => n == to && w.slots[to].fd.NoFd?
       case _ => false
  }

  /** A dup that has returned: the descriptor is a second one for the same end, or there is none. */
  predicate Duped(w: World, from: nat, to: nat) {
    from < |w.slots| && to < |w.slots| && (w.slots[to] == w.slots[from] || w.slots[to] == Slot(NoFd, NoData))
  }

  lemma DupingStep(w: World, a: Action, e: nat, from: nat, to: nat)
    requires Inv(w) && Duping(w, e, from, to)
    ensures var v := Step(w, a);
            if Ready(v.ops[e]) then Duped(v, from, to)
            else
              && Duping(v, e, from, to)
              && (a != Go(false) && v.ops[e].ErrFd? ==> w.ops[e].ErrFd? || w.slots[from].fd.NoFd?)
    ensures w.cur == e && a == Go(true) && w.ops[e].DupFd? && !w.slots[from].fd.NoFd? ==>
              Step(w, a).ops[e].Idle? && Step(w, a).slots[to] == w.slots[from]
    ensures w.cur == e && a == Go(true) && w.ops[e].DupData? ==> Step(w, a).ops[e].DupFd?
  {
    assert OpOk(w, e);
    if w.cur != e || a.Switch? {
      OthersLeave(w, a, e);
    }
  }

  /** Whatever else happens meanwhile, a dup of a pipe descriptor that returns has made a second
      descriptor for it, or none. */
  lemma {:induction false} DupDuplicates(worlds: seq<World>, acts: seq<Action>, i: nat, n: nat, e: nat,
                                         from: nat, to: nat)
    requires Run(worlds, acts) && Established(worlds[0]) && i < n <= |acts| && worlds[i].cur == e
    requires acts[i] == Duplicate(from, to) && Ready(worlds[i].ops[e]) && Mine(worlds[i], e, from)
    requires Mine(worlds[i], e, to) && worlds[i].slots[from].fd.PipeFd?
    requires worlds[i].slots[to] == Slot(NoFd, NoData) || worlds[i].slots[to].fd.PipeFd?
    requires forall m :: i < m < n ==> e < |worlds[m].ops| && !Ready(worlds[m].ops[e])
    ensures e < |worlds[n].ops|
    ensures if Ready(worlds[n].ops[e]) then Duped(worlds[n], from, to)
            else Duping(worlds[n], e, from, to) || Closing(worlds[n], e, to, Dup(from, to))
    decreases n
  {
    RunInv(worlds, acts, n - 1);
    assert worlds[n] == Step(worlds[n - 1], acts[n - 1]);
    if i + 1 < n {
      DupDuplicates(worlds, acts, i, n - 1, e, from, to);
      var w, a := worlds[n - 1], acts[n - 1];
      if Duping(w, e, from, to) {
        DupingStep(w, a, e, from, to);
      } else {
        ClosingStep(w, a, e, to, Dup(from, to));
        assert OpOk(w, e);
      }
    }
  }
}
