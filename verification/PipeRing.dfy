/** The pipe's ring buffer (lib/pipe.c): one reader and one writer share p_rpos, p_wpos and
    p_buf without a lock.  Steps are a test, a byte access or a position increment. */
module PipeRing {
  import opened EnvTable

  const SIZE: nat := 32
  const MAXPOS: nat := 0x8000_0000     // off_t positions stay below this

  /** Ask: the pipe was found empty, or full, and _pipeisclosed is yet to answer. */
  datatype Pc = Idle | Test | Ask | Access | Advance

  /** A devpipe_read in progress: `buf` is filled so far, `past` what earlier calls took, and `ret` what
      the last one returned. */
  datatype Reader = Reader(pc: Pc, n: nat, buf: seq<int>, past: seq<int>, ret: nat)

  /** A devpipe_write in progress: data[..i] is in the pipe, `past` is from earlier calls. */
  datatype Writer = Writer(pc: Pc, data: seq<int>, i: nat, past: seq<int>, ret: nat)

  datatype Pipe = Pipe(rpos: int, wpos: int, buf: seq<int>, rd: Reader, wr: Writer)

  datatype Event =
    | ReadCall(n: nat)
    | WriteCall(data: seq<int>)
    | ReadStep(closed: bool)      // closed: what _pipeisclosed answers, if it is asked
    | WriteStep(closed: bool)

  /** Conversion of an off_t to size_t. */
  function Unsigned(x: int): int {
    x % 0x1_0000_0000
  }

  /** C's remainder by the buffer size: truncating, so negative below zero. */
  function Rem(x: int): int {
    if x >= 0 then x % 32 else -((-x) % 32)
  }

  function Index(x: int): (k: nat)
    ensures k < SIZE
  {
    if 0 <= Rem(x) < 32 then Rem(x) else 0
  }

  function ReadReturns(p: Pipe, ret: nat): Pipe {
    p.(rd := Reader(Idle, 0, [], p.rd.past + p.rd.buf, ret))
  }

  function WriteReturns(p: Pipe, ret: nat): Pipe {
    p.(wr := Writer(Idle, [], 0, p.wr.past + p.wr.data[..if p.wr.i <= |p.wr.data| then p.wr.i else 0], ret))
  }

  function StepReader(p: Pipe, closed: bool): Pipe
    requires |p.buf| == SIZE
  {
    match p.rd.pc
    case Idle => p
    case Test =>
      if |p.rd.buf| >= p.rd.n then ReadReturns(p, |p.rd.buf|)
      else if p.rpos == p.wpos then
        if |p.rd.buf| > 0 then ReadReturns(p, |p.rd.buf|) else p.(rd := p.rd.(pc := Ask))
      else p.(rd := p.rd.(pc := Access))
    case Ask => if closed then ReadReturns(p, 0) else p.(rd := p.rd.(pc := Test))
    case Access => p.(rd := p.rd.(pc := Advance, buf := p.rd.buf + [p.buf[Index(p.rpos)]]))
    case Advance => p.(rpos := Int32(p.rpos + 1), rd := p.rd.(pc := Test))
  }

  function StepWriter(p: Pipe, closed: bool): Pipe
    requires |p.buf| == SIZE
  {
    match p.wr.pc
    case Idle => p
    case Test =>
      if p.wr.i >= |p.wr.data| then WriteReturns(p, p.wr.i)
      else if Unsigned(p.wpos) >= Unsigned(Unsigned(p.rpos) + SIZE) then p.(wr := p.wr.(pc := Ask))
      else p.(wr := p.wr.(pc := Access))
    case Ask => if closed then WriteReturns(p, 0) else p.(wr := p.wr.(pc := Test))
    case Access =>
      if p.wr.i < |p.wr.data|
      then p.(buf := p.buf[Index(p.wpos) := p.wr.data[p.wr.i]], wr := p.wr.(pc := Advance))
      else p
    case Advance => p.(wpos := Int32(p.wpos + 1), wr := p.wr.(pc := Test, i := p.wr.i + 1))
  }

  function Step(p: Pipe, ev: Event): Pipe
    requires |p.buf| == SIZE
  {
    match ev
    case ReadCall(n) => if p.rd.pc.Idle? then p.(rd := Reader(Test, n, [], p.rd.past, p.rd.ret)) else p
    case WriteCall(data) => if p.wr.pc.Idle? then p.(wr := Writer(Test, data, 0, p.wr.past, p.wr.ret)) else p
    case ReadStep(closed) => StepReader(p, closed)
    case WriteStep(closed) => StepWriter(p, closed)
  }

  // ---- What went in and what came out --------------------------------------------------------------

  /** Every byte stored so far, in order. */
  function Sent(p: Pipe): seq<int> {
    var k := p.wr.i + if p.wr.pc.Advance? then 1 else 0;
    p.wr.past + p.wr.data[..if k <= |p.wr.data| then k else 0]
  }

  /** Every byte taken so far, in order. */
  function Got(p: Pipe): seq<int> {
    p.rd.past + p.rd.buf
  }

  ghost predicate Shape(p: Pipe) {
    && |p.buf| == SIZE
    && (p.rd.pc.Idle? ==> p.rd.buf == []) && (p.wr.pc.Idle? ==> p.wr.data == [] && p.wr.i == 0)
    && p.wr.i <= |p.wr.data| && ((p.wr.pc.Access? || p.wr.pc.Advance?) ==> p.wr.i < |p.wr.data|)
    && (p.rd.pc.Access? ==> |p.rd.buf| < p.rd.n)
    && (p.rd.pc.Ask? ==> p.rd.buf == [] && p.rd.n > 0)
    && (p.rd.pc.Advance? ==> 0 < |p.rd.buf|)
  }

  ghost predicate Positions(p: Pipe) {
    && 0 <= p.rpos <= p.wpos <= p.rpos + SIZE && p.wpos < MAXPOS
    && |Sent(p)| == p.wpos + (if p.wr.pc.Advance? then 1 else 0)
    && |Got(p)| == p.rpos + (if p.rd.pc.Advance? then 1 else 0)
    && ((p.rd.pc.Access? || p.rd.pc.Advance?) ==> p.rpos < p.wpos)
    && ((p.wr.pc.Access? || p.wr.pc.Advance?) ==> p.wpos < p.rpos + SIZE)
  }

  ghost predicate Inv(p: Pipe) {
    && Shape(p) && Positions(p)
    && (forall j :: p.rpos <= j < |Sent(p)| ==> p.buf[Index(j)] == Sent(p)[j])
    && Got(p) <= Sent(p)
  }

  function Empty(): Pipe {
    Pipe(0, 0, seq(SIZE, _ => 0), Reader(Idle, 0, [], [], 0), Writer(Idle, [], 0, [], 0))
  }

  lemma EmptyInv()
    ensures Inv(Empty())
  {
  }

  lemma Apart(i: nat, j: nat)
    requires i < j < i + 32
    ensures Index(i) != Index(j)
  {
  }

  lemma TakeStep(p: Pipe)
    requires Inv(p) && p.rd.pc.Access?
    ensures Got(StepReader(p, false)) == Got(p) + [Sent(p)[|Got(p)|]] && Inv(StepReader(p, false))
  {
    assert p.buf[Index(p.rpos)] == Sent(p)[p.rpos];
    assert Got(StepReader(p, false)) == Got(p) + [p.buf[Index(p.rpos)]];
    assert Got(StepReader(p, false)) == Sent(p)[..p.rpos + 1];
  }

  lemma ReaderMoves(p: Pipe, closed: bool)
    requires Inv(p) && (p.rd.pc.Idle? || p.rd.pc.Test? || p.rd.pc.Ask?)
    ensures Got(StepReader(p, closed)) == Got(p) && Inv(StepReader(p, closed))
  {
    assert p.rd.past + p.rd.buf + [] == p.rd.past + p.rd.buf;
  }

  lemma ReaderAdvances(p: Pipe)
    requires Inv(p) && p.rd.pc.Advance?
    ensures Got(StepReader(p, false)) == Got(p) && Inv(StepReader(p, false))
  {
  }

  lemma ReaderStep(p: Pipe, closed: bool)
    requires Inv(p)
    ensures Inv(StepReader(p, closed)) && Sent(StepReader(p, closed)) == Sent(p) && Got(p) <= Got(StepReader(p, closed))
  {
    if p.rd.pc.Access? {
      TakeStep(p);
    } else if p.rd.pc.Advance? {
      ReaderAdvances(p);
    } else {
      ReaderMoves(p, closed);
    }
  }

  lemma StoreStep(p: Pipe)
    requires Inv(p) && p.wr.pc.Access?
    ensures Sent(StepWriter(p, false)) == Sent(p) + [p.wr.data[p.wr.i]] && Inv(StepWriter(p, false))
  {
    var q := StepWriter(p, false);
    assert p.wr.data[..p.wr.i + 1] == p.wr.data[..p.wr.i] + [p.wr.data[p.wr.i]];
    forall j | q.rpos <= j < |Sent(q)| ensures q.buf[Index(j)] == Sent(q)[j] {
      if j < p.wpos { Apart(j, p.wpos); }
    }
  }

  lemma WriterMoves(p: Pipe, closed: bool)
    requires Inv(p) && (p.wr.pc.Idle? || p.wr.pc.Test? || p.wr.pc.Ask?)
    ensures Sent(StepWriter(p, closed)) == Sent(p) && Inv(StepWriter(p, closed))
  {
    assert p.wr.past + p.wr.data[..p.wr.i] + [] == p.wr.past + p.wr.data[..p.wr.i];
  }

  lemma WriterAdvances(p: Pipe)
    requires Inv(p) && p.wr.pc.Advance? && p.wpos + 1 < MAXPOS
    ensures Sent(StepWriter(p, false)) == Sent(p) && Inv(StepWriter(p, false))
  {
  }

  lemma WriterStep(p: Pipe, closed: bool)
    requires Inv(p) && (p.wr.pc.Advance? ==> p.wpos + 1 < MAXPOS)
    ensures Inv(StepWriter(p, closed)) && Got(StepWriter(p, closed)) == Got(p) && Sent(p) <= Sent(StepWriter(p, closed))
  {
    if p.wr.pc.Access? {
      StoreStep(p);
    } else if p.wr.pc.Advance? {
      WriterAdvances(p);
    } else {
      WriterMoves(p, closed);
    }
  }

  /** Every step keeps the invariant and only ever appends, while positions fit an off_t. */
  lemma StepInv(p: Pipe, ev: Event)
    requires Inv(p) && |Sent(p)| < MAXPOS
    ensures Inv(Step(p, ev)) && Sent(p) <= Sent(Step(p, ev)) && Got(p) <= Got(Step(p, ev))
  {
    match ev
    case ReadCall(n) => assert Got(Step(p, ev)) == Got(p);
    case WriteCall(data) => assert Sent(Step(p, ev)) == Sent(p);
    case ReadStep(closed) => ReaderStep(p, closed);
    case WriteStep(closed) => WriterStep(p, closed);
  }

  ghost predicate Happens(pipes: seq<Pipe>, events: seq<Event>, i: nat)
    requires |pipes| == |events| + 1 && i < |events|
  {
    |pipes[i].buf| == SIZE && |Sent(pipes[i])| < MAXPOS && pipes[i + 1] == Step(pipes[i], events[i])
  }

  ghost predicate Run(pipes: seq<Pipe>, events: seq<Event>) {
    |pipes| == |events| + 1 && forall i :: 0 <= i < |events| ==> Happens(pipes, events, i)
  }

  /** First in, first out: in every interleaving of fewer than 2^31 bytes the bytes read are
      a prefix of the bytes written, and what lies between them is in the buffer, in order. */
  lemma {:induction false} Fifo(pipes: seq<Pipe>, events: seq<Event>, n: nat)
    requires Run(pipes, events) && pipes[0] == Empty() && n <= |events|
    ensures Inv(pipes[n])
    ensures 0 <= pipes[n].wpos - pipes[n].rpos <= SIZE
    ensures Got(pipes[n]) <= Sent(pipes[n])
    ensures forall j :: pipes[n].rpos <= j < pipes[n].wpos ==> pipes[n].buf[Index(j)] == Sent(pipes[n])[j]
  {
    if n == 0 {
      EmptyInv();
    } else {
      Fifo(pipes, events, n - 1);
      assert Happens(pipes, events, n - 1);
      StepInv(pipes[n - 1], events[n - 1]);
    }
  }

  /** A read call gives its caller the bytes that follow those of all earlier calls. */
  lemma ReadGetsNext(p: Pipe)
    requires Inv(p)
    ensures |p.rd.past| + |p.rd.buf| <= |Sent(p)|
    ensures p.rd.buf == Sent(p)[|p.rd.past|..|p.rd.past| + |p.rd.buf|]
  {
    assert p.rd.buf == Got(p)[|p.rd.past|..];
  }

  /** Every byte whose position the writer has published. */
  function Published(p: Pipe): seq<int>
    requires 0 <= p.wpos <= |Sent(p)|
  {
    Sent(p)[..p.wpos]
  }

  /** A reader that finds the pipe empty has read every byte whose position has been published. */
  lemma EmptyMeansAllRead(p: Pipe)
    requires Inv(p) && !p.rd.pc.Advance?
    ensures Got(p) == Published(p) <==> p.rpos == p.wpos
  {
  }

  // ---- What a call gets ------------------------------------------------------------------------------

  /** The call at i asks for n bytes and returns with the step at j. */
  ghost predicate ReadOf(pipes: seq<Pipe>, events: seq<Event>, i: nat, j: nat, n: nat)
    requires |pipes| == |events| + 1
  {
    && i < j < |events| && pipes[i].rd.pc.Idle? && events[i] == ReadCall(n)
    && (forall m :: i < m <= j ==> !pipes[m].rd.pc.Idle?) && pipes[j + 1].rd.pc.Idle?
  }

  lemma ReadGoesOn(p: Pipe, ev: Event)
    requires Inv(p) && !p.rd.pc.Idle? && |p.rd.buf| <= p.rd.n && !Step(p, ev).rd.pc.Idle?
    ensures var q := Step(p, ev); q.rd.n == p.rd.n && q.rd.past == p.rd.past && |q.rd.buf| <= q.rd.n
  {
  }

  lemma ReadStarts(p: Pipe, n: nat)
    requires Inv(p) && p.rd.pc.Idle?
    ensures Step(p, ReadCall(n)).rd == Reader(Test, n, [], Got(p), p.rd.ret)
  {
    assert p.rd.past == p.rd.past + p.rd.buf;
  }

  lemma {:induction false} ReadUnderWay(pipes: seq<Pipe>, events: seq<Event>, i: nat, j: nat, n: nat, m: nat)
    requires Run(pipes, events) && pipes[0] == Empty() && ReadOf(pipes, events, i, j, n) && i < m <= j
    ensures Inv(pipes[m]) && pipes[m].rd.n == n && pipes[m].rd.past == Got(pipes[i]) && |pipes[m].rd.buf| <= n
  {
    Fifo(pipes, events, i);
    Fifo(pipes, events, m);
    if i + 1 < m {
      ReadUnderWay(pipes, events, i, j, n, m - 1);
      assert Happens(pipes, events, m - 1);
      ReadGoesOn(pipes[m - 1], events[m - 1]);
    } else {
      assert Happens(pipes, events, i);
      ReadStarts(pipes[i], n);
    }
  }

  lemma ReadEnds(p: Pipe, ev: Event)
    requires Inv(p) && |p.rd.buf| <= p.rd.n && !p.rd.pc.Idle? && Step(p, ev).rd.pc.Idle?
    ensures Got(Step(p, ev)) == p.rd.past + p.rd.buf && Step(p, ev).rd.ret == |p.rd.buf|
    ensures || |p.rd.buf| == p.rd.n
            || (p.rd.buf != [] && p.rpos == p.wpos)
            || (p.rd.buf == [] && p.rd.pc.Ask? && ev == ReadStep(true))
  {
  }

  /** What a read call returns, in every interleaving: the next bytes of the pipe, as many as it says;
      all n it asked for, or at least one if it then finds the pipe empty, or none if _pipeisclosed
      has answered true. */
  lemma ReadDelivers(pipes: seq<Pipe>, events: seq<Event>, i: nat, j: nat, n: nat)
    requires Run(pipes, events) && pipes[0] == Empty() && ReadOf(pipes, events, i, j, n)
    ensures var was, now := Got(pipes[i]), Got(pipes[j + 1]);
            var k := |now| - |was|;
            && 0 <= k <= n && was <= now <= Sent(pipes[j + 1]) && pipes[j + 1].rd.ret == k
            && (|| k == n
                || (k > 0 && pipes[j].rpos == pipes[j].wpos)
                || (k == 0 && pipes[j].rd.pc.Ask? && events[j] == ReadStep(true)))
  {
    Fifo(pipes, events, j + 1);
    ReadUnderWay(pipes, events, i, j, n, j);
    assert Happens(pipes, events, j);
    ReadEnds(pipes[j], events[j]);
  }

  /** The call at i has these bytes to write and returns with the step at j. */
  ghost predicate WriteOf(pipes: seq<Pipe>, events: seq<Event>, i: nat, j: nat, data: seq<int>)
    requires |pipes| == |events| + 1
  {
    && i < j < |events| && pipes[i].wr.pc.Idle? && events[i] == WriteCall(data)
    && (forall m :: i < m <= j ==> !pipes[m].wr.pc.Idle?) && pipes[j + 1].wr.pc.Idle?
  }

  lemma WriteGoesOn(p: Pipe, ev: Event)
    requires Inv(p) && !p.wr.pc.Idle? && !Step(p, ev).wr.pc.Idle?
    ensures var q := Step(p, ev); q.wr.data == p.wr.data && q.wr.past == p.wr.past
  {
  }

  lemma WriteStarts(p: Pipe, data: seq<int>)
    requires Inv(p) && p.wr.pc.Idle?
    ensures Step(p, WriteCall(data)).wr == Writer(Test, data, 0, Sent(p), p.wr.ret)
  {
    assert p.wr.past == Sent(p);
  }

  lemma {:induction false} WriteUnderWay(pipes: seq<Pipe>, events: seq<Event>, i: nat, j: nat, data: seq<int>, m: nat)
    requires Run(pipes, events) && pipes[0] == Empty() && WriteOf(pipes, events, i, j, data) && i < m <= j
    ensures Inv(pipes[m]) && pipes[m].wr.data == data && pipes[m].wr.past == Sent(pipes[i])
  {
    Fifo(pipes, events, i);
    Fifo(pipes, events, m);
    if i + 1 < m {
      WriteUnderWay(pipes, events, i, j, data, m - 1);
      assert Happens(pipes, events, m - 1);
      WriteGoesOn(pipes[m - 1], events[m - 1]);
    } else {
      assert Happens(pipes, events, i);
      WriteStarts(pipes[i], data);
    }
  }

  lemma WriteEnds(p: Pipe, ev: Event)
    requires Inv(p) && !p.wr.pc.Idle? && Step(p, ev).wr.pc.Idle?
    ensures Sent(Step(p, ev)) == p.wr.past + p.wr.data[..p.wr.i]
    ensures || (p.wr.i == |p.wr.data| && Step(p, ev).wr.ret == p.wr.i)
            || (Step(p, ev).wr.ret == 0 && p.wr.pc.Ask? && ev == WriteStep(true))
  {
    assert Step(p, ev) == StepWriter(p, ev.closed);
    WriterMoves(p, ev.closed);
  }

  /** What a write call has stored when it returns: all its bytes, after those of earlier calls, and it
      says so; or fewer, if _pipeisclosed has answered true, and then it returns 0. */
  lemma WriteStores(pipes: seq<Pipe>, events: seq<Event>, i: nat, j: nat, data: seq<int>)
    requires Run(pipes, events) && pipes[0] == Empty() && WriteOf(pipes, events, i, j, data)
    ensures var was, now := Sent(pipes[i]), Sent(pipes[j + 1]);
            var k := |now| - |was|;
            && 0 <= k <= |data| && now == was + data[..k]
            && (|| (k == |data| && pipes[j + 1].wr.ret == k)
                || (pipes[j + 1].wr.ret == 0 && pipes[j].wr.pc.Ask? && events[j] == WriteStep(true)))
  {
    WriteUnderWay(pipes, events, i, j, data, j);
    assert Happens(pipes, events, j);
    WriteEnds(pipes[j], events[j]);
  }

  // ---- Progress ------------------------------------------------------------------------------------------

  /** The reader's next step after the one at i is the one at j. */
  ghost predicate NextRead(events: seq<Event>, i: nat, j: nat) {
    && i < j < |events| && events[i].ReadStep? && events[j].ReadStep?
    && forall m :: i < m < j ==> !events[m].ReadStep?
  }

  lemma {:induction false} ReaderStill(pipes: seq<Pipe>, events: seq<Event>, i: nat, j: nat)
    requires Run(pipes, events) && pipes[0] == Empty() && i <= j <= |events| && !pipes[i].rd.pc.Idle?
    requires forall m :: i <= m < j ==> !events[m].ReadStep?
    ensures pipes[j].rd == pipes[i].rd && pipes[j].rpos == pipes[i].rpos && pipes[j].wpos >= pipes[i].wpos
    ensures Inv(pipes[j]) && Sent(pipes[i]) <= Sent(pipes[j])
  {
    Fifo(pipes, events, i);
    if i < j {
      ReaderStill(pipes, events, i, j - 1);
      assert Happens(pipes, events, j - 1);
      StepInv(pipes[j - 1], events[j - 1]);
      WposGrows(pipes[j - 1], events[j - 1]);
    }
  }

  lemma WposGrows(p: Pipe, ev: Event)
    requires Inv(p) && |Sent(p)| < MAXPOS
    ensures Step(p, ev).wpos >= p.wpos && (!ev.WriteStep? || !p.wr.pc.Advance? ==> Step(p, ev).wpos == p.wpos)
  {
  }

  lemma ByteSeen(p: Pipe, closed: bool)
    requires Inv(p) && p.rd.pc.Test? && |p.rd.buf| < p.rd.n && p.rpos != p.wpos
    ensures StepReader(p, closed) == p.(rd := p.rd.(pc := Access)) && |Got(p)| == p.rpos < p.wpos <= |Sent(p)|
  {
  }

  lemma PositionMoves(p: Pipe, closed: bool)
    requires Inv(p) && p.rd.pc.Advance?
    ensures var q := StepReader(p, closed); Got(q) == Got(p) && q.rpos == p.rpos + 1 && q.rd.pc.Test?
  {
  }

  /** A reader with room left that finds the pipe not empty takes exactly the next byte with its next
      two steps, whatever the writer does in between. */
  lemma ReaderTakes(pipes: seq<Pipe>, events: seq<Event>, i: nat, j: nat, k: nat)
    requires Run(pipes, events) && pipes[0] == Empty() && NextRead(events, i, j) && NextRead(events, j, k)
    requires pipes[i].rd.pc.Test? && |pipes[i].rd.buf| < pipes[i].rd.n && pipes[i].rpos != pipes[i].wpos
    ensures |Got(pipes[i])| < |Sent(pipes[i])|
    ensures Got(pipes[k + 1]) == Got(pipes[i]) + [Sent(pipes[i])[|Got(pipes[i])|]]
    ensures pipes[k + 1].rpos == pipes[i].rpos + 1 && pipes[k + 1].rd.pc.Test?
  {
    Fifo(pipes, events, i);
    assert Happens(pipes, events, i) && Happens(pipes, events, j) && Happens(pipes, events, k);
    ByteSeen(pipes[i], events[i].closed);
    ReaderStill(pipes, events, i + 1, j);
    var p := pipes[j];
    assert Got(p) == Got(pipes[i]) && Sent(pipes[i]) <= Sent(p);
    TakeStep(p);
    assert pipes[j + 1] == StepReader(p, false);
    ReaderStill(pipes, events, j + 1, k);
    assert Got(pipes[k]) == Got(pipes[j + 1]);
    PositionMoves(pipes[k], events[k].closed);
  }

  /** A reader that finds the pipe empty before it has any byte asks, and after the answer false it
      tests again. */
  lemma ReaderRetries(pipes: seq<Pipe>, events: seq<Event>, i: nat, j: nat)
    requires Run(pipes, events) && pipes[0] == Empty() && NextRead(events, i, j) && !events[j].closed
    requires pipes[i].rd.pc.Test? && pipes[i].rd.buf == [] && pipes[i].rd.n > 0 && pipes[i].rpos == pipes[i].wpos
    ensures pipes[j].rd.pc.Ask? && pipes[j + 1].rd == pipes[i].rd && pipes[j + 1].rpos == pipes[i].rpos
  {
    assert Happens(pipes, events, i);
    ReaderStill(pipes, events, i + 1, j);
    assert Happens(pipes, events, j);
  }

  /** The writer's next step after the one at i is the one at j. */
  ghost predicate NextWrite(events: seq<Event>, i: nat, j: nat) {
    && i < j < |events| && events[i].WriteStep? && events[j].WriteStep?
    && forall m :: i < m < j ==> !events[m].WriteStep?
  }

  lemma {:induction false} WriterStill(pipes: seq<Pipe>, events: seq<Event>, i: nat, j: nat)
    requires Run(pipes, events) && pipes[0] == Empty() && i <= j <= |events| && !pipes[i].wr.pc.Idle?
    requires forall m :: i <= m < j ==> !events[m].WriteStep?
    ensures pipes[j].wr == pipes[i].wr && pipes[j].wpos == pipes[i].wpos && Inv(pipes[j])
  {
    Fifo(pipes, events, i);
    if i < j {
      WriterStill(pipes, events, i, j - 1);
      assert Happens(pipes, events, j - 1);
      StepInv(pipes[j - 1], events[j - 1]);
    }
  }

  lemma RoomSeen(p: Pipe, closed: bool)
    requires Inv(p) && p.wr.pc.Test? && p.wr.i < |p.wr.data|
    ensures StepWriter(p, closed) == p.(wr := p.wr.(pc := if p.wpos - p.rpos < 32 then Access else Ask))
  {
  }

  /** A writer with data left that finds fewer than 32 bytes in the pipe stores exactly its next byte
      with its next two steps. */
  lemma WriterStores(pipes: seq<Pipe>, events: seq<Event>, i: nat, j: nat, k: nat)
    requires Run(pipes, events) && pipes[0] == Empty() && NextWrite(events, i, j) && NextWrite(events, j, k)
    requires pipes[i].wr.pc.Test? && pipes[i].wr.i < |pipes[i].wr.data| && pipes[i].wpos - pipes[i].rpos < 32
    ensures Sent(pipes[k + 1]) == Sent(pipes[i]) + [pipes[i].wr.data[pipes[i].wr.i]]
    ensures pipes[k + 1].wpos == pipes[i].wpos + 1 && pipes[k + 1].wr.pc.Test?
  {
    Fifo(pipes, events, i);
    assert Happens(pipes, events, i);
    RoomSeen(pipes[i], events[i].closed);
    WriterStill(pipes, events, i + 1, j);
    assert Happens(pipes, events, j) && Happens(pipes, events, k);
    StoreStep(pipes[j]);
    WriterStill(pipes, events, j + 1, k);
    SameSent(pipes[i], pipes[j]);
    SameSent(pipes[j + 1], pipes[k]);
    WriterAdvances(pipes[k]);
    Published1(pipes[k], events[k].closed);
  }

  lemma SameSent(p: Pipe, q: Pipe)
    requires q.wr == p.wr || (p.wr.pc.Test? && q.wr == p.wr.(pc := Access))
    ensures Sent(q) == Sent(p)
  {
  }

  lemma Published1(p: Pipe, closed: bool)
    requires Inv(p) && p.wr.pc.Advance? && p.wpos + 1 < MAXPOS
    ensures StepWriter(p, closed) == StepWriter(p, false)
    ensures StepWriter(p, closed).wpos == p.wpos + 1 && StepWriter(p, closed).wr.pc.Test?
  {
  }

  /** A writer that finds 32 bytes in the pipe asks, and after the answer false it tests again. */
  lemma WriterRetries(pipes: seq<Pipe>, events: seq<Event>, i: nat, j: nat)
    requires Run(pipes, events) && pipes[0] == Empty() && NextWrite(events, i, j) && !events[j].closed
    requires pipes[i].wr.pc.Test? && pipes[i].wr.i < |pipes[i].wr.data| && pipes[i].wpos - pipes[i].rpos == 32
    ensures pipes[j].wr.pc.Ask? && pipes[j + 1].wr == pipes[i].wr && pipes[j + 1].wpos == pipes[i].wpos
  {
    Fifo(pipes, events, i);
    assert Happens(pipes, events, i);
    RoomSeen(pipes[i], events[i].closed);
    WriterStill(pipes, events, i + 1, j);
    assert Happens(pipes, events, j);
  }
}
