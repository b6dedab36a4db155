/** End of file on a pipe (lib/pipe.c): devpipe_read tests for an empty pipe and then asks
    _pipeisclosed, and the writer may write and close in between.  The ring buffer and the
    descriptors that keep it open run side by side. */
module PipeEnd {
  import opened Common
  import Ring = PipeRing
  import Ends = PipeClose

  /** The pipe's data and who has it open; `reader` is the environment that reads. */
  datatype Joint = Joint(ring: Ring.Pipe, ends: Ends.World)

  datatype Event = Data(ev: Ring.Event) | Act(a: Ends.Action)

  /** A writer writes only through an open write end, and what a reader is told is the answer of its
      own last test of the read end. */
  ghost predicate Enabled(j: Joint, e: Event, reader: nat) {
    && |j.ring.buf| == Ring.SIZE && |Ring.Sent(j.ring)| < Ring.MAXPOS && Ends.Shape(j.ends) && reader < |j.ends.ops|
    && (e.Data? && (e.ev.WriteCall? || e.ev.WriteStep?) ==> !Ends.Gone(j.ends, Ends.Wr))
    && (e.Data? && e.ev.ReadStep? && j.ring.rd.pc.Ask? ==>
          var op := j.ends.ops[reader];
          && op.Answered? && op.closed == e.ev.closed && op.k < |j.ends.slots|
          && j.ends.slots[op.k].fd == Ends.PipeFd(Ends.Rd))
  }

  ghost function Step(j: Joint, e: Event, reader: nat): Joint
    requires Enabled(j, e, reader)
  {
    match e
    case Data(ev) => j.(ring := Ring.Step(j.ring, ev))
    case Act(a) => j.(ends := Ends.Step(j.ends, a))
  }

  ghost predicate Inv(j: Joint) {
    Ring.Inv(j.ring) && Ends.Inv(j.ends)
  }

  ghost predicate Happens(js: seq<Joint>, es: seq<Event>, reader: nat, i: nat)
    requires |js| == |es| + 1 && i < |es|
  {
    Enabled(js[i], es[i], reader) && js[i + 1] == Step(js[i], es[i], reader)
  }

  ghost predicate Run(js: seq<Joint>, es: seq<Event>, reader: nat) {
    && |js| == |es| + 1 && js[0].ring == Ring.Empty() && Ends.Established(js[0].ends)
    && forall i :: 0 <= i < |es| ==> Happens(js, es, reader, i)
  }

  lemma StepInv(j: Joint, e: Event, reader: nat)
    requires Inv(j) && Enabled(j, e, reader)
    ensures Inv(Step(j, e, reader))
    ensures Ends.Gone(j.ends, Ends.Wr) ==>
              Ends.Gone(Step(j, e, reader).ends, Ends.Wr) && Ring.Sent(Step(j, e, reader).ring) == Ring.Sent(j.ring)
  {
    match e
    case Data(ev) =>
      Ring.StepInv(j.ring, ev);
      if ev.ReadStep? {
        Ring.ReaderStep(j.ring, ev.closed);
      }
    case Act(a) =>
      Ends.StepInv(j.ends, a);
      if Ends.Gone(j.ends, Ends.Wr) {
        Ends.GoneStep(j.ends, a, Ends.Wr);
      }
  }

  lemma {:induction false} RunInv(js: seq<Joint>, es: seq<Event>, reader: nat, n: nat)
    requires Run(js, es, reader) && n <= |es|
    ensures Inv(js[n])
  {
    if n == 0 {
      Ring.EmptyInv();
      Ends.EstablishedInv(js[0].ends);
    } else {
      RunInv(js, es, reader, n - 1);
      assert Happens(js, es, reader, n - 1);
      StepInv(js[n - 1], es[n - 1], reader);
    }
  }

  /** Once the write end is closed everywhere no byte is ever added. */
  lemma {:induction false} NothingMore(js: seq<Joint>, es: seq<Event>, reader: nat, n: nat, m: nat)
    requires Run(js, es, reader) && n <= m <= |es| && Ends.Gone(js[n].ends, Ends.Wr)
    ensures Ends.Gone(js[m].ends, Ends.Wr) && Ring.Sent(js[m].ring) == Ring.Sent(js[n].ring)
  {
    if n < m {
      NothingMore(js, es, reader, n, m - 1);
      GoneFor(js, es, reader, m - 1);
    }
  }

  lemma GoneFor(js: seq<Joint>, es: seq<Event>, reader: nat, n: nat)
    requires Run(js, es, reader) && n < |es| && Ends.Gone(js[n].ends, Ends.Wr)
    ensures Ends.Gone(js[n + 1].ends, Ends.Wr) && Ring.Sent(js[n + 1].ring) == Ring.Sent(js[n].ring)
  {
    RunInv(js, es, reader, n);
    assert Happens(js, es, reader, n);
    StepInv(js[n], es[n], reader);
  }

  /** From the test at i that finds the pipe empty to the answer used at n the reader takes no step. */
  ghost predicate Asking(js: seq<Joint>, es: seq<Event>, reader: nat, i: nat, n: nat)
    requires Run(js, es, reader)
  {
    && i < n < |es|
    && js[i].ring.rd.pc.Test? && es[i].Data? && es[i].ev.ReadStep? && js[i + 1].ring.rd.pc.Ask?
    && forall m :: i < m < n ==> !(es[m].Data? && es[m].ev.ReadStep?)
  }

  lemma {:induction false} StillAsking(js: seq<Joint>, es: seq<Event>, reader: nat, i: nat, n: nat)
    requires Run(js, es, reader) && Asking(js, es, reader, i, n)
    ensures Inv(js[n]) && js[i].ring.rpos == js[i].ring.wpos <= js[n].ring.wpos
    ensures js[n].ring.rd == js[i + 1].ring.rd && js[n].ring.rpos == js[i].ring.rpos
  {
    RunInv(js, es, reader, i);
    RunInv(js, es, reader, n);
    assert Happens(js, es, reader, i);
    if i + 1 < n {
      StillAsking(js, es, reader, i, n - 1);
      assert Happens(js, es, reader, n - 1);
      var j, e := js[n - 1], es[n - 1];
      assert e.Data? ==> js[n].ring == Ring.Step(j.ring, e.ev);
    }
  }

  /** A read that returns 0 for end of file: the write end is closed everywhere and nothing will ever
      be added.  The reader has had every published byte exactly when none was published between its
      two tests; otherwise exactly those bytes are left unread. */
  lemma EndOfFile(js: seq<Joint>, es: seq<Event>, reader: nat, i: nat, n: nat, m: nat)
    requires Run(js, es, reader) && Asking(js, es, reader, i, n) && es[n] == Data(Ring.ReadStep(true)) && n <= m <= |es|
    ensures Ring.Inv(js[n].ring) && js[n + 1].ring.rd.pc.Idle?
    ensures Ring.Sent(js[m].ring) == Ring.Sent(js[n].ring)
    ensures Ring.Got(js[n].ring) == Ring.Published(js[n].ring) <==> js[n].ring.wpos == js[i].ring.wpos
    ensures |Ring.Published(js[n].ring)| - |Ring.Got(js[n].ring)| == js[n].ring.wpos - js[i].ring.wpos
  {
    StillAsking(js, es, reader, i, n);
    assert Happens(js, es, reader, n);
    assert js[n].ring.rd.pc.Ask?;
    var w, op := js[n].ends, js[n].ends.ops[reader];
    assert Ends.OpOk(w, reader) && op.closed;
    NothingMore(js, es, reader, n, m);
    Ring.EmptyMeansAllRead(js[n].ring);
  }

  // ---- The losing interleaving ------------------------------------------------------------------------

  /** Environment 0 has the read end open, and environment 1 the write end. */
  function BothOpen(): Ends.World {
    var none := Ends.Slot(Ends.NoFd, Ends.NoData);
    var slots := seq(64, k => none)[0 := Ends.Slot(Ends.PipeFd(Ends.Rd), Ends.PipeData)];
    Ends.World(slots[32 := Ends.Slot(Ends.PipeFd(Ends.Wr), Ends.PipeData)], [Ends.Idle, Ends.Idle], [0, 0], 0)
  }

  /** With only the read end left, each of its descriptors counts once for either page. */
  lemma EqualCounts(w: Ends.World)
    requires Ends.Backed(w.slots) && Ends.Gone(w, Ends.Wr) && forall k :: 0 <= k < |w.slots| ==> !Ends.Stray(w.slots[k])
    ensures Ends.FdRefs(w.slots, Ends.PipeFd(Ends.Rd)) == Ends.PipeRefs(w.slots)
  {
    Ends.Balance(w.slots);
    Ends.NoRefs(w.slots, Ends.PipeFd(Ends.Wr));
    Ends.NoStrays(w.slots);
  }

  /** The descriptors once the writer has exited. */
  function ReadEndOnly(): Ends.World {
    var none := Ends.Slot(Ends.NoFd, Ends.NoData);
    var slots := seq(64, k => none)[0 := Ends.Slot(Ends.PipeFd(Ends.Rd), Ends.PipeData)];
    Ends.World(slots, [Ends.Idle, Ends.Idle], [1, 1], 0)
  }

  lemma WriterExits() returns (w1: Ends.World, w2: Ends.World)
    ensures w1 == Ends.Step(BothOpen(), Ends.Switch(1)) && Ends.Shape(w1) && |w1.ops| == 2
    ensures w2 == Ends.Step(w1, Ends.Exit) && Ends.Shape(w2) && |w2.ops| == 2
    ensures Ends.Step(w2, Ends.Switch(0)) == ReadEndOnly()
  {
    w1 := Ends.Step(BothOpen(), Ends.Switch(1));
    w2 := Ends.Step(w1, Ends.Exit);
    assert w2.slots == ReadEndOnly().slots;
  }

  /** The reader's test then answers that the pipe is closed. */
  lemma ReaderAsks() returns (w4: Ends.World, w5: Ends.World, w6: Ends.World, w7: Ends.World)
    ensures w4 == Ends.Step(ReadEndOnly(), Ends.IsClosed(0)) && Ends.Shape(w4) && |w4.ops| == 2
    ensures w5 == Ends.Step(w4, Ends.ReadFd) && Ends.Shape(w5) && |w5.ops| == 2
    ensures w6 == Ends.Step(w5, Ends.ReadPipe) && Ends.Shape(w6) && |w6.ops| == 2
    ensures w7 == Ends.Step(w6, Ends.Go(true)) && Ends.Shape(w7) && w7.ops == [Ends.Answered(0, true), Ends.Idle]
    ensures w7.slots[0].fd == Ends.PipeFd(Ends.Rd)
  {
    var w3 := ReadEndOnly();
    EqualCounts(w3);
    var refs := Ends.PipeRefs(w3.slots);
    w4 := w3.(ops := [Ends.Check(0, 1, None, None), Ends.Idle]);
    w5 := w3.(ops := [Ends.Check(0, 1, Some(refs), None), Ends.Idle]);
    w6 := w3.(ops := [Ends.Check(0, 1, Some(refs), Some(refs)), Ends.Idle]);
    w7 := w3.(ops := [Ends.Answered(0, true), Ends.Idle]);
  }

  lemma WriterLeaves() returns (ws: seq<Ends.World>, acts: seq<Ends.Action>)
    ensures |ws| == 8 && |acts| == 7 && ws[0] == BothOpen()
    ensures forall i :: 0 <= i < 7 ==> Ends.Shape(ws[i]) && |ws[i].ops| == 2 && ws[i + 1] == Ends.Step(ws[i], acts[i])
    ensures Ends.Shape(ws[7]) && ws[7].ops == [Ends.Answered(0, true), Ends.Idle]
    ensures ws[7].slots[0].fd == Ends.PipeFd(Ends.Rd)
  {
    acts := [Ends.Switch(1), Ends.Exit, Ends.Switch(0), Ends.IsClosed(0), Ends.ReadFd, Ends.ReadPipe, Ends.Go(true)];
    var w1, w2 := WriterExits();
    var w4, w5, w6, w7 := ReaderAsks();
    ws := [BothOpen(), w1, w2, ReadEndOnly(), w4, w5, w6, w7];
  }

  /** The reader finds the pipe empty, and then the writer publishes a byte. */
  lemma BytePublished() returns (ps: seq<Ring.Pipe>, es: seq<Ring.Event>)
    ensures |ps| == 7 && |es| == 6 && ps[0] == Ring.Empty() && ps[1].rd.pc.Test? && es[1] == Ring.ReadStep(false)
    ensures forall i :: 0 <= i < 6 ==>
              && |ps[i].buf| == Ring.SIZE && |Ring.Sent(ps[i])| < Ring.MAXPOS && ps[i + 1] == Ring.Step(ps[i], es[i])
              && (es[i].ReadStep? ==> i == 1 && !ps[i].rd.pc.Ask?)
    ensures ps[2].rd.pc.Ask? && ps[6].rd == ps[2].rd && |ps[6].buf| == Ring.SIZE
    ensures Ring.Got(ps[6]) == [] && Ring.Sent(ps[6]) == [7] && ps[6].wpos == 1
  {
    es := [Ring.ReadCall(1), Ring.ReadStep(false), Ring.WriteCall([7]), Ring.WriteStep(false),
           Ring.WriteStep(false), Ring.WriteStep(false)];
    var p0 := Ring.Empty();
    var p1 := p0.(rd := Ring.Reader(Ring.Test, 1, [], [], 0));
    var p2 := p1.(rd := p1.rd.(pc := Ring.Ask));
    var p3 := p2.(wr := Ring.Writer(Ring.Test, [7], 0, [], 0));
    var p4 := p3.(wr := p3.wr.(pc := Ring.Access));
    var p5 := p4.(buf := p4.buf[0 := 7], wr := p3.wr.(pc := Ring.Advance));
    var p6 := p5.(wpos := 1, wr := Ring.Writer(Ring.Test, [7], 1, [], 0));
    assert Ring.Step(p0, es[0]) == p1 && Ring.Step(p1, es[1]) == p2 && Ring.Step(p2, es[2]) == p3;
    assert Ring.Step(p3, es[3]) == p4 && Ring.Step(p4, es[4]) == p5 && Ring.Step(p5, es[5]) == p6;
    assert p6.wr.data[..1] == [7];
    ps := [p0, p1, p2, p3, p4, p5, p6];
  }

  /** A run in which a read returns 0 for end of file with a byte of the pipe unread: the writer writes
      and exits between the reader's two tests. */
  lemma ByteLeftUnread() returns (js: seq<Joint>, es: seq<Event>)
    ensures |es| == 14 && Run(js, es, 0) && Asking(js, es, 0, 1, 13) && es[13] == Data(Ring.ReadStep(true))
    ensures js[14].ring.rd.pc.Idle? && Ring.Got(js[14].ring) == [] && Ring.Sent(js[14].ring) == [7]
  {
    var ps, evs := BytePublished();
    var ws, acts := WriterLeaves();
    var last := Ring.Step(ps[6], Ring.ReadStep(true));
    js := seq(14, i requires 0 <= i < 14 =>
                if i <= 6 then Joint(ps[i], ws[0]) else Joint(ps[6], ws[i - 6])) + [Joint(last, ws[7])];
    es := seq(13, i requires 0 <= i < 13 => if i < 6 then Data(evs[i]) else Act(acts[i - 6]))
      + [Data(Ring.ReadStep(true))];
    assert ws[0].slots[32].fd == Ends.PipeFd(Ends.Wr);
    forall i | 0 <= i < 14 ensures Happens(js, es, 0, i) {
      if i < 6 {
        assert js[i] == Joint(ps[i], ws[0]) && js[i + 1] == Joint(ps[i + 1], ws[0]) && es[i] == Data(evs[i]);
      } else if i < 13 {
        assert js[i] == Joint(ps[6], ws[i - 6]) && js[i + 1] == Joint(ps[6], ws[i - 5]) && es[i] == Act(acts[i - 6]);
      } else {
        assert js[i] == Joint(ps[6], ws[7]);
      }
    }
  }
}
