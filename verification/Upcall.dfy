/** User-level page-fault upcalls: page_fault_handler (kern/trap.c) pushes a UTrapframe
    on the exception stack and _pgfault_upcall (lib/pfentry.S) unwinds it, with further
    faults possible before every instruction and anywhere inside the C handler. */
module Upcall {
  import opened Common

  const TWO32: nat := 0x1_0000_0000
  const UXTOP: nat := 0xEEC0_0000              // UXSTACKTOP
  const UXBASE: nat := 0xEEC0_0000 - 4096
  const ENTRY: nat := 0x0080_0000              // where _pgfault_upcall is linked; one address per instruction
  const UTFSIZE: nat := 52
  const WORDSIZE: nat := 4

  type Word = x: nat | x < 0x1_0000_0000

  // ---- Memory ------------------------------------------------------------------------------

  type Memory = map<nat, Byte>

  function Wrap(x: int): nat {
    x % 0x1_0000_0000
  }

  function Get(m: Memory, a: nat): Byte {
    if a in m then m[a] else 0
  }

  /** The n bytes at a, little-endian. */
  function LoadBytes(m: Memory, a: nat, n: nat): nat
    decreases n, |m|
  {
    if n == 0 then 0 else Get(m, a) + 0x100 * LoadBytes(m, Wrap(a + 1), n - 1)
  }

  function StoreBytes(m: Memory, a: nat, v: nat, n: nat): Memory
    decreases n, |m|
  {
    if n == 0 then m else StoreBytes(m[a := v % 0x100], Wrap(a + 1), v / 0x100, n - 1)
  }

  function Load(m: Memory, a: nat): nat {
    LoadBytes(m, a, WORDSIZE)
  }

  function Store(m: Memory, a: nat, v: nat): Memory {
    StoreBytes(m, a, v, WORDSIZE)
  }

  /** x is one of the four bytes of the word at a. */
  predicate InWord(x: nat, a: nat) {
    Wrap(x - a) < 4
  }

  lemma InWordIs(x: nat, a: nat)
    requires a < TWO32 && x < TWO32
    ensures InWord(x, a) <==> x == a || x == Wrap(a + 1) || x == Wrap(a + 2) || x == Wrap(a + 3)
  {
  }

  lemma {:induction false} LoadBytesBound(m: Memory, a: nat, n: nat)
    requires n <= 4
    ensures LoadBytes(m, a, n) < [1, 0x100, 0x1_0000, 0x100_0000, 0x1_0000_0000][n]
    decreases n
  {
    if n > 0 {
      LoadBytesBound(m, Wrap(a + 1), n - 1);
    }
  }

  lemma LoadBound(m: Memory, a: nat)
    ensures Load(m, a) < TWO32
  {
    LoadBytesBound(m, a, 4);
  }

  lemma {:induction false} StoreBytesGet(m: Memory, a: nat, v: nat, n: nat, x: nat)
    requires a < TWO32 && x < TWO32 && n <= 4 && Wrap(x - a) >= n
    ensures Get(StoreBytes(m, a, v, n), x) == Get(m, x)
    decreases n
  {
    if n > 0 {
      assert x != a;
      assert Wrap(x - Wrap(a + 1)) == Wrap(x - a) - 1;
      StoreBytesGet(m[a := v % 0x100], Wrap(a + 1), v / 0x100, n - 1, x);
    }
  }

  lemma StoreGet(m: Memory, a: nat, v: nat, x: nat)
    requires a < TWO32 && x < TWO32 && !InWord(x, a)
    ensures Get(Store(m, a, v), x) == Get(m, x)
  {
    StoreBytesGet(m, a, v, 4, x);
  }

  lemma {:induction false} LoadStoreBytes(m: Memory, a: nat, v: nat, n: nat)
    requires a < TWO32 && n <= 4 && v < [1, 0x100, 0x1_0000, 0x100_0000, 0x1_0000_0000][n]
    ensures LoadBytes(StoreBytes(m, a, v, n), a, n) == v
    decreases n
  {
    if n > 0 {
      var m' := m[a := v % 0x100];
      LoadStoreBytes(m', Wrap(a + 1), v / 0x100, n - 1);
      assert Wrap(a - Wrap(a + 1)) == 0xFFFF_FFFF;
      StoreBytesGet(m', Wrap(a + 1), v / 0x100, n - 1, a);
      assert Get(StoreBytes(m, a, v, n), a) == v % 0x100;
    }
  }

  lemma LoadStore(m: Memory, a: nat, v: nat)
    requires a < TWO32 && v < TWO32
    ensures Load(Store(m, a, v), a) == v
  {
    LoadStoreBytes(m, a, v, 4);
  }

  lemma {:induction false} SameLoadBytes(m: Memory, n: Memory, a: nat, k: nat)
    requires a < TWO32 && k <= 4
    requires forall x: Word :: Wrap(x - a) < k ==> Get(n, x) == Get(m, x)
    ensures LoadBytes(n, a, k) == LoadBytes(m, a, k)
    decreases k
  {
    if k > 0 {
      assert Wrap(a - a) == 0;
      forall x: Word | Wrap(x - Wrap(a + 1)) < k - 1
        ensures Get(n, x) == Get(m, x)
      {
        assert Wrap(x - a) == Wrap(x - Wrap(a + 1)) + 1;
      }
      SameLoadBytes(m, n, Wrap(a + 1), k - 1);
    }
  }

  /** A word reads the same in two memories that agree on its bytes. */
  lemma SameLoad(m: Memory, n: Memory, a: nat)
    requires a < TWO32 && forall x: Word :: InWord(x, a) ==> Get(n, x) == Get(m, x)
    ensures Load(n, a) == Load(m, a)
  {
    forall x: Word | Wrap(x - a) < 4
      ensures Get(n, x) == Get(m, x)
    {
      assert InWord(x, a);
    }
    SameLoadBytes(m, n, a, 4);
  }

  lemma LoadOther(m: Memory, a: nat, v: nat, b: nat)
    requires a < TWO32 && b < TWO32 && 4 <= Wrap(b - a) <= TWO32 - 4
    ensures Load(Store(m, a, v), b) == Load(m, b)
  {
    forall x: Word | InWord(x, b)
      ensures Get(Store(m, a, v), x) == Get(m, x)
    {
      assert Wrap(x - a) == Wrap(x - b) + Wrap(b - a);
      StoreGet(m, a, v, x);
    }
    SameLoad(m, Store(m, a, v), b);
  }

  function StoreWords(m: Memory, a: nat, ws: seq<Word>): Memory
    decreases |ws|
  {
    if ws == [] then m else StoreWords(Store(m, a, ws[0]), a + 4, ws[1..])
  }

  lemma {:induction false} StoreWordsGet(m: Memory, a: nat, ws: seq<Word>, x: nat)
    requires a + 4 * |ws| <= TWO32 && x < TWO32 && !(a <= x < a + 4 * |ws|)
    ensures Get(StoreWords(m, a, ws), x) == Get(m, x)
    decreases |ws|
  {
    if ws != [] {
      InWordIs(x, a);
      StoreGet(m, a, ws[0], x);
      StoreWordsGet(Store(m, a, ws[0]), a + 4, ws[1..], x);
    }
  }

  lemma {:induction false} StoreWordsLoad(m: Memory, a: nat, ws: seq<Word>, i: nat)
    requires a + 4 * |ws| <= TWO32 && i < |ws|
    ensures Load(StoreWords(m, a, ws), a + 4 * i) == ws[i]
    decreases |ws|
  {
    var n := Store(m, a, ws[0]);
    if i > 0 {
      StoreWordsLoad(n, a + 4, ws[1..], i - 1);
      assert a + 4 + 4 * (i - 1) == a + 4 * i;
    } else {
      LoadStore(m, a, ws[0]);
      forall x: Word | InWord(x, a)
        ensures Get(StoreWords(m, a, ws), x) == Get(n, x)
      {
        InWordIs(x, a);
        StoreWordsGet(n, a + 4, ws[1..], x);
      }
      SameLoad(n, StoreWords(m, a, ws), a);
    }
  }

  // ---- The processor -------------------------------------------------------------------------

  datatype Regs = Regs(edi: Word, esi: Word, ebp: Word, ebx: Word, edx: Word, ecx: Word, eax: Word)

  datatype Cpu = Cpu(regs: Regs, esp: Word, eip: Word, eflags: Word, mem: Memory)

  /** Destroyed: the exception stack overflowed.  Lost: control went astray. */
  datatype Outcome = Done(cpu: Cpu) | Destroyed | Lost

  /** One fault, from the kernel's push to the final `ret`: what the hardware and the
      handler contribute, and the further faults taken on the way. */
  datatype Fault = Fault(
    va: Word, err: Word, oesp: Word,
    pauses: seq<Pause>,        // one per instruction of _pgfault_upcall
    segments: seq<Segment>,    // the handler, cut at the faults it takes
    result: Code)

  /** Faults taken before an instruction completes, and the flags it leaves if it computes. */
  datatype Pause = Pause(nested: seq<Fault>, flags: Word)

  /** A stretch of handler code: registers and stack depth it ends with, and memory it writes. */
  datatype Code = Code(regs: Regs, eflags: Word, writes: Memory)

  datatype Segment = Segment(code: Code, depth: nat, eip: Word, nested: Fault)

  predicate OnUx(a: nat) {
    UXBASE <= a < UXTOP
  }

  /** Where page_fault_handler puts the UTrapframe: below a free word, under the current
      stack pointer or at the top of the exception stack. */
  function FrameAddr(esp: Word): int {
    (if OnUx(esp) then esp else UXTOP) - (UTFSIZE + 4)
  }

  /** The UTrapframe, lowest address first. */
  function Frame(c: Cpu, k: Fault): seq<Word> {
    [k.va, k.err, c.regs.edi, c.regs.esi, c.regs.ebp, k.oesp, c.regs.ebx, c.regs.edx, c.regs.ecx, c.regs.eax,
     c.eip, c.eflags, c.esp]
  }

  function PageFaultHandler(c: Cpu, k: Fault): Outcome {
    var f := FrameAddr(c.esp);
    if f < UXBASE then Destroyed
    else Done(c.(mem := StoreWords(c.mem, f, Frame(c, k)), esp := f, eip := ENTRY))
  }

  function LoadW(m: Memory, a: nat): Word {
    LoadBound(m, a);
    Load(m, a)
  }

  function Next(c: Cpu): Cpu {
    c.(eip := Wrap(c.eip + 1))
  }

  function Flags(k: Fault, i: nat): Word {
    if i < |k.pauses| then k.pauses[i].flags else 0
  }

  /** The registers popal loads; the saved stack pointer is skipped. */
  function Popal(m: Memory, sp: Word): Regs {
    Regs(LoadW(m, Wrap(sp + 0)), LoadW(m, Wrap(sp + 4)), LoadW(m, Wrap(sp + 8)), LoadW(m, Wrap(sp + 16)),
         LoadW(m, Wrap(sp + 20)), LoadW(m, Wrap(sp + 24)), LoadW(m, Wrap(sp + 28)))
  }

  function PopalStep(c: Cpu, regs: Regs): Cpu {
    Next(c.(esp := Wrap(c.esp + 32), regs := regs))
  }

  /** The instructions of _pgfault_upcall, except the call. */
  function Exec(c: Cpu, i: nat, flags: Word): Outcome {
    var sp := c.esp;
    match i
    case 0 =>   // pushl %esp
      if sp - 4 < UXBASE then Destroyed
      else Done(Next(c.(esp := sp - 4, mem := Store(c.mem, sp - 4, sp))))
    case 1 =>   // movl _pgfault_handler, %eax
      Done(Next(c.(regs := c.regs.(eax := flags))))
    case 3 =>   // addl $4, %esp
      Done(Next(c.(esp := Wrap(sp + 4), eflags := flags)))
    case 4 =>   // movl 48(%esp), %edi
      Done(Next(c.(regs := c.regs.(edi := LoadW(c.mem, Wrap(sp + 48))))))
    case 5 =>   // subl $4, %edi
      Done(Next(c.(regs := c.regs.(edi := Wrap(c.regs.edi - 4)), eflags := flags)))
    case 6 =>   // movl %edi, 48(%esp)
      Done(Next(c.(mem := Store(c.mem, Wrap(sp + 48), c.regs.edi))))
    case 7 =>   // movl 40(%esp), %esi
      Done(Next(c.(regs := c.regs.(esi := LoadW(c.mem, Wrap(sp + 40))))))
    case 8 =>   // movl %esi, (%edi)
      Done(Next(c.(mem := Store(c.mem, c.regs.edi, c.regs.esi))))
    case 9 =>   // addl $8, %esp
      Done(Next(c.(esp := Wrap(sp + 8), eflags := flags)))
    case 10 =>  // popal
      Done(PopalStep(c, Popal(c.mem, sp)))
    case 11 =>  // addl $4, %esp
      Done(Next(c.(esp := Wrap(sp + 4), eflags := flags)))
    case 12 =>  // popfl
      Done(Next(c.(esp := Wrap(sp + 4), eflags := LoadW(c.mem, sp))))
    case 13 =>  // popl %esp
      Done(Next(c.(esp := LoadW(c.mem, sp))))
    case 14 =>  // ret
      Done(c.(esp := Wrap(sp + 4), eip := LoadW(c.mem, sp)))
    case _ => Lost
  }

  /** The handler runs below its return address at `a`, and otherwise only writes
      addresses in z. */
  function RunCode(c: Cpu, code: Code, a: nat, z: set<nat>): Cpu {
    var kept := map x | x in code.writes && (x in z || UXBASE <= x < a) :: code.writes[x];
    c.(regs := code.regs, eflags := code.eflags, mem := c.mem + kept)
  }

  /** The handler from segment j on; `a` is the address of its return address. */
  function Handler(c: Cpu, k: Fault, j: nat, a: nat, z: set<nat>): Outcome
    decreases k, 1, |k.segments| - j
  {
    if j >= |k.segments| then
      var d := RunCode(c, k.result, a, z);
      Done(d.(esp := Wrap(a + 4), eip := LoadW(d.mem, a)))
    else
      var g := k.segments[j];
      if a - g.depth < UXBASE then Destroyed
      else
        var d := RunCode(c, g.code, a, z).(esp := Wrap(a - g.depth), eip := g.eip);
        match Take(d, g.nested, z)
        case Done(d') => if d'.eip == g.eip then Handler(d', k, j + 1, a, z) else Lost
        case o => o
  }

  /** call *%eax */
  function Call(c: Cpu, k: Fault, z: set<nat>): Outcome
    decreases k, 2, 0
  {
    if c.esp - 4 < UXBASE then Destroyed
    else
      var a := c.esp - 4;
      Handler(c.(esp := a, mem := Store(c.mem, a, Wrap(c.eip + 1))), k, 0, a, z)
  }

  function Instruction(c: Cpu, k: Fault, i: nat, z: set<nat>): Outcome
    decreases k, 2, 1
  {
    if i == 2 then Call(c, k, z) else Exec(c, i, Flags(k, i))
  }

  /** Faults taken one after the other at the same instruction. */
  function TakeAll(c: Cpu, ks: seq<Fault>, z: set<nat>): Outcome
    decreases ks, 5, 0
  {
    if ks == [] then Done(c)
    else
      match Take(c, ks[0], z)
      case Done(d) => TakeAll(d, ks[1..], z)
      case o => o
  }

  /** _pgfault_upcall from instruction i on: the program counter says which one is next. */
  function RunFrom(c: Cpu, k: Fault, i: nat, z: set<nat>): Outcome
    decreases k, 3, 15 - i
  {
    if i >= 15 then Done(c)
    else
      match if i < |k.pauses| then TakeAll(c, k.pauses[i].nested, z) else Done(c)
      case Done(d) =>
        if d.eip != ENTRY + i then Lost
        else
          (match Instruction(d, k, i, z)
           case Done(n) => RunFrom(n, k, i + 1, z)
           case o => o)
      case o => o
  }

  /** A fault taken in state c: the kernel's push, then the upcall until it returns. */
  function Take(c: Cpu, k: Fault, z: set<nat>): Outcome
    decreases k, 4, 0
  {
    match PageFaultHandler(c, k)
    case Done(d) => RunFrom(d, k, 0, z)
    case o => o
  }

  // ---- What a fault leaves alone ---------------------------------------------------------------

  function Limit(esp: Word): nat {
    if OnUx(esp) then esp else UXTOP
  }

  /** Below a stack pointer outside the exception stack, within 4h bytes. */
  predicate Window(esp: Word, h: nat, x: nat) {
    !OnUx(esp) && 1 <= Wrap(esp - x) <= 4 * h
  }

  /** Addresses that a fault taken at stack pointer esp must not change. */
  predicate Kept(x: nat, esp: Word, z: set<nat>, h: nat) {
    x < TWO32 && x !in z && !(UXBASE <= x < Limit(esp)) && !Window(esp, h, x)
  }

  ghost predicate Preserved(m: Memory, n: Memory, esp: Word, z: set<nat>, h: nat) {
    forall x :: Kept(x, esp, z, h) ==> Get(n, x) == Get(m, x)
  }

  /** The handler's own data is neither on the exception stack nor just below esp. */
  ghost predicate Apart(z: set<nat>, esp: Word, h: nat) {
    forall x :: x in z ==> !OnUx(x) && !Window(esp, h, x)
  }

  /** Faults are nested at most h deep. */
  ghost predicate Fits(k: Fault, h: nat)
    decreases k
  {
    && h >= 1
    && (forall i, j :: 0 <= i < |k.pauses| && 0 <= j < |k.pauses[i].nested| ==> Fits(k.pauses[i].nested[j], h - 1))
    && (forall j :: 0 <= j < |k.segments| ==> Fits(k.segments[j].nested, h - 1))
  }

  /** Everything is as it was in c, except memory that a fault may change. */
  ghost predicate Restored(c: Cpu, o: Outcome, z: set<nat>, h: nat) {
    match o
    case Done(d) =>
      && d.regs == c.regs && d.esp == c.esp && d.eip == c.eip && d.eflags == c.eflags
      && Preserved(c.mem, d.mem, c.esp, z, h)
    case Destroyed => true
    case Lost => false
  }

  // ---- Stages of the upcall ----------------------------------------------------------------------

  /** The word below the trap-time stack pointer, where the return address goes. */
  function Scratch(c: Cpu): Word {
    Wrap(c.esp - 4)
  }

  /** What page_fault_handler saved at offset k of the frame. */
  function Field(c: Cpu, k: nat): Word {
    match k
    case 8 => c.regs.edi
    case 12 => c.regs.esi
    case 16 => c.regs.ebp
    case 24 => c.regs.ebx
    case 28 => c.regs.edx
    case 32 => c.regs.ecx
    case 36 => c.regs.eax
    case 40 => c.eip
    case _ => c.eflags
  }

  predicate IsField(k: nat) {
    8 <= k <= 44 && k % 4 == 0 && k != 20
  }

  /** The stack pointer before instruction i. */
  function EspAt(i: nat, c: Cpu, f: nat): int {
    if i == 0 then f
    else if i <= 3 then f - 4
    else if i <= 9 then f
    else if i == 10 then f + 8
    else if i == 11 then f + 40
    else if i == 12 then f + 44
    else if i == 13 then f + 48
    else Scratch(c)
  }

  ghost predicate SlotsOk(i: nat, m: Memory, c: Cpu, f: nat) {
    && (i <= 13 ==> forall k: nat :: IsField(k) && EspAt(i, c, f) <= f + k ==> Load(m, f + k) == Field(c, k))
    && (i <= 13 ==> Load(m, f + 48) == if i <= 6 then c.esp else Scratch(c))
    && (i >= 9 ==> Load(m, Scratch(c)) == c.eip)
  }

  ghost predicate Stage(i: nat, c: Cpu, d: Cpu, f: nat, z: set<nat>, h: nat) {
    && i <= 14 && f == FrameAddr(c.esp) && f >= UXBASE
    && d.eip == ENTRY + i && d.esp == EspAt(i, c, f) && (i <= 13 ==> OnUx(d.esp))
    && (i == 5 ==> d.regs.edi == c.esp)
    && (6 <= i <= 8 ==> d.regs.edi == Scratch(c))
    && (i == 8 ==> d.regs.esi == c.eip)
    && (i >= 11 ==> d.regs == c.regs)
    && (i >= 13 ==> d.eflags == c.eflags)
    && SlotsOk(i, d.mem, c, f)
    && Preserved(c.mem, d.mem, c.esp, z, h)
  }

  lemma PreservedTrans(a: Memory, b: Memory, m: Memory, esp: Word, z: set<nat>, h: nat)
    requires Preserved(a, b, esp, z, h) && Preserved(b, m, esp, z, h)
    ensures Preserved(a, m, esp, z, h)
  {
  }

  /** Storing a word that a fault may change. */
  lemma PreservedStore(m: Memory, n: Memory, a: Word, v: nat, esp: Word, z: set<nat>, h: nat)
    requires Preserved(m, n, esp, z, h)
    requires forall x: Word :: InWord(x, a) ==> !Kept(x, esp, z, h)
    ensures Preserved(m, Store(n, a, v), esp, z, h)
  {
    forall x | Kept(x, esp, z, h)
      ensures Get(Store(n, a, v), x) == Get(m, x)
    {
      StoreGet(n, a, v, x);
    }
  }

  /** Words on the exception stack below the limit may change. */
  lemma UxWord(a: nat, esp: Word, z: set<nat>, h: nat)
    requires UXBASE <= a && a + 4 <= Limit(esp)
    ensures forall x: Word :: InWord(x, a) ==> !Kept(x, esp, z, h)
  {
    forall x: Word | InWord(x, a)
      ensures UXBASE <= x < Limit(esp)
    {
      InWordIs(x, a);
    }
  }

  /** The trap-time stack pointer and the frame below it. */
  lemma Geometry(c: Cpu, f: nat)
    requires f == FrameAddr(c.esp) && f >= UXBASE
    ensures f + 56 <= Limit(c.esp) <= UXTOP
    ensures OnUx(c.esp) ==> Scratch(c) == f + 52
    ensures !OnUx(c.esp) ==> f == UXTOP - 56
  {
  }

  /** The scratch word is off the frame. */
  lemma ScratchApart(c: Cpu, f: nat, k: nat)
    requires f == FrameAddr(c.esp) && f >= UXBASE && k <= 48
    ensures 4 <= Wrap(f + k - Scratch(c)) <= TWO32 - 4
  {
    Geometry(c, f);
    if !OnUx(c.esp) {
      if c.esp < UXBASE {
        if c.esp >= 4 {
          assert Scratch(c) == c.esp - 4;
        } else {
          assert Scratch(c) == c.esp + (TWO32 - 4);
          assert Wrap(f + k - Scratch(c)) == f + k - Scratch(c) + TWO32;
        }
      } else {
        assert Scratch(c) == c.esp - 4 >= UXTOP - 4;
        assert Wrap(f + k - Scratch(c)) == f + k - Scratch(c) + TWO32;
      }
    } else {
      assert Wrap(f + k - Scratch(c)) == k - 52 + TWO32;
    }
  }

  /** The scratch word may be written by the fault it belongs to. */
  lemma ScratchWord(c: Cpu, f: nat, z: set<nat>, h: nat)
    requires f == FrameAddr(c.esp) && f >= UXBASE && h >= 1
    ensures forall x: Word :: InWord(x, Scratch(c)) ==> !Kept(x, c.esp, z, h)
  {
    Geometry(c, f);
    if OnUx(c.esp) {
      UxWord(f + 52, c.esp, z, h);
    } else {
      forall x: Word | InWord(x, Scratch(c))
        ensures Window(c.esp, h, x)
      {
        ScratchOff(c.esp, x, 1);
      }
    }
  }

  /** The kernel's push starts the upcall. */
  lemma StageStart(c: Cpu, k: Fault, z: set<nat>, h: nat)
    requires FrameAddr(c.esp) >= UXBASE && h >= 1
    ensures Stage(0, c, PageFaultHandler(c, k).cpu, FrameAddr(c.esp), z, h)
  {
    var f := FrameAddr(c.esp);
    Geometry(c, f);
    FrameLoads(c, k, f);
    PushPreserved(c, k, f, z, h);
  }

  lemma FrameLoads(c: Cpu, k: Fault, f: nat)
    requires f + UTFSIZE <= UXTOP
    ensures SlotsOk(0, StoreWords(c.mem, f, Frame(c, k)), c, f)
  {
    forall o: nat | IsField(o)
      ensures Load(StoreWords(c.mem, f, Frame(c, k)), f + o) == Field(c, o)
    {
      StoreWordsLoad(c.mem, f, Frame(c, k), o / 4);
      assert Frame(c, k)[o / 4] == Field(c, o);
    }
    StoreWordsLoad(c.mem, f, Frame(c, k), 12);
  }

  lemma PushPreserved(c: Cpu, k: Fault, f: nat, z: set<nat>, h: nat)
    requires f == FrameAddr(c.esp) && f >= UXBASE
    ensures Preserved(c.mem, StoreWords(c.mem, f, Frame(c, k)), c.esp, z, h)
  {
    forall x: Word | Kept(x, c.esp, z, h)
      ensures Get(StoreWords(c.mem, f, Frame(c, k)), x) == Get(c.mem, x)
    {
      StoreWordsGet(c.mem, f, Frame(c, k), x);
    }
  }

  /** A fault taken during the upcall may change less than the upcall itself. */
  lemma KeptNested(i: nat, c: Cpu, d: Cpu, f: nat, z: set<nat>, h: nat, x: nat)
    requires Stage(i, c, d, f, z, h) && h >= 1 && 4 * h < TWO32 && Kept(x, c.esp, z, h)
    ensures Kept(x, d.esp, z, h - 1)
  {
    Geometry(c, f);
    if i == 14 && !OnUx(c.esp) {
      WindowBelow(c, h, x);
    }
  }

  lemma WrapShift(a: int, d: int)
    ensures Wrap(Wrap(a) + d) == Wrap(a + d)
  {
    var q := a / 0x1_0000_0000;
    assert a + d == Wrap(a) + d + q * 0x1_0000_0000;
    WrapCycle(Wrap(a) + d, q);
  }

  lemma WrapCycle(x: int, q: int)
    ensures Wrap(x + q * 0x1_0000_0000) == Wrap(x)
  {
  }

  lemma WindowBelow(c: Cpu, h: nat, x: nat)
    requires h >= 1 && 4 * h < TWO32 && !OnUx(c.esp)
    ensures Window(Scratch(c), h - 1, x) ==> Window(c.esp, h, x)
  {
    WrapShift(c.esp - 4, 0 - x);
    WrapShift(c.esp - 4 - x, 4);
  }

  lemma ApartNested(i: nat, c: Cpu, d: Cpu, f: nat, z: set<nat>, h: nat)
    requires Stage(i, c, d, f, z, h) && h >= 1 && 4 * h < TWO32 && Apart(z, c.esp, h)
    ensures Apart(z, d.esp, h - 1)
  {
    Geometry(c, f);
    if i == 14 && !OnUx(c.esp) {
      forall x | x in z
        ensures !Window(d.esp, h - 1, x)
      {
        WindowBelow(c, h, x);
      }
    }
  }

  /** Words on the exception stack at or above the stack pointer survive a nested fault. */
  lemma LoadAbove(m: Memory, n: Memory, esp: Word, z: set<nat>, h: nat, a: nat)
    requires Preserved(m, n, esp, z, h) && OnUx(esp) && esp <= a && a + 4 <= UXTOP
    requires forall x :: x in z ==> !OnUx(x)
    ensures Load(n, a) == Load(m, a)
  {
    forall x: Word | InWord(x, a)
      ensures Get(n, x) == Get(m, x)
    {
      InWordIs(x, a);
      assert Kept(x, esp, z, h);
    }
    SameLoad(m, n, a);
  }

  /** So does the scratch word, once it holds the return address. */
  lemma ScratchSurvives(i: nat, c: Cpu, d: Cpu, n: Memory, f: nat, z: set<nat>, h: nat)
    requires Stage(i, c, d, f, z, h) && 9 <= i && h >= 1 && 4 * h + 8 < TWO32 && Apart(z, c.esp, h)
    requires Preserved(d.mem, n, d.esp, z, h - 1)
    ensures Load(n, Scratch(c)) == Load(d.mem, Scratch(c))
  {
    Geometry(c, f);
    forall x: Word | InWord(x, Scratch(c))
      ensures Get(n, x) == Get(d.mem, x)
    {
      InWordIs(x, Scratch(c));
      ScratchKept(i, c, d, f, z, h, x);
    }
    SameLoad(d.mem, n, Scratch(c));
  }

  lemma ScratchKept(i: nat, c: Cpu, d: Cpu, f: nat, z: set<nat>, h: nat, x: Word)
    requires Stage(i, c, d, f, z, h) && 9 <= i && h >= 1 && 4 * h + 8 < TWO32 && Apart(z, c.esp, h)
    requires InWord(x, Scratch(c))
    ensures Kept(x, d.esp, z, h - 1)
  {
    Geometry(c, f);
    InWordIs(x, Scratch(c));
    if !OnUx(c.esp) {
      ScratchOff(c.esp, x, h);
    }
  }

  /** The word below a stack pointer outside the exception stack. */
  lemma ScratchOff(esp: Word, x: Word, h: nat)
    requires !OnUx(esp) && InWord(x, Wrap(esp - 4)) && h >= 1 && 4 * h + 8 < TWO32
    ensures Window(esp, h, x)
    ensures x < UXBASE || x >= UXTOP - 4
    ensures OnUx(x) ==> OnUx(Wrap(esp - 4)) && Wrap(esp - 4) <= x
    ensures !Window(Wrap(esp - 4), h - 1, x)
  {
    var t := Wrap(esp - 4);
    InWordIs(x, t);
    WordDistance(esp, x);
    if esp < 4 {
      assert t == esp + (TWO32 - 4);
    } else {
      assert t == esp - 4;
    }
  }

  lemma WordDistance(esp: Word, x: Word)
    requires InWord(x, Wrap(esp - 4))
    ensures 1 <= Wrap(esp - x) <= 4
    ensures Wrap(Wrap(esp - 4) - x) == 0 || Wrap(Wrap(esp - 4) - x) >= TWO32 - 3
  {
    var t := Wrap(esp - 4);
    var w := Wrap(x - t);
    assert Wrap(esp - x) == 4 - w;
    assert Wrap(t - x) == if w == 0 then 0 else TWO32 - w;
  }

  lemma SlotsSurvive(i: nat, c: Cpu, d: Cpu, n: Memory, f: nat, z: set<nat>, h: nat)
    requires Stage(i, c, d, f, z, h) && h >= 1 && 4 * h + 8 < TWO32 && Apart(z, c.esp, h)
    requires Preserved(d.mem, n, d.esp, z, h - 1)
    ensures SlotsOk(i, n, c, f)
  {
    Geometry(c, f);
    if i <= 13 {
      forall k: nat | IsField(k) && EspAt(i, c, f) <= f + k
        ensures Load(n, f + k) == Field(c, k)
      {
        LoadAbove(d.mem, n, d.esp, z, h - 1, f + k);
      }
      LoadAbove(d.mem, n, d.esp, z, h - 1, f + 48);
    }
    if i >= 9 {
      ScratchSurvives(i, c, d, n, f, z, h);
    }
  }

  /** A fault taken before instruction i leaves the upcall at instruction i. */
  lemma StageNested(i: nat, c: Cpu, d: Cpu, e: Cpu, f: nat, z: set<nat>, h: nat)
    requires Stage(i, c, d, f, z, h) && h >= 1 && 4 * h + 8 < TWO32 && Apart(z, c.esp, h)
    requires Restored(d, Done(e), z, h - 1)
    ensures Stage(i, c, e, f, z, h)
  {
    SlotsSurvive(i, c, d, e.mem, f, z, h);
    forall x | Kept(x, c.esp, z, h)
      ensures Get(e.mem, x) == Get(c.mem, x)
    {
      KeptNested(i, c, d, f, z, h, x);
    }
  }

  // ---- Instructions --------------------------------------------------------------------------------

  /** Storing on the exception stack off the words still needed. */
  lemma StoreOff(i: nat, m: Memory, c: Cpu, f: nat, a: Word, v: nat)
    requires SlotsOk(i, m, c, f) && UXBASE <= f && f + 56 <= UXTOP && i <= 8
    requires UXBASE <= a + 16 && a + 4 <= f
    ensures SlotsOk(i, Store(m, a, v), c, f)
  {
    forall k: nat | IsField(k) && EspAt(i, c, f) <= f + k
      ensures Load(Store(m, a, v), f + k) == Field(c, k)
    {
      LoadOther(m, a, v, f + k);
    }
    LoadOther(m, a, v, f + 48);
  }

  lemma ExecPush(c: Cpu, d: Cpu, f: nat, z: set<nat>, h: nat, flags: Word)
    requires Stage(0, c, d, f, z, h)
    ensures var o := Exec(d, 0, flags); o.Destroyed? || (o.Done? && Stage(1, c, o.cpu, f, z, h))
  {
    if f - 4 >= UXBASE {
      Geometry(c, f);
      StoreOff(0, d.mem, c, f, f - 4, f);
      UxWord(f - 4, c.esp, z, h);
      PreservedStore(c.mem, d.mem, f - 4, f, c.esp, z, h);
    }
  }

  /** Moving the stack pointer up only drops words that are no longer needed. */
  lemma SlotsNext(i: nat, m: Memory, c: Cpu, f: nat)
    requires SlotsOk(i, m, c, f) && i in {1, 3, 4, 5, 7, 9, 10, 11, 12, 13}
    ensures SlotsOk(i + 1, m, c, f)
  {
    assert i + 1 <= 13 ==> EspAt(i, c, f) <= EspAt(i + 1, c, f);
  }

  /** Instructions that change neither memory nor, before popal, registers that matter. */
  lemma ExecSmall(i: nat, c: Cpu, d: Cpu, f: nat, z: set<nat>, h: nat, flags: Word)
    requires Stage(i, c, d, f, z, h) && i in {1, 3, 5, 9, 11}
    ensures Exec(d, i, flags).Done? && Stage(i + 1, c, Exec(d, i, flags).cpu, f, z, h)
  {
    Geometry(c, f);
    SlotsNext(i, d.mem, c, f);
  }

  lemma ExecLoads(i: nat, c: Cpu, d: Cpu, f: nat, z: set<nat>, h: nat, flags: Word)
    requires Stage(i, c, d, f, z, h) && i in {4, 7}
    ensures Exec(d, i, flags).Done? && Stage(i + 1, c, Exec(d, i, flags).cpu, f, z, h)
  {
    Geometry(c, f);
    SlotsNext(i, d.mem, c, f);
    assert Wrap(d.esp + 48) == f + 48 && Wrap(d.esp + 40) == f + 40;
    assert IsField(40) && Load(d.mem, f + 40) == Field(c, 40) == c.eip;
  }

  lemma SlotsStore(m: Memory, c: Cpu, f: nat)
    requires SlotsOk(6, m, c, f) && UXBASE <= f && f + 56 <= UXTOP
    ensures SlotsOk(7, Store(m, f + 48, Scratch(c)), c, f)
  {
    forall k: nat | IsField(k)
      ensures Load(Store(m, f + 48, Scratch(c)), f + k) == Field(c, k)
    {
      assert Load(m, f + k) == Field(c, k);
      LoadOther(m, f + 48, Scratch(c), f + k);
    }
    LoadStore(m, f + 48, Scratch(c));
  }

  lemma ExecSlot(c: Cpu, d: Cpu, f: nat, z: set<nat>, h: nat, flags: Word)
    requires Stage(6, c, d, f, z, h)
    ensures Exec(d, 6, flags).Done? && Stage(7, c, Exec(d, 6, flags).cpu, f, z, h)
  {
    Geometry(c, f);
    assert Wrap(d.esp + 48) == f + 48;
    SlotsStore(d.mem, c, f);
    UxWord(f + 48, c.esp, z, h);
    PreservedStore(c.mem, d.mem, f + 48, d.regs.edi, c.esp, z, h);
  }

  lemma ExecScratch(c: Cpu, d: Cpu, f: nat, z: set<nat>, h: nat, flags: Word)
    requires Stage(8, c, d, f, z, h) && h >= 1
    ensures Exec(d, 8, flags).Done? && Stage(9, c, Exec(d, 8, flags).cpu, f, z, h)
  {
    Geometry(c, f);
    var t := Scratch(c);
    var n := Store(d.mem, t, c.eip);
    forall k: nat | IsField(k)
      ensures Load(n, f + k) == Field(c, k)
    {
      ScratchApart(c, f, k);
      LoadOther(d.mem, t, c.eip, f + k);
    }
    ScratchApart(c, f, 48);
    LoadOther(d.mem, t, c.eip, f + 48);
    LoadStore(d.mem, t, c.eip);
    ScratchWord(c, f, z, h);
    PreservedStore(c.mem, d.mem, t, c.eip, c.esp, z, h);
  }

  lemma ExecPopal(c: Cpu, d: Cpu, f: nat, z: set<nat>, h: nat, flags: Word)
    requires Stage(10, c, d, f, z, h)
    ensures Exec(d, 10, flags).Done? && Stage(11, c, Exec(d, 10, flags).cpu, f, z, h)
  {
    Geometry(c, f);
    SlotsNext(10, d.mem, c, f);
    PopalLoads(d.mem, c, f);
    PopalState(d, c.regs);
    assert Exec(d, 10, flags) == Done(PopalStep(d, c.regs));
  }

  lemma PopalState(d: Cpu, regs: Regs)
    requires d.esp + 32 < TWO32 && d.eip == ENTRY + 10
    ensures PopalStep(d, regs) == d.(esp := d.esp + 32, eip := ENTRY + 11, regs := regs)
  {
  }

  lemma PopalLoads(m: Memory, c: Cpu, f: nat)
    requires SlotsOk(10, m, c, f) && UXBASE <= f && f + 56 <= UXTOP
    ensures Popal(m, f + 8) == c.regs
  {
    FieldLoad(m, c, f, 8);
    FieldLoad(m, c, f, 12);
    FieldLoad(m, c, f, 16);
    FieldLoad(m, c, f, 24);
    FieldLoad(m, c, f, 28);
    FieldLoad(m, c, f, 32);
    FieldLoad(m, c, f, 36);
  }

  lemma FieldLoad(m: Memory, c: Cpu, f: nat, k: nat)
    requires SlotsOk(10, m, c, f) && f + 56 <= UXTOP && IsField(k)
    ensures LoadW(m, Wrap(f + 8 + (k - 8))) == Field(c, k)
  {
    assert Wrap(f + 8 + (k - 8)) == f + k;
  }

  lemma ExecPops(i: nat, c: Cpu, d: Cpu, f: nat, z: set<nat>, h: nat, flags: Word)
    requires Stage(i, c, d, f, z, h) && i in {12, 13}
    ensures Exec(d, i, flags).Done? && Stage(i + 1, c, Exec(d, i, flags).cpu, f, z, h)
  {
    Geometry(c, f);
    SlotsNext(i, d.mem, c, f);
    assert IsField(44) && Field(c, 44) == c.eflags;
  }

  /** Every instruction but the call takes the upcall to its next stage. */
  lemma ExecStage(i: nat, c: Cpu, d: Cpu, f: nat, z: set<nat>, h: nat, flags: Word)
    requires Stage(i, c, d, f, z, h) && i != 2 && i < 14 && h >= 1
    ensures var o := Exec(d, i, flags); o.Destroyed? || (o.Done? && Stage(i + 1, c, o.cpu, f, z, h))
  {
    if i == 0 {
      ExecPush(c, d, f, z, h, flags);
    } else if i == 6 {
      ExecSlot(c, d, f, z, h, flags);
    } else if i == 8 {
      ExecScratch(c, d, f, z, h, flags);
    } else if i == 10 {
      ExecPopal(c, d, f, z, h, flags);
    } else if i in {12, 13} {
      ExecPops(i, c, d, f, z, h, flags);
    } else if i in {4, 7} {
      ExecLoads(i, c, d, f, z, h, flags);
    } else {
      ExecSmall(i, c, d, f, z, h, flags);
    }
  }

  /** `ret` re-executes the faulting instruction in the trap-time state. */
  lemma ExecRet(c: Cpu, d: Cpu, f: nat, z: set<nat>, h: nat, flags: Word)
    requires Stage(14, c, d, f, z, h)
    ensures Restored(c, Exec(d, 14, flags), z, h)
  {
    assert Wrap(Scratch(c) + 4) == c.esp;
  }

  // ---- The handler -------------------------------------------------------------------------------------

  /** While the handler runs, its return address and the frame above it are intact. */
  ghost predicate InHandler(c: Cpu, m: Memory, f: nat, a: nat, z: set<nat>, h: nat) {
    && f == FrameAddr(c.esp) && UXBASE <= a && a + 8 == f
    && Load(m, a) == ENTRY + 3 && SlotsOk(3, m, c, f)
    && Preserved(c.mem, m, c.esp, z, h)
  }

  /** Memory that only changed in z and on the exception stack below `low`. */
  ghost predicate ChangedBelow(m: Memory, n: Memory, low: nat, z: set<nat>) {
    forall x: Word :: x !in z && !(UXBASE <= x < low) ==> Get(n, x) == Get(m, x)
  }

  lemma BelowKeeps(c: Cpu, m: Memory, n: Memory, f: nat, a: nat, low: nat, z: set<nat>, h: nat)
    requires InHandler(c, m, f, a, z, h) && ChangedBelow(m, n, low, z) && low <= a
    requires forall x :: x in z ==> !OnUx(x)
    ensures InHandler(c, n, f, a, z, h)
  {
    Geometry(c, f);
    BelowLoad(m, n, low, z, a);
    forall k: nat | IsField(k)
      ensures Load(n, f + k) == Field(c, k)
    {
      BelowLoad(m, n, low, z, f + k);
    }
    BelowLoad(m, n, low, z, f + 48);
    forall x: Word | Kept(x, c.esp, z, h)
      ensures Get(n, x) == Get(c.mem, x)
    {
      assert !(UXBASE <= x < low);
    }
  }

  lemma BelowLoad(m: Memory, n: Memory, low: nat, z: set<nat>, b: nat)
    requires ChangedBelow(m, n, low, z) && UXBASE <= b && low <= b && b + 4 <= UXTOP
    requires forall x :: x in z ==> !OnUx(x)
    ensures Load(n, b) == Load(m, b)
  {
    forall x: Word | InWord(x, b)
      ensures Get(n, x) == Get(m, x)
    {
      InWordIs(x, b);
    }
    SameLoad(m, n, b);
  }

  lemma CodeBelow(d: Cpu, code: Code, a: nat, z: set<nat>)
    ensures ChangedBelow(d.mem, RunCode(d, code, a, z).mem, a, z)
  {
  }

  lemma NestedBelow(d: Cpu, n: Memory, z: set<nat>, h: nat)
    requires OnUx(d.esp) && Preserved(d.mem, n, d.esp, z, h)
    ensures ChangedBelow(d.mem, n, d.esp, z)
  {
    forall x: Word | x !in z && !(UXBASE <= x < d.esp)
      ensures Get(n, x) == Get(d.mem, x)
    {
      assert Kept(x, d.esp, z, h);
    }
  }

  /** The call stores the return address below the frame. */
  lemma CallEnters(c: Cpu, d: Cpu, f: nat, z: set<nat>, h: nat)
    requires Stage(2, c, d, f, z, h) && d.esp - 4 >= UXBASE
    ensures InHandler(c, Store(d.mem, d.esp - 4, Wrap(d.eip + 1)), f, d.esp - 4, z, h)
  {
    var a := d.esp - 4;
    Geometry(c, f);
    assert Wrap(d.eip + 1) == ENTRY + 3;
    StoreOff(2, d.mem, c, f, a, ENTRY + 3);
    LoadStore(d.mem, a, ENTRY + 3);
    UxWord(a, c.esp, z, h);
    PreservedStore(c.mem, d.mem, a, ENTRY + 3, c.esp, z, h);
  }

  /** The handler's code up to its next fault. */
  lemma SegmentRuns(c: Cpu, d: Cpu, g: Segment, f: nat, a: nat, z: set<nat>, h: nat)
    requires InHandler(c, d.mem, f, a, z, h) && a - g.depth >= UXBASE && forall x :: x in z ==> !OnUx(x)
    ensures var n := RunCode(d, g.code, a, z).(esp := Wrap(a - g.depth), eip := g.eip);
            && n.esp == a - g.depth && OnUx(n.esp) && Limit(n.esp) == Limit(c.esp) - 64 - g.depth
            && InHandler(c, n.mem, f, a, z, h) && Apart(z, n.esp, h)
  {
    Geometry(c, f);
    CodeBelow(d, g.code, a, z);
    BelowKeeps(c, d.mem, RunCode(d, g.code, a, z).mem, f, a, a, z, h);
  }

  /** A fault the handler takes leaves its frame intact. */
  lemma SegmentKept(c: Cpu, n: Cpu, m: Memory, f: nat, a: nat, z: set<nat>, h: nat)
    requires InHandler(c, n.mem, f, a, z, h) && OnUx(n.esp) && n.esp <= a && h >= 1
    requires Preserved(n.mem, m, n.esp, z, h - 1) && forall x :: x in z ==> !OnUx(x)
    ensures InHandler(c, m, f, a, z, h)
  {
    NestedBelow(n, m, z, h - 1);
    BelowKeeps(c, n.mem, m, f, a, n.esp, z, h);
  }

  // ---- Nested faults unwind exactly ------------------------------------------------------------------------

  lemma HandlerReturns(c: Cpu, d: Cpu, k: Fault, j: nat, f: nat, a: nat, z: set<nat>, h: nat)
    requires InHandler(c, d.mem, f, a, z, h) && Fits(k, h) && 4 * h + 8 < TWO32
    requires forall x :: x in z ==> !OnUx(x)
    ensures var o := Handler(d, k, j, a, z); o.Destroyed? || (o.Done? && Stage(3, c, o.cpu, f, z, h))
    decreases k, 1, |k.segments| - j
  {
    Geometry(c, f);
    if j >= |k.segments| {
      CodeBelow(d, k.result, a, z);
      BelowKeeps(c, d.mem, RunCode(d, k.result, a, z).mem, f, a, a, z, h);
    } else {
      var g := k.segments[j];
      if a - g.depth >= UXBASE {
        var n := RunCode(d, g.code, a, z).(esp := Wrap(a - g.depth), eip := g.eip);
        SegmentRuns(c, d, g, f, a, z, h);
        TakeRestores(n, g.nested, z, h - 1);
        var o := Take(n, g.nested, z);
        if o.Done? {
          SegmentKept(c, n, o.cpu.mem, f, a, z, h);
          HandlerReturns(c, o.cpu, k, j + 1, f, a, z, h);
        }
      }
    }
  }

  lemma TakeAllRestores(c: Cpu, ks: seq<Fault>, z: set<nat>, h: nat)
    requires (forall j :: 0 <= j < |ks| ==> Fits(ks[j], h)) && 4 * h + 8 < TWO32 && Apart(z, c.esp, h)
    ensures Restored(c, TakeAll(c, ks, z), z, h)
    decreases ks, 5, 0
  {
    if ks != [] {
      TakeRestores(c, ks[0], z, h);
      var o := Take(c, ks[0], z);
      if o.Done? {
        TakeAllRestores(o.cpu, ks[1..], z, h);
        var p := TakeAll(o.cpu, ks[1..], z);
        if p.Done? {
          PreservedTrans(c.mem, o.cpu.mem, p.cpu.mem, c.esp, z, h);
        }
      }
    }
  }

  lemma RunRestores(c: Cpu, d: Cpu, k: Fault, i: nat, f: nat, z: set<nat>, h: nat)
    requires Stage(i, c, d, f, z, h) && Fits(k, h) && 4 * h + 8 < TWO32 && Apart(z, c.esp, h)
    ensures Restored(c, RunFrom(d, k, i, z), z, h)
    decreases k, 3, 15 - i
  {
    var e := d;
    if i < |k.pauses| {
      ApartNested(i, c, d, f, z, h);
      TakeAllRestores(d, k.pauses[i].nested, z, h - 1);
      var o := TakeAll(d, k.pauses[i].nested, z);
      if o.Destroyed? {
        return;
      }
      e := o.cpu;
      StageNested(i, c, d, e, f, z, h);
    }
    if i == 14 {
      ExecRet(c, e, f, z, h, Flags(k, i));
      var n := Instruction(e, k, 14, z).cpu;
      assert RunFrom(n, k, 15, z) == Done(n);
    } else {
      InstructionStage(c, e, k, i, f, z, h);
      var o := Instruction(e, k, i, z);
      if o.Done? {
        RunRestores(c, o.cpu, k, i + 1, f, z, h);
      }
    }
  }

  lemma InstructionStage(c: Cpu, e: Cpu, k: Fault, i: nat, f: nat, z: set<nat>, h: nat)
    requires Stage(i, c, e, f, z, h) && i < 14 && Fits(k, h) && 4 * h + 8 < TWO32 && Apart(z, c.esp, h)
    ensures var o := Instruction(e, k, i, z); o.Destroyed? || (o.Done? && Stage(i + 1, c, o.cpu, f, z, h))
    decreases k, 2, 1
  {
    if i != 2 {
      ExecStage(i, c, e, f, z, h, Flags(k, i));
    } else if e.esp - 4 >= UXBASE {
      CallEnters(c, e, f, z, h);
      var a := e.esp - 4;
      HandlerReturns(c, e.(esp := a, mem := Store(e.mem, a, Wrap(e.eip + 1))), k, 0, f, a, z, h);
    }
  }

  /** Nested user page faults unwind exactly: however faults nest, if the exception stack
      does not overflow, the upcall returns with every trap-time register, the flags, the
      program counter and the stack pointer restored, and with every saved frame, and all
      memory but the handler's own and the free words below the stack pointer, intact. */
  lemma TakeRestores(c: Cpu, k: Fault, z: set<nat>, h: nat)
    requires Fits(k, h) && 4 * h + 8 < TWO32 && Apart(z, c.esp, h)
    ensures Restored(c, Take(c, k, z), z, h)
    decreases k, 4, 0
  {
    if FrameAddr(c.esp) >= UXBASE {
      StageStart(c, k, z, h);
      RunRestores(c, PageFaultHandler(c, k).cpu, k, 0, FrameAddr(c.esp), z, h);
    }
  }

  // ---- What the handler is shown ---------------------------------------------------------------------------

  /** The upcall from instruction i to the handler's first instruction: pushl, movl and call, with the
      faults taken before each. */
  function Enter(c: Cpu, k: Fault, i: nat, z: set<nat>): Outcome
    decreases 3 - i
  {
    match if i < |k.pauses| then TakeAll(c, k.pauses[i].nested, z) else Done(c)
    case Done(d) =>
      if d.eip != ENTRY + i then Lost
      else if i >= 2 then
        if d.esp - 4 < UXBASE then Destroyed
        else Done(d.(esp := d.esp - 4, mem := Store(d.mem, d.esp - 4, Wrap(d.eip + 1))))
      else
        (match Exec(d, i, Flags(k, i))
         case Done(n) => Enter(n, k, i + 1, z)
         case o => o)
    case o => o
  }

  /** The state in which the handler of fault k, taken in state c, starts. */
  function HandlerState(c: Cpu, k: Fault, z: set<nat>): Outcome {
    match PageFaultHandler(c, k)
    case Done(d) => Enter(d, k, 0, z)
    case o => o
  }

  /** The rest of the upcall from there. */
  function Resume(o: Outcome, k: Fault, z: set<nat>): Outcome {
    match o
    case Done(d) =>
      (match Handler(d, k, 0, d.esp, z)
       case Done(n) => RunFrom(n, k, 3, z)
       case p => p)
    case p => p
  }

  lemma {:induction false} EnterSplits(c: Cpu, k: Fault, i: nat, z: set<nat>)
    requires i <= 2
    ensures RunFrom(c, k, i, z) == Resume(Enter(c, k, i, z), k, z)
    decreases 3 - i
  {
    var o := if i < |k.pauses| then TakeAll(c, k.pauses[i].nested, z) else Done(c);
    if o.Done? && o.cpu.eip == ENTRY + i && i < 2 {
      var n := Exec(o.cpu, i, Flags(k, i));
      if n.Done? {
        EnterSplits(n.cpu, k, i + 1, z);
      }
    } else if o.Done? && o.cpu.eip == ENTRY + 2 && i == 2 {
      var d := o.cpu;
      assert Instruction(d, k, 2, z) == Call(d, k, z);
    }
  }

  /** The handler's start is a point of the run that `Take` stands for. */
  lemma TakeSplits(c: Cpu, k: Fault, z: set<nat>)
    ensures Take(c, k, z) == Resume(HandlerState(c, k, z), k, z)
  {
    var o := PageFaultHandler(c, k);
    if o.Done? {
      EnterSplits(o.cpu, k, 0, z);
    }
  }

  /** The words of the frame that the upcall itself never reads, and the handler's argument. */
  ghost predicate Shown(i: nat, m: Memory, k: Fault, f: nat) {
    && Load(m, f) == k.va && Load(m, f + 4) == k.err && Load(m, f + 20) == k.oesp
    && (i >= 1 && f >= 4 ==> Load(m, f - 4) == f)
  }

  lemma ShownStart(c: Cpu, k: Fault, f: nat)
    requires f == FrameAddr(c.esp) && f >= UXBASE
    ensures Shown(0, PageFaultHandler(c, k).cpu.mem, k, f)
  {
    StoreWordsLoad(c.mem, f, Frame(c, k), 0);
    StoreWordsLoad(c.mem, f, Frame(c, k), 1);
    StoreWordsLoad(c.mem, f, Frame(c, k), 5);
  }

  /** Nested faults leave them alone. */
  lemma ShownNested(i: nat, c: Cpu, d: Cpu, n: Memory, k: Fault, f: nat, z: set<nat>, h: nat)
    requires Stage(i, c, d, f, z, h) && i <= 2 && h >= 1 && Apart(z, c.esp, h)
    requires Preserved(d.mem, n, d.esp, z, h - 1) && Shown(i, d.mem, k, f)
    ensures Shown(i, n, k, f)
  {
    Geometry(c, f);
    LoadAbove(d.mem, n, d.esp, z, h - 1, f);
    LoadAbove(d.mem, n, d.esp, z, h - 1, f + 4);
    LoadAbove(d.mem, n, d.esp, z, h - 1, f + 20);
    if i >= 1 {
      LoadAbove(d.mem, n, d.esp, z, h - 1, f - 4);
    }
  }

  lemma ShownStore(i: nat, m: Memory, k: Fault, f: nat, a: nat, v: nat)
    requires Shown(i, m, k, f) && UXBASE <= a && f + 56 <= UXTOP && a + 4 == (if i >= 1 then f - 4 else f)
    ensures Shown(i, Store(m, a, v), k, f)
  {
    LoadOther(m, a, v, f);
    LoadOther(m, a, v, f + 4);
    LoadOther(m, a, v, f + 20);
    if i >= 1 {
      LoadOther(m, a, v, f - 4);
    }
  }

  lemma ShownPush(c: Cpu, d: Cpu, k: Fault, f: nat, z: set<nat>, h: nat, flags: Word)
    requires Stage(0, c, d, f, z, h) && Shown(0, d.mem, k, f) && Exec(d, 0, flags).Done?
    ensures Shown(1, Exec(d, 0, flags).cpu.mem, k, f)
  {
    Geometry(c, f);
    ShownStore(0, d.mem, k, f, f - 4, f);
    LoadStore(d.mem, f - 4, f);
  }

  /** The handler, entered with its return address on top of the stack and the argument above it. */
  ghost predicate Entered(c: Cpu, k: Fault, f: nat, d: Cpu) {
    && d.esp == f - 8 && Load(d.mem, f - 8) == ENTRY + 3 && Shown(1, d.mem, k, f) && SlotsOk(3, d.mem, c, f)
  }

  lemma EnterCall(c: Cpu, d: Cpu, k: Fault, f: nat, z: set<nat>, h: nat)
    requires Stage(2, c, d, f, z, h) && Shown(2, d.mem, k, f) && d.esp - 4 >= UXBASE
    ensures Entered(c, k, f, d.(esp := d.esp - 4, mem := Store(d.mem, d.esp - 4, Wrap(d.eip + 1))))
  {
    Geometry(c, f);
    CallEnters(c, d, f, z, h);
    ShownStore(1, d.mem, k, f, f - 8, Wrap(d.eip + 1));
  }

  lemma {:induction false} EnterShows(c: Cpu, d: Cpu, k: Fault, i: nat, f: nat, z: set<nat>, h: nat)
    requires Stage(i, c, d, f, z, h) && i <= 2 && Shown(i, d.mem, k, f)
    requires Fits(k, h) && 4 * h + 8 < TWO32 && Apart(z, c.esp, h)
    ensures var o := Enter(d, k, i, z); o.Destroyed? || (o.Done? && Entered(c, k, f, o.cpu))
    decreases 3 - i
  {
    var e := d;
    if i < |k.pauses| {
      ApartNested(i, c, d, f, z, h);
      TakeAllRestores(d, k.pauses[i].nested, z, h - 1);
      var o := TakeAll(d, k.pauses[i].nested, z);
      if o.Destroyed? {
        return;
      }
      e := o.cpu;
      StageNested(i, c, d, e, f, z, h);
      ShownNested(i, c, d, e.mem, k, f, z, h);
    }
    EnterNext(c, e, k, i, f, z, h);
    if i < 2 && Exec(e, i, Flags(k, i)).Done? {
      EnterShows(c, Exec(e, i, Flags(k, i)).cpu, k, i + 1, f, z, h);
    }
  }

  lemma EnterNext(c: Cpu, e: Cpu, k: Fault, i: nat, f: nat, z: set<nat>, h: nat)
    requires Stage(i, c, e, f, z, h) && i <= 2 && Shown(i, e.mem, k, f) && h >= 1
    ensures i < 2 ==>
              var o := Exec(e, i, Flags(k, i));
              o.Destroyed? || (o.Done? && Stage(i + 1, c, o.cpu, f, z, h) && Shown(i + 1, o.cpu.mem, k, f))
    ensures i == 2 && e.esp - 4 >= UXBASE ==>
              Entered(c, k, f, e.(esp := e.esp - 4, mem := Store(e.mem, e.esp - 4, Wrap(e.eip + 1))))
  {
    if i == 2 {
      if e.esp - 4 >= UXBASE {
        EnterCall(c, e, k, f, z, h);
      }
    } else {
      ExecStage(i, c, e, f, z, h, Flags(k, i));
      if i == 0 && Exec(e, 0, Flags(k, 0)).Done? {
        ShownPush(c, e, k, f, z, h, Flags(k, 0));
      }
    }
  }

  /** The struct UTrapframe at f for a fault k taken in state c. */
  ghost predicate UTrapframe(m: Memory, f: nat, c: Cpu, k: Fault) {
    && Load(m, f) == k.va && Load(m, f + 4) == k.err
    && Load(m, f + 8) == c.regs.edi && Load(m, f + 12) == c.regs.esi && Load(m, f + 16) == c.regs.ebp
    && Load(m, f + 20) == k.oesp && Load(m, f + 24) == c.regs.ebx && Load(m, f + 28) == c.regs.edx
    && Load(m, f + 32) == c.regs.ecx && Load(m, f + 36) == c.regs.eax
    && Load(m, f + 40) == c.eip && Load(m, f + 44) == c.eflags && Load(m, f + 48) == c.esp
  }

  lemma FrameRead(m: Memory, f: nat, c: Cpu, k: Fault)
    requires SlotsOk(3, m, c, f) && Shown(1, m, k, f)
    ensures UTrapframe(m, f, c, k)
  {
    assert IsField(8) && IsField(12) && IsField(16) && IsField(24) && IsField(28);
    assert IsField(32) && IsField(36) && IsField(40) && IsField(44);
  }

  lemma EntersHandler(c: Cpu, k: Fault, f: nat, z: set<nat>, h: nat)
    requires Fits(k, h) && 4 * h + 8 < TWO32 && Apart(z, c.esp, h) && f == FrameAddr(c.esp) && f >= UXBASE
    ensures var o := HandlerState(c, k, z); o.Destroyed? || (o.Done? && Entered(c, k, f, o.cpu))
  {
    StageStart(c, k, z, h);
    ShownStart(c, k, f);
    EnterShows(c, PageFaultHandler(c, k).cpu, k, 0, f, z, h);
  }

  /** Where the frame goes: under the trap-time stack pointer, one word off, if that is on the exception
      stack, and otherwise at the stack's top. */
  function FrameFor(esp: Word): int {
    if 0xEEBF_F000 <= esp < 0xEEC0_0000 then esp - 56 else 0xEEC0_0000 - 56
  }

  /** The handler is called with a frame that describes its fault, whatever faults were taken on the way:
      on top of the stack is the return address into the upcall, above it the frame's address, and at
      that address the frame. */
  lemma HandlerSees(c: Cpu, k: Fault, z: set<nat>, h: nat)
    requires Fits(k, h) && 4 * h + 8 < TWO32 && Apart(z, c.esp, h)
    ensures !HandlerState(c, k, z).Lost?
    ensures HandlerState(c, k, z).Done? ==>
              var d, f := HandlerState(c, k, z).cpu, FrameFor(c.esp);
              && f >= 8 && d.esp == f - 8 && Load(d.mem, f - 8) == ENTRY + 3 && Load(d.mem, f - 4) == f
              && UTrapframe(d.mem, f, c, k)
  {
    var f := FrameAddr(c.esp);
    assert f == FrameFor(c.esp);
    if f >= UXBASE {
      EntersHandler(c, k, f, z, h);
      var o := HandlerState(c, k, z);
      if o.Done? {
        FrameRead(o.cpu.mem, f, c, k);
      }
    }
  }

  // ---- When the exception stack is large enough -----------------------------------------------------------

  function Max(a: nat, b: nat): nat {
    if a >= b then a else b
  }

  /** How far below the limit the stack pointer is before instruction i. */
  function Below(i: nat): nat {
    if i == 0 then 56
    else if i <= 3 then 60
    else if i <= 9 then 56
    else if i == 10 then 48
    else if i == 11 then 16
    else if i == 12 then 12
    else 8
  }

  /** The stack pointer before instruction i of an upcall for a fault at esp. */
  function EspBefore(i: nat, esp: Word): Word {
    if i <= 13 then Wrap(Limit(esp) - Below(i)) else Wrap(esp - 4)
  }

  /** How much lower the limit is for a fault taken before instruction i. */
  function Lower(i: nat, esp: Word): nat {
    if Limit(esp) >= Limit(EspBefore(i, esp)) then Limit(esp) - Limit(EspBefore(i, esp)) else 0
  }

  /** The bytes of exception stack that a fault at esp needs: 56 for its frame, 8 for the argument and
      return address of the handler, and below them what the handler and nested faults need. */
  function Need(esp: Word, k: Fault): nat
    decreases k, 4, 0
  {
    RunNeed(esp, k, 0)
  }

  /** What it needs from instruction i on. */
  function RunNeed(esp: Word, k: Fault, i: nat): nat
    decreases k, 3, if i <= 15 then 15 - i else 0
  {
    Max(if i <= 2 then Max(64, HandlerNeed(esp, k, 0)) else 0, PausesNeed(esp, k, i))
  }

  function PausesNeed(esp: Word, k: Fault, i: nat): nat
    decreases k, 2, if i <= 15 then 15 - i else 0
  {
    if i >= 15 || i >= |k.pauses| then 0
    else Max(AllNeed(EspBefore(i, esp), Lower(i, esp), k.pauses[i].nested), PausesNeed(esp, k, i + 1))
  }

  function HandlerNeed(esp: Word, k: Fault, j: nat): nat
    decreases k, 1, |k.segments| - j
  {
    if j >= |k.segments| then 0
    else
      var g := k.segments[j];
      Max(64 + g.depth + Need(Wrap(Limit(esp) - 64 - g.depth), g.nested), HandlerNeed(esp, k, j + 1))
  }

  /** What faults taken one after the other need, below `lower` bytes. */
  function AllNeed(esp: Word, lower: nat, ks: seq<Fault>): nat
    decreases ks, 5, 0
  {
    if ks == [] then 0 else Max(lower + Need(esp, ks[0]), AllNeed(esp, lower, ks[1..]))
  }

  predicate Enough(esp: Word, need: nat) {
    Limit(esp) - need >= UXBASE
  }

  /** Below the limit, stack pointers of the upcall do not wrap. */
  lemma NoWrap(x: nat)
    requires x <= UXTOP
    ensures Wrap(x) == x
  {
  }

  lemma BeforeIs(i: nat, c: Cpu, f: nat)
    requires i <= 14 && f == FrameAddr(c.esp) && f >= UXBASE
    ensures EspAt(i, c, f) == EspBefore(i, c.esp)
  {
    if i <= 13 {
      var x := Limit(c.esp) - Below(i);
      assert f == Limit(c.esp) - 56;
      NoWrap(x);
      assert EspAt(i, c, f) == x;
    }
  }

  /** A fault during the upcall has no more room than the upcall's own. */
  lemma LimitFalls(esp: Word)
    requires FrameAddr(esp) >= UXBASE
    ensures Limit(Wrap(esp - 4)) <= Limit(esp)
  {
    if OnUx(esp) {
      NoWrap(esp - 4);
    }
  }

  lemma EspIs(i: nat, c: Cpu, d: Cpu, f: nat, z: set<nat>, h: nat)
    requires Stage(i, c, d, f, z, h)
    ensures d.esp == EspBefore(i, c.esp) && Limit(d.esp) == Limit(c.esp) - Lower(i, c.esp)
    ensures Limit(c.esp) >= UXBASE
  {
    BeforeIs(i, c, f);
    if i <= 13 {
      NoWrap(Limit(c.esp) - Below(i));
    } else {
      LimitFalls(c.esp);
    }
  }

  /** Enough for segment j of a handler whose return address is at a, and for what follows it. */
  lemma SegmentNeed(esp: Word, k: Fault, j: nat, a: nat, sp: Word)
    requires j < |k.segments| && a + 64 == Limit(esp)
    requires a - k.segments[j].depth >= UXBASE ==>
               sp == a - k.segments[j].depth && Limit(sp) == Limit(esp) - 64 - k.segments[j].depth
    ensures a - k.segments[j].depth < UXBASE ==> !Enough(esp, HandlerNeed(esp, k, j))
    ensures a - k.segments[j].depth >= UXBASE ==>
              (Enough(esp, HandlerNeed(esp, k, j)) <==>
                 Enough(sp, Need(sp, k.segments[j].nested)) && Enough(esp, HandlerNeed(esp, k, j + 1)))
  {
    var g := k.segments[j];
    if a - g.depth >= UXBASE {
      assert Wrap(Limit(esp) - 64 - g.depth) == sp;
    }
  }

  lemma HandlerDone(c: Cpu, d: Cpu, k: Fault, j: nat, f: nat, a: nat, z: set<nat>, h: nat)
    requires InHandler(c, d.mem, f, a, z, h) && Fits(k, h) && 4 * h + 8 < TWO32
    requires forall x :: x in z ==> !OnUx(x)
    ensures Handler(d, k, j, a, z).Done? <==> Enough(c.esp, HandlerNeed(c.esp, k, j))
    decreases k, 1, |k.segments| - j, 0
  {
    Geometry(c, f);
    if j < |k.segments| {
      var g := k.segments[j];
      var n := RunCode(d, g.code, a, z).(esp := Wrap(a - g.depth), eip := g.eip);
      if a - g.depth >= UXBASE {
        SegmentRuns(c, d, g, f, a, z, h);
      }
      SegmentNeed(c.esp, k, j, a, n.esp);
      if a - g.depth >= UXBASE {
        TakeRestores(n, g.nested, z, h - 1);
        TakeDone(n, g.nested, z, h - 1);
        HandlerGoesOn(d, k, j, a, z);
        SegmentDone(c, n, Take(n, g.nested, z), k, j, f, a, z, h);
      }
    }
  }

  /** The handler after segment j, by definition. */
  lemma HandlerGoesOn(d: Cpu, k: Fault, j: nat, a: nat, z: set<nat>)
    requires j < |k.segments| && a - k.segments[j].depth >= UXBASE
    ensures var g := k.segments[j];
            var o := Take(RunCode(d, g.code, a, z).(esp := Wrap(a - g.depth), eip := g.eip), g.nested, z);
            Handler(d, k, j, a, z).Done? <==> o.Done? && o.cpu.eip == g.eip && Handler(o.cpu, k, j + 1, a, z).Done?
  {
  }

  /** The handler after the fault at the end of segment j came out as o. */
  lemma SegmentDone(c: Cpu, n: Cpu, o: Outcome, k: Fault, j: nat, f: nat, a: nat, z: set<nat>, h: nat)
    requires InHandler(c, n.mem, f, a, z, h) && Fits(k, h) && 4 * h + 8 < TWO32 && j < |k.segments|
    requires OnUx(n.esp) && n.esp <= a && Restored(n, o, z, h - 1) && forall x :: x in z ==> !OnUx(x)
    ensures (o.Done? && Handler(o.cpu, k, j + 1, a, z).Done?) <==>
              o.Done? && Enough(c.esp, HandlerNeed(c.esp, k, j + 1))
    decreases k, 1, |k.segments| - j - 1, 1
  {
    if o.Done? {
      SegmentKept(c, n, o.cpu.mem, f, a, z, h);
      HandlerDone(c, o.cpu, k, j + 1, f, a, z, h);
    }
  }

  lemma TakeAllDone(c: Cpu, ks: seq<Fault>, lower: nat, z: set<nat>, h: nat)
    requires (forall j :: 0 <= j < |ks| ==> Fits(ks[j], h)) && 4 * h + 8 < TWO32 && Apart(z, c.esp, h)
    ensures TakeAll(c, ks, z).Done? <==> ks == [] || Limit(c.esp) + lower - AllNeed(c.esp, lower, ks) >= UXBASE
    decreases ks, 5, 0
  {
    if ks != [] {
      TakeRestores(c, ks[0], z, h);
      TakeDone(c, ks[0], z, h);
      var o := Take(c, ks[0], z);
      if o.Done? {
        TakeAllDone(o.cpu, ks[1..], lower, z, h);
      }
    }
  }

  lemma InstructionDone(c: Cpu, e: Cpu, k: Fault, i: nat, f: nat, z: set<nat>, h: nat)
    requires Stage(i, c, e, f, z, h) && i < 14 && Fits(k, h) && 4 * h + 8 < TWO32 && Apart(z, c.esp, h)
    ensures i == 2 ==> (Instruction(e, k, i, z).Done? <==> Enough(c.esp, Max(64, HandlerNeed(c.esp, k, 0))))
    ensures i == 0 ==> (Instruction(e, k, i, z).Done? <==> Enough(c.esp, 60))
    ensures i != 0 && i != 2 ==> Instruction(e, k, i, z).Done?
    decreases k, 2, 1
  {
    Geometry(c, f);
    if i == 2 && e.esp - 4 >= UXBASE {
      CallEnters(c, e, f, z, h);
      var a := e.esp - 4;
      HandlerDone(c, e.(esp := a, mem := Store(e.mem, a, Wrap(e.eip + 1))), k, 0, f, a, z, h);
    }
  }

  /** The faults before instruction i. */
  lemma PauseDone(c: Cpu, d: Cpu, k: Fault, i: nat, f: nat, z: set<nat>, h: nat)
    requires Stage(i, c, d, f, z, h) && Fits(k, h) && 4 * h + 8 < TWO32 && Apart(z, c.esp, h) && i < |k.pauses|
    ensures var o := TakeAll(d, k.pauses[i].nested, z);
            && (o.Done? <==> Enough(c.esp, AllNeed(EspBefore(i, c.esp), Lower(i, c.esp), k.pauses[i].nested)))
            && (o.Done? ==> Stage(i, c, o.cpu, f, z, h)) && !o.Lost?
    decreases k, 2, 2
  {
    EspIs(i, c, d, f, z, h);
    ApartNested(i, c, d, f, z, h);
    TakeAllRestores(d, k.pauses[i].nested, z, h - 1);
    TakeAllDone(d, k.pauses[i].nested, Lower(i, c.esp), z, h - 1);
    var o := TakeAll(d, k.pauses[i].nested, z);
    if o.Done? {
      StageNested(i, c, d, o.cpu, f, z, h);
    }
  }

  /** Enough for instruction i and what follows it, in terms of the parts. */
  lemma NeedParts(esp: Word, k: Fault, i: nat)
    requires i <= 14 && Limit(esp) >= UXBASE
    ensures Enough(esp, RunNeed(esp, k, i)) <==>
              && (i < |k.pauses| ==> Enough(esp, AllNeed(EspBefore(i, esp), Lower(i, esp), k.pauses[i].nested)))
              && (i <= 2 ==> Enough(esp, Max(64, HandlerNeed(esp, k, 0))))
              && Enough(esp, PausesNeed(esp, k, i + 1))
    ensures Enough(esp, RunNeed(esp, k, i + 1)) <==>
              && (i <= 1 ==> Enough(esp, Max(64, HandlerNeed(esp, k, 0))))
              && Enough(esp, PausesNeed(esp, k, i + 1))
  {
  }

  /** From instruction i on, once the faults before it are over. */
  lemma RestDone(c: Cpu, e: Cpu, k: Fault, i: nat, f: nat, z: set<nat>, h: nat)
    requires Stage(i, c, e, f, z, h) && Fits(k, h) && 4 * h + 8 < TWO32 && Apart(z, c.esp, h) && i < 14
    ensures var o := Instruction(e, k, i, z);
            (o.Done? && RunFrom(o.cpu, k, i + 1, z).Done?) <==>
              && (i <= 2 ==> Enough(c.esp, Max(64, HandlerNeed(c.esp, k, 0))))
              && Enough(c.esp, PausesNeed(c.esp, k, i + 1))
    decreases k, 3, 14 - i, 2
  {
    InstructionStage(c, e, k, i, f, z, h);
    InstructionDone(c, e, k, i, f, z, h);
    EspIs(i, c, e, f, z, h);
    NextDone(c, Instruction(e, k, i, z), k, i, f, z, h);
  }

  /** The rest of the run after instruction i came out as o. */
  lemma NextDone(c: Cpu, o: Outcome, k: Fault, i: nat, f: nat, z: set<nat>, h: nat)
    requires Fits(k, h) && 4 * h + 8 < TWO32 && Apart(z, c.esp, h) && i < 14 && Limit(c.esp) >= UXBASE
    requires o.Destroyed? || (o.Done? && Stage(i + 1, c, o.cpu, f, z, h))
    requires i == 2 ==> (o.Done? <==> Enough(c.esp, Max(64, HandlerNeed(c.esp, k, 0))))
    requires i == 0 ==> (o.Done? <==> Enough(c.esp, 60))
    requires i != 0 && i != 2 ==> o.Done?
    ensures (o.Done? && RunFrom(o.cpu, k, i + 1, z).Done?) <==>
              && (i <= 2 ==> Enough(c.esp, Max(64, HandlerNeed(c.esp, k, 0))))
              && Enough(c.esp, PausesNeed(c.esp, k, i + 1))
    decreases k, 3, 14 - i, 1
  {
    NeedParts(c.esp, k, i);
    if o.Done? {
      RunDone(c, o.cpu, k, i + 1, f, z, h);
    }
  }

  lemma RunDone(c: Cpu, d: Cpu, k: Fault, i: nat, f: nat, z: set<nat>, h: nat)
    requires Stage(i, c, d, f, z, h) && Fits(k, h) && 4 * h + 8 < TWO32 && Apart(z, c.esp, h)
    ensures RunFrom(d, k, i, z).Done? <==> Enough(c.esp, RunNeed(c.esp, k, i))
    decreases k, 3, 15 - i, 0
  {
    EspIs(i, c, d, f, z, h);
    NeedParts(c.esp, k, i);
    var e := d;
    if i < |k.pauses| {
      PauseDone(c, d, k, i, f, z, h);
      var o := TakeAll(d, k.pauses[i].nested, z);
      if o.Destroyed? {
        return;
      }
      e := o.cpu;
    }
    if i < 14 {
      RestDone(c, e, k, i, f, z, h);
    }
  }

  /** A fault unwinds exactly when the exception stack has the bytes it needs; otherwise the
      environment is destroyed. */
  lemma TakeDone(c: Cpu, k: Fault, z: set<nat>, h: nat)
    requires Fits(k, h) && 4 * h + 8 < TWO32 && Apart(z, c.esp, h)
    ensures Take(c, k, z).Done? <==> Enough(c.esp, Need(c.esp, k))
    decreases k, 4, 0
  {
    if FrameAddr(c.esp) >= UXBASE {
      StageStart(c, k, z, h);
      RunDone(c, PageFaultHandler(c, k).cpu, k, 0, FrameAddr(c.esp), z, h);
    }
  }

  /** Nested user page faults, in full: with the bytes it needs the fault is undone without a trace,
      and without them the environment is destroyed. */
  lemma NestedFaultsUnwind(c: Cpu, k: Fault, z: set<nat>, h: nat)
    requires Fits(k, h) && 4 * h + 8 < TWO32 && Apart(z, c.esp, h)
    ensures var o := Take(c, k, z);
            if Enough(c.esp, Need(c.esp, k)) then o.Done? && Restored(c, o, z, h) else o.Destroyed?
  {
    TakeRestores(c, k, z, h);
    TakeDone(c, k, z, h);
  }
}
