/**
 The interrupt stubs of ksrc/idt.s on a processor with a word-addressed stack.  Further
 interrupts may arrive at every instruction boundary of a stub and anywhere in a handler,
 nested to any depth.
 */
module Interrupts {
  import opened Words

  const KERNEL_CS: Word := 0x8

  /** The general registers but ESP. */
  datatype Regs = Regs(eax: Word, ecx: Word, edx: Word, ebx: Word, ebp: Word, esi: Word, edi: Word)

  /** One interrupt and all that happens until it returns.  `flags` is what the gate and the
      stub's own compare and additions leave in EFLAGS; `events` arrive at instruction
      boundaries of the stub; `body` is what the handler does. */
  datatype Interrupt = Interrupt(vector: nat, error: Word, flags: Word, events: Events, body: Body)

  datatype Events = Quiet | Event(boundary: nat, interrupt: Interrupt, rest: Events)

  /** A handler computes, with any registers and any words pushed below its frame, or is
      interrupted, and at last returns, with anything in the registers a cdecl function may
      clobber. */
  datatype Body =
    | Work(regs: Regs, eip: Word, flags: Word, pushed: seq<Word>, rest: Body)
    | Nested(interrupt: Interrupt, rest: Body)
    | Return(eax: Word, ecx: Word, edx: Word, flags: Word)

  // --- Error codes ---

  /** Vectors for which the processor pushes an error code (Intel SDM Vol. 3A, section 6.13
      and table 6-1). */
  predicate HardwarePushesError(v: nat) { v == 8 || 10 <= v <= 14 || v == 17 || v == 21 }

  /** The stub's own list, as its `.if` has it. */
  predicate StubExpectsError(v: nat) { v == 8 || (v >= 10 && v <= 14) || v == 17 }

  predicate Aligned(v: nat) { HardwarePushesError(v) <==> StubExpectsError(v) }

  /** The gates idt_init fills in. */
  predicate Installed(v: nat) { v < 255 && v != 15 && !(20 < v < 32) }

  /** Stub and processor agree on every vector but 21 (control protection), and so on every
      vector that has a gate. */
  lemma AlignedExactly(v: nat)
    ensures Aligned(v) <==> v != 21
    ensures Installed(v) ==> Aligned(v)
  {
  }

  /** A slot of the table: the stub it leads to, by a trap or an interrupt gate. */
  datatype Gate = NoGate | TrapGate(stub: nat) | InterruptGate(stub: nat)

  /** The tables after idt_init: exceptions by trap gates, vectors from 32 on by interrupt gates,
      nothing for the reserved ones, and a callback exactly where there is a gate. */
  ghost predicate TablesSet(gates: seq<Gate>, callbacks: seq<Word>, exception: Word, interrupt: Word, n: nat)
    requires n <= |gates| == |callbacks|
  {
    forall v :: 0 <= v < n ==>
      && gates[v] == (if v == 15 || 21 <= v <= 31 then NoGate else if v <= 31 then TrapGate(v) else InterruptGate(v))
      && callbacks[v] == if v == 15 || 21 <= v <= 31 then 0 else if v <= 31 then exception else interrupt
  }

  /** idt_init: both tables cleared, then filled in one loop. */
  method IdtInit(gates: array<Gate>, callbacks: array<Word>, exception: Word, interrupt: Word)
    requires gates.Length == callbacks.Length == 255
    modifies gates, callbacks
    ensures TablesSet(gates[..], callbacks[..], exception, interrupt, 255)
    ensures forall v :: 0 <= v < 255 ==> (Installed(v) <==> gates[v] != NoGate)
  {
    forall v | 0 <= v < 255 { gates[v] := NoGate; }
    forall v | 0 <= v < 255 { callbacks[v] := 0; }
    for idx := 0 to 255
      invariant TablesSet(gates[..], callbacks[..], exception, interrupt, idx)
      invariant forall v :: idx <= v < 255 ==> gates[v] == NoGate && callbacks[v] == 0
    {
      if idx == 15 || (idx > 20 && idx < 32) {
      } else if idx < 32 {
        callbacks[idx] := exception;
        gates[idx] := TrapGate(idx);
      } else {
        callbacks[idx] := interrupt;
        gates[idx] := InterruptGate(idx);
      }
    }
    assert forall v :: 0 <= v < 255 ==> gates[..][v] == gates[v];
  }

  // --- Well-formed interrupt trees, and the stack they take ---

  /** Vector, return address, saved registers, error code and processor frame. */
  const FRAME_WORDS: nat := 14

  predicate Fine(i: Interrupt) { i.vector < 255 && Aligned(i.vector) && FineEvents(i.events) && FineBody(i.body) }

  predicate FineEvents(e: Events) { e.Event? ==> Fine(e.interrupt) && FineEvents(e.rest) }

  predicate FineBody(b: Body) {
    match b
    case Work(_, _, _, _, rest) => FineBody(rest)
    case Nested(i, rest) => Fine(i) && FineBody(rest)
    case Return(_, _, _, _) => true
  }

  /** A bound on the stack words used below the interrupted ESP. */
  function Need(i: Interrupt): nat { FRAME_WORDS + Max(NeedEvents(i.events), NeedBody(i.body, 0)) }

  function NeedEvents(e: Events): nat {
    match e
    case Quiet => 0
    case Event(_, i, rest) => Max(Need(i), NeedEvents(rest))
  }

  /** `local` words are on the handler's stack at this point. */
  function NeedBody(b: Body, local: nat): nat {
    match b
    case Work(_, _, _, pushed, rest) => Max(|pushed|, NeedBody(rest, |pushed|))
    case Nested(i, rest) => Max(local + Need(i), NeedBody(rest, local))
    case Return(_, _, _, _) => 0
  }

  // --- Which handlers run ---

  /** A handler entered: how deeply its interrupt is nested, its vector, the address called. */
  datatype Entered = Entered(depth: nat, vector: nat, address: Word)

  /** The entries made at depth `d` itself. */
  function At(log: seq<Entered>, d: nat): seq<Entered> {
    if log == [] then []
    else
      var last := log[|log| - 1];
      At(log[..|log| - 1], d) + (if last.depth == d then [last] else [])
  }

  /** `log'` adds to `log` only entries at depth `d` or deeper, each at the callback of its
      vector, none at NULL. */
  ghost predicate Grew(log: seq<Entered>, log': seq<Entered>, callbacks: seq<Word>, d: nat) {
    && log <= log'
    && forall k :: |log| <= k < |log'| ==>
         && log'[k].depth >= d && log'[k].vector < |callbacks|
         && log'[k].address == callbacks[log'[k].vector] != 0
  }

  lemma {:induction false} DeeperOnly(log: seq<Entered>, log': seq<Entered>, callbacks: seq<Word>, d: nat)
    requires Grew(log, log', callbacks, d + 1)
    ensures At(log', d) == At(log, d)
  {
    if |log| < |log'| {
      var init := log'[..|log'| - 1];
      assert log <= init;
      DeeperOnly(log, init, callbacks, d);
      assert log'[|log'| - 1].depth > d;
    } else {
      assert log == log';
    }
  }

  lemma AtEntered(log: seq<Entered>, e: Entered)
    ensures At(log + [e], e.depth) == At(log, e.depth) + [e]
  {
    assert (log + [e])[..|log|] == log;
  }

  /** Everything an interrupted program can observe: registers, control state, and its stack
      from ESP up. */
  datatype Context = Context(r: Regs, eip: Word, cs: Word, eflags: Word, top: seq<Word>)

  /** What PUSHA leaves, in the order of idt_registers_t. */
  function SavedRegs(r: Regs, espAtPusha: Word): (s: seq<Word>)
    ensures |s| == 8
  {
    [r.edi, r.esi, r.ebp, espAtPusha, r.ebx, r.edx, r.ecx, r.eax]
  }

  /** The error code and the frame the processor pushed. */
  function CpuFrame(error: Word, c: Context): (s: seq<Word>)
    ensures |s| == 4
  {
    [error, c.eip, c.cs, c.eflags]
  }

  /** A handler's arguments: the vector, the registers, the error code and the frame of the
      interrupted context.  The saved ESP is the one PUSHA saw, four words below the
      interrupted one. */
  function Arguments(vector: Word, error: Word, espAtPusha: Word, c: Context): seq<Word> {
    [vector] + (SavedRegs(c.r, espAtPusha) + (CpuFrame(error, c) + c.top))
  }

  /** The error code a handler sees: the processor's, or the stub's 0. */
  function ErrorSeen(i: Interrupt): Word { if HardwarePushesError(i.vector) then i.error else 0 }

  /** The words a handler finds above its return address, one by one: the vector, then
      idt_registers_t, idt_error_t and idt_cpu_frame_t. */
  lemma ArgumentsLayout(vector: Word, error: Word, espAtPusha: Word, c: Context)
    ensures var a := Arguments(vector, error, espAtPusha, c);
            && |a| == 13 + |c.top| && a[0] == vector
            && a[1] == c.r.edi && a[2] == c.r.esi && a[3] == c.r.ebp && a[4] == espAtPusha
            && a[5] == c.r.ebx && a[6] == c.r.edx && a[7] == c.r.ecx && a[8] == c.r.eax
            && a[9] == error && a[10] == c.eip && a[11] == c.cs && a[12] == c.eflags && a[13..] == c.top
  {
  }

  /** The error word is the processor's own on vectors 8, 10 to 14, 17 and 21, and 0 elsewhere. */
  lemma ErrorWord(i: Interrupt)
    ensures ErrorSeen(i) ==
            if i.vector in {8, 10, 11, 12, 13, 14, 17, 21} then i.error else 0
    ensures StubExpectsError(i.vector) <==> i.vector in {8, 10, 11, 12, 13, 14, 17}
  {
  }

  class Cpu {
    const stack: array<Word>
    const callbacks: seq<Word>
    const stubAddress: (nat, nat) -> Word
    var r: Regs
    var esp: Word
    var eip: Word
    var cs: Word
    var eflags: Word
    /** How many interrupts are under way, and every handler entered so far. */
    ghost var depth: nat
    ghost var log: seq<Entered>

    constructor (stack: array<Word>, callbacks: seq<Word>, stubAddress: (nat, nat) -> Word, r: Regs, eip: Word)
      requires stack.Length < 0x4000_0000 && |callbacks| == 255
      ensures Valid() && this.stack == stack && Now() == Context(r, eip, KERNEL_CS, 0, [])
    {
      this.stack, this.callbacks, this.stubAddress := stack, callbacks, stubAddress;
      this.r, this.eip := r, eip;
      esp, cs, eflags := 4 * stack.Length, KERNEL_CS, 0;
      depth, log := 0, [];
    }

    predicate Valid()
      reads this
    {
      stack.Length < 0x4000_0000 && |callbacks| == 255 && esp % 4 == 0 && esp / 4 <= stack.Length
    }

    /** The stack from ESP up. */
    function Top(): seq<Word>
      requires Valid()
      reads this, stack
    {
      stack[esp / 4..]
    }

    function Now(): Context
      requires Valid()
      reads this, stack
    {
      Context(r, eip, cs, eflags, Top())
    }

    /** Free words below ESP. */
    function Room(): nat
      requires Valid()
      reads this
    {
      esp / 4
    }

    method Push(v: Word)
      requires Valid() && Room() >= 1
      modifies this`esp, stack
      ensures Valid() && Top() == [v] + old(Top()) && Room() == old(Room()) - 1
    {
      esp := esp - 4;
      stack[esp / 4] := v;
    }

    method Pop() returns (v: Word)
      requires Valid() && Top() != []
      modifies this`esp
      ensures Valid() && old(Top()) == [v] + Top() && Room() == old(Room()) + 1
    {
      v := stack[esp / 4];
      esp := esp + 4;
    }

    /** add $4, %esp: drops a word and sets the flags. */
    method AddEsp4(flags: Word)
      requires Valid() && Top() != []
      modifies this`esp, this`eflags
      ensures Valid() && Top() == old(Top())[1..] && Room() == old(Room()) + 1 && eflags == flags
    {
      esp := esp + 4;
      eflags := flags;
    }

    method PushThree(a: Word, b: Word, c: Word)
      requires Valid() && Room() >= 3
      modifies this`esp, stack
      ensures Valid() && Top() == [c, b, a] + old(Top()) && Room() == old(Room()) - 3
    {
      Push(a);
      Push(b);
      Push(c);
    }

    method PushFour(a: Word, b: Word, c: Word, d: Word)
      requires Valid() && Room() >= 4
      modifies this`esp, stack
      ensures Valid() && Top() == [d, c, b, a] + old(Top()) && Room() == old(Room()) - 4
    {
      ghost var t := Top();
      Push(a);
      Push(b);
      assert Top() == [b, a] + t;
      Push(c);
      Push(d);
    }

    method Pusha()
      requires Valid() && Room() >= 8
      modifies this`esp, stack
      ensures Valid() && Room() == old(Room()) - 8
      ensures Top() == SavedRegs(r, old(esp)) + old(Top())
    {
      var esp0 := esp;
      PushFour(r.eax, r.ecx, r.edx, r.ebx);
      PushFour(esp0, r.ebp, r.esi, r.edi);
    }

    /** POPA skips the saved ESP. */
    method Popa(ghost saved: Regs, ghost espAtPusha: Word, ghost rest: seq<Word>)
      requires Valid() && Top() == SavedRegs(saved, espAtPusha) + rest
      modifies this`esp, this`r
      ensures Valid() && Room() == old(Room()) + 8
      ensures Top() == rest && r == saved
    {
      var k := esp / 4;
      assert forall j :: 0 <= j < 8 ==> stack[k + j] == Top()[j] == SavedRegs(saved, espAtPusha)[j];
      r := Regs(stack[k + 7], stack[k + 6], stack[k + 5], stack[k + 4], stack[k + 2], stack[k + 1], stack[k]);
      assert stack[k + 8..] == Top()[8..] == rest;
      esp := esp + 32;
    }

    method Iret()
      requires Valid() && |Top()| >= 3
      modifies this`esp, this`eip, this`cs, this`eflags
      ensures Valid() && Room() == old(Room()) + 3
      ensures var t := old(Top()); eip == t[0] && cs == t[1] && eflags == t[2] && Top() == t[3..]
    {
      eip := Pop();
      cs := Pop();
      eflags := Pop();
    }

    /** An instruction boundary of the stub: EIP advances, and whatever is pending happens. */
    method Boundary(i: Interrupt, k: nat)
      requires Valid() && FineEvents(i.events) && NeedEvents(i.events) <= Room()
      modifies this, stack
      ensures Valid() && Now() == old(Now()).(eip := stubAddress(i.vector, k)) && esp == old(esp)
      ensures depth == old(depth) && Grew(old(log), log, callbacks, depth + 1)
      decreases i, 1
    {
      eip := stubAddress(i.vector, k);
      Arrivals(i.events, k);
    }

    /** The events of boundary `k`. */
    method Arrivals(e: Events, k: nat)
      requires Valid() && FineEvents(e) && NeedEvents(e) <= Room()
      modifies this, stack
      ensures Valid() && Now() == old(Now()) && esp == old(esp)
      ensures depth == old(depth) && Grew(old(log), log, callbacks, depth + 1)
      decreases e
    {
      if e.Event? {
        if e.boundary == k { Deliver(e.interrupt); }
        Arrivals(e.rest, k);
      }
    }

    /** The handler's activity, from a frame whose return address is at the top of `base`. */
    method Run(b: Body, frame: Word, ghost base: seq<Word>, local: nat)
      requires Valid() && FineBody(b)
      requires frame % 4 == 0 && frame / 4 <= stack.Length && stack[frame / 4..] == base
      requires esp + 4 * local == frame && NeedBody(b, local) <= frame / 4
      modifies this, stack
      ensures Valid() && esp == frame && Top() == base && cs == old(cs)
      ensures depth == old(depth) && Grew(old(log), log, callbacks, depth + 1)
      decreases b
    {
      match b
      case Work(regs, eip', flags, pushed, rest) =>
        esp := frame;
        PushAll(pushed);
        r, eip, eflags := regs, eip', flags;
        Run(rest, frame, base, |pushed|);
      case Nested(i, rest) =>
        Deliver(i);
        assert Top()[local..] == stack[frame / 4..];
        Run(rest, frame, base, local);
      case Return(eax, ecx, edx, flags) =>
        esp := frame;
        r, eflags := r.(eax := eax, ecx := ecx, edx := edx), flags;
    }

    method PushAll(words: seq<Word>)
      requires Valid() && Room() >= |words|
      modifies this`esp, stack
      ensures Valid() && Room() == old(Room()) - |words|
      ensures stack[old(esp) / 4..] == old(Top())
    {
      for k := 0 to |words|
        invariant Valid() && Room() == old(Room()) - k && old(esp) / 4 <= stack.Length
        invariant stack[old(esp) / 4..] == old(Top())
      {
        ghost var t := Top();
        Push(words[k]);
        assert stack[old(esp) / 4..] == Top()[k + 1..] == t[k..];
      }
    }

    /** A cdecl handler.  It is entered at `target` with the return address and its arguments on
        the stack and returns with EBX, EBP, ESI, EDI and ESP as it found them, its arguments
        untouched. */
    method Handler(i: Interrupt, target: Word, ghost ret: Word, ghost espAtPusha: Word, ghost c: Context)
      requires Valid() && FineBody(i.body) && NeedBody(i.body, 0) <= Room() && i.vector < 255
      requires Top() == [ret] + Arguments(i.vector, ErrorSeen(i), espAtPusha, c)
      modifies this, stack
      ensures Valid() && Top() == old(Top())[1..] && Room() == old(Room()) + 1
      ensures eip == ret && cs == old(cs)
      ensures depth == old(depth)
      ensures Grew(old(log) + [Entered(depth, i.vector, target)], log, callbacks, depth + 1)
      decreases i, 0
    {
      eip := target;
      log := log + [Entered(depth, i.vector, eip)];
      var saved, frame := r, esp;
      ghost var base := Top();
      Run(i.body, frame, base, 0);
      r := Regs(r.eax, r.ecx, r.edx, saved.ebx, saved.ebp, saved.esi, saved.edi);
      assert Top()[0] == base[0] == ret;
      eip := Pop();
    }

    /** Delivery, and a dummy error code where the processor pushed none. */
    method Normalize(i: Interrupt)
      requires Valid() && Fine(i) && Need(i) <= Room()
      modifies this, stack
      ensures Valid() && Room() == old(Room()) - 4 && r == old(r)
      ensures Top() == CpuFrame(ErrorSeen(i), old(Now())) + old(Top())
      ensures depth == old(depth) && Grew(old(log), log, callbacks, depth + 1)
      decreases i, 2
    {
      Accept(i);
      Boundary(i, 0);
      if !StubExpectsError(i.vector) { Push(0); }
      assert Top() == CpuFrame(ErrorSeen(i), old(Now())) + old(Top());
      Boundary(i, 1);
    }

    /** The stub up to the saved registers and the vector. */
    method Enter(i: Interrupt)
      requires Valid() && Fine(i) && Need(i) <= Room()
      modifies this, stack
      ensures Valid() && Room() == old(Room()) - (FRAME_WORDS - 1)
      ensures Top() == Arguments(i.vector, ErrorSeen(i), old(esp) - 16, old(Now()))
      ensures depth == old(depth) && Grew(old(log), log, callbacks, depth + 1)
      decreases i, 3
    {
      Normalize(i);
      Pusha();
      Boundary(i, 2);
      Push(i.vector);
      Boundary(i, 3);
    }

    /** The stub's lookup of the callback and, when there is one, its call: the interrupt itself
        enters its vector's callback once, and nothing when that is NULL. */
    method Dispatch(i: Interrupt, ghost espAtPusha: Word, ghost c: Context)
      requires Valid() && Fine(i) && Need(i) <= Room() + FRAME_WORDS - 1
      requires Top() == Arguments(i.vector, ErrorSeen(i), espAtPusha, c)
      modifies this, stack
      ensures Valid() && Room() == old(Room()) && Top() == old(Top())
      ensures depth == old(depth) && Grew(old(log), log, callbacks, depth)
      ensures At(log, depth) == At(old(log), depth) +
                (if callbacks[i.vector] != 0 then [Entered(depth, i.vector, callbacks[i.vector])] else [])
      decreases i, 3
    {
      Lookup(i);
      if r.eax != 0 { Call(i, espAtPusha, c); }
      ghost var l1 := log;
      Boundary(i, 7);
      DeeperOnly(l1, log, callbacks, depth);
    }

    /** The load of the callback and the comparison. */
    method Lookup(i: Interrupt)
      requires Valid() && Fine(i) && Need(i) <= Room() + FRAME_WORDS - 1
      modifies this, stack
      ensures Valid() && Room() == old(Room()) && Top() == old(Top()) && r.eax == callbacks[i.vector]
      ensures depth == old(depth) && Grew(old(log), log, callbacks, depth) && At(log, depth) == At(old(log), depth)
      decreases i, 2
    {
      ghost var l0 := log;
      r := r.(eax := callbacks[i.vector]);
      Boundary(i, 4);
      eflags := i.flags;
      Boundary(i, 5);
      DeeperOnly(l0, log, callbacks, depth);
    }

    /** call *%eax, with the callback in EAX. */
    method Call(i: Interrupt, ghost espAtPusha: Word, ghost c: Context)
      requires Valid() && Fine(i) && Need(i) <= Room() + FRAME_WORDS - 1
      requires Top() == Arguments(i.vector, ErrorSeen(i), espAtPusha, c)
      requires r.eax == callbacks[i.vector] != 0
      modifies this, stack
      ensures Valid() && Room() == old(Room()) && Top() == old(Top())
      ensures depth == old(depth) && Grew(old(log), log, callbacks, depth)
      ensures At(log, depth) == At(old(log), depth) + [Entered(depth, i.vector, callbacks[i.vector])]
      decreases i, 2
    {
      ghost var l0 := log;
      Boundary(i, 6);
      DeeperOnly(l0, log, callbacks, depth);
      ghost var entered := log + [Entered(depth, i.vector, r.eax)];
      AtEntered(log, Entered(depth, i.vector, r.eax));
      Push(stubAddress(i.vector, 7));
      Handler(i, r.eax, stubAddress(i.vector, 7), espAtPusha, c);
      DeeperOnly(entered, log, callbacks, depth);
    }

    /** The stub from label 1 on. */
    method Leave(i: Interrupt, ghost espAtPusha: Word, ghost c: Context)
      requires Valid() && Fine(i) && Need(i) <= Room() + FRAME_WORDS - 1
      requires Top() == Arguments(i.vector, ErrorSeen(i), espAtPusha, c)
      modifies this, stack
      ensures Valid() && Room() == old(Room()) + FRAME_WORDS - 1 && Now() == c
      ensures depth == old(depth) && Grew(old(log), log, callbacks, depth + 1)
      decreases i, 3
    {
      AddEsp4(i.flags);
      Boundary(i, 8);
      Popa(c.r, espAtPusha, CpuFrame(ErrorSeen(i), c) + c.top);
      Boundary(i, 9);
      Finish(i, c);
    }

    method Finish(i: Interrupt, ghost c: Context)
      requires Valid() && FineEvents(i.events) && NeedEvents(i.events) <= Room()
      requires r == c.r && Top() == CpuFrame(ErrorSeen(i), c) + c.top
      modifies this, stack
      ensures Valid() && Room() == old(Room()) + 4 && Now() == c
      ensures depth == old(depth) && Grew(old(log), log, callbacks, depth + 1)
      decreases i, 2
    {
      AddEsp4(i.flags);
      assert Top() == [c.eip, c.cs, c.eflags] + c.top;
      Boundary(i, 10);
      Iret();
    }

    /** An interrupt from delivery to IRET.  Whatever arrives meanwhile, at any depth, the
        interrupted program cannot tell, the interrupt itself enters its vector's callback once
        or nothing when that is NULL, and nothing but registered callbacks is entered. */
    method Deliver(i: Interrupt)
      requires Valid() && Fine(i) && Need(i) <= Room()
      modifies this, stack
      ensures Valid() && Now() == old(Now()) && esp == old(esp)
      ensures depth == old(depth) && Grew(old(log), log, callbacks, depth + 1)
      ensures At(log, depth + 1) == At(old(log), depth + 1) +
                (if callbacks[i.vector] != 0 then [Entered(depth + 1, i.vector, callbacks[i.vector])] else [])
      decreases i, 4
    {
      ghost var c, espAtPusha := Now(), esp - 16;
      depth := depth + 1;
      ghost var l0 := log;
      Enter(i);
      DeeperOnly(l0, log, callbacks, depth);
      Dispatch(i, espAtPusha, c);
      ghost var l1 := log;
      Leave(i, espAtPusha, c);
      DeeperOnly(l1, log, callbacks, depth);
      depth := depth - 1;
    }

    /** What the processor does on delivery. */
    method Accept(i: Interrupt)
      requires Valid() && Room() >= 4
      modifies this`esp, this`cs, this`eflags, stack
      ensures Valid() && cs == 0x8
      ensures var frame := [old(eip), old(cs), old(eflags)] + old(Top());
              if HardwarePushesError(i.vector) then Top() == [i.error] + frame && Room() == old(Room()) - 4
              else Top() == frame && Room() == old(Room()) - 3
    {
      PushThree(eflags, cs, eip);
      if HardwarePushesError(i.vector) { Push(i.error); }
      cs := KERNEL_CS;
      eflags := i.flags;
    }
  }
}
