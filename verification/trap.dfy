/** Supervisor trap dispatch (axhal/src/riscv64/trap.rs).

    `scause` is decoded as in section 4.1.9 of the RISC-V Privileged
    Architecture: on RV64 bit 63 is the Interrupt bit and the remaining bits
    are the exception code; exception code 3 is Breakpoint. The handler
    registered for interrupts is not part of this model: its invocations are
    recorded as a list of the arguments it was called with. */
module Trap {
  import opened Fallible

  const INTERRUPT_BIT: int := 0x8000_0000_0000_0000

  /** Exception code 3, the breakpoint exception. */
  const BREAKPOINT: nat := 3

  /** Width in bytes of the compressed `c.ebreak` instruction. */
  const EBREAK_WIDTH: nat := 2

  datatype Cause = Interrupt(code: nat) | Exception(code: nat)

  /** `scause::read().cause()`. */
  function DecodeScause(bits: u64): (c: Cause)
    ensures c.code < INTERRUPT_BIT
    ensures c.Interrupt? <==> bits >= INTERRUPT_BIT
  {
    if bits >= INTERRUPT_BIT then Interrupt(bits - INTERRUPT_BIT) else Exception(bits)
  }

  /** The `scause` value that reports cause `c`. */
  function EncodeScause(c: Cause): (bits: u64)
    requires c.code < INTERRUPT_BIT
    ensures DecodeScause(bits) == c
  {
    match c
    case Interrupt(code) => INTERRUPT_BIT + code
    case Exception(code) => code
  }

  /** Every `scause` value is the encoding of the cause it decodes to. */
  lemma EncodeDecodeScause(bits: u64)
    ensures EncodeScause(DecodeScause(bits)) == bits
  {
  }

  /** The saved trap frame: the general registers, `sepc` and `sstatus`. Its
      declaring file is not part of this model. */
  datatype TrapFrame = TrapFrame(regs: seq<u64>, sepc: u64, sstatus: u64)

  /** How a trap ends: the frame to resume with, plus the arguments of every
      call made to the registered IRQ handler; or a panic. */
  datatype TrapOutcome =
    | Resumed(frame: TrapFrame, irqCalls: seq<u64>)
    | Unhandled(cause: Cause, frame: TrapFrame)   // the "Unhandled trap" panic
    | Overflowed(panic: Panic)                    // a debug-build overflow check

  /** `handle_breakpoint`: `*sepc += 2`, with Rust's overflow check. */
  function HandleBreakpoint(sepc: u64): (r: Result<u64>)
    ensures r.Ok? <==> sepc + EBREAK_WIDTH < U64_LIMIT
    ensures r.Ok? ==> r.value - sepc == EBREAK_WIDTH
    ensures r.Fatal? ==> r.panic == AddOverflow
  {
    if sepc + EBREAK_WIDTH < U64_LIMIT then Ok(sepc + EBREAK_WIDTH) else Fatal(AddOverflow)
  }

  /** `handle_irq_extern`: one call of the registered handler, with the
      number it was given. */
  function HandleIrqExtern(irqNum: u64): (calls: seq<u64>)
    ensures |calls| == 1 && calls[0] == irqNum
  {
    [irqNum]
  }

  /** `riscv_trap_handler`, given the value read from `scause`. The trap is
      fatal exactly for a cause that is neither the breakpoint nor an
      interrupt; a resumed trap keeps the registers and `sstatus`, moves
      `sepc` only for the breakpoint, and calls the IRQ handler once for an
      interrupt and never otherwise; only the breakpoint can overflow. */
  function RiscvTrapHandler(tf: TrapFrame, scause: u64): (r: TrapOutcome)
    ensures r.Unhandled? <==> !IsBreakpoint(scause) && !IsInterrupt(scause)
    ensures r.Unhandled? ==> r.cause == DecodeScause(scause) && r.frame == tf
    ensures r.Overflowed? ==> IsBreakpoint(scause) && r.panic == AddOverflow
    ensures r.Resumed? ==> r.frame.regs == tf.regs && r.frame.sstatus == tf.sstatus
    ensures r.Resumed? ==> (r.frame.sepc == tf.sepc <==> !IsBreakpoint(scause))
    ensures r.Resumed? ==> |r.irqCalls| == (if IsInterrupt(scause) then 1 else 0)
  {
    match DecodeScause(scause)
    case Exception(3) =>
      (match HandleBreakpoint(tf.sepc)
       case Ok(sepc) => Resumed(tf.(sepc := sepc), [])
       case Fatal(p) => Overflowed(p))
    case Interrupt(_) => Resumed(tf, HandleIrqExtern(scause))
    case _ => Unhandled(DecodeScause(scause), tf)
  }

  /** The three branches, told apart by `scause` alone. */
  predicate IsBreakpoint(scause: u64) {
    DecodeScause(scause) == Exception(BREAKPOINT)
  }

  predicate IsInterrupt(scause: u64) {
    DecodeScause(scause).Interrupt?
  }

  /** Every cause takes exactly one branch, and the breakpoint branch is
      taken for the single value 3. */
  lemma DispatchPartition(scause: u64)
    ensures IsBreakpoint(scause) <==> scause == BREAKPOINT
    ensures !(IsBreakpoint(scause) && IsInterrupt(scause))
    ensures !IsBreakpoint(scause) && !IsInterrupt(scause) <==>
              scause < INTERRUPT_BIT && scause != BREAKPOINT
  {
  }

  /** A breakpoint advances `sepc` by exactly 2, changes nothing else in the
      frame and never calls the IRQ handler; only an `sepc` within 2 of the
      top of the address space overflows. */
  lemma BreakpointAdvancesSepc(tf: TrapFrame)
    ensures var o := RiscvTrapHandler(tf, BREAKPOINT);
      && (tf.sepc + 2 < U64_LIMIT ==>
            && o.Resumed?
            && o.frame.sepc == tf.sepc + 2
            && o.frame.(sepc := tf.sepc) == tf
            && o.irqCalls == [])
      && (tf.sepc + 2 >= U64_LIMIT ==> o == Overflowed(AddOverflow))
  {
  }

  /** An interrupt calls the handler exactly once, with the raw `scause`
      bits, interrupt bit included, and leaves the frame untouched. */
  lemma InterruptForwardsScause(tf: TrapFrame, scause: u64)
    requires IsInterrupt(scause)
    ensures var o := RiscvTrapHandler(tf, scause);
      && o.Resumed?
      && o.frame == tf
      && |o.irqCalls| == 1
      && o.irqCalls[0] == scause
      && o.irqCalls[0] >= INTERRUPT_BIT
  {
  }

  /** Any other cause is the fatal "Unhandled trap", which reports the cause
      and the frame. */
  lemma OtherCausesFatal(tf: TrapFrame, scause: u64)
    requires !IsBreakpoint(scause) && !IsInterrupt(scause)
    ensures RiscvTrapHandler(tf, scause) == Unhandled(Exception(scause), tf)
  {
  }
}
