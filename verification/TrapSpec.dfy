/** What trap entry and exit do to a hart, and runs of handlers that are themselves
    interrupted, to any depth (kern/trap/trapentry.S). */
module TrapSpec {
  import opened Words

  /** Memory is a sequence of 8-byte words: word `i` is at address `8 * i`. */
  datatype Cpu = Cpu(x: seq<u64>, sstatus: u64, sepc: u64, sbadaddr: u64, scause: u64,
                     sscratch: u64, mem: seq<u64>)

  const REGBYTES: nat := 8
  const FRAME: nat := 36
  const SP: nat := 2
  const A0: nat := 10

  /** x0 is hard-wired to zero and the stack pointer is aligned. */
  ghost predicate Wf(s: Cpu) {
    |s.x| == 32 && s.x[0] == 0 && s.x[SP] % REGBYTES == 0
  }

  /** The word that the stack pointer points at. */
  function Top(s: Cpu): nat
    requires |s.x| == 32
  {
    s.x[SP] / REGBYTES
  }

  /** Room for one trap frame below the stack pointer. */
  ghost predicate HasRoom(s: Cpu) {
    Wf(s) && FRAME <= Top(s) <= |s.mem|
  }

  /** The trap frame in the order of `struct trapframe`: the registers, then four CSRs. */
  function FrameWord(s: Cpu, k: nat): u64
    requires |s.x| == 32 && k < FRAME
  {
    if k < 32 then s.x[k]
    else if k == 32 then s.sstatus
    else if k == 33 then s.sepc
    else if k == 34 then s.sbadaddr
    else s.scause
  }

  function WordWithFrame(s: Cpu, i: nat): u64
    requires |s.x| == 32 && FRAME <= Top(s) && i < |s.mem|
  {
    if Top(s) - FRAME <= i < Top(s) then FrameWord(s, i - (Top(s) - FRAME)) else s.mem[i]
  }

  function WithFrame(s: Cpu): seq<u64>
    requires |s.x| == 32 && FRAME <= Top(s)
  {
    seq(|s.mem|, i requires 0 <= i < |s.mem| => WordWithFrame(s, i))
  }

  /** SAVE_ALL */
  function Saved(s: Cpu): Cpu
    requires HasRoom(s)
  {
    s.(x := s.x[SP := s.x[SP] - FRAME * REGBYTES][8 := s.x[SP]][9 := s.sstatus]
               [18 := s.sepc][19 := s.sbadaddr][20 := s.scause],
       sscratch := 0,
       mem := WithFrame(s))
  }

  /** SAVE_ALL and `move a0, sp`. */
  function Entry(s: Cpu): Cpu
    requires HasRoom(s)
  {
    var t := Saved(s);
    t.(x := t.x[A0 := t.x[SP]])
  }

  /** What the handler is called with: `a0` is the new stack pointer, 288 bytes down, and
      points at a `struct trapframe` of the interrupted registers, in the order of their
      numbers, and the status, epc, badvaddr and cause of the trap.  Nothing else in memory
      has changed. */
  ghost predicate PassesFrame(s: Cpu, e: Cpu)
    requires |s.x| == 32
  {
    && |e.x| == 32 && e.x[10] == e.x[2] && e.x[2] as int == s.x[2] as int - 288
    && |e.mem| == |s.mem|
    && var b := e.x[10] / 8;
    && e.x[10] == 8 * b && b + 36 <= |e.mem|
    && (forall k :: 0 <= k < 32 ==> e.mem[b + k] == s.x[k])
    && e.mem[b + 32] == s.sstatus && e.mem[b + 33] == s.sepc
    && e.mem[b + 34] == s.sbadaddr && e.mem[b + 35] == s.scause
    && (forall i :: 0 <= i < |e.mem| && !(b <= i < b + 36) ==> e.mem[i] == s.mem[i])
  }

  lemma HandlerReceivesFrame(s: Cpu)
    requires HasRoom(s)
    ensures PassesFrame(s, Entry(s)) && Entry(s).sscratch == 0
    ensures forall k :: 0 <= k < 32 && k !in {2, 8, 9, 10, 18, 19, 20} ==> Entry(s).x[k] == s.x[k]
  {
    var e := Entry(s);
    var b := Top(s) - FRAME;
    assert e.x[10] / 8 == b;
    forall k | 0 <= k < 36
      ensures e.mem[b + k] == FrameWord(s, k)
    {
      assert e.mem[b + k] == WordWithFrame(s, b + k);
    }
  }

  /** RESTORE_ALL: every register but x0, and two CSRs, from the frame at `sp`. */
  function Return(s: Cpu): Cpu
    requires Wf(s) && Top(s) + FRAME <= |s.mem|
  {
    s.(x := seq(32, k requires 0 <= k < 32 => if k == 0 then s.x[0] else s.mem[Top(s) + k]),
       sstatus := s.mem[Top(s) + 32],
       sepc := s.mem[Top(s) + 33])
  }

  /** What the hardware writes when it takes a trap. */
  datatype Cause = Cause(sstatus: u64, sepc: u64, sbadaddr: u64, scause: u64)

  function Taken(s: Cpu, c: Cause): Cpu {
    s.(sstatus := c.sstatus, sepc := c.sepc, sbadaddr := c.sbadaddr, scause := c.scause)
  }

  /** A handler's execution: work of its own, and traps taken in the middle of it, each
      with the inner handler's execution and the state in which that one returns. */
  datatype Run =
    | Done
    | Work(to: Cpu, rest: Run)
    | Trap(cause: Cause, inner: Run, exit: Cpu, rest: Run)

  /** Work of a handler whose frame starts at word `base` of a stack that ends at `top`:
      anything, except that it stays below its frame and keeps the stack from there up. */
  ghost predicate Keeps(s: Cpu, t: Cpu, base: nat, top: nat) {
    && Wf(t) && |t.mem| == |s.mem|
    && Top(t) <= base
    && forall i :: base <= i < top && i < |s.mem| ==> t.mem[i] == s.mem[i]
  }

  /** `r` leads from `s` to `t` in a handler with frame `base`; inner handlers return with
      the stack pointer they were entered with. */
  ghost predicate Runs(r: Run, s: Cpu, t: Cpu, base: nat, top: nat)
    decreases r
  {
    match r
    case Done => s == t
    case Work(to, rest) => Keeps(s, to, base, top) && Runs(rest, to, t, base, top)
    case Trap(cause, inner, exit, rest) =>
      && HasRoom(s)
      && var e := Entry(Taken(s, cause));
      && Runs(inner, e, exit, Top(e), top)
      && Wf(exit) && |exit.mem| == |s.mem| && exit.x[SP] == e.x[SP]
      && Runs(rest, Return(exit), t, base, top)
  }

  /** Returning from a trap gives back the registers and CSRs of the moment it was taken,
      and the stack above the interrupted stack pointer. */
  ghost predicate Restored(s: Cpu, cause: Cause, after: Cpu, top: nat) {
    && |s.x| == 32
    && after.x == s.x
    && after.sstatus == cause.sstatus && after.sepc == cause.sepc
    && |after.mem| == |s.mem|
    && forall i :: Top(s) <= i < top && i < |s.mem| ==> after.mem[i] == s.mem[i]
  }

  /** A frame that is still there brings everything back. */
  lemma KeptFrameRestores(s: Cpu, e: Cpu, exit: Cpu)
    requires Wf(s) && PassesFrame(s, e)
    requires Wf(exit) && |exit.mem| == |e.mem| && exit.x[SP] == e.x[SP]
    requires forall i :: Top(e) <= i < Top(e) + FRAME ==> exit.mem[i] == e.mem[i]
    ensures var r := Return(exit); r.x == s.x && r.sstatus == s.sstatus && r.sepc == s.sepc
  {
    var b, r := Top(e), Return(exit);
    forall k | 0 <= k < 32
      ensures r.x[k] == s.x[k]
    {
      assert exit.mem[b + k] == e.mem[b + k];
    }
    assert exit.mem[b + 32] == e.mem[b + 32] && exit.mem[b + 33] == e.mem[b + 33];
  }

  /** The frame is still there when the handler's own run is over. */
  lemma ReturnRestores(s: Cpu, cause: Cause, exit: Cpu, top: nat)
    requires HasRoom(s) && Top(s) <= top
    requires var e := Entry(Taken(s, cause));
      && Wf(exit) && |exit.mem| == |s.mem| && exit.x[SP] == e.x[SP]
      && forall i :: Top(e) <= i < top && i < |s.mem| ==> exit.mem[i] == e.mem[i]
    ensures Restored(s, cause, Return(exit), top)
  {
    var s' := Taken(s, cause);
    HandlerReceivesFrame(s');
    KeptFrameRestores(s', Entry(s'), exit);
  }

  /** A handler's whole run, with everything nested in it, keeps the stack from its frame
      up and ends at or below it. */
  lemma {:induction false} RunKeepsStack(r: Run, s: Cpu, t: Cpu, base: nat, top: nat)
    requires Runs(r, s, t, base, top)
    requires Wf(s) && Top(s) <= base <= top
    ensures Keeps(s, t, base, top)
    decreases r
  {
    match r
    case Done =>
    case Work(to, rest) =>
      RunKeepsStack(rest, to, t, base, top);
    case Trap(cause, inner, exit, rest) =>
      var e := Entry(Taken(s, cause));
      RunKeepsStack(inner, e, exit, Top(e), top);
      ReturnRestores(s, cause, exit, top);
      RunKeepsStack(rest, Return(exit), t, base, top);
  }

  /** Every trap of a run, at every depth, is restored. */
  ghost predicate AllRestored(r: Run, s: Cpu, top: nat)
    decreases r
  {
    match r
    case Done => true
    case Work(to, rest) => AllRestored(rest, to, top)
    case Trap(cause, inner, exit, rest) =>
      && HasRoom(s) && Wf(exit) && Top(exit) + FRAME <= |exit.mem|
      && Restored(s, cause, Return(exit), top)
      && AllRestored(inner, Entry(Taken(s, cause)), top)
      && AllRestored(rest, Return(exit), top)
  }

  /** Under arbitrary nesting each __trapret gives back x0..x31 as they were at that trap
      and the sstatus and sepc saved at its entry. */
  lemma {:induction false} EveryTrapRestores(r: Run, s: Cpu, t: Cpu, base: nat, top: nat)
    requires Runs(r, s, t, base, top)
    requires Wf(s) && Top(s) <= base <= top
    ensures AllRestored(r, s, top)
    decreases r
  {
    match r
    case Done =>
    case Work(to, rest) =>
      EveryTrapRestores(rest, to, t, base, top);
    case Trap(cause, inner, exit, rest) =>
      var e := Entry(Taken(s, cause));
      RunKeepsStack(inner, e, exit, Top(e), top);
      ReturnRestores(s, cause, exit, top);
      EveryTrapRestores(inner, e, exit, Top(e), top);
      EveryTrapRestores(rest, Return(exit), t, base, top);
  }
}
