/** The trap entry and exit code instruction by instruction (kern/trap/trapentry.S). */
module TrapEntry {
  import opened Words
  import opened TrapSpec

  class Hart {
    var x: seq<u64>
    var sstatus: u64
    var sepc: u64
    var sbadaddr: u64
    var scause: u64
    var sscratch: u64
    var mem: seq<u64>

    ghost function Abs(): Cpu
      reads this
    {
      Cpu(x, sstatus, sepc, sbadaddr, scause, sscratch, mem)
    }

    constructor (s: Cpu)
      ensures Abs() == s
    {
      x, mem := s.x, s.mem;
      sstatus, sepc, sbadaddr, scause, sscratch := s.sstatus, s.sepc, s.sbadaddr, s.scause, s.sscratch;
    }

    /** `STORE xr, k*REGBYTES(sp)` */
    method Store(r: nat, k: nat)
      requires |x| == 32 && r < 32 && x[SP] / REGBYTES + k < |mem|
      modifies `mem
      ensures mem == old(mem)[x[SP] / REGBYTES + k := x[r]]
    {
      mem := mem[x[SP] / REGBYTES + k := x[r]];
    }

    /** `LOAD xr, k*REGBYTES(sp)`; r is not x0 */
    method Load(r: nat, k: nat)
      requires |x| == 32 && 0 < r < 32 && x[SP] / REGBYTES + k < |mem|
      modifies `x
      ensures x == old(x)[r := mem[old(x)[SP] / REGBYTES + k]]
    {
      x := x[r := mem[x[SP] / REGBYTES + k]];
    }

    /** Registers `lo` to `hi`, except sp, are stored in the frame at sp, and nothing else
        has changed. */
    twostate predicate Stored(lo: nat, hi: nat)
      requires |x| == 32 && hi <= 32
      reads this
    {
      var b := x[SP] / REGBYTES;
      && |mem| == old(|mem|) && b + FRAME <= |mem|
      && (forall k :: lo <= k < hi && k != SP ==> mem[b + k] == x[k])
      && (forall i :: 0 <= i < |mem| && !(b + lo <= i < b + hi) ==> mem[i] == old(mem[i]))
    }

    method Save0To7()
      requires |x| == 32 && x[SP] / REGBYTES + FRAME <= |mem|
      modifies `mem
      ensures Stored(0, 8)
    {
      Store(0, 0);
      Store(1, 1);
      Store(3, 3);
      Store(4, 4);
      Store(5, 5);
      Store(6, 6);
      Store(7, 7);
    }

    method Save8To15()
      requires |x| == 32 && x[SP] / REGBYTES + FRAME <= |mem|
      modifies `mem
      ensures Stored(8, 16)
    {
      Store(8, 8);
      Store(9, 9);
      Store(10, 10);
      Store(11, 11);
      Store(12, 12);
      Store(13, 13);
      Store(14, 14);
      Store(15, 15);
    }

    method Save16To23()
      requires |x| == 32 && x[SP] / REGBYTES + FRAME <= |mem|
      modifies `mem
      ensures Stored(16, 24)
    {
      Store(16, 16);
      Store(17, 17);
      Store(18, 18);
      Store(19, 19);
      Store(20, 20);
      Store(21, 21);
      Store(22, 22);
      Store(23, 23);
    }

    method Save24To31()
      requires |x| == 32 && x[SP] / REGBYTES + FRAME <= |mem|
      modifies `mem
      ensures Stored(24, 32)
    {
      Store(24, 24);
      Store(25, 25);
      Store(26, 26);
      Store(27, 27);
      Store(28, 28);
      Store(29, 29);
      Store(30, 30);
      Store(31, 31);
    }

    /** The stores of SAVE_ALL that come before the CSRs: all registers but sp. */
    method SaveRegisters()
      requires |x| == 32 && x[SP] / REGBYTES + FRAME <= |mem|
      modifies `mem
      ensures Stored(0, 32)
    {
      Save0To7();
      Save8To15();
      Save16To23();
      Save24To31();
    }

    /** The CSR part of SAVE_ALL. */
    method SaveCsrs()
      requires |x| == 32 && x[SP] / REGBYTES + FRAME <= |mem|
      modifies `x, `mem, `sscratch
      ensures sscratch == 0
      ensures x == old(x)[8 := old(sscratch)][9 := sstatus][18 := sepc][19 := sbadaddr][20 := scause]
      ensures var b := old(x)[SP] / REGBYTES;
        mem == old(mem)[b + 2 := old(sscratch)][b + 32 := sstatus][b + 33 := sepc]
                       [b + 34 := sbadaddr][b + 35 := scause]
    {
      x := x[8 := sscratch];
      sscratch := 0;
      x := x[9 := sstatus];
      x := x[18 := sepc];
      x := x[19 := sbadaddr];
      x := x[20 := scause];
      Store(8, 2);
      Store(9, 32);
      Store(18, 33);
      Store(19, 34);
      Store(20, 35);
    }

    /** SAVE_ALL */
    method SaveAll()
      requires HasRoom(Abs())
      modifies this
      ensures Abs() == Saved(old(Abs()))
    {
      ghost var s := Abs();
      sscratch := x[SP];
      x := x[SP := x[SP] - FRAME * REGBYTES];
      SaveRegisters();
      ghost var saved, x' := mem, x;
      SaveCsrs();
      FrameIsComplete(s, x', saved);
    }

    /** SAVE_ALL, and `move a0, sp` for the call of trap, whose argument is the frame. */
    method AllTraps()
      requires HasRoom(Abs())
      modifies this
      ensures Abs() == Entry(old(Abs()))
      ensures PassesFrame(old(Abs()), Abs()) && sscratch == 0
    {
      ghost var s := Abs();
      SaveAll();
      x := x[A0 := x[SP]];
      HandlerReceivesFrame(s);
    }

    /** Registers `lo` to `hi`, except sp, are loaded from the frame at sp. */
    twostate predicate Loaded(lo: nat, hi: nat)
      requires |x| == 32 && old(|x|) == 32 && hi <= 32
      reads this
    {
      var b := old(x[SP]) / REGBYTES;
      && mem == old(mem) && b + FRAME <= |mem|
      && (forall k :: 0 <= k < 32 ==> x[k] == if lo <= k < hi && k != SP then mem[b + k] else old(x[k]))
    }

    method Load1To7()
      requires |x| == 32 && x[SP] / REGBYTES + FRAME <= |mem|
      modifies `x
      ensures |x| == 32 && Loaded(1, 8)
    {
      Load(1, 1);
      Load(3, 3);
      Load(4, 4);
      Load(5, 5);
      Load(6, 6);
      Load(7, 7);
    }

    method Load8To15()
      requires |x| == 32 && x[SP] / REGBYTES + FRAME <= |mem|
      modifies `x
      ensures |x| == 32 && Loaded(8, 16)
    {
      Load(8, 8);
      Load(9, 9);
      Load(10, 10);
      Load(11, 11);
      Load(12, 12);
      Load(13, 13);
      Load(14, 14);
      Load(15, 15);
    }

    method Load16To23()
      requires |x| == 32 && x[SP] / REGBYTES + FRAME <= |mem|
      modifies `x
      ensures |x| == 32 && Loaded(16, 24)
    {
      Load(16, 16);
      Load(17, 17);
      Load(18, 18);
      Load(19, 19);
      Load(20, 20);
      Load(21, 21);
      Load(22, 22);
      Load(23, 23);
    }

    method Load24To31()
      requires |x| == 32 && x[SP] / REGBYTES + FRAME <= |mem|
      modifies `x
      ensures |x| == 32 && Loaded(24, 32)
    {
      Load(24, 24);
      Load(25, 25);
      Load(26, 26);
      Load(27, 27);
      Load(28, 28);
      Load(29, 29);
      Load(30, 30);
      Load(31, 31);
    }

    /** The loads of RESTORE_ALL, sp last. */
    method LoadRegisters()
      requires |x| == 32 && x[SP] / REGBYTES + FRAME <= |mem|
      modifies `x
      ensures |x| == 32 && x[0] == old(x[0])
      ensures forall k :: 0 < k < 32 ==> x[k] == mem[old(x[SP]) / REGBYTES + k]
    {
      Load1To7();
      Load8To15();
      Load16To23();
      Load24To31();
      Load(2, 2);
    }

    /** RESTORE_ALL */
    method TrapRet()
      requires Wf(Abs()) && Top(Abs()) + FRAME <= |mem|
      modifies this
      ensures Abs() == Return(old(Abs()))
      ensures mem == old(mem) && sscratch == old(sscratch)
      ensures sbadaddr == old(sbadaddr) && scause == old(scause)
    {
      ghost var s := Abs();
      Load(9, 32);
      Load(18, 33);
      sstatus := x[9];
      sepc := x[18];
      LoadRegisters();
      assert x == Return(s).x;
    }
  }

  /** The register stores and the CSR stores together make the frame. */
  lemma FrameIsComplete(s: Cpu, x: seq<u64>, saved: seq<u64>)
    requires HasRoom(s) && |saved| == |s.mem| && x == s.x[SP := s.x[SP] - FRAME * REGBYTES]
    requires var b := Top(s) - FRAME;
      && (forall k :: 0 <= k < 32 && k != SP ==> saved[b + k] == x[k])
      && (forall i :: 0 <= i < |saved| && !(b <= i < b + 32) ==> saved[i] == s.mem[i])
    ensures var b := Top(s) - FRAME;
      saved[b + 2 := s.x[SP]][b + 32 := s.sstatus][b + 33 := s.sepc]
           [b + 34 := s.sbadaddr][b + 35 := s.scause] == WithFrame(s)
  {
    var b := Top(s) - FRAME;
    var m := saved[b + 2 := s.x[SP]][b + 32 := s.sstatus][b + 33 := s.sepc]
                  [b + 34 := s.sbadaddr][b + 35 := s.scause];
    forall i | 0 <= i < |m|
      ensures m[i] == WordWithFrame(s, i)
    {
      if b <= i < b + 32 && i != b + 2 {
        assert saved[b + (i - b)] == x[i - b];
      }
    }
  }
}
