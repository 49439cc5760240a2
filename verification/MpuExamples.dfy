/** A box that is entered again while it waits for the system: what that does to its
    return code, and what a fault leaves of it. */
module MpuExamples {
  import opened MpuProtocol
  import opened MpuStack
  import opened MpuRuns

  // One box above the system, and the state before its first call.
  ghost const Two := Config(1, [Stack(8, 72), Stack(72, 136)], [[136, 0x201]], [[0x301]], [false, false], 0x2000_0000)

  ghost const Booted := Cpu(0, [Rec(false, 0, 0, 0), Rec(true, 0, FIRST_LR, 136)], seq(136, _ => 0), 0, false)

  const MSP_CODE := 0xffff_fff9
  const PSP_CODE := 0xffff_fffd
  const FP_CODE := 0xffff_ffed

  lemma BootedIsEmptyStack()
    ensures Represents(Two, Booted, [], [0, 0])
  {
  }

  lemma OffsetsAreEmitted()
    ensures Emitted(Two, 0, 10) && Target(Two, 0, 10) == 1
    ensures Emitted(Two, 1, 8) && Target(Two, 1, 8) == 0
  {
  }

  // The records after a call.
  lemma CallRecords(cfg: Config, c: Cpu, t: Trap)
    requires CallFits(cfg, c, t)
    ensures var d, c' := Target(cfg, c.active, t.op), CallSetup(cfg, c, t).cpu;
            && c'.active == d && |c'.mem| == |c.mem| && t.fp + 8 <= |c.mem|
            && c'.recs == c.recs[c.active := c.recs[c.active].(lr := t.lr, sp := t.sp)]
                                [d := c.recs[d].(caller := c.active, lr := 0)]
  {
  }

  // The system has called the box.
  ghost const FirstCall := Trap(MSP_CODE, 50, 10, 60)

  lemma FirstCallOk()
    ensures CallOk(Two, Booted, [], FirstCall) && CallFits(Two, Booted, FirstCall)
  {
    OffsetsAreEmitted();
  }

  lemma Called() returns (c: Cpu, acts: seq<Act>)
    ensures Represents(Two, c, acts, [0, 0]) && c.active == 1
    ensures c.recs == [Rec(false, 0, MSP_CODE, 50), Rec(true, 0, 0, 136)] && acts == [Act(0, 60, 50, 0, 0, 0)]
  {
    hide Represents, Emitted, Target, CallSetup, CallOk, CallFits;
    BootedIsEmptyStack();
    OffsetsAreEmitted();
    FirstCallOk();
    CallPushes(Two, Booted, [], [0, 0], FirstCall);
    CallRecords(Two, Booted, FirstCall);
    c, acts := CallSetup(Two, Booted, FirstCall).cpu, Pushed(Booted, [], [0, 0], FirstCall);
    assert SetAside(Booted, [0, 0]) == [0, 0];
  }

  // The box has called back, with floating point state on its stack.
  ghost const BoxCall := Trap(FP_CODE, 100, 8, 110)

  lemma CallBackOk(c: Cpu, acts: seq<Act>)
    requires c.active == 1 && c.recs == [Rec(false, 0, MSP_CODE, 50), Rec(true, 0, 0, 136)] && acts != []
    ensures CallOk(Two, c, acts, BoxCall)
  {
    OffsetsAreEmitted();
  }

  lemma CalledBack(c: Cpu, acts: seq<Act>) returns (d: Cpu, all: seq<Act>)
    requires Represents(Two, c, acts, [0, 0]) && c.active == 1 && acts == [Act(0, 60, 50, 0, 0, 0)]
    requires c.recs == [Rec(false, 0, MSP_CODE, 50), Rec(true, 0, 0, 136)]
    ensures CallFits(Two, c, BoxCall)
    ensures d == CallSetup(Two, c, BoxCall).cpu && all == Pushed(c, acts, [0, 0], BoxCall)
    ensures Represents(Two, d, all, [0, 0]) && d.active == 0
    ensures d.recs == [Rec(false, 1, 0, 50), Rec(true, 0, FP_CODE, 100)] && |d.mem| == |c.mem| >= 118
    ensures all == [Act(0, 60, 50, 0, 0, 0), Act(1, 110, 100, 136, 0, 0)]
  {
    hide Represents, Emitted, Target, CallSetup, CallOk, CallFits;
    CallBackOk(c, acts);
    OffsetsAreEmitted();
    CallPushes(Two, c, acts, [0, 0], BoxCall);
    CallRecords(Two, c, BoxCall);
    d, all := CallSetup(Two, c, BoxCall).cpu, Pushed(c, acts, [0, 0], BoxCall);
    assert SetAside(c, [0, 0]) == [0, 0];
  }

  // The system calls the box a second time, through a fallible import.
  ghost const SecondCall := Trap(MSP_CODE, 20, 10, 30)

  lemma SecondCallOk(c: Cpu, acts: seq<Act>)
    requires c.active == 0 && c.recs == [Rec(false, 1, 0, 50), Rec(true, 0, FP_CODE, 100)]
    ensures CallOk(Two, c, acts, SecondCall)
  {
    OffsetsAreEmitted();
  }

  lemma Reentered(c: Cpu, acts: seq<Act>) returns (d: Cpu, all: seq<Act>)
    requires Represents(Two, c, acts, [0, 0]) && c.active == 0
    requires c.recs == [Rec(false, 1, 0, 50), Rec(true, 0, FP_CODE, 100)]
    ensures CallFits(Two, c, SecondCall)
    ensures d == CallSetup(Two, c, SecondCall).cpu && all == Pushed(c, acts, [0, 0], SecondCall)
    ensures Represents(Two, d, all, [0, 0]) && d.active == 1
    ensures d.recs == [Rec(false, 1, MSP_CODE, 20), Rec(true, 0, 0, 100)]
    ensures 38 <= |c.mem| == |d.mem| && d.mem[30..38] == c.mem[30..38]
  {
    hide Represents, Emitted, Target, CallSetup, CallOk, CallFits, FrameAt;
    SecondCallOk(c, acts);
    OffsetsAreEmitted();
    CallPushes(Two, c, acts, [0, 0], SecondCall);
    CallRecords(Two, c, SecondCall);
    CallFrame(Two, c, acts, [0, 0], SecondCall);
    d, all := CallSetup(Two, c, SecondCall).cpu, Pushed(c, acts, [0, 0], SecondCall);
    assert SetAside(c, [0, 0]) == [0, 0];
  }

  lemma ExecDone(cfg: Config, c: Cpu, acts: seq<Act>, lent: seq<nat>)
    requires Represents(cfg, c, acts, lent)
    ensures Exec(cfg, c, acts, lent, Done) == End(c)
  {
  }

  lemma ExecOneCall(cfg: Config, c: Cpu, acts: seq<Act>, lent: seq<nat>, t: Trap, r: Trap)
    requires Represents(cfg, c, acts, lent) && CallOk(cfg, c, acts, t) && CallFits(cfg, c, t) && c.active < |lent|
    requires Returns(cfg, CallSetup(cfg, c, t).cpu, Pushed(c, acts, lent, t), SetAside(c, lent), r)
    requires ReturnFits(cfg, CallSetup(cfg, c, t).cpu, r) && c.recs[c.active].lr == 0
    ensures var d := CallSetup(cfg, c, t).cpu;
            && d.recs[d.recs[d.active].caller].lr != 0
            && Exec(cfg, c, acts, lent, Call(t, Done, r, Done)) == End(ReturnSetup(cfg, d, r).cpu)
            && Represents(cfg, ReturnSetup(cfg, d, r).cpu, acts, lent)
  {
    hide Represents, CallSetup, ReturnSetup, CallOk, Returns;
    CallPushes(cfg, c, acts, lent, t);
    var d, all, lent' := CallSetup(cfg, c, t).cpu, Pushed(c, acts, lent, t), SetAside(c, lent);
    ExecDone(cfg, d, all, lent');
    ReturnsOk(cfg, d, all, lent', r);
    ReturnPops(cfg, d, all, lent', r);
    assert Popped(all) == acts && BroughtBack(all, lent') == lent;
    ExecDone(cfg, ReturnSetup(cfg, d, r).cpu, acts, lent);
  }

  ghost const BoxReturn := Trap(PSP_CODE, 72, 0, 80)
  ghost const SystemReturn := Trap(MSP_CODE, 8, 0, 30)
  ghost const Again := Call(SecondCall, Done, BoxReturn, Done)

  // The box calls the system with one code and, entered again by it, returns with
  // another: its call to the system then returns with the code of that return.
  lemma ReentryCodeExample() returns (c: Cpu, acts: seq<Act>, b: Cpu)
    ensures Represents(Two, c, acts, [0, 0]) && c.active == 1
    ensures CallOk(Two, c, acts, BoxCall) && CallFits(Two, c, BoxCall)
    ensures Exec(Two, CallSetup(Two, c, BoxCall).cpu, Pushed(c, acts, [0, 0], BoxCall), SetAside(c, [0, 0]), Again)
            == End(b)
    ensures Wf(Two, b) && ReturnOk(Two, b, Pushed(c, acts, [0, 0], BoxCall), SetAside(c, [0, 0]), SystemReturn)
    ensures ReturnFits(Two, b, SystemReturn) && b.recs[b.recs[b.active].caller].lr != 0
    ensures BoxCall.lr == FP_CODE && ReturnSetup(Two, b, SystemReturn).lr == PSP_CODE
  {
    hide Represents, Exec, CallSetup, ReturnSetup, CallOk, LastTrap;
    c, acts := Called();
    CallBackOk(c, acts);
    var d, all := CalledBack(c, acts);
    assert SetAside(c, [0, 0]) == [0, 0];
    SecondCallOk(d, all);
    var e, more := Reentered(d, all);
    assert SetAside(d, [0, 0]) == [0, 0];
    ReturnFitsOk(Two, e, more, [0, 0], BoxReturn);
    ExecOneCall(Two, d, all, [0, 0], SecondCall, BoxReturn);
    b := ReturnSetup(Two, e, BoxReturn).cpu;
    BoxReturned(d, e, more);
    ReturnFitsOk(Two, b, all, [0, 0], SystemReturn);
    CallDelivers(Two, c, acts, [0, 0], BoxCall, Again, b, SystemReturn);
    AgainCode();
  }

  // The records after the second return.
  lemma BoxReturned(d: Cpu, e: Cpu, more: seq<Act>)
    requires Represents(Two, e, more, [0, 0]) && ReturnOk(Two, e, more, [0, 0], BoxReturn)
    requires e.active == 1 && e.recs == [Rec(false, 1, MSP_CODE, 20), Rec(true, 0, 0, 100)]
    requires Last(more) == Act(0, 30, 20, 50, 1, 0)
    ensures ReturnFits(Two, e, BoxReturn) && e.recs[e.recs[e.active].caller].lr != 0
    ensures ReturnSetup(Two, e, BoxReturn).cpu.recs == [Rec(false, 1, 0, 50), Rec(true, 0, PSP_CODE, 100)]
    ensures ReturnSetup(Two, e, BoxReturn).cpu.active == 0
  {
    hide Represents, PopRec, PutReturn;
    ReturnFitsOk(Two, e, more, [0, 0], BoxReturn);
  }

  lemma AgainCode()
    ensures LastCode(Two, 0, Again, 1, FP_CODE) == PSP_CODE
  {
    OffsetsAreEmitted();
  }

  // A box that is suspended in a call and entered again faults. Its caller is resumed
  // with the error, but the state stands for no stack of calls any more.
  lemma ReentryFaultExample() returns (c: Cpu, acts: seq<Act>)
    ensures Represents(Two, c, acts, [0, 0]) && c.active == 1 && !Two.hooks[1]
    ensures acts != [] && InCall(Popped(acts), 1)
    ensures Wf(Two, c) && c.recs[1].caller == 0 && FrameFits(c, 0)
    ensures FaultSetup(Two, c, EFAULT).Resume?
    ensures !exists acts', lent' :: Represents(Two, FaultSetup(Two, c, EFAULT).cpu, acts', lent')
  {
    hide Represents, CallSetup, FaultSetup;
    var b, first := Called();
    var d, all := CalledBack(b, first);
    var mem := d.mem[36 := Two.callRegion + 10];
    FreeWord(d, all, mem);
    WorkKeeps(Two, d, all, [0, 0], mem);
    c, acts := Reentered(d.(mem := mem), all);
    assert Popped(acts) == all;
    assert all[1].dom == 1;
    assert c.mem[36] == c.mem[30..38][6] == mem[30..38][6] == mem[36];
    FaultLeavesStackIff(Two, c, acts, [0, 0], EFAULT);
  }

  // The word is below both frames that are suspended then.
  lemma FreeWord(d: Cpu, all: seq<Act>, mem: seq<nat>)
    requires |d.mem| > 36 && mem == d.mem[36 := Two.callRegion + 10]
    requires all == [Act(0, 60, 50, 0, 0, 0), Act(1, 110, 100, 136, 0, 0)]
    ensures WorkOk(d, all, mem)
  {
  }

  // Why what is lent has to be known: the words a box had on its stack may look like a
  // frame, and with four words lent they would be one.
  ghost const Lookalike := Act(1, 110, 104, 136, 0, 0)

  lemma LoansDecideExample() returns (c: Cpu, acts: seq<Act>)
    ensures |acts| == 2 && acts[1] != Lookalike
    ensures Represents(Two, c, acts, [0, 0]) && Represents(Two, c, [acts[0], Lookalike], [0, 4])
  {
    hide Represents, CallSetup, FrameAt, CallFits, WorkOk;
    var b, first := Called();
    WordCount(b, first);
    var mem := b.mem[104 := 110][105 := 0][106 := 136][107 := 0];
    BoxWords(b, first, mem);
    WorkKeeps(Two, b, first, [0, 0], mem);
    var d := b.(mem := mem);
    c, acts := CalledBack(d, first);
    CallKeepsWords(d);
    assert FrameAt(c.mem, Lookalike) by { LooksLikeFrame(mem, c.mem); }
    OtherStack(c, acts);
  }

  lemma CallKeepsWords(c: Cpu)
    requires CallFits(Two, c, BoxCall) && c.active == 1
    requires c.recs == [Rec(false, 0, MSP_CODE, 50), Rec(true, 0, 0, 136)]
    ensures |CallSetup(Two, c, BoxCall).cpu.mem| == |c.mem|
    ensures forall k :: 104 <= k < 108 && k < |c.mem| ==> CallSetup(Two, c, BoxCall).cpu.mem[k] == c.mem[k]
  {
    hide CallSetup, CallFits;
    OffsetsAreEmitted();
    CallMemory(Two, c, BoxCall);
    CallSp(Two, c, BoxCall);
  }

  lemma WordCount(c: Cpu, acts: seq<Act>)
    requires Represents(Two, c, acts, [0, 0])
    ensures |c.mem| >= 136
  {
    assert Two.stacks[1].hi <= |c.mem|;
  }

  lemma BoxWords(c: Cpu, acts: seq<Act>, mem: seq<nat>)
    requires |c.mem| >= 136 && acts == [Act(0, 60, 50, 0, 0, 0)]
    requires mem == c.mem[104 := 110][105 := 0][106 := 136][107 := 0]
    ensures WorkOk(c, acts, mem)
  {
  }

  lemma LooksLikeFrame(mem: seq<nat>, mem': seq<nat>)
    requires |mem| == |mem'| >= 136 && mem[104] == 110 && mem[105] == 0 && mem[106] == 136 && mem[107] == 0
    requires forall k :: 104 <= k < 108 ==> mem'[k] == mem[k]
    ensures FrameAt(mem', Lookalike)
  {
  }

  lemma OtherStack(c: Cpu, acts: seq<Act>)
    requires Represents(Two, c, acts, [0, 0]) && c.active == 0 && FrameAt(c.mem, Lookalike)
    requires c.recs == [Rec(false, 1, 0, 50), Rec(true, 0, FP_CODE, 100)]
    requires acts == [Act(0, 60, 50, 0, 0, 0), Act(1, 110, 100, 136, 0, 0)]
    ensures Represents(Two, c, [acts[0], Lookalike], [0, 4])
  {
    hide FrameAt;
    var other := [acts[0], Lookalike];
    assert Popped(other) == [acts[0]] == Popped(acts);
    assert Popped([acts[0]]) == [];
    assert FrameAt(c.mem, acts[0]);
  }

  // What the system has put into the four words it borrowed of the box's stack.
  ghost function Ones(mem: seq<nat>): (m: seq<nat>)
    requires |mem| >= 100
    ensures |m| == |mem|
  {
    mem[96 := 1][97 := 1][98 := 1][99 := 1]
  }

  // The system returns to the box without having given them back: the box goes on at
  // words that are no frame, and the state stands for no stack of calls any more.
  lemma LentReturnExample() returns (c: Cpu, acts: seq<Act>)
    ensures Represents(Two, c, acts, [0, 4]) && acts != [] && Last(acts).dom == 1 && Last(acts).sp == 100
    ensures ReturnFits(Two, c, SystemReturn) && c.recs[c.recs[c.active].caller].lr != 0
    ensures ReturnSetup(Two, c, SystemReturn).sp == 96
    ensures !exists acts', lent' :: Represents(Two, ReturnSetup(Two, c, SystemReturn).cpu, acts', lent')
  {
    hide Represents, CallSetup, ReturnSetup, CallFits, WorkOk;
    var b, first := Called();
    var d, all := CalledBack(b, first);
    MoveKeeps(Two, d, all, [0, 0], 1, 96, 4);
    var e := MoveSp(d, 1, 96);
    assert [0, 0][1 := 4] == [0, 4];
    c, acts := e.(mem := Ones(e.mem)), all;
    BorrowedWords(e, all);
    WorkKeeps(Two, e, all, [0, 4], c.mem);
    BoxGoesOn(c);
    NoStackLeft(ReturnSetup(Two, c, SystemReturn).cpu);
  }

  lemma BorrowedWords(c: Cpu, acts: seq<Act>)
    requires |c.mem| >= 118 && acts == [Act(0, 60, 50, 0, 0, 0), Act(1, 110, 100, 136, 0, 0)]
    ensures WorkOk(c, acts, Ones(c.mem))
  {
  }

  lemma BoxGoesOn(c: Cpu)
    requires |c.mem| >= 118 && c.mem[96] == c.mem[97] == c.mem[98] == c.mem[99] == 1
    requires c.active == 0 && c.recs == [Rec(false, 1, 0, 50), Rec(true, 0, FP_CODE, 96)]
    ensures ReturnFits(Two, c, SystemReturn) && c.recs[c.recs[c.active].caller].lr != 0
    ensures ReturnSetup(Two, c, SystemReturn).sp == 96
    ensures ReturnSetup(Two, c, SystemReturn).cpu.recs == [Rec(false, 1, MSP_CODE, 50), Rec(true, 1, 1, 1)]
  {
  }

  lemma NoStackLeft(c: Cpu)
    requires c.recs == [Rec(false, 1, MSP_CODE, 50), Rec(true, 1, 1, 1)]
    ensures !exists acts, lent :: Represents(Two, c, acts, lent)
  {
    if acts, lent :| Represents(Two, c, acts, lent) {
      assert false;
    }
  }
}
