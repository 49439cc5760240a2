/** Every step of the runtime does to the stack of calls what its name says, and a
    state stands for one stack only. */
module MpuStack {
  import opened MpuDispatch
  import opened MpuProtocol

  // -------------------- the chain --------------------

  lemma PlacedAct(cfg: Config, acts: seq<Act>, active: nat, i: nat)
    requires WfConfig(cfg) && Shaped(cfg, acts, active) && i < |acts|
    ensures Placed(cfg, acts[i])
  {
  }

  lemma DomainsInside(cfg: Config, acts: seq<Act>, active: nat)
    requires WfConfig(cfg) && Shaped(cfg, acts, active)
    ensures forall i :: 0 <= i < |acts| ==> acts[i].dom <= cfg.boxes
  {
    forall i | 0 <= i < |acts|
      ensures acts[i].dom <= cfg.boxes
    {
      assert Placed(cfg, acts[i]);
    }
  }

  lemma RecordCount(cfg: Config, c: Cpu, acts: seq<Act>, lent: seq<nat>)
    requires Represents(cfg, c, acts, lent)
    ensures Wf(cfg, c) && |lent| == cfg.boxes + 1 && Layout(cfg, |c.mem|)
  {
  }

  // The parts of a stack of calls from which its chains go down in memory.
  ghost predicate Ordered(cfg: Config, acts: seq<Act>)
    requires WfConfig(cfg)
  {
    && (forall i :: 0 <= i < |acts| ==> Placed(cfg, acts[i]))
    && (forall i :: 0 < i < |acts| ==> acts[i].fp + 8 <= acts[i].base)
    && Threaded(cfg, acts)
  }

  lemma OrderedPop(cfg: Config, acts: seq<Act>)
    requires WfConfig(cfg) && Ordered(cfg, acts) && acts != []
    ensures Ordered(cfg, Popped(acts))
  {
    var rest := Popped(acts);
    assert forall i :: 0 <= i < |rest| ==> rest[i] == acts[i];
  }

  lemma {:induction false} NewestLowest(cfg: Config, acts: seq<Act>, d: nat, i: nat)
    requires WfConfig(cfg) && Ordered(cfg, acts) && d <= cfg.boxes && i < |acts| && acts[i].dom == d
    ensures NewestSp(cfg, acts, d) <= acts[i].sp
    decreases |acts|
  {
    if i < |acts| - 1 {
      OrderedPop(cfg, acts);
      assert Popped(acts)[i] == acts[i];
      NewestLowest(cfg, Popped(acts), d, i);
      assert Placed(cfg, Last(acts));
    }
  }

  lemma {:induction false} NewestInside(cfg: Config, acts: seq<Act>, d: nat)
    requires WfConfig(cfg) && d <= cfg.boxes && forall i :: 0 <= i < |acts| ==> Placed(cfg, acts[i])
    ensures NewestSp(cfg, acts, d) <= cfg.stacks[d].hi
    decreases |acts|
  {
    if acts != [] {
      NewestInside(cfg, Popped(acts), d);
      assert Placed(cfg, Last(acts));
    }
  }

  // The record of a live domain is inside its stack, at or below all its frames.
  lemma RecordBelow(cfg: Config, c: Cpu, acts: seq<Act>, lent: seq<nat>, d: nat)
    requires Represents(cfg, c, acts, lent) && d <= cfg.boxes && Live(c.recs, c.active, d)
    ensures c.recs[d].sp <= cfg.stacks[d].hi
    ensures forall i :: 0 <= i < |acts| && acts[i].dom == d ==> c.recs[d].sp <= acts[i].sp
  {
    hide Placed, FramesIn, Loaded, NewestSp;
    assert Ordered(cfg, acts);
    NewestInside(cfg, acts, d);
    forall i | 0 <= i < |acts| && acts[i].dom == d
      ensures c.recs[d].sp <= acts[i].sp
    {
      NewestLowest(cfg, acts, d, i);
    }
  }

  // The caller's record points at the frame of its call, less what is lent of its
  // stack: a return finds the frame exactly when nothing is.
  lemma CallerAtFrame(cfg: Config, c: Cpu, acts: seq<Act>, lent: seq<nat>)
    requires Represents(cfg, c, acts, lent) && acts != []
    ensures var a := Last(acts);
            && a.dom <= cfg.boxes && a.dom != c.active && c.recs[a.dom].lr != 0
            && c.recs[a.dom].sp + lent[a.dom] == a.sp
            && (c.recs[a.dom].sp == a.sp <==> lent[a.dom] == 0)
            && (a.dom == 0 ==> c.recs[a.dom].sp == a.sp)
  {
    assert Placed(cfg, Last(acts));
  }

  // -------------------- one stack --------------------

  ghost predicate SameCalls(acts: seq<Act>, acts': seq<Act>) {
    && |acts| == |acts'|
    && (forall i :: 0 <= i < |acts| ==> acts[i].dom == acts'[i].dom)
    && (forall i :: 0 <= i < |acts| && acts[i].dom == 0 ==> acts[i] == acts'[i])
  }

  // What unwinding keeps: the frames in memory, the caller and the system's frame.
  ghost predicate Unwound(cfg: Config, mem: seq<nat>, acts: seq<Act>, active: nat)
    requires WfConfig(cfg)
  {
    Shaped(cfg, acts, active) && Threaded(cfg, acts) && FramesIn(mem, acts)
  }

  lemma UnwoundPop(cfg: Config, mem: seq<nat>, acts: seq<Act>, active: nat)
    requires WfConfig(cfg) && Unwound(cfg, mem, acts, active) && acts != []
    ensures var a := Last(acts);
            && Unwound(cfg, mem, Popped(acts), a.dom)
            && a.dom <= cfg.boxes && a.dom != active && FrameAt(mem, a)
            && (active == 0 <==> a.dom != 0)
            && CallerOf(Popped(acts)) == a.caller
            && a.base + a.lent == NewestSp(cfg, Popped(acts), a.dom)
            && (a.dom == 0 ==> a.lent == 0) && (a.dom != 0 ==> a.caller == 0)
            && NewestSp(cfg, acts, a.dom) == a.sp
            && (forall d :: 0 <= d <= cfg.boxes && d != a.dom ==>
                  NewestSp(cfg, Popped(acts), d) == NewestSp(cfg, acts, d))
  {
    hide FrameAt;
    ShapedPop(cfg, acts, active);
    FramesPop(mem, acts);
    assert Placed(cfg, Last(acts)) && FrameAt(mem, Last(acts));
    assert forall d :: 0 <= d <= cfg.boxes && d != Last(acts).dom ==>
        NewestSp(cfg, Popped(acts), d) == NewestSp(cfg, acts, d);
  }

  lemma {:induction false} SystemsAgree(cfg: Config, mem: seq<nat>, acts: seq<Act>, acts': seq<Act>, active: nat,
                                        sys: nat)
    requires WfConfig(cfg) && Unwound(cfg, mem, acts, active) && Unwound(cfg, mem, acts', active)
    requires sys == 0 && CallerOf(acts) == CallerOf(acts') && NewestSp(cfg, acts, sys) == NewestSp(cfg, acts', sys)
    ensures SameCalls(acts, acts')
    decreases |acts|
  {
    hide Unwound, FrameAt, NewestSp;
    BottomIsSystem(cfg, mem, acts, active);
    BottomIsSystem(cfg, mem, acts', active);
    if acts != [] {
      UnwoundPop(cfg, mem, acts, active);
      UnwoundPop(cfg, mem, acts', active);
      var a, a' := Last(acts), Last(acts');
      if a.dom == 0 {
        OneFrame(mem, a, a');
      }
      SystemsAgree(cfg, mem, Popped(acts), Popped(acts'), a.dom, sys);
      assert acts == Popped(acts) + [a] && acts' == Popped(acts') + [a'];
    }
  }

  // An empty stack shows in the state: the system runs and has no caller.
  lemma BottomIsSystem(cfg: Config, mem: seq<nat>, acts: seq<Act>, active: nat)
    requires WfConfig(cfg) && Unwound(cfg, mem, acts, active)
    ensures acts == [] <==> active == 0 && CallerOf(acts) == 0
  {
  }

  lemma OneFrame(mem: seq<nat>, a: Act, a': Act)
    requires FrameAt(mem, a) && FrameAt(mem, a') && a.sp == a'.sp && a.dom == a'.dom && a.lent == a'.lent
    ensures a == a'
  {
  }

  lemma RepresentsUnwound(cfg: Config, c: Cpu, acts: seq<Act>, lent: seq<nat>)
    requires Represents(cfg, c, acts, lent)
    ensures WfConfig(cfg) && Unwound(cfg, c.mem, acts, c.active)
    ensures c.recs[c.active].caller == CallerOf(acts)
    ensures c.recs[0].sp == NewestSp(cfg, acts, 0)
    ensures forall d :: 0 <= d <= cfg.boxes && (d == c.active || InCall(acts, d)) ==>
              Live(c.recs, c.active, d) && c.recs[d].sp + lent[d] == NewestSp(cfg, acts, d)
  {
    hide FramesIn, Placed, NewestSp;
    DomainsInside(cfg, acts, c.active);
    assert Live(c.recs, c.active, 0) by {
      if c.active != 0 {
        assert acts[0].dom == 0;
      }
    }
  }

  // Whatever is lent: two stacks that the same state stands for consist of the same
  // domains, in the same order, with the same activations of the system.
  lemma SameCallsForAnyLoans(cfg: Config, c: Cpu, acts: seq<Act>, lent: seq<nat>, acts': seq<Act>, lent': seq<nat>)
    requires Represents(cfg, c, acts, lent) && Represents(cfg, c, acts', lent')
    ensures SameCalls(acts, acts')
  {
    hide Represents, Unwound, NewestSp;
    RepresentsUnwound(cfg, c, acts, lent);
    RepresentsUnwound(cfg, c, acts', lent');
    SystemsAgree(cfg, c.mem, acts, acts', c.active, 0);
  }

  ghost predicate SameLoans(acts: seq<Act>, acts': seq<Act>) {
    |acts| == |acts'| && forall i :: 0 <= i < |acts| ==> acts[i].lent == acts'[i].lent
  }

  lemma {:induction false} ChainsAgree(cfg: Config, mem: seq<nat>, acts: seq<Act>, acts': seq<Act>, active: nat)
    requires WfConfig(cfg) && Unwound(cfg, mem, acts, active) && Unwound(cfg, mem, acts', active)
    requires CallerOf(acts) == CallerOf(acts') && SameLoans(acts, acts')
    requires forall d :: 0 <= d <= cfg.boxes ==> NewestSp(cfg, acts, d) == NewestSp(cfg, acts', d)
    ensures acts == acts'
    decreases |acts|
  {
    hide Unwound, FrameAt, NewestSp;
    if acts != [] {
      UnwoundPop(cfg, mem, acts, active);
      UnwoundPop(cfg, mem, acts', active);
      var a, a' := Last(acts), Last(acts');
      OneFrame(mem, a, a');
      ChainsAgree(cfg, mem, Popped(acts), Popped(acts'), a.dom);
      assert acts == Popped(acts) + [a] && acts' == Popped(acts') + [a'];
    }
  }

  // A state and what is lent determine the stack: every domain's chain of frames is
  // exactly its suspended activations, in order.
  lemma OneStack(cfg: Config, c: Cpu, acts: seq<Act>, acts': seq<Act>, lent: seq<nat>)
    requires Represents(cfg, c, acts, lent) && Represents(cfg, c, acts', lent) && SameLoans(acts, acts')
    ensures acts == acts'
  {
    hide Represents, Unwound, NewestSp;
    RepresentsUnwound(cfg, c, acts, lent);
    RepresentsUnwound(cfg, c, acts', lent);
    SameCallsForAnyLoans(cfg, c, acts, lent, acts', lent);
    forall d: nat | d <= cfg.boxes
      ensures NewestSp(cfg, acts, d) == NewestSp(cfg, acts', d)
    {
      if d != c.active && !InCall(acts, d) {
        NewestOfNone(cfg, acts, d);
        NewestOfNone(cfg, acts', d);
      }
    }
    ChainsAgree(cfg, c.mem, acts, acts', c.active);
  }

  lemma {:induction false} NewestOfNone(cfg: Config, acts: seq<Act>, d: nat)
    requires WfConfig(cfg) && d <= cfg.boxes && !InCall(acts, d)
    ensures NewestSp(cfg, acts, d) == NewestSp(cfg, [], d)
    decreases |acts|
  {
    if acts != [] {
      assert !InCall(Popped(acts), d) by {
        assert forall i :: 0 <= i < |Popped(acts)| ==> Popped(acts)[i] == acts[i];
      }
      NewestOfNone(cfg, Popped(acts), d);
    }
  }

  // With nothing lent the state alone does.
  ghost predicate NothingLent(acts: seq<Act>, lent: seq<nat>) {
    (forall d :: 0 <= d < |lent| ==> lent[d] == 0) && forall i :: 0 <= i < |acts| ==> acts[i].lent == 0
  }

  lemma OneStackUnlent(cfg: Config, c: Cpu, acts: seq<Act>, lent: seq<nat>, acts': seq<Act>, lent': seq<nat>)
    requires Represents(cfg, c, acts, lent) && Represents(cfg, c, acts', lent')
    requires NothingLent(acts, lent) && NothingLent(acts', lent')
    ensures acts == acts' && lent == lent'
  {
    hide Represents;
    RecordCount(cfg, c, acts, lent);
    RecordCount(cfg, c, acts', lent');
    assert lent == lent';
    SameCallsForAnyLoans(cfg, c, acts, lent, acts', lent');
    OneStack(cfg, c, acts, acts', lent);
  }

  // -------------------- calls --------------------

  lemma CallFitsOk(cfg: Config, c: Cpu, acts: seq<Act>, lent: seq<nat>, t: Trap)
    requires Represents(cfg, c, acts, lent) && CallOk(cfg, c, acts, t)
    ensures CallFits(cfg, c, t)
    ensures var d := Target(cfg, c.active, t.op);
            && cfg.stacks[d].lo + 8 <= c.recs[d].sp <= cfg.stacks[d].hi
            && (d == 0 <==> c.active != 0)
  {
    hide Shaped, FramesIn, Recorded, Threaded;
    RecordBelow(cfg, c, acts, lent, Target(cfg, c.active, t.op));
  }

  // What the memory writes of a call leave alone.
  lemma CallMemory(cfg: Config, c: Cpu, t: Trap)
    requires CallFits(cfg, c, t)
    ensures var c', at := CallSetup(cfg, c, t).cpu, CallSetup(cfg, c, t).sp;
            && |c'.mem| == |c.mem| && at + 8 <= |c.mem|
            && forall k :: 0 <= k < |c.mem| && !(t.sp <= k < t.sp + 4) && !(at <= k < at + 8) ==> c'.mem[k] == c.mem[k]
  {
  }

  // Protected words of other activations are outside both write areas.
  lemma CallKeepsFrames(cfg: Config, c: Cpu, acts: seq<Act>, lent: seq<nat>, t: Trap, i: nat, k: nat)
    requires Represents(cfg, c, acts, lent) && CallOk(cfg, c, acts, t) && i < |acts|
    requires acts[i].sp <= k < acts[i].fp + 8
    ensures k < |c.mem| && CallFits(cfg, c, t)
    ensures CallSetup(cfg, c, t).cpu.mem[k] == c.mem[k]
  {
    hide Shaped, FramesIn, Recorded, Threaded, CallSetup;
    CallFitsOk(cfg, c, acts, lent, t);
    CallMemory(cfg, c, t);
    PlacedAct(cfg, acts, c.active, i);
    var d := Target(cfg, c.active, t.op);
    RecordBelow(cfg, c, acts, lent, d);
    RecordBelow(cfg, c, acts, lent, c.active);
    if acts[i].dom != c.active {
      Apart(cfg, |c.mem|, acts[i].dom, c.active, k, t.sp);
    }
    if acts[i].dom != d {
      Apart(cfg, |c.mem|, acts[i].dom, d, k, c.recs[d].sp - 8);
    }
    CallSp(cfg, c, t);
  }

  lemma CallSp(cfg: Config, c: Cpu, t: Trap)
    requires CallFits(cfg, c, t)
    ensures CallSetup(cfg, c, t).sp == c.recs[Target(cfg, c.active, t.op)].sp - 8
  {
  }

  // Words of different stacks are on different sides.
  lemma Apart(cfg: Config, memory: nat, d: nat, e: nat, k: nat, at: nat)
    requires Layout(cfg, memory) && d <= cfg.boxes && e <= cfg.boxes && d != e
    requires cfg.stacks[d].lo <= k < cfg.stacks[d].hi
    ensures !(cfg.stacks[e].lo <= k < cfg.stacks[e].hi)
  {
  }

  lemma CallFrame(cfg: Config, c: Cpu, acts: seq<Act>, lent: seq<nat>, t: Trap)
    requires Represents(cfg, c, acts, lent) && CallOk(cfg, c, acts, t)
    ensures CallFits(cfg, c, t) && c.active < |lent|
    ensures FrameAt(CallSetup(cfg, c, t).cpu.mem, Suspended(c, lent, t))
    ensures forall k :: t.fp <= k < t.fp + 8 ==> CallSetup(cfg, c, t).cpu.mem[k] == c.mem[k]
  {
    hide FramesIn, Shaped, Recorded, Threaded, PutFrame, PutCall, FrameAt;
    NoCodeWhileActive(cfg, c, acts, lent);
    RecordCount(cfg, c, acts, lent);
    CallFitsOk(cfg, c, acts, lent, t);
    var d := Target(cfg, c.active, t.op);
    var at := c.recs[d].sp - 8;
    Below(cfg, |c.mem|, c.active, d, t.sp, t.fp + 8, at);
    FrameSurvives(c.mem, t.sp, c.recs[c.active], at, cfg.callRegion, TargetPc(cfg, c.active, t.op),
                  Suspended(c, lent, t));
  }

  lemma FrameSurvives(mem: seq<nat>, sp: nat, r: Rec, at: nat, lr: nat, pc: nat, a: Act)
    requires a.sp == sp && sp + 4 <= a.fp && a.fp + 8 <= |mem| && at + 8 <= |mem|
    requires a.fp + 8 <= at || at + 8 <= sp
    requires r.lr == 0 && a.base == r.sp && a.caller == r.caller
    ensures FrameAt(PutCall(PutFrame(mem, sp, a.fp, r), at, a.fp, lr, pc), a)
    ensures forall k :: a.fp <= k < a.fp + 8 ==> PutCall(PutFrame(mem, sp, a.fp, r), at, a.fp, lr, pc)[k] == mem[k]
  {
  }

  // Two ranges in different stacks share no word.
  lemma Below(cfg: Config, memory: nat, d: nat, e: nat, lo: nat, hi: nat, at: nat)
    requires Layout(cfg, memory) && d <= cfg.boxes && e <= cfg.boxes && d != e
    requires cfg.stacks[d].lo <= lo <= hi <= cfg.stacks[d].hi
    requires cfg.stacks[e].lo <= at && at + 8 <= cfg.stacks[e].hi
    ensures hi <= at || at + 8 <= lo
  {
  }

  lemma ShapedPush(cfg: Config, acts: seq<Act>, active: nat, a: Act, target: nat)
    requires WfConfig(cfg) && Shaped(cfg, acts, active)
    requires a.dom == active && Placed(cfg, a) && target <= cfg.boxes && (target == 0 <==> active != 0)
    requires a.caller == CallerOf(acts) && (acts != [] ==> a.fp + 8 <= a.base)
    ensures Shaped(cfg, acts + [a], target)
  {
    hide Placed;
    var all := acts + [a];
    forall i | 0 <= i < |all|
      ensures Placed(cfg, all[i])
    {
      if i < |acts| {
        PlacedAct(cfg, acts, active, i);
      }
    }
  }

  lemma ThreadedPush(cfg: Config, acts: seq<Act>, a: Act)
    requires WfConfig(cfg) && Threaded(cfg, acts) && a.dom <= cfg.boxes
    requires a.base + a.lent == NewestSp(cfg, acts, a.dom) && (a.dom == 0 ==> a.lent == 0)
    ensures Threaded(cfg, acts + [a])
    ensures NewestSp(cfg, acts + [a], a.dom) == a.sp
    ensures forall d :: 0 <= d <= cfg.boxes && d != a.dom ==> NewestSp(cfg, acts + [a], d) == NewestSp(cfg, acts, d)
  {
    assert Popped(acts + [a]) == acts;
  }

  // Frames stay where no word of theirs changes.
  lemma FramesKept(mem: seq<nat>, mem': seq<nat>, acts: seq<Act>)
    requires |mem| == |mem'| && FramesIn(mem, acts)
    requires forall i, k :: 0 <= i < |acts| && acts[i].sp <= k < acts[i].sp + 4 && k < |mem| ==> mem'[k] == mem[k]
    ensures FramesIn(mem', acts)
  {
    forall i | 0 <= i < |acts|
      ensures FrameAt(mem', acts[i])
    {
      assert FrameAt(mem, acts[i]);
    }
  }

  lemma RecordedPush(cfg: Config, recs: seq<Rec>, active: nat, acts: seq<Act>, lent: seq<nat>, a: Act, target: nat,
                     recs': seq<Rec>, lr: nat)
    requires WfConfig(cfg) && |recs| == cfg.boxes + 1 && active <= cfg.boxes && target <= cfg.boxes
    requires (target == 0 <==> active != 0) && recs[target].lr != 0 && lr != 0
    requires forall i :: 0 <= i < |acts| ==> acts[i].dom <= cfg.boxes
    requires Threaded(cfg, acts) && Recorded(cfg, recs, active, acts, lent)
    requires a.dom == active && a.base + a.lent == NewestSp(cfg, acts, a.dom) && (a.dom == 0 ==> a.lent == 0)
    requires recs' == recs[active := recs[active].(lr := lr, sp := a.sp)]
                          [target := recs[target].(caller := active, lr := 0)]
    ensures Recorded(cfg, recs', target, acts + [a], lent[active := 0])
  {
    hide NewestSp, Threaded;
    ThreadedPush(cfg, acts, a);
    var lent', all := lent[active := 0], acts + [a];
    assert Live(recs, active, active);
    assert lent'[0] == 0;
    assert recs'[target].lr == 0;
    assert recs'[target].caller == CallerOf(all);
    assert forall i :: 0 <= i < |all| && all[i].dom != target ==> recs'[all[i].dom].lr != 0;
    assert forall b :: 1 <= b <= cfg.boxes ==> recs'[b].caller == 0;
    forall d: nat | d <= cfg.boxes && Live(recs', target, d)
      ensures recs'[d].sp + lent'[d] == NewestSp(cfg, acts + [a], d)
    {
      assert Live(recs, active, d);
    }
  }

  // A call pushes the caller, and sets aside what is lent of its stack.
  lemma CallPushes(cfg: Config, c: Cpu, acts: seq<Act>, lent: seq<nat>, t: Trap)
    requires Represents(cfg, c, acts, lent) && CallOk(cfg, c, acts, t)
    ensures CallFits(cfg, c, t) && c.active < |lent|
    ensures Represents(cfg, CallSetup(cfg, c, t).cpu, Pushed(c, acts, lent, t), SetAside(c, lent))
  {
    hide FrameAt, PutFrame, PutCall, FramesIn, Shaped, Recorded, Threaded, NewestSp;
    RecordCount(cfg, c, acts, lent);
    CallFitsOk(cfg, c, acts, lent, t);
    var c' := CallSetup(cfg, c, t).cpu;
    var a := Suspended(c, lent, t);
    PushFacts(cfg, c, acts, lent, t);
    ShapedPush(cfg, acts, c.active, a, c'.active);
    ThreadedPush(cfg, acts, a);
    RecordedPush(cfg, c.recs, c.active, acts, lent, a, c'.active, c'.recs, t.lr);
    forall i, k | 0 <= i < |acts| && acts[i].sp <= k < acts[i].sp + 4 && k < |c.mem|
      ensures c'.mem[k] == c.mem[k]
    {
      PlacedAct(cfg, acts, c.active, i);
      CallKeepsFrames(cfg, c, acts, lent, t, i, k);
    }
    FramesKept(c.mem, c'.mem, acts);
    CallFrame(cfg, c, acts, lent, t);
    FramesPush(c'.mem, acts, a);
  }

  // -------------------- what a call enters --------------------

  // The whole state after a call into domain `d` at `pc`: the domain and its regions, the
  // place and code it starts with, both records, the frame saved, the frame made for the
  // callee, and everything else as it was.
  ghost predicate Entered(cfg: Config, c: Cpu, t: Trap, e: Outcome, d: nat, pc: nat) {
    && e.Resume? && |e.cpu.recs| == |c.recs| && |e.cpu.mem| == |c.mem|
    && c.active < |c.recs| && d < |c.recs| && d != c.active
    && t.sp + 4 <= |c.mem| && t.fp + 8 <= |c.mem| && 8 <= c.recs[d].sp <= |c.mem|
    && e.cpu.active == e.cpu.regions == d && (e.cpu.unprivileged <==> d != 0)
    && e.sp == c.recs[d].sp - 8 && e.lr == c.recs[d].lr
    && e.cpu.recs[c.active] == c.recs[c.active].(lr := t.lr, sp := t.sp)
    && e.cpu.recs[d] == c.recs[d].(caller := c.active, lr := 0)
    && (forall x :: 0 <= x < |c.recs| && x != c.active && x != d ==> e.cpu.recs[x] == c.recs[x])
    && (var was := c.recs[c.active]; e.cpu.mem[t.sp..t.sp + 4] == [t.fp, was.lr, was.sp, was.caller])
    && e.cpu.mem[e.sp..e.sp + 8] == c.mem[t.fp..t.fp + 5] + [cfg.callRegion, pc, c.mem[t.fp + 7]]
    && forall k :: 0 <= k < |c.mem| && !(t.sp <= k < t.sp + 4) && !(e.sp <= k < e.sp + 8) ==> e.cpu.mem[k] == c.mem[k]
  }

  lemma CallEnters(cfg: Config, c: Cpu, acts: seq<Act>, lent: seq<nat>, t: Trap)
    requires Represents(cfg, c, acts, lent) && CallOk(cfg, c, acts, t)
    ensures CallFits(cfg, c, t)
    ensures Entered(cfg, c, t, CallSetup(cfg, c, t), Target(cfg, c.active, t.op), TargetPc(cfg, c.active, t.op))
  {
    hide Shaped, FramesIn, Recorded, Threaded, PutFrame, PutCall;
    var d := Target(cfg, c.active, t.op);
    CallFitsOk(cfg, c, acts, lent, t);
    CallMemory(cfg, c, t);
    Below(cfg, |c.mem|, c.active, d, t.sp, t.fp + 8, c.recs[d].sp - 8);
    EntryWrites(c.mem, t.sp, t.fp, c.recs[c.active], c.recs[d].sp - 8, cfg.callRegion, TargetPc(cfg, c.active, t.op));
  }

  lemma EntryWrites(mem: seq<nat>, sp: nat, fp: nat, r: Rec, at: nat, lr: nat, pc: nat)
    requires sp + 4 <= fp && fp + 8 <= |mem| && at + 8 <= |mem| && (fp + 8 <= at || at + 8 <= sp)
    ensures var m := PutCall(PutFrame(mem, sp, fp, r), at, fp, lr, pc);
            && m[at..at + 8] == mem[fp..fp + 5] + [lr, pc, mem[fp + 7]]
            && m[sp..sp + 4] == [fp, r.lr, r.sp, r.caller]
  {
    var framed := PutFrame(mem, sp, fp, r);
    assert framed[fp..fp + 8] == mem[fp..fp + 8];
  }

  // Import `j` of box `i`, as the system's linker script knows it: the system's jump to it
  // enters that box, at entry j of its jumptable.
  lemma SystemCallEnters(cfg: Config, c: Cpu, acts: seq<Act>, lent: seq<nat>, t: Trap, i: nat, j: nat, f: bool)
    requires Represents(cfg, c, acts, lent) && c.active == 0 && i < cfg.boxes
    requires t.op == SystemOffset(cfg.boxes, i, j, f) && j + 1 < |cfg.boxJump[i]|
    requires Stacked(cfg, c, acts, t) && c.recs[i + 1].lr != 0 && cfg.stacks[i + 1].lo + 8 <= c.recs[i + 1].sp
    ensures CallOk(cfg, c, acts, t) && CallFits(cfg, c, t)
    ensures Entered(cfg, c, t, CallSetup(cfg, c, t), i + 1, cfg.boxJump[i][j + 1])
  {
    hide Shaped, FramesIn, Recorded, Threaded, Stacked, Entered, CallSetup, TargetBox, TargetEntry, SystemOffset;
    OffsetDecodes(cfg.boxes, i, j, f);
    CallEnters(cfg, c, acts, lent, t);
  }

  // Import `i` of a box: its jump enters the system, at entry i of the system's jumptable
  // for that box.
  lemma BoxCallEnters(cfg: Config, c: Cpu, acts: seq<Act>, lent: seq<nat>, t: Trap, i: nat, f: bool)
    requires Represents(cfg, c, acts, lent) && c.active != 0
    requires t.op == BoxOffset(i, f) && i < |cfg.sysJump[c.active - 1]|
    requires Stacked(cfg, c, acts, t) && c.recs[0].lr != 0 && cfg.stacks[0].lo + 8 <= c.recs[0].sp
    ensures CallOk(cfg, c, acts, t) && CallFits(cfg, c, t)
    ensures Entered(cfg, c, t, CallSetup(cfg, c, t), 0, cfg.sysJump[c.active - 1][i])
  {
    hide Shaped, FramesIn, Recorded, Threaded, Stacked, Entered, CallSetup, SystemEntry, BoxOffset;
    BoxOffsetDecodes(i, f);
    CallEnters(cfg, c, acts, lent, t);
  }

  // Whichever import the offset is that of, its function is what is entered.
  ghost predicate EntersImport(cfg: Config, c: Cpu, t: Trap, e: Outcome)
    requires WfConfig(cfg) && c.active <= cfg.boxes
  {
    && (forall i: nat, j: nat, f: bool ::
          c.active == 0 && i < cfg.boxes && t.op == SystemOffset(cfg.boxes, i, j, f) ==>
            j + 1 < |cfg.boxJump[i]| && Entered(cfg, c, t, e, i + 1, cfg.boxJump[i][j + 1]))
    && (forall i: nat, f: bool ::
          c.active != 0 && t.op == BoxOffset(i, f) ==>
            i < |cfg.sysJump[c.active - 1]| && Entered(cfg, c, t, e, 0, cfg.sysJump[c.active - 1][i]))
  }

  lemma ImportIsEntered(cfg: Config, c: Cpu, acts: seq<Act>, lent: seq<nat>, t: Trap)
    requires Represents(cfg, c, acts, lent) && CallOk(cfg, c, acts, t)
    ensures CallFits(cfg, c, t) && EntersImport(cfg, c, t, CallSetup(cfg, c, t))
  {
    hide Represents, Stacked, Entered, CallSetup, TargetBox, TargetEntry, SystemEntry, SystemOffset, BoxOffset;
    CallEnters(cfg, c, acts, lent, t);
    forall i: nat, j: nat, f: bool | c.active == 0 && i < cfg.boxes && t.op == SystemOffset(cfg.boxes, i, j, f)
      ensures j + 1 < |cfg.boxJump[i]| && Entered(cfg, c, t, CallSetup(cfg, c, t), i + 1, cfg.boxJump[i][j + 1])
    {
      OffsetDecodes(cfg.boxes, i, j, f);
    }
    forall i: nat, f: bool | c.active != 0 && t.op == BoxOffset(i, f)
      ensures i < |cfg.sysJump[c.active - 1]| &&
              Entered(cfg, c, t, CallSetup(cfg, c, t), 0, cfg.sysJump[c.active - 1][i])
    {
      BoxOffsetDecodes(i, f);
    }
  }

  lemma FramesPush(mem: seq<nat>, acts: seq<Act>, a: Act)
    requires FramesIn(mem, acts) && FrameAt(mem, a)
    ensures FramesIn(mem, acts + [a])
  {
  }

  lemma PushFacts(cfg: Config, c: Cpu, acts: seq<Act>, lent: seq<nat>, t: Trap)
    requires Represents(cfg, c, acts, lent) && CallOk(cfg, c, acts, t)
    ensures c.recs[c.active].caller == CallerOf(acts)
    ensures c.active < |lent| && c.recs[c.active].sp + lent[c.active] == NewestSp(cfg, acts, c.active)
    ensures lent[0] == 0
    ensures forall i :: 0 <= i < |acts| ==> acts[i].dom <= cfg.boxes
  {
    DomainsInside(cfg, acts, c.active);
    assert Live(c.recs, c.active, c.active);
  }

  lemma NoCodeWhileActive(cfg: Config, c: Cpu, acts: seq<Act>, lent: seq<nat>)
    requires Represents(cfg, c, acts, lent)
    ensures c.recs[c.active].lr == 0
  {
  }

  // -------------------- returns --------------------

  // The frame a return or a fault takes apart.
  lemma CallerFrame(cfg: Config, c: Cpu, acts: seq<Act>, lent: seq<nat>)
    requires Represents(cfg, c, acts, lent) && acts != [] && Last(acts).dom < |lent| && lent[Last(acts).dom] == 0
    ensures var a := Last(acts);
            && c.recs[c.active].caller == a.dom && a.dom != c.active && a.dom <= cfg.boxes
            && FrameFits(c, a.dom) && c.mem[c.recs[a.dom].sp] == a.fp && a.fp + 8 <= |c.mem|
            && c.recs[a.dom].lr != 0
            && PopRec(c, a.dom) == c.recs[a.dom].(lr := 0, sp := a.base, caller := a.caller)
  {
    var a := Last(acts);
    CallerAtFrame(cfg, c, acts, lent);
    assert Placed(cfg, a) && FrameAt(c.mem, a);
  }

  lemma ReturnFitsOk(cfg: Config, c: Cpu, acts: seq<Act>, lent: seq<nat>, t: Trap)
    requires Represents(cfg, c, acts, lent) && ReturnOk(cfg, c, acts, lent, t)
    ensures ReturnFits(cfg, c, t)
    ensures var a := Last(acts);
            && c.recs[c.active].caller == a.dom && a.dom != c.active
            && c.recs[a.dom].lr != 0 && c.recs[a.dom].sp == a.sp && c.mem[c.recs[a.dom].sp] == a.fp
            && PopRec(c, a.dom) == c.recs[a.dom].(lr := 0, sp := a.base, caller := a.caller)
  {
    hide Shaped, FramesIn, Threaded, Recorded, PopRec;
    CallerAtFrame(cfg, c, acts, lent);
    CallerFrame(cfg, c, acts, lent);
    RecordBelow(cfg, c, acts, lent, c.active);
  }

  lemma ShapedPop(cfg: Config, acts: seq<Act>, active: nat)
    requires WfConfig(cfg) && Shaped(cfg, acts, active) && acts != []
    ensures Shaped(cfg, Popped(acts), Last(acts).dom)
    ensures Last(acts).dom != active && Last(acts).caller == CallerOf(Popped(acts))
  {
    var rest := Popped(acts);
    assert forall i :: 0 <= i < |rest| ==> rest[i] == acts[i];
    assert Placed(cfg, Last(acts));
  }

  lemma FramesPop(mem: seq<nat>, acts: seq<Act>)
    requires FramesIn(mem, acts) && acts != []
    ensures FramesIn(mem, Popped(acts))
  {
    forall i | 0 <= i < |Popped(acts)|
      ensures FrameAt(mem, Popped(acts)[i])
    {
      assert FrameAt(mem, acts[i]);
    }
  }

  // The newest activation is apart from all older ones.
  lemma NewestApart(cfg: Config, memory: nat, acts: seq<Act>, active: nat, i: nat, k: nat)
    requires Layout(cfg, memory) && Shaped(cfg, acts, active) && Threaded(cfg, acts) && i < |acts| - 1
    requires acts[i].sp <= k < acts[i].fp + 8
    ensures !(Last(acts).sp <= k < Last(acts).fp + 8)
  {
    hide NewestSp;
    var a := Last(acts);
    PlacedAct(cfg, acts, active, i);
    PlacedAct(cfg, acts, active, |acts| - 1);
    if acts[i].dom != a.dom {
      Apart(cfg, memory, acts[i].dom, a.dom, k, 0);
    } else {
      OrderedPop(cfg, acts);
      assert Popped(acts)[i] == acts[i];
      NewestLowest(cfg, Popped(acts), a.dom, i);
    }
  }

  // The records once the caller's has been put back, and the one of the domain that
  // ran has become `r`.
  ghost function RecsAfter(recs: seq<Rec>, active: nat, r: Rec, a: Act): seq<Rec>
    requires active < |recs| && a.dom < |recs|
  {
    recs[active := r][a.dom := recs[a.dom].(lr := 0, sp := a.base, caller := a.caller)]
  }

  lemma ChainPop(cfg: Config, recs: seq<Rec>, active: nat, acts: seq<Act>, lent: seq<nat>, r: Rec)
    requires WfConfig(cfg) && Threaded(cfg, acts) && acts != [] && Last(acts).dom != active
    requires |recs| == |lent| == cfg.boxes + 1 && active <= cfg.boxes
    requires forall d :: 0 <= d <= cfg.boxes && Live(recs, active, d) ==> recs[d].sp + lent[d] == NewestSp(cfg, acts, d)
    requires r.sp == recs[active].sp
    ensures Last(acts).dom <= cfg.boxes
    ensures var a, recs' := Last(acts), RecsAfter(recs, active, r, Last(acts));
            forall d :: 0 <= d <= cfg.boxes && Live(recs', a.dom, d) ==>
              recs'[d].sp + BroughtBack(acts, lent)[d] == NewestSp(cfg, Popped(acts), d)
  {
    hide NewestSp;
    var a, recs', lent' := Last(acts), RecsAfter(recs, active, r, Last(acts)), BroughtBack(acts, lent);
    forall d: nat | d <= cfg.boxes && Live(recs', a.dom, d)
      ensures recs'[d].sp + lent'[d] == NewestSp(cfg, Popped(acts), d)
    {
      NewestPop(cfg, acts, d);
      assert Live(recs, active, d) || d == a.dom;
    }
  }

  lemma RecordedPop(cfg: Config, recs: seq<Rec>, active: nat, acts: seq<Act>, lent: seq<nat>, r: Rec)
    requires WfConfig(cfg) && Shaped(cfg, acts, active) && Threaded(cfg, acts) && acts != []
    requires |recs| == cfg.boxes + 1 && active <= cfg.boxes
    requires forall i :: 0 <= i < |acts| ==> acts[i].dom <= cfg.boxes
    requires Recorded(cfg, recs, active, acts, lent)
    requires r.caller == recs[active].caller && r.sp == recs[active].sp
    ensures Recorded(cfg, RecsAfter(recs, active, r, Last(acts)), Last(acts).dom, Popped(acts), BroughtBack(acts, lent))
            <==> r.lr != 0 || !InCall(Popped(acts), active)
  {
    hide Placed, NewestSp, Live;
    var a, rest, recs' := Last(acts), Popped(acts), RecsAfter(recs, active, r, Last(acts));
    ShapedPop(cfg, acts, active);
    ChainPop(cfg, recs, active, acts, lent, r);
    assert forall i :: 0 <= i < |rest| ==> rest[i] == acts[i];
    if InCall(rest, active) {
      var i :| 0 <= i < |rest| && rest[i].dom == active;
      assert recs'[rest[i].dom].lr == r.lr;
    }
    if a.dom != 0 {
      assert a.caller == 0;
    }
  }

  lemma NewestPop(cfg: Config, acts: seq<Act>, d: nat)
    requires WfConfig(cfg) && Threaded(cfg, acts) && acts != [] && d <= cfg.boxes
    ensures NewestSp(cfg, Popped(acts), d) ==
            if d == Last(acts).dom then Last(acts).base + Last(acts).lent else NewestSp(cfg, acts, d)
  {
  }

  // What the memory writes of a return leave alone.
  lemma ReturnKeepsFrames(cfg: Config, c: Cpu, acts: seq<Act>, lent: seq<nat>, r0: nat, r1: nat, r2: nat, r3: nat,
                          i: nat, k: nat)
    requires Represents(cfg, c, acts, lent) && i < |acts| - 1 && acts[i].sp <= k < acts[i].fp + 8
    ensures Last(acts).fp + 8 <= |c.mem| && k < |c.mem|
    ensures PutReturn(c.mem, Last(acts).fp, r0, r1, r2, r3)[k] == c.mem[k]
  {
    assert Placed(cfg, acts[i]) && Placed(cfg, Last(acts));
    NewestApart(cfg, |c.mem|, acts, c.active, i, k);
  }

  lemma FramesAfterReturn(cfg: Config, c: Cpu, acts: seq<Act>, lent: seq<nat>, r0: nat, r1: nat, r2: nat, r3: nat)
    requires Represents(cfg, c, acts, lent) && acts != []
    ensures Last(acts).fp + 8 <= |c.mem|
    ensures FramesIn(PutReturn(c.mem, Last(acts).fp, r0, r1, r2, r3), Popped(acts))
  {
    hide PutReturn, FramesIn, Recorded, Threaded;
    PlacedAct(cfg, acts, c.active, |acts| - 1);
    FramesPop(c.mem, acts);
    var mem', rest := PutReturn(c.mem, Last(acts).fp, r0, r1, r2, r3), Popped(acts);
    forall i, k | 0 <= i < |rest| && rest[i].sp <= k < rest[i].sp + 4 && k < |c.mem|
      ensures mem'[k] == c.mem[k]
    {
      PlacedAct(cfg, acts, c.active, i);
      ReturnKeepsFrames(cfg, c, acts, lent, r0, r1, r2, r3, i, k);
    }
    FramesKept(c.mem, mem', rest);
  }

  // A return pops the caller, and with it what had been set aside.
  lemma ReturnPops(cfg: Config, c: Cpu, acts: seq<Act>, lent: seq<nat>, t: Trap)
    requires Represents(cfg, c, acts, lent) && ReturnOk(cfg, c, acts, lent, t)
    ensures ReturnFits(cfg, c, t) && c.recs[c.recs[c.active].caller].lr != 0
    ensures Represents(cfg, ReturnSetup(cfg, c, t).cpu, Popped(acts), BroughtBack(acts, lent))
  {
    hide PutReturn, FramesIn, Recorded, Shaped, Placed, Threaded;
    ReturnFitsOk(cfg, c, acts, lent, t);
    ShapedPop(cfg, acts, c.active);
    ThreadedPop(cfg, acts);
    DomainsInside(cfg, acts, c.active);
    FramesAfterReturn(cfg, c, acts, lent, c.mem[t.fp], c.mem[t.fp + 1], c.mem[t.fp + 2], c.mem[t.fp + 3]);
    RecordedPop(cfg, c.recs, c.active, acts, lent, c.recs[c.active].(lr := t.lr));
  }

  // The caller goes on at the frame it saved, with its activation popped, if and only if
  // nothing is lent of its stack at the time of the return.
  lemma ReturnPopsIff(cfg: Config, c: Cpu, acts: seq<Act>, lent: seq<nat>, t: Trap)
    requires Represents(cfg, c, acts, lent) && acts != []
    requires t.lr != 0 && cfg.stacks[c.active].lo <= t.fp && t.fp + 8 <= c.recs[c.active].sp
    requires ReturnFits(cfg, c, t) && c.recs[c.recs[c.active].caller].lr != 0
    ensures Last(acts).dom < |lent|
    ensures var r := ReturnSetup(cfg, c, t);
            r.sp == Last(acts).sp && Represents(cfg, r.cpu, Popped(acts), BroughtBack(acts, lent))
            <==> lent[Last(acts).dom] == 0
  {
    hide PutReturn, FramesIn, Threaded, Layout;
    CallerAtFrame(cfg, c, acts, lent);
    if lent[Last(acts).dom] == 0 {
      ReturnPops(cfg, c, acts, lent, t);
    }
  }

  lemma ThreadedPop(cfg: Config, acts: seq<Act>)
    requires WfConfig(cfg) && Threaded(cfg, acts) && acts != []
    ensures Threaded(cfg, Popped(acts))
  {
  }

  // The whole state after a return to the activation `a`: its domain and regions, its place
  // and code, both records, the results in its frame, and everything else as it was.
  ghost predicate Returned(c: Cpu, t: Trap, e: Outcome, a: Act) {
    && e.Resume? && |e.cpu.recs| == |c.recs| && |e.cpu.mem| == |c.mem|
    && c.active < |c.recs| && a.dom < |c.recs| && a.dom != c.active && t.fp + 8 <= |c.mem| && a.fp + 8 <= |c.mem|
    && e.cpu.active == e.cpu.regions == a.dom && (e.cpu.unprivileged <==> a.dom != 0)
    && e.sp == a.sp && e.lr == c.recs[a.dom].lr
    && e.cpu.recs[a.dom] == c.recs[a.dom].(lr := 0, sp := a.base, caller := a.caller)
    && e.cpu.recs[c.active] == c.recs[c.active].(lr := t.lr)
    && (forall x :: 0 <= x < |c.recs| && x != c.active && x != a.dom ==> e.cpu.recs[x] == c.recs[x])
    && e.cpu.mem[a.fp..a.fp + 4] == c.mem[t.fp..t.fp + 4] && e.cpu.mem[a.fp + 6] == c.mem[a.fp + 5]
    && forall k :: 0 <= k < |c.mem| && !(a.fp <= k < a.fp + 4) && k != a.fp + 6 ==> e.cpu.mem[k] == c.mem[k]
  }

  lemma ReturnLeaves(cfg: Config, c: Cpu, acts: seq<Act>, lent: seq<nat>, t: Trap)
    requires Represents(cfg, c, acts, lent) && ReturnOk(cfg, c, acts, lent, t)
    ensures ReturnFits(cfg, c, t) && c.recs[c.recs[c.active].caller].lr != 0
    ensures Returned(c, t, ReturnSetup(cfg, c, t), Last(acts))
  {
    hide PutReturn, FramesIn, Recorded, Shaped, Placed, Threaded, PopRec;
    RecordCount(cfg, c, acts, lent);
    ReturnFitsOk(cfg, c, acts, lent, t);
    CallerFrame(cfg, c, acts, lent);
    ResultsPut(c.mem, Last(acts).fp, t.fp);
  }

  lemma ResultsPut(mem: seq<nat>, at: nat, from: nat)
    requires at + 8 <= |mem| && from + 8 <= |mem|
    ensures var m := PutReturn(mem, at, mem[from], mem[from + 1], mem[from + 2], mem[from + 3]);
            && m[at..at + 4] == mem[from..from + 4] && m[at + 6] == mem[at + 5]
            && forall k :: 0 <= k < |mem| && !(at <= k < at + 4) && k != at + 6 ==> m[k] == mem[k]
  {
  }

  // -------------------- faults --------------------

  // A fault of a box without an abort hook, called through an address without the
  // fallible bit, halts the system; with the bit it resumes the caller with the
  // error in r0 and the caller's record as a normal return would leave it. The box
  // is left uninitialised, and without a return code.
  lemma FaultResumes(cfg: Config, c: Cpu, acts: seq<Act>, lent: seq<nat>, err: nat)
    requires Represents(cfg, c, acts, lent) && c.active != 0 && !cfg.hooks[c.active]
    ensures Wf(cfg, c) && c.recs[c.active].caller <= cfg.boxes
    ensures c.recs[c.active].caller != c.active && FrameFits(c, c.recs[c.active].caller)
    ensures acts != [] && Last(acts).fp + 8 <= |c.mem| && Last(acts).dom == 0
    ensures var a, r := Last(acts), FaultSetup(cfg, c, err);
            if !FallibleBit(c.mem[a.fp + 6]) then r == Halt(err)
            else
              && r.Resume? && r.sp == a.sp && r.lr == c.recs[a.dom].lr
              && r.cpu.active == a.dom
              && r.cpu.recs[a.dom] == c.recs[a.dom].(lr := 0, sp := a.base, caller := a.caller)
              && r.cpu.mem == PutReturn(c.mem, a.fp, err, 0, 0, 0)
              && r.cpu.recs == c.recs[c.active := c.recs[c.active].(initialized := false)]
                                     [a.dom := c.recs[a.dom].(lr := 0, sp := a.base, caller := a.caller)]
  {
    hide PutReturn, FramesIn, Placed, Threaded, PopRec, Recorded;
    assert |acts| % 2 == 1;
    CallerAtFrame(cfg, c, acts, lent);
    RecordCount(cfg, c, acts, lent);
    CallerFrame(cfg, c, acts, lent);
  }

  // A box with an abort hook goes on in its hook, with the error, and is no longer
  // initialised; nothing else changes.
  lemma FaultHooks(cfg: Config, c: Cpu, acts: seq<Act>, lent: seq<nat>, err: nat)
    requires Represents(cfg, c, acts, lent) && c.active != 0 && cfg.hooks[c.active]
    ensures Wf(cfg, c) && c.recs[c.active].caller <= cfg.boxes
    ensures c.recs[c.active].caller != c.active && FrameFits(c, c.recs[c.active].caller)
    ensures var r := FaultSetup(cfg, c, err);
            && r.Hook? && r.err == err && r.cpu == c.(recs := r.cpu.recs) && |r.cpu.recs| == |c.recs|
            && forall d :: 0 <= d < |c.recs| ==>
                 r.cpu.recs[d] == if d == c.active then c.recs[d].(initialized := false) else c.recs[d]
  {
    hide PutReturn, FramesIn, Placed, Threaded, PopRec, Recorded;
    assert |acts| % 2 == 1;
    CallerAtFrame(cfg, c, acts, lent);
    RecordCount(cfg, c, acts, lent);
    CallerFrame(cfg, c, acts, lent);
  }

  // So the rest of the stack is still represented exactly when the box had no older
  // activation in it.
  lemma FaultPops(cfg: Config, c: Cpu, acts: seq<Act>, lent: seq<nat>, err: nat)
    requires Represents(cfg, c, acts, lent) && c.active != 0 && !cfg.hooks[c.active]
    requires acts != [] && Last(acts).fp + 8 <= |c.mem| && FallibleBit(c.mem[Last(acts).fp + 6])
    ensures Wf(cfg, c) && c.recs[c.active].caller <= cfg.boxes
    ensures c.recs[c.active].caller != c.active && FrameFits(c, c.recs[c.active].caller)
    ensures FaultSetup(cfg, c, err).Resume?
    ensures Represents(cfg, FaultSetup(cfg, c, err).cpu, Popped(acts), BroughtBack(acts, lent))
            <==> !InCall(Popped(acts), c.active)
  {
    hide PutReturn, FramesIn, Recorded, Placed, Shaped, Threaded, FaultSetup;
    FaultResumes(cfg, c, acts, lent, err);
    ShapedPop(cfg, acts, c.active);
    ThreadedPop(cfg, acts);
    DomainsInside(cfg, acts, c.active);
    FramesAfterReturn(cfg, c, acts, lent, err, 0, 0, 0);
    NoCodeWhileActive(cfg, c, acts, lent);
    RecordedPop(cfg, c.recs, c.active, acts, lent, c.recs[c.active].(initialized := false));
    FaultLoads(cfg, c, err);
  }

  lemma FaultLoads(cfg: Config, c: Cpu, err: nat)
    requires Wf(cfg, c) && c.recs[c.active].caller <= cfg.boxes
    requires c.recs[c.active].caller != c.active && FrameFits(c, c.recs[c.active].caller)
    requires FaultSetup(cfg, c, err).Resume?
    ensures Loaded(FaultSetup(cfg, c, err).cpu) && Wf(cfg, FaultSetup(cfg, c, err).cpu)
  {
  }

  // And when it had one, what is left is no stack of calls at all, whatever is taken
  // to be lent: the chain of the system still leads to a call by the dead box.
  lemma FaultLeavesStackIff(cfg: Config, c: Cpu, acts: seq<Act>, lent: seq<nat>, err: nat)
    requires Represents(cfg, c, acts, lent) && c.active != 0 && !cfg.hooks[c.active]
    requires acts != [] && Last(acts).fp + 8 <= |c.mem| && FallibleBit(c.mem[Last(acts).fp + 6])
    ensures Wf(cfg, c) && c.recs[c.active].caller <= cfg.boxes
    ensures c.recs[c.active].caller != c.active && FrameFits(c, c.recs[c.active].caller)
    ensures FaultSetup(cfg, c, err).Resume?
    ensures (exists acts', lent' :: Represents(cfg, FaultSetup(cfg, c, err).cpu, acts', lent'))
            <==> !InCall(Popped(acts), c.active)
  {
    hide Represents, FaultSetup, Unwound, PutReturn, NewestSp, Shaped, Threaded;
    FaultPops(cfg, c, acts, lent, err);
    FaultResumes(cfg, c, acts, lent, err);
    var c', rest, a := FaultSetup(cfg, c, err).cpu, Popped(acts), Last(acts);
    NoCodeWhileActive(cfg, c, acts, lent);
    RepresentsUnwound(cfg, c, acts, lent);
    UnwoundPop(cfg, c.mem, acts, c.active);
    FramesAfterReturn(cfg, c, acts, lent, err, 0, 0, 0);
    UnwoundAgain(cfg, c.mem, c'.mem, rest, 0);
    if acts': seq<Act>, lent': seq<nat> :| Represents(cfg, c', acts', lent') {
      RepresentsUnwound(cfg, c', acts', lent');
      SystemsAgree(cfg, c'.mem, rest, acts', 0, 0);
      NoCodeNoCall(cfg, c', acts', lent', c.active);
      forall i | 0 <= i < |rest|
        ensures rest[i].dom != c.active
      {
        assert acts'[i].dom == rest[i].dom;
      }
    }
  }

  lemma NoCodeNoCall(cfg: Config, c: Cpu, acts: seq<Act>, lent: seq<nat>, d: nat)
    requires Represents(cfg, c, acts, lent) && d <= cfg.boxes && d != c.active && c.recs[d].lr == 0
    ensures forall i :: 0 <= i < |acts| ==> acts[i].dom != d
  {
  }

  lemma UnwoundAgain(cfg: Config, mem: seq<nat>, mem': seq<nat>, acts: seq<Act>, active: nat)
    requires WfConfig(cfg) && Unwound(cfg, mem, acts, active) && FramesIn(mem', acts)
    ensures Unwound(cfg, mem', acts, active)
  {
  }

  // -------------------- the other steps --------------------

  // Domain code may change any word that belongs to no suspended activation.
  ghost predicate WorkOk(c: Cpu, acts: seq<Act>, mem: seq<nat>) {
    |mem| == |c.mem| && forall k :: 0 <= k < |mem| && Protected(acts, k) ==> mem[k] == c.mem[k]
  }

  lemma WorkKeeps(cfg: Config, c: Cpu, acts: seq<Act>, lent: seq<nat>, mem: seq<nat>)
    requires Represents(cfg, c, acts, lent) && WorkOk(c, acts, mem)
    ensures Represents(cfg, c.(mem := mem), acts, lent)
  {
    hide Recorded, Threaded;
    forall i, k | 0 <= i < |acts| && acts[i].sp <= k < acts[i].sp + 4 && k < |mem|
      ensures mem[k] == c.mem[k]
    {
      assert Placed(cfg, acts[i]);
      assert Protected(acts, k);
    }
    FramesKept(c.mem, mem, acts);
  }

  // __box_push and __box_pop move the sp of a box's record while the system runs.
  ghost function MoveSp(c: Cpu, b: nat, sp: nat): Cpu
    requires b < |c.recs|
  {
    c.(recs := c.recs[b := c.recs[b].(sp := sp)])
  }

  lemma MoveKeeps(cfg: Config, c: Cpu, acts: seq<Act>, lent: seq<nat>, b: nat, sp: nat, words: nat)
    requires Represents(cfg, c, acts, lent) && c.active == 0 && 1 <= b <= cfg.boxes
    requires sp + words == c.recs[b].sp + lent[b]
    ensures Represents(cfg, MoveSp(c, b, sp), acts, lent[b := words])
  {
    hide Threaded, NewestSp, FramesIn;
    DomainsInside(cfg, acts, c.active);
    var c', lent' := MoveSp(c, b, sp), lent[b := words];
    forall d: nat | d <= cfg.boxes && Live(c'.recs, c'.active, d)
      ensures c'.recs[d].sp + lent'[d] == NewestSp(cfg, acts, d)
    {
      assert Live(c.recs, c.active, d);
    }
  }

  // The part of __box_init that makes a box callable: a return code, and the top of
  // its stack.
  const FIRST_LR := 0xffff_fffd

  ghost function Prepare(cfg: Config, c: Cpu, b: nat): Cpu
    requires WfConfig(cfg) && b < |c.recs| && b <= cfg.boxes
  {
    c.(recs := c.recs[b := c.recs[b].(lr := FIRST_LR, sp := cfg.stacks[b].hi)])
  }

  lemma PrepareKeeps(cfg: Config, c: Cpu, acts: seq<Act>, lent: seq<nat>, b: nat)
    requires Represents(cfg, c, acts, lent) && 1 <= b <= cfg.boxes && b != c.active && !InCall(acts, b)
    ensures Represents(cfg, Prepare(cfg, c, b), acts, lent[b := 0])
  {
    hide Threaded, NewestSp, FramesIn;
    DomainsInside(cfg, acts, c.active);
    var c', lent' := Prepare(cfg, c, b), lent[b := 0];
    NewestOfNone(cfg, acts, b);
    assert NewestSp(cfg, [], b) == cfg.stacks[b].hi by { NewestNone(cfg, b); }
    forall d: nat | d <= cfg.boxes && Live(c'.recs, c'.active, d)
      ensures c'.recs[d].sp + lent'[d] == NewestSp(cfg, acts, d)
    {
      if d != b {
        assert Live(c.recs, c.active, d);
      }
    }
  }

  // The first call into a box that has been prepared starts at the top of its stack, in
  // thread mode and on the process stack.
  lemma FirstCallEnters(cfg: Config, c: Cpu, acts: seq<Act>, lent: seq<nat>, t: Trap, i: nat, j: nat, f: bool)
    requires Represents(cfg, c, acts, lent) && c.active == 0 && i < cfg.boxes && !InCall(acts, i + 1)
    requires t.op == SystemOffset(cfg.boxes, i, j, f) && j + 1 < |cfg.boxJump[i]|
    requires Stacked(cfg, c, acts, t) && cfg.stacks[i + 1].lo + 8 <= cfg.stacks[i + 1].hi
    ensures var c' := Prepare(cfg, c, i + 1);
            && CallFits(cfg, c', t)
            && CallSetup(cfg, c', t).sp == cfg.stacks[i + 1].hi - 8 && CallSetup(cfg, c', t).lr == 0xffff_fffd
            && Entered(cfg, c', t, CallSetup(cfg, c', t), i + 1, cfg.boxJump[i][j + 1])
  {
    hide Represents, CallSetup, CallFits, SystemOffset, Entered;
    RecordCount(cfg, c, acts, lent);
    var c' := Prepare(cfg, c, i + 1);
    PrepareKeeps(cfg, c, acts, lent, i + 1);
    SystemCallEnters(cfg, c', acts, lent[i + 1 := 0], t, i, j, f);
    EnteredAt(cfg, c', t, CallSetup(cfg, c', t), i + 1, cfg.boxJump[i][j + 1]);
  }

  lemma EnteredAt(cfg: Config, c: Cpu, t: Trap, e: Outcome, d: nat, pc: nat)
    requires Entered(cfg, c, t, e, d, pc)
    ensures d < |c.recs| && e.Resume? && e.sp == c.recs[d].sp - 8 && e.lr == c.recs[d].lr
  {
  }

  lemma NewestNone(cfg: Config, d: nat)
    requires WfConfig(cfg) && 1 <= d <= cfg.boxes
    ensures NewestSp(cfg, [], d) == cfg.stacks[d].hi
  {
  }

  // Of all domains with an activation, exactly the running one has no return code.
  lemma OnlyActiveHasNoCode(cfg: Config, c: Cpu, acts: seq<Act>, lent: seq<nat>, d: nat)
    requires Represents(cfg, c, acts, lent) && d <= cfg.boxes && (d == c.active || InCall(acts, d))
    ensures c.recs[d].lr == 0 <==> d == c.active
  {
    if d != c.active {
      var i :| 0 <= i < |acts| && acts[i].dom == d;
      assert c.recs[acts[i].dom].lr != 0;
    }
  }
}
