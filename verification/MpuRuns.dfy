/** Runs of the runtime: every reachable state is a stack of calls, and every
    well-bracketed run puts back what it found. */
module MpuRuns {
  import opened MpuDispatch
  import opened MpuProtocol
  import opened MpuStack

  // -------------------- any sequence of steps --------------------

  datatype Step =
    | Enter(call: Trap)
    | Leave(ret: Trap)
    | Crash(err: nat)
    | Compute(mem: seq<nat>)
    | Push(box: nat, words: nat)
    | Pop(box: nat, words: nat)
    | Ready(box: nat)

  // What the domains, the hardware and the users of push and pop have to do for a
  // step. Where the records point is not among it.
  ghost predicate StepOk(cfg: Config, c: Cpu, acts: seq<Act>, lent: seq<nat>, s: Step)
    requires Wf(cfg, c) && |lent| == cfg.boxes + 1
  {
    match s
    case Enter(t) => CallOk(cfg, c, acts, t)
    case Leave(t) => ReturnOk(cfg, c, acts, lent, t)
    case Crash(_) =>
      && c.active != 0 && !cfg.hooks[c.active]
      && acts != [] && Last(acts).fp + 8 <= |c.mem| && FallibleBit(c.mem[Last(acts).fp + 6])
      && !InCall(Popped(acts), c.active)
    case Compute(mem) => WorkOk(c, acts, mem)
    case Push(b, n) =>
      c.active == 0 && 1 <= b <= cfg.boxes && cfg.stacks[b].lo + n <= c.recs[b].sp
    case Pop(b, n) => c.active == 0 && 1 <= b <= cfg.boxes && n <= lent[b]
    case Ready(b) => 1 <= b <= cfg.boxes && b != c.active && !InCall(acts, b)
  }

  // A state with the stack it stands for and what is lent in it.
  datatype View = View(cpu: Cpu, acts: seq<Act>, lent: seq<nat>)

  ghost predicate Stands(cfg: Config, v: View) {
    Represents(cfg, v.cpu, v.acts, v.lent)
  }

  ghost predicate Allowed(cfg: Config, v: View, s: Step) {
    && Wf(cfg, v.cpu) && |v.lent| == cfg.boxes + 1
    && StepOk(cfg, v.cpu, v.acts, v.lent, s)
  }

  ghost function Next(cfg: Config, v: View, s: Step): View
    requires Stands(cfg, v) && Allowed(cfg, v, s)
  {
    var c, acts, lent := v.cpu, v.acts, v.lent;
    match s
    case Enter(t) =>
      CallPushes(cfg, c, acts, lent, t);
      View(CallSetup(cfg, c, t).cpu, Pushed(c, acts, lent, t), SetAside(c, lent))
    case Leave(t) =>
      ReturnPops(cfg, c, acts, lent, t);
      View(ReturnSetup(cfg, c, t).cpu, Popped(acts), BroughtBack(acts, lent))
    case Crash(err) =>
      FaultPops(cfg, c, acts, lent, err);
      CallerAtFrame(cfg, c, acts, lent);
      View(FaultSetup(cfg, c, err).cpu, Popped(acts), BroughtBack(acts, lent))
    case Compute(mem) => View(c.(mem := mem), acts, lent)
    case Push(b, n) => View(MoveSp(c, b, c.recs[b].sp - n), acts, lent[b := lent[b] + n])
    case Pop(b, n) => View(MoveSp(c, b, c.recs[b].sp + n), acts, lent[b := lent[b] - n])
    case Ready(b) => View(Prepare(cfg, c, b), acts, lent[b := 0])
  }

  lemma NextRepresents(cfg: Config, v: View, s: Step)
    requires Stands(cfg, v) && Allowed(cfg, v, s)
    ensures Stands(cfg, Next(cfg, v, s))
  {
    hide Represents;
    var c, acts, lent := v.cpu, v.acts, v.lent;
    match s
    case Enter(t) => CallPushes(cfg, c, acts, lent, t);
    case Leave(t) => ReturnPops(cfg, c, acts, lent, t);
    case Crash(err) => FaultPops(cfg, c, acts, lent, err);
    case Compute(mem) => WorkKeeps(cfg, c, acts, lent, mem);
    case Push(b, n) => MoveKeeps(cfg, c, acts, lent, b, c.recs[b].sp - n, lent[b] + n);
    case Pop(b, n) => MoveKeeps(cfg, c, acts, lent, b, c.recs[b].sp + n, lent[b] - n);
    case Ready(b) => PrepareKeeps(cfg, c, acts, lent, b);
  }

  // Every state on the way represents the stack that the steps make.
  ghost predicate Admissible(cfg: Config, v: View, steps: seq<Step>)
    decreases |steps|
  {
    && Stands(cfg, v)
    && (steps != [] ==> Allowed(cfg, v, steps[0]) && Admissible(cfg, Next(cfg, v, steps[0]), steps[1..]))
  }

  // Each step is allowed in the state it is made in, as long as that is a stack of
  // calls.
  ghost predicate StepsOk(cfg: Config, v: View, steps: seq<Step>)
    decreases |steps|
  {
    steps != [] && Stands(cfg, v) ==>
      Allowed(cfg, v, steps[0]) && StepsOk(cfg, Next(cfg, v, steps[0]), steps[1..])
  }

  // Then every state on the way is one.
  lemma {:induction false} ReachableIsStack(cfg: Config, v: View, steps: seq<Step>)
    requires Stands(cfg, v) && StepsOk(cfg, v, steps)
    ensures Admissible(cfg, v, steps)
    decreases |steps|
  {
    hide Stands, Allowed;
    if steps != [] {
      NextRepresents(cfg, v, steps[0]);
      ReachableIsStack(cfg, Next(cfg, v, steps[0]), steps[1..]);
    }
  }

  // After reset: everything zero, the system runs, nothing is suspended or lent.
  ghost predicate Reset(cfg: Config, c: Cpu) {
    && Wf(cfg, c) && Layout(cfg, |c.mem|)
    && c.active == 0 && c.regions == 0 && !c.unprivileged
    && forall d :: 0 <= d < |c.recs| ==> c.recs[d] == Rec(false, 0, 0, 0)
  }

  ghost function Nothing(cfg: Config): seq<nat> {
    seq(cfg.boxes + 1, _ => 0)
  }

  lemma ResetIsEmptyStack(cfg: Config, c: Cpu)
    requires Reset(cfg, c)
    ensures Represents(cfg, c, [], Nothing(cfg))
  {
    hide Layout;
  }

  ghost function NextAll(cfg: Config, v: View, steps: seq<Step>): View
    requires Admissible(cfg, v, steps)
    decreases |steps|
  {
    if steps == [] then v else NextAll(cfg, Next(cfg, v, steps[0]), steps[1..])
  }

  lemma {:induction false} NextAllStands(cfg: Config, v: View, steps: seq<Step>)
    requires Admissible(cfg, v, steps)
    ensures Stands(cfg, NextAll(cfg, v, steps))
    decreases |steps|
  {
    hide Stands, Allowed;
    if steps != [] {
      NextAllStands(cfg, Next(cfg, v, steps[0]), steps[1..]);
    }
  }

  // From reset on, whatever is done: the state reached stands for the stack that the
  // calls, returns and faults have made, and, with what they have lent, for no other.
  lemma ReachedStackIsTheOnlyOne(cfg: Config, c: Cpu, steps: seq<Step>, acts: seq<Act>)
    requires Reset(cfg, c) && StepsOk(cfg, View(c, [], Nothing(cfg)), steps)
    ensures Admissible(cfg, View(c, [], Nothing(cfg)), steps)
    ensures var v := NextAll(cfg, View(c, [], Nothing(cfg)), steps);
            Represents(cfg, v.cpu, acts, v.lent) && SameLoans(acts, v.acts) <==> acts == v.acts
  {
    hide Represents, Reset, StepsOk, Admissible;
    var start := View(c, [], Nothing(cfg));
    ResetIsEmptyStack(cfg, c);
    ReachableIsStack(cfg, start, steps);
    NextAllStands(cfg, start, steps);
    var v := NextAll(cfg, start, steps);
    if Represents(cfg, v.cpu, acts, v.lent) && SameLoans(acts, v.acts) {
      OneStack(cfg, v.cpu, acts, v.acts, v.lent);
    }
  }

  // -------------------- well-bracketed runs --------------------

  // What the active domain does: compute, call and be returned to, or lend a box
  // stack space around a run. `ret` is the trap with which the callee returns.
  datatype Run =
    | Done
    | Work(mem: seq<nat>, rest: Run)
    | Call(call: Trap, body: Run, ret: Trap, rest: Run)
    | Lend(box: nat, words: nat, body: Run, rest: Run)

  datatype Exit = Stuck | End(cpu: Cpu)

  ghost function Exec(cfg: Config, c: Cpu, acts: seq<Act>, lent: seq<nat>, run: Run): Exit
    decreases run
  {
    if !Represents(cfg, c, acts, lent) then Stuck
    else
      match run
      case Done => End(c)
      case Work(mem, rest) =>
        if WorkOk(c, acts, mem) then Exec(cfg, c.(mem := mem), acts, lent, rest) else Stuck
      case Call(t, body, r, rest) =>
        if !CallOk(cfg, c, acts, t) then Stuck
        else
          CallPushes(cfg, c, acts, lent, t);
          var b := Exec(cfg, CallSetup(cfg, c, t).cpu, Pushed(c, acts, lent, t), SetAside(c, lent), body);
          if b.Stuck? || !Returns(cfg, b.cpu, Pushed(c, acts, lent, t), SetAside(c, lent), r) then Stuck
          else
            ReturnPops(cfg, b.cpu, Pushed(c, acts, lent, t), SetAside(c, lent), r);
            Exec(cfg, ReturnSetup(cfg, b.cpu, r).cpu, acts, lent, rest)
      case Lend(x, n, body, rest) =>
        if !StepOk(cfg, c, acts, lent, Push(x, n)) then Stuck
        else
          var b := Exec(cfg, MoveSp(c, x, c.recs[x].sp - n), acts, lent[x := lent[x] + n], body);
          if b.Stuck? || x >= |b.cpu.recs| then Stuck
          else Exec(cfg, MoveSp(b.cpu, x, b.cpu.recs[x].sp + n), acts, lent, rest)
  }

  ghost predicate Returns(cfg: Config, c: Cpu, acts: seq<Act>, lent: seq<nat>, t: Trap) {
    Represents(cfg, c, acts, lent) && ReturnOk(cfg, c, acts, lent, t)
  }

  ghost predicate Calls(run: Run) {
    match run
    case Done => false
    case Work(_, rest) => Calls(rest)
    case Call(_, _, _, _) => true
    case Lend(_, _, body, rest) => Calls(body) || Calls(rest)
  }

  // The return code in the record of a domain `d` other than the active one after a
  // run: the code of the last trap with which `d` returned in it, or the old one.
  ghost function LastCode(cfg: Config, active: nat, run: Run, d: nat, lr: nat): nat
    decreases run
  {
    match run
    case Done => lr
    case Work(_, rest) => LastCode(cfg, active, rest, d, lr)
    case Call(t, body, r, rest) =>
      if !Emitted(cfg, active, t.op) then lr
      else
        var x := Target(cfg, active, t.op);
        LastCode(cfg, active, rest, d, if d == x then r.lr else LastCode(cfg, x, body, d, lr))
    case Lend(_, _, body, rest) => LastCode(cfg, active, rest, d, LastCode(cfg, active, body, d, lr))
  }

  // Everything a run puts back. The one field it may leave changed besides return
  // codes is the caller recorded for the suspended system, which the frame of that
  // activation overrides when it is resumed.
  ghost predicate Restored(cfg: Config, c: Cpu, c': Cpu, acts: seq<Act>, lent: seq<nat>, run: Run) {
    && Represents(cfg, c, acts, lent) && Represents(cfg, c', acts, lent)
    && c'.active == c.active && |c'.mem| == |c.mem|
    && c'.recs[c.active] == c.recs[c.active]
    && (forall d :: 0 <= d <= cfg.boxes ==>
          c'.recs[d].sp == c.recs[d].sp && c'.recs[d].initialized == c.recs[d].initialized)
    && (forall d :: 1 <= d <= cfg.boxes ==> c'.recs[d].caller == c.recs[d].caller)
    && c'.recs[0].caller == (if c.active != 0 && Calls(run) then c.active else c.recs[0].caller)
    && (forall d :: 0 <= d <= cfg.boxes && d != c.active ==>
          c'.recs[d].lr == LastCode(cfg, c.active, run, d, c.recs[d].lr))
    && (forall k :: 0 <= k < |c.mem| && Protected(acts, k) ==> c'.mem[k] == c.mem[k])
  }

  lemma RestoredWork(cfg: Config, c: Cpu, c': Cpu, acts: seq<Act>, lent: seq<nat>, mem: seq<nat>, rest: Run)
    requires Represents(cfg, c, acts, lent) && WorkOk(c, acts, mem)
    requires Restored(cfg, c.(mem := mem), c', acts, lent, rest)
    ensures Restored(cfg, c, c', acts, lent, Work(mem, rest))
  {
    hide Represents, Protected;
  }

  // One call and its return, around a body that restores.
  ghost predicate Bracket(cfg: Config, c: Cpu, acts: seq<Act>, lent: seq<nat>, t: Trap, body: Run, r: Trap, b: Cpu) {
    && Represents(cfg, c, acts, lent) && CallOk(cfg, c, acts, t)
    && CallFits(cfg, c, t) && c.active < |lent|
    && Restored(cfg, CallSetup(cfg, c, t).cpu, b, Pushed(c, acts, lent, t), SetAside(c, lent), body)
    && ReturnOk(cfg, b, Pushed(c, acts, lent, t), SetAside(c, lent), r)
  }

  lemma BracketFits(cfg: Config, c: Cpu, acts: seq<Act>, lent: seq<nat>, t: Trap, body: Run, r: Trap, b: Cpu)
    requires Bracket(cfg, c, acts, lent, t, body, r, b)
    ensures Popped(Pushed(c, acts, lent, t)) == acts
    ensures ReturnFits(cfg, b, r) && b.recs[b.recs[b.active].caller].lr != 0
    ensures Represents(cfg, ReturnSetup(cfg, b, r).cpu, acts, lent)
    ensures ReturnSetup(cfg, b, r).cpu.active == c.active
    ensures Last(Pushed(c, acts, lent, t)) == Suspended(c, lent, t)
    ensures PopRec(b, c.active) ==
            b.recs[c.active].(lr := 0, sp := c.recs[c.active].sp, caller := c.recs[c.active].caller)
    ensures b.recs[b.active].caller == c.active
  {
    hide Represents;
    var all, lent' := Pushed(c, acts, lent, t), SetAside(c, lent);
    assert Popped(all) == acts;
    assert BroughtBack(all, lent') == lent;
    ReturnFitsOk(cfg, b, all, lent', r);
    ReturnPops(cfg, b, all, lent', r);
  }

  lemma BracketRecords(cfg: Config, c: Cpu, acts: seq<Act>, lent: seq<nat>, t: Trap, body: Run, r: Trap, b: Cpu)
    requires Bracket(cfg, c, acts, lent, t, body, r, b)
    requires ReturnFits(cfg, b, r) && b.recs[b.recs[b.active].caller].lr != 0
    ensures var x, recs := Target(cfg, c.active, t.op), ReturnSetup(cfg, b, r).cpu.recs;
            && |recs| == |c.recs| && x <= cfg.boxes && x != c.active
            && recs[c.active] == c.recs[c.active]
            && recs[x] == c.recs[x].(caller := c.active, lr := r.lr)
            && forall d :: 0 <= d <= cfg.boxes && d != c.active && d != x ==>
                 recs[d] == b.recs[d] && recs[d].sp == c.recs[d].sp && recs[d].initialized == c.recs[d].initialized
                 && (d >= 1 ==> recs[d].caller == c.recs[d].caller)
                 && recs[d].lr == LastCode(cfg, x, body, d, c.recs[d].lr)
  {
    hide Represents, LastCode, Protected;
    BracketFits(cfg, c, acts, lent, t, body, r, b);
    NoCodeWhileActive(cfg, c, acts, lent);
    var x := Target(cfg, c.active, t.op);
    assert b.active == x;
  }

  lemma BracketMemory(cfg: Config, c: Cpu, acts: seq<Act>, lent: seq<nat>, t: Trap, body: Run, r: Trap, b: Cpu)
    requires Bracket(cfg, c, acts, lent, t, body, r, b)
    requires ReturnFits(cfg, b, r) && b.recs[b.recs[b.active].caller].lr != 0
    ensures |ReturnSetup(cfg, b, r).cpu.mem| == |c.mem|
    ensures forall k :: 0 <= k < |c.mem| && Protected(acts, k) ==> ReturnSetup(cfg, b, r).cpu.mem[k] == c.mem[k]
  {
    hide Represents, LastCode, PutReturn, PutFrame, PutCall;
    var all, lent' := Pushed(c, acts, lent, t), SetAside(c, lent);
    BracketFits(cfg, c, acts, lent, t, body, r, b);
    forall k | 0 <= k < |c.mem| && Protected(acts, k)
      ensures ReturnSetup(cfg, b, r).cpu.mem[k] == c.mem[k]
    {
      var i :| 0 <= i < |acts| && acts[i].sp <= k < acts[i].fp + 8;
      CallKeepsFrames(cfg, c, acts, lent, t, i, k);
      assert all[i] == acts[i];
      assert Protected(all, k);
      ReturnKeepsFrames(cfg, b, all, lent', b.mem[r.fp], b.mem[r.fp + 1], b.mem[r.fp + 2], b.mem[r.fp + 3], i, k);
      ReturnMemory(cfg, c, acts, lent, t, body, r, b);
    }
  }

  lemma ReturnMemory(cfg: Config, c: Cpu, acts: seq<Act>, lent: seq<nat>, t: Trap, body: Run, r: Trap, b: Cpu)
    requires Bracket(cfg, c, acts, lent, t, body, r, b)
    requires ReturnFits(cfg, b, r) && b.recs[b.recs[b.active].caller].lr != 0
    ensures t.fp + 8 <= |b.mem|
    ensures ReturnSetup(cfg, b, r).cpu.mem ==
            PutReturn(b.mem, t.fp, b.mem[r.fp], b.mem[r.fp + 1], b.mem[r.fp + 2], b.mem[r.fp + 3])
  {
    hide Represents, PutReturn, ReturnOk, CallOk, Restored, CallSetup, Pushed, SetAside, PopRec;
    BracketReturns(cfg, c, acts, lent, t, body, r, b);
    ReturnFitsOk(cfg, b, Pushed(c, acts, lent, t), SetAside(c, lent), r);
  }

  // The return finds the frame that the call has left.
  lemma BracketReturns(cfg: Config, c: Cpu, acts: seq<Act>, lent: seq<nat>, t: Trap, body: Run, r: Trap, b: Cpu)
    requires Bracket(cfg, c, acts, lent, t, body, r, b)
    ensures t.fp + 8 <= |c.mem| == |b.mem|
    ensures Wf(cfg, b) && Represents(cfg, b, Pushed(c, acts, lent, t), SetAside(c, lent))
    ensures ReturnOk(cfg, b, Pushed(c, acts, lent, t), SetAside(c, lent), r)
    ensures Last(Pushed(c, acts, lent, t)).fp == t.fp
  {
    hide Represents, ReturnOk, LastCode, Protected, PutFrame, PutCall;
    RecordCount(cfg, b, Pushed(c, acts, lent, t), SetAside(c, lent));
  }

  // A call whose body restores is itself restored.
  lemma BracketRestores(cfg: Config, c: Cpu, acts: seq<Act>, lent: seq<nat>, t: Trap, body: Run, r: Trap, b: Cpu)
    requires Bracket(cfg, c, acts, lent, t, body, r, b)
    ensures ReturnFits(cfg, b, r) && b.recs[b.recs[b.active].caller].lr != 0
    ensures Restored(cfg, c, ReturnSetup(cfg, b, r).cpu, acts, lent, Call(t, body, r, Done))
  {
    hide Represents, CallSetup, ReturnSetup, Protected, CallOk, ReturnOk, LastCode;
    BracketFits(cfg, c, acts, lent, t, body, r, b);
    BracketRecords(cfg, c, acts, lent, t, body, r, b);
    BracketMemory(cfg, c, acts, lent, t, body, r, b);
    BoxCallers(cfg, c, acts, lent, t);
    RecordCount(cfg, c, acts, lent);
    var c' := ReturnSetup(cfg, b, r).cpu;
    forall d: nat | d <= cfg.boxes && d != c.active
      ensures c'.recs[d].lr == LastCode(cfg, c.active, Call(t, body, r, Done), d, c.recs[d].lr)
    {
      OneCallCode(cfg, c, acts, t, body, r, d, c.recs[d].lr);
    }
  }

  lemma OneCallCode(cfg: Config, c: Cpu, acts: seq<Act>, t: Trap, body: Run, r: Trap, d: nat, lr: nat)
    requires Wf(cfg, c) && CallOk(cfg, c, acts, t)
    ensures var x := Target(cfg, c.active, t.op);
            LastCode(cfg, c.active, Call(t, body, r, Done), d, lr) ==
            if d == x then r.lr else LastCode(cfg, x, body, d, lr)
  {
  }

  // A box is only ever called by the system; the system is called by the active box.
  lemma BoxCallers(cfg: Config, c: Cpu, acts: seq<Act>, lent: seq<nat>, t: Trap)
    requires Represents(cfg, c, acts, lent) && CallOk(cfg, c, acts, t)
    ensures var x := Target(cfg, c.active, t.op);
            && (x != 0 ==> c.active == 0 && c.recs[x].caller == 0)
            && (x == 0 <==> c.active != 0)
  {
  }

  lemma RestoredThen(cfg: Config, c: Cpu, m: Cpu, c': Cpu, acts: seq<Act>, lent: seq<nat>, first: Run, rest: Run,
                     both: Run)
    requires Restored(cfg, c, m, acts, lent, first) && Restored(cfg, m, c', acts, lent, rest)
    requires Calls(both) <==> Calls(first) || Calls(rest)
    requires forall d, lr :: LastCode(cfg, c.active, both, d, lr) ==
                             LastCode(cfg, c.active, rest, d, LastCode(cfg, c.active, first, d, lr))
    ensures Restored(cfg, c, c', acts, lent, both)
  {
    hide Represents, Calls, Protected;
    forall d: nat | d <= cfg.boxes && d != c.active
      ensures d < |c.recs| && d < |c'.recs| && c'.recs[d].lr == LastCode(cfg, c.active, both, d, c.recs[d].lr)
    {
      RecordCount(cfg, c, acts, lent);
      RecordCount(cfg, m, acts, lent);
      RecordCount(cfg, c', acts, lent);
      var lr := c.recs[d].lr;
      assert LastCode(cfg, c.active, both, d, lr) ==
             LastCode(cfg, c.active, rest, d, LastCode(cfg, c.active, first, d, lr));
      assert m.recs[d].lr == LastCode(cfg, c.active, first, d, lr);
      assert c'.recs[d].lr == LastCode(cfg, c.active, rest, d, m.recs[d].lr);
    }
  }

  lemma RestoredDone(cfg: Config, c: Cpu, acts: seq<Act>, lent: seq<nat>)
    requires Represents(cfg, c, acts, lent)
    ensures Restored(cfg, c, c, acts, lent, Done)
  {
  }

  // Lending stack space around a run that restores.
  lemma LendRestores(cfg: Config, c: Cpu, acts: seq<Act>, lent: seq<nat>, x: nat, n: nat, body: Run, b: Cpu)
    requires Represents(cfg, c, acts, lent) && StepOk(cfg, c, acts, lent, Push(x, n))
    requires Restored(cfg, MoveSp(c, x, c.recs[x].sp - n), b, acts, lent[x := lent[x] + n], body)
    ensures x < |b.recs| && Restored(cfg, c, MoveSp(b, x, b.recs[x].sp + n), acts, lent, body)
  {
    hide Represents, LastCode, Calls, Protected;
    RecordCount(cfg, c, acts, lent);
    var lent' := lent[x := lent[x] + n];
    RecordCount(cfg, b, acts, lent');
    assert lent'[x := lent[x]] == lent;
    MoveKeeps(cfg, b, acts, lent', x, b.recs[x].sp + n, lent[x]);
  }

  // The parts of a run that ends.
  lemma CallEnds(cfg: Config, c: Cpu, acts: seq<Act>, lent: seq<nat>, t: Trap, body: Run, r: Trap, rest: Run)
    requires Exec(cfg, c, acts, lent, Call(t, body, r, rest)).End?
    ensures Represents(cfg, c, acts, lent) && CallOk(cfg, c, acts, t) && CallFits(cfg, c, t) && c.active < |lent|
    ensures var b := Exec(cfg, CallSetup(cfg, c, t).cpu, Pushed(c, acts, lent, t), SetAside(c, lent), body);
            && b.End? && Returns(cfg, b.cpu, Pushed(c, acts, lent, t), SetAside(c, lent), r)
            && ReturnFits(cfg, b.cpu, r) && b.cpu.recs[b.cpu.recs[b.cpu.active].caller].lr != 0
            && Exec(cfg, c, acts, lent, Call(t, body, r, rest)) ==
               Exec(cfg, ReturnSetup(cfg, b.cpu, r).cpu, acts, lent, rest)
  {
    hide Represents, CallOk, ReturnOk, CallSetup, ReturnSetup;
    CallPushes(cfg, c, acts, lent, t);
    var b := Exec(cfg, CallSetup(cfg, c, t).cpu, Pushed(c, acts, lent, t), SetAside(c, lent), body).cpu;
    ReturnPops(cfg, b, Pushed(c, acts, lent, t), SetAside(c, lent), r);
  }

  lemma LendEnds(cfg: Config, c: Cpu, acts: seq<Act>, lent: seq<nat>, x: nat, n: nat, body: Run, rest: Run)
    requires Exec(cfg, c, acts, lent, Lend(x, n, body, rest)).End?
    ensures Represents(cfg, c, acts, lent) && Wf(cfg, c) && |lent| == cfg.boxes + 1
    ensures StepOk(cfg, c, acts, lent, Push(x, n))
    ensures var b := Exec(cfg, MoveSp(c, x, c.recs[x].sp - n), acts, lent[x := lent[x] + n], body);
            && b.End? && x < |b.cpu.recs|
            && Exec(cfg, c, acts, lent, Lend(x, n, body, rest)) ==
               Exec(cfg, MoveSp(b.cpu, x, b.cpu.recs[x].sp + n), acts, lent, rest)
  {
    hide Represents, CallOk, ReturnOk, WorkOk, CallSetup, ReturnSetup;
    RecordCount(cfg, c, acts, lent);
  }

  // A call and what comes after it.
  lemma CallRestores(cfg: Config, c: Cpu, acts: seq<Act>, lent: seq<nat>, t: Trap, body: Run, r: Trap, rest: Run,
                     b: Cpu, c': Cpu)
    requires Bracket(cfg, c, acts, lent, t, body, r, b)
    requires ReturnFits(cfg, b, r) && b.recs[b.recs[b.active].caller].lr != 0
    requires Restored(cfg, ReturnSetup(cfg, b, r).cpu, c', acts, lent, rest)
    ensures Restored(cfg, c, c', acts, lent, Call(t, body, r, rest))
  {
    hide Represents, Restored, CallSetup, ReturnSetup;
    BracketRestores(cfg, c, acts, lent, t, body, r, b);
    RestoredThen(cfg, c, ReturnSetup(cfg, b, r).cpu, c', acts, lent, Call(t, body, r, Done), rest,
                 Call(t, body, r, rest));
  }

  // Every well-bracketed run, of any depth and re-entering whatever domain it likes,
  // ends with everything restored.
  lemma {:induction false} RunRestores(cfg: Config, c: Cpu, acts: seq<Act>, lent: seq<nat>, run: Run)
    requires Exec(cfg, c, acts, lent, run).End?
    ensures Restored(cfg, c, Exec(cfg, c, acts, lent, run).cpu, acts, lent, run)
    decreases run
  {
    hide Represents, Restored, CallOk, WorkOk, CallSetup, ReturnSetup;
    var c' := Exec(cfg, c, acts, lent, run).cpu;
    match run
    case Done => RestoredDone(cfg, c, acts, lent);
    case Work(mem, rest) =>
      RunRestores(cfg, c.(mem := mem), acts, lent, rest);
      RestoredWork(cfg, c, c', acts, lent, mem, rest);
    case Call(t, body, r, rest) =>
      hide Exec;
      CallEnds(cfg, c, acts, lent, t, body, r, rest);
      var start, all, lent' := CallSetup(cfg, c, t).cpu, Pushed(c, acts, lent, t), SetAside(c, lent);
      var b := Exec(cfg, start, all, lent', body).cpu;
      RunRestores(cfg, start, all, lent', body);
      RunRestores(cfg, ReturnSetup(cfg, b, r).cpu, acts, lent, rest);
      CallRestores(cfg, c, acts, lent, t, body, r, rest, b, c');
    case Lend(x, n, body, rest) =>
      hide Exec;
      LendEnds(cfg, c, acts, lent, x, n, body, rest);
      var start, lent' := MoveSp(c, x, c.recs[x].sp - n), lent[x := lent[x] + n];
      var b := Exec(cfg, start, acts, lent', body).cpu;
      RunRestores(cfg, start, acts, lent', body);
      LendRestores(cfg, c, acts, lent, x, n, body, b);
      var m := MoveSp(b, x, b.recs[x].sp + n);
      RunRestores(cfg, m, acts, lent, rest);
      RestoredThen(cfg, c, m, c', acts, lent, body, rest, run);
  }

  lemma ReturnsOk(cfg: Config, c: Cpu, acts: seq<Act>, lent: seq<nat>, t: Trap)
    requires Returns(cfg, c, acts, lent, t)
    ensures Represents(cfg, c, acts, lent) && ReturnOk(cfg, c, acts, lent, t)
  {
  }

  // When a body has run, its caller's record says where the caller stopped.
  lemma BodyLeavesCaller(cfg: Config, c: Cpu, acts: seq<Act>, lent: seq<nat>, t: Trap, body: Run)
    requires Represents(cfg, c, acts, lent) && CallOk(cfg, c, acts, t) && CallFits(cfg, c, t) && c.active < |lent|
    requires Exec(cfg, CallSetup(cfg, c, t).cpu, Pushed(c, acts, lent, t), SetAside(c, lent), body).End?
    ensures var b := Exec(cfg, CallSetup(cfg, c, t).cpu, Pushed(c, acts, lent, t), SetAside(c, lent), body).cpu;
            c.active < |b.recs| && b.recs[c.active].sp == t.sp
  {
    hide Exec;
    RunRestores(cfg, CallSetup(cfg, c, t).cpu, Pushed(c, acts, lent, t), SetAside(c, lent), body);
  }

  // What a call delivers. The domain that the import belongs to starts at the entry of
  // the import, on a frame with the caller's r0-r3 and r12 that returns into the call
  // region. After any body, the caller goes on, from the frame it saved, at its own
  // return address with the callee's r0-r3; the return code it is resumed with is that
  // of the last trap its domain took.
  lemma CallDelivers(cfg: Config, c: Cpu, acts: seq<Act>, lent: seq<nat>, t: Trap, body: Run, b: Cpu, r: Trap)
    requires Represents(cfg, c, acts, lent) && CallOk(cfg, c, acts, t) && CallFits(cfg, c, t) && c.active < |lent|
    requires Exec(cfg, CallSetup(cfg, c, t).cpu, Pushed(c, acts, lent, t), SetAside(c, lent), body) == End(b)
    requires Wf(cfg, b) && ReturnOk(cfg, b, Pushed(c, acts, lent, t), SetAside(c, lent), r)
    ensures EntersImport(cfg, c, t, CallSetup(cfg, c, t))
    ensures ReturnFits(cfg, b, r) && b.recs[b.recs[b.active].caller].lr != 0
    ensures Resumed(c, t, b, r, ReturnSetup(cfg, b, r))
    ensures ReturnSetup(cfg, b, r).lr == LastCode(cfg, Target(cfg, c.active, t.op), body, c.active, t.lr)
  {
    hide Exec, Represents, LastCode, CallSetup, ReturnSetup, CallOk, ReturnOk, Resumed, EntersImport;
    ImportIsEntered(cfg, c, acts, lent, t);
    RunRestores(cfg, CallSetup(cfg, c, t).cpu, Pushed(c, acts, lent, t), SetAside(c, lent), body);
    BracketFits(cfg, c, acts, lent, t, body, r, b);
    ExitFrame(cfg, c, acts, lent, t, body, b, r);
    ExitCode(cfg, c, acts, lent, t, body, b, r);
  }

  ghost predicate Resumed(c: Cpu, t: Trap, b: Cpu, r: Trap, exit: Outcome)
    requires exit.Resume? && t.fp + 8 <= |c.mem| && r.fp + 8 <= |b.mem|
  {
    && exit.sp == t.sp && exit.cpu.active == c.active
    && |exit.cpu.mem| == |c.mem|
    && exit.cpu.mem[t.fp..t.fp + 4] == b.mem[r.fp..r.fp + 4]
    && exit.cpu.mem[t.fp + 4] == c.mem[t.fp + 4]
    && exit.cpu.mem[t.fp + 5] == c.mem[t.fp + 5]
    && exit.cpu.mem[t.fp + 6] == c.mem[t.fp + 5]
    && exit.cpu.mem[t.fp + 7] == c.mem[t.fp + 7]
  }

  lemma ExitFrame(cfg: Config, c: Cpu, acts: seq<Act>, lent: seq<nat>, t: Trap, body: Run, b: Cpu, r: Trap)
    requires Bracket(cfg, c, acts, lent, t, body, r, b)
    requires ReturnFits(cfg, b, r) && b.recs[b.recs[b.active].caller].lr != 0
    ensures Resumed(c, t, b, r, ReturnSetup(cfg, b, r))
  {
    hide Represents, LastCode, PutReturn, CallOk, ReturnOk, CallSetup, Protected;
    BracketFits(cfg, c, acts, lent, t, body, r, b);
    ReturnMemory(cfg, c, acts, lent, t, body, r, b);
    FrameUntouched(cfg, c, acts, lent, t, body, b, r);
    ReturnWrites(b.mem, t.fp, r.fp, c.mem);
    ReturnFitsOk(cfg, b, Pushed(c, acts, lent, t), SetAside(c, lent), r);
  }

  // The caller's exception frame is protected while the body runs.
  lemma FrameUntouched(cfg: Config, c: Cpu, acts: seq<Act>, lent: seq<nat>, t: Trap, body: Run, b: Cpu, r: Trap)
    requires Bracket(cfg, c, acts, lent, t, body, r, b)
    ensures |b.mem| == |c.mem| && b.mem[t.fp..t.fp + 8] == c.mem[t.fp..t.fp + 8]
  {
    hide Represents, LastCode, PutFrame, PutCall, CallOk, ReturnOk;
    CallFrame(cfg, c, acts, lent, t);
    var all := Pushed(c, acts, lent, t);
    var entry := CallSetup(cfg, c, t).cpu.mem;
    forall k | t.fp <= k < t.fp + 8
      ensures b.mem[k] == c.mem[k]
    {
      FrameBelow(cfg, c, acts, t);
      NewestProtected(all, k);
      assert b.mem[k] == entry[k];
    }
  }

  lemma FrameBelow(cfg: Config, c: Cpu, acts: seq<Act>, t: Trap)
    requires Wf(cfg, c) && CallOk(cfg, c, acts, t)
    ensures t.sp <= t.fp
  {
  }

  lemma NewestProtected(acts: seq<Act>, k: nat)
    requires acts != [] && Last(acts).sp <= k < Last(acts).fp + 8
    ensures Protected(acts, k)
  {
  }

  lemma ReturnWrites(mem: seq<nat>, at: nat, from: nat, was: seq<nat>)
    requires at + 8 <= |mem| == |was| && from + 8 <= |mem| && mem[at..at + 8] == was[at..at + 8]
    ensures var m := PutReturn(mem, at, mem[from], mem[from + 1], mem[from + 2], mem[from + 3]);
            && m[at..at + 4] == mem[from..from + 4]
            && m[at + 4] == was[at + 4] && m[at + 5] == was[at + 5]
            && m[at + 6] == was[at + 5] && m[at + 7] == was[at + 7]
  {
    assert mem[at + 4] == mem[at..at + 8][4];
    assert mem[at + 5] == mem[at..at + 8][5];
    assert mem[at + 7] == mem[at..at + 8][7];
  }

  lemma ExitCode(cfg: Config, c: Cpu, acts: seq<Act>, lent: seq<nat>, t: Trap, body: Run, b: Cpu, r: Trap)
    requires Bracket(cfg, c, acts, lent, t, body, r, b)
    requires ReturnFits(cfg, b, r) && b.recs[b.recs[b.active].caller].lr != 0
    ensures ReturnSetup(cfg, b, r).lr == LastCode(cfg, Target(cfg, c.active, t.op), body, c.active, t.lr)
  {
    hide Represents, LastCode, PutReturn, Protected;
    BracketFits(cfg, c, acts, lent, t, body, r, b);
    RecordCount(cfg, c, acts, lent);
  }

  // -------------------- return codes --------------------

  datatype Code = NoTrap | Trapped(lr: nat)

  // With which code domain `d` last returned in a run, as its traps say.
  ghost function LastTrap(cfg: Config, active: nat, run: Run, d: nat): Code
    decreases run
  {
    match run
    case Done => NoTrap
    case Work(_, rest) => LastTrap(cfg, active, rest, d)
    case Call(t, body, r, rest) =>
      if !Emitted(cfg, active, t.op) then NoTrap
      else
        var x, later := Target(cfg, active, t.op), LastTrap(cfg, active, rest, d);
        if later.Trapped? then later else if d == x then Trapped(r.lr) else LastTrap(cfg, x, body, d)
    case Lend(_, _, body, rest) =>
      var later := LastTrap(cfg, active, rest, d);
      if later.Trapped? then later else LastTrap(cfg, active, body, d)
  }

  lemma {:induction false} CodeIsLastTrap(cfg: Config, active: nat, run: Run, d: nat, lr: nat)
    ensures var last := LastTrap(cfg, active, run, d);
            LastCode(cfg, active, run, d, lr) == if last.Trapped? then last.lr else lr
    decreases run
  {
    match run
    case Done =>
    case Work(_, rest) => CodeIsLastTrap(cfg, active, rest, d, lr);
    case Call(t, body, r, rest) =>
      if Emitted(cfg, active, t.op) {
        var x := Target(cfg, active, t.op);
        if d != x {
          CodeIsLastTrap(cfg, x, body, d, lr);
        }
        CodeIsLastTrap(cfg, active, rest, d, if d == x then r.lr else LastCode(cfg, x, body, d, lr));
      }
    case Lend(_, _, body, rest) =>
      CodeIsLastTrap(cfg, active, body, d, lr);
      CodeIsLastTrap(cfg, active, rest, d, LastCode(cfg, active, body, d, lr));
  }

  // A domain that calls is resumed with the return code of its own trap if and only
  // if the body of the call did not enter it again, or its last return in there
  // carried the same code.
  lemma OwnCodeIff(cfg: Config, c: Cpu, acts: seq<Act>, lent: seq<nat>, t: Trap, body: Run, b: Cpu, r: Trap)
    requires Represents(cfg, c, acts, lent) && CallOk(cfg, c, acts, t) && CallFits(cfg, c, t) && c.active < |lent|
    requires Exec(cfg, CallSetup(cfg, c, t).cpu, Pushed(c, acts, lent, t), SetAside(c, lent), body) == End(b)
    requires Wf(cfg, b) && ReturnOk(cfg, b, Pushed(c, acts, lent, t), SetAside(c, lent), r)
    ensures ReturnFits(cfg, b, r) && b.recs[b.recs[b.active].caller].lr != 0
    ensures ReturnSetup(cfg, b, r).lr == t.lr <==>
            LastTrap(cfg, Target(cfg, c.active, t.op), body, c.active) in {NoTrap, Trapped(t.lr)}
  {
    hide Exec, Represents, LastCode, CallSetup, ReturnSetup, CallOk, ReturnOk, LastTrap;
    CallDelivers(cfg, c, acts, lent, t, body, b, r);
    CodeIsLastTrap(cfg, Target(cfg, c.active, t.op), body, c.active, t.lr);
  }

  // The return codes are all as before when every trap a domain returns with carries
  // the code its record had.
  ghost predicate SameCode(cfg: Config, active: nat, run: Run, d: nat, lr: nat)
    decreases run
  {
    match run
    case Done => true
    case Work(_, rest) => SameCode(cfg, active, rest, d, lr)
    case Call(t, body, r, rest) =>
      && Emitted(cfg, active, t.op)
      && var x := Target(cfg, active, t.op);
         && (if d == x then r.lr == lr else SameCode(cfg, x, body, d, lr))
         && SameCode(cfg, active, rest, d, lr)
    case Lend(_, _, body, rest) => SameCode(cfg, active, body, d, lr) && SameCode(cfg, active, rest, d, lr)
  }

  lemma {:induction false} SameCodeKeeps(cfg: Config, active: nat, run: Run, d: nat, lr: nat)
    requires SameCode(cfg, active, run, d, lr)
    ensures LastCode(cfg, active, run, d, lr) == lr
    decreases run
  {
    match run
    case Done =>
    case Work(_, rest) => SameCodeKeeps(cfg, active, rest, d, lr);
    case Call(t, body, r, rest) =>
      var x := Target(cfg, active, t.op);
      if d != x {
        SameCodeKeeps(cfg, x, body, d, lr);
      }
      SameCodeKeeps(cfg, active, rest, d, lr);
    case Lend(_, _, body, rest) =>
      SameCodeKeeps(cfg, active, body, d, lr);
      SameCodeKeeps(cfg, active, rest, d, lr);
  }
}
