/** The call, return and fault handlers of the MPU runtime, and the stack of calls
    they keep as frames threaded through the stacks of the domains. Domain 0 is the
    system, domains 1 to N are the boxes. Memory is addressed in words. */
module MpuProtocol {
  import opened MpuDispatch

  const EFAULT := 14
  const ELOOP := 40

  datatype Stack = Stack(lo: nat, hi: nat)

  // `boxJump[b-1]` and `sysJump[b-1]` are the jumptables of box b and of the system
  // towards box b; `hooks[d]` says whether domain d has an abort hook.
  datatype Config = Config(boxes: nat, stacks: seq<Stack>, boxJump: seq<seq<nat>>, sysJump: seq<seq<nat>>,
                           hooks: seq<bool>, callRegion: nat)

  datatype Rec = Rec(initialized: bool, caller: nat, lr: nat, sp: nat)

  // `regions` is the domain whose memories the MPU holds, `unprivileged` the low
  // bit of CONTROL.
  datatype Cpu = Cpu(active: nat, recs: seq<Rec>, mem: seq<nat>, regions: nat, unprivileged: bool)

  // What the trap handler passes on: exception return code, address of the frame
  // it reserved, offset into the call region, address of the exception frame.
  datatype Trap = Trap(lr: nat, sp: nat, op: nat, fp: nat)

  // Where execution goes on: into a domain, into its abort hook, or nowhere.
  datatype Outcome = Resume(cpu: Cpu, lr: nat, sp: nat) | Hook(cpu: Cpu, err: int) | Halt(err: int)

  ghost predicate WfConfig(cfg: Config) {
    |cfg.stacks| == |cfg.hooks| == cfg.boxes + 1 && |cfg.boxJump| == |cfg.sysJump| == cfg.boxes
  }

  ghost predicate Wf(cfg: Config, c: Cpu) {
    WfConfig(cfg) && |c.recs| == cfg.boxes + 1 && c.active <= cfg.boxes
  }

  // -------------------- the handlers --------------------

  ghost function SwitchTo(c: Cpu, d: nat): Cpu {
    c.(active := d, regions := d, unprivileged := d != 0)
  }

  ghost function PutFrame(mem: seq<nat>, at: nat, fp: nat, r: Rec): (m: seq<nat>)
    requires at + 4 <= |mem|
    ensures |m| == |mem|
  {
    mem[at := fp][at + 1 := r.lr][at + 2 := r.sp][at + 3 := r.caller]
  }

  // A fresh exception frame: r0-r3, r12, lr, pc, psr.
  ghost function PutCall(mem: seq<nat>, at: nat, fp: nat, lr: nat, pc: nat): (m: seq<nat>)
    requires at + 8 <= |mem| && fp + 8 <= |mem|
    ensures |m| == |mem|
  {
    mem[at := mem[fp]][at + 1 := mem[fp + 1]][at + 2 := mem[fp + 2]][at + 3 := mem[fp + 3]]
       [at + 4 := mem[fp + 4]][at + 5 := lr][at + 6 := pc][at + 7 := mem[fp + 7]]
  }

  // Results into an exception frame that goes on at its own return address.
  ghost function PutReturn(mem: seq<nat>, at: nat, r0: nat, r1: nat, r2: nat, r3: nat): (m: seq<nat>)
    requires at + 8 <= |mem|
    ensures |m| == |mem|
  {
    mem[at := r0][at + 1 := r1][at + 2 := r2][at + 3 := r3][at + 6 := mem[at + 5]]
  }

  ghost function Target(cfg: Config, caller: nat, op: nat): nat
    requires op >= 8 && (caller == 0 ==> cfg.boxes > 0)
  {
    if caller == 0 then TargetBox(cfg.boxes, op) else 0
  }

  // The offset is one that the linker scripts emit for this caller.
  ghost predicate Emitted(cfg: Config, caller: nat, op: nat) {
    && WfConfig(cfg) && caller <= cfg.boxes && op >= 8
    && if caller == 0 then
         && cfg.boxes > 0
         && TargetBox(cfg.boxes, op) <= cfg.boxes
         && TargetEntry(cfg.boxes, op) < |cfg.boxJump[TargetBox(cfg.boxes, op) - 1]|
       else SystemEntry(op) < |cfg.sysJump[caller - 1]|
  }

  ghost function TargetPc(cfg: Config, caller: nat, op: nat): nat
    requires Emitted(cfg, caller, op)
  {
    if caller == 0 then cfg.boxJump[TargetBox(cfg.boxes, op) - 1][TargetEntry(cfg.boxes, op)]
    else cfg.sysJump[caller - 1][SystemEntry(op)]
  }

  ghost predicate CallFits(cfg: Config, c: Cpu, t: Trap) {
    && Wf(cfg, c) && Emitted(cfg, c.active, t.op)
    && Target(cfg, c.active, t.op) != c.active
    && t.sp + 4 <= |c.mem| && t.fp + 8 <= |c.mem|
    && 8 <= c.recs[Target(cfg, c.active, t.op)].sp <= |c.mem|
  }

  // __box_callsetup.
  ghost function CallSetup(cfg: Config, c: Cpu, t: Trap): (r: Outcome)
    requires CallFits(cfg, c, t)
    ensures r.Resume?
  {
    var caller, target := c.active, Target(cfg, c.active, t.op);
    var was, callee := c.recs[caller], c.recs[target];
    var framed := PutFrame(c.mem, t.sp, t.fp, was);
    var at := callee.sp - 8;
    var recs := c.recs[caller := was.(lr := t.lr, sp := t.sp)][target := callee.(caller := caller, lr := 0)];
    var mem := PutCall(framed, at, t.fp, cfg.callRegion, TargetPc(cfg, caller, t.op));
    Resume(SwitchTo(c.(recs := recs, mem := mem), target), callee.lr, at)
  }

  ghost predicate FrameFits(c: Cpu, d: nat) {
    && d < |c.recs| && c.recs[d].sp + 4 <= |c.mem| && c.mem[c.recs[d].sp] + 8 <= |c.mem|
  }

  ghost function PopRec(c: Cpu, d: nat): Rec
    requires FrameFits(c, d)
  {
    var sp := c.recs[d].sp;
    c.recs[d].(lr := c.mem[sp + 1], sp := c.mem[sp + 2], caller := c.mem[sp + 3])
  }

  // __box_faultsetup.
  ghost function FaultSetup(cfg: Config, c: Cpu, err: nat): Outcome
    requires Wf(cfg, c) && c.recs[c.active].caller <= cfg.boxes
    requires c.recs[c.active].caller != c.active && FrameFits(c, c.recs[c.active].caller)
  {
    var dead := c.recs[c.active := c.recs[c.active].(initialized := false)];
    if cfg.hooks[c.active] then Hook(c.(recs := dead), err)
    else
      var d := c.recs[c.active].caller;
      var target := c.recs[d];
      var fp := c.mem[target.sp];
      if target.lr == 0 then Halt(-ELOOP)
      else if !FallibleBit(c.mem[fp + 6]) then Halt(err)
      else
        var recs := dead[d := PopRec(c, d)];
        var mem := PutReturn(c.mem, fp, err, 0, 0, 0);
        Resume(SwitchTo(c.(recs := recs, mem := mem), d), target.lr, target.sp)
  }

  ghost predicate ReturnFits(cfg: Config, c: Cpu, t: Trap) {
    && Wf(cfg, c) && c.recs[c.active].caller <= cfg.boxes && c.recs[c.active].caller != c.active
    && FrameFits(c, c.recs[c.active].caller) && t.fp + 8 <= |c.mem|
  }

  // __box_returnsetup, as far as the caller can be resumed. A caller without a
  // return code is handled as a fault of the caller.
  ghost function ReturnSetup(cfg: Config, c: Cpu, t: Trap): (r: Outcome)
    requires ReturnFits(cfg, c, t) && c.recs[c.recs[c.active].caller].lr != 0
    ensures r.Resume?
  {
    var d := c.recs[c.active].caller;
    var target := c.recs[d];
    var fp := c.mem[target.sp];
    var recs := c.recs[c.active := c.recs[c.active].(lr := t.lr)][d := PopRec(c, d)];
    var mem := PutReturn(c.mem, fp, c.mem[t.fp], c.mem[t.fp + 1], c.mem[t.fp + 2], c.mem[t.fp + 3]);
    Resume(SwitchTo(c.(recs := recs, mem := mem), d), target.lr, target.sp)
  }

  // -------------------- the stack of calls --------------------

  // A suspended activation: its domain, exception frame and saved frame, what its
  // record said while it ran, and how many words of its stack were lent when it
  // was entered.
  datatype Act = Act(dom: nat, fp: nat, sp: nat, base: nat, caller: nat, lent: nat)

  ghost predicate Layout(cfg: Config, memory: nat) {
    && WfConfig(cfg)
    && (forall d :: 0 <= d <= cfg.boxes ==> cfg.stacks[d].lo <= cfg.stacks[d].hi <= memory)
    && (forall d, e :: 0 <= d < e <= cfg.boxes ==>
          cfg.stacks[d].hi <= cfg.stacks[e].lo || cfg.stacks[e].hi <= cfg.stacks[d].lo)
  }

  ghost predicate FrameAt(mem: seq<nat>, a: Act) {
    && a.sp + 4 <= |mem|
    && mem[a.sp] == a.fp && mem[a.sp + 1] == 0 && mem[a.sp + 2] == a.base && mem[a.sp + 3] == a.caller
  }

  ghost predicate Placed(cfg: Config, a: Act)
    requires WfConfig(cfg)
  {
    && a.dom <= cfg.boxes
    && cfg.stacks[a.dom].lo <= a.sp && a.sp + 4 <= a.fp && a.fp + 8 <= cfg.stacks[a.dom].hi
  }

  ghost function Last(acts: seq<Act>): Act
    requires acts != []
  {
    acts[|acts| - 1]
  }

  ghost function Popped(acts: seq<Act>): seq<Act>
    requires acts != []
  {
    acts[..|acts| - 1]
  }

  // Who called the activation on top of `acts`; nobody calls the system at the bottom,
  // whose record says 0.
  ghost function CallerOf(acts: seq<Act>): nat {
    if acts == [] then 0 else Last(acts).dom
  }

  // Where the newest suspended activation of domain `d` has its frame. A box that has
  // none starts at the top of its stack; the record of the system starts at 0.
  ghost function NewestSp(cfg: Config, acts: seq<Act>, d: nat): nat
    requires WfConfig(cfg) && d <= cfg.boxes
  {
    if acts == [] then (if d == 0 then 0 else cfg.stacks[d].hi)
    else if Last(acts).dom == d then Last(acts).sp
    else NewestSp(cfg, Popped(acts), d)
  }

  // The chain of every domain: the record an activation saved points at the frame of
  // the activation of its domain before it, less what was lent meanwhile. Nothing is
  // ever lent of the system's stack.
  ghost predicate Threaded(cfg: Config, acts: seq<Act>)
    requires WfConfig(cfg)
  {
    acts != [] ==>
      var a := Last(acts);
      && a.dom <= cfg.boxes
      && a.base + a.lent == NewestSp(cfg, Popped(acts), a.dom)
      && (a.dom == 0 ==> a.lent == 0)
      && Threaded(cfg, Popped(acts))
  }

  // The system and the boxes take turns, the system at the bottom; each activation
  // was called by the one below it.
  ghost predicate Shaped(cfg: Config, acts: seq<Act>, active: nat)
    requires WfConfig(cfg)
  {
    && active <= cfg.boxes
    && (active == 0 <==> |acts| % 2 == 0)
    && (forall i :: 0 <= i < |acts| ==> Placed(cfg, acts[i]))
    && (forall i :: 0 <= i < |acts| ==> (acts[i].dom == 0 <==> i % 2 == 0))
    && (acts != [] ==> acts[0].caller == 0)
    && (forall i :: 0 < i < |acts| ==> acts[i].caller == acts[i - 1].dom)
    && (forall i :: 0 < i < |acts| ==> acts[i].fp + 8 <= acts[i].base)
  }

  ghost predicate FramesIn(mem: seq<nat>, acts: seq<Act>) {
    forall i :: 0 <= i < |acts| ==> FrameAt(mem, acts[i])
  }

  // A domain runs, or can be resumed or called.
  ghost predicate Live(recs: seq<Rec>, active: nat, d: nat)
    requires d < |recs|
  {
    d == active || recs[d].lr != 0
  }

  // The record of the active domain names its caller and has no return code; those
  // of suspended domains have one. The record of every live domain points at its
  // newest frame, less what is lent of its stack.
  ghost predicate Recorded(cfg: Config, recs: seq<Rec>, active: nat, acts: seq<Act>, lent: seq<nat>)
    requires WfConfig(cfg) && |recs| == cfg.boxes + 1 && active <= cfg.boxes
    requires forall i :: 0 <= i < |acts| ==> acts[i].dom <= cfg.boxes
  {
    && recs[active].lr == 0
    && recs[active].caller == CallerOf(acts)
    && (forall i :: 0 <= i < |acts| && acts[i].dom != active ==> recs[acts[i].dom].lr != 0)
    && (forall b :: 1 <= b <= cfg.boxes ==> recs[b].caller == 0)
    && |lent| == cfg.boxes + 1 && lent[0] == 0
    && (forall d :: 0 <= d <= cfg.boxes && Live(recs, active, d) ==> recs[d].sp + lent[d] == NewestSp(cfg, acts, d))
  }

  // The MPU and the privilege level are those of the active domain.
  ghost predicate Loaded(c: Cpu) {
    c.regions == c.active && (c.unprivileged <==> c.active != 0)
  }

  // The records and frames of `c` stand for the suspended activations `acts`, oldest
  // first, below the active one, while `lent[d]` words of the stack of domain d are
  // lent for data shared with it.
  ghost predicate Represents(cfg: Config, c: Cpu, acts: seq<Act>, lent: seq<nat>) {
    && Wf(cfg, c) && Layout(cfg, |c.mem|)
    && Shaped(cfg, acts, c.active)
    && Threaded(cfg, acts)
    && FramesIn(c.mem, acts)
    && Recorded(cfg, c.recs, c.active, acts, lent)
    && Loaded(c)
  }

  ghost predicate InCall(acts: seq<Act>, d: nat) {
    exists i :: 0 <= i < |acts| && acts[i].dom == d
  }

  // The words that belong to suspended activations.
  ghost predicate Protected(acts: seq<Act>, k: nat) {
    exists i :: 0 <= i < |acts| && acts[i].sp <= k < acts[i].fp + 8
  }

  // The hardware has stacked the exception frame, and the trap handler its frame,
  // in the free part of the active domain's stack.
  ghost predicate Stacked(cfg: Config, c: Cpu, acts: seq<Act>, t: Trap)
    requires Wf(cfg, c)
  {
    && t.lr != 0
    && cfg.stacks[c.active].lo <= t.sp && t.sp + 4 <= t.fp && t.fp + 8 <= cfg.stacks[c.active].hi
    && (acts != [] ==> t.fp + 8 <= c.recs[c.active].sp)
  }

  // A call the source supports: emitted, to a domain that has been made ready and
  // has room for an exception frame.
  ghost predicate CallOk(cfg: Config, c: Cpu, acts: seq<Act>, t: Trap)
    requires Wf(cfg, c)
  {
    && Emitted(cfg, c.active, t.op) && Stacked(cfg, c, acts, t)
    && var d := Target(cfg, c.active, t.op);
       d <= cfg.boxes && d != c.active && c.recs[d].lr != 0 && cfg.stacks[d].lo + 8 <= c.recs[d].sp
  }

  // A return of the active domain to one that has got back what was lent: the
  // exception frame is on the stack of the active domain, below its record's sp.
  ghost predicate ReturnOk(cfg: Config, c: Cpu, acts: seq<Act>, lent: seq<nat>, t: Trap)
    requires Wf(cfg, c)
  {
    && acts != [] && t.lr != 0
    && cfg.stacks[c.active].lo <= t.fp && t.fp + 8 <= c.recs[c.active].sp
    && Last(acts).dom < |lent| && lent[Last(acts).dom] == 0
  }

  // The activation a call suspends.
  ghost function Suspended(c: Cpu, lent: seq<nat>, t: Trap): Act
    requires c.active < |c.recs| && c.active < |lent|
  {
    var r := c.recs[c.active];
    Act(c.active, t.fp, t.sp, r.sp, r.caller, lent[c.active])
  }

  ghost function Pushed(c: Cpu, acts: seq<Act>, lent: seq<nat>, t: Trap): seq<Act>
    requires c.active < |c.recs| && c.active < |lent|
  {
    acts + [Suspended(c, lent, t)]
  }

  // What is lent of the caller's stack is set aside with it, and comes back with it.
  ghost function SetAside(c: Cpu, lent: seq<nat>): seq<nat>
    requires c.active < |lent|
  {
    lent[c.active := 0]
  }

  ghost function BroughtBack(acts: seq<Act>, lent: seq<nat>): seq<nat>
    requires acts != [] && Last(acts).dom < |lent|
  {
    lent[Last(acts).dom := Last(acts).lent]
  }
}
