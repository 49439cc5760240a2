/** The handlers as written, on the records, the memory and the MPU in place. */
module MpuMachine {
  import opened MpuDispatch
  import opened MpuProtocol
  import opened MpuStack
  import Arithmetic
  import R = MpuRegions

  datatype Resumption = Going(lr: nat, sp: nat) | Stopped(err: int) | Hooked(err: int)

  class Machine {
    const cfg: Config
    // The memories of each domain, none for the system, and how many MPU regions
    // are managed.
    const memories: seq<seq<R.Memory>>
    const limit: nat
    const callLog2: nat

    var active: nat
    const recs: array<Rec>
    const mem: array<nat>
    var mpu: R.Mpu
    var unprivileged: bool
    var enabled: bool
    ghost var regions: nat

    // A Machine starts as hardware and reset code leave it.
    constructor (cfg: Config, memories: seq<seq<R.Memory>>, limit: nat, callLog2: nat, words: nat, mpu: R.Mpu)
      ensures this.cfg == cfg && this.memories == memories && this.limit == limit && this.callLog2 == callLog2
      ensures this.mpu == mpu && !enabled && mem.Length == words && fresh(recs) && fresh(mem)
      ensures View() == Cpu(0, seq(cfg.boxes + 1, _ => Rec(false, 0, 0, 0)), mem[..], 0, false)
      ensures Unset() <==> Configured() && R.Wf(mpu) && forall i :: 0 <= i < 16 ==> !R.Enabled(mpu.slots[i])
    {
      this.cfg, this.memories, this.limit, this.callLog2 := cfg, memories, limit, callLog2;
      active, unprivileged, enabled, regions, this.mpu := 0, false, false, 0, mpu;
      recs := new Rec[cfg.boxes + 1](_ => Rec(false, 0, 0, 0));
      mem := new nat[words](_ => 0);
    }

    // The call region as a memory without modes.
    ghost function CallMemory(): R.Memory {
      R.Memory(cfg.callRegion, callLog2, false, false, false)
    }

    ghost predicate Configured() {
      && WfConfig(cfg) && |memories| == cfg.boxes + 1 && memories[0] == [] && limit < 16
      && R.Checked(CallMemory())
      && forall d :: 0 <= d < |memories| ==>
           |memories[d]| <= limit && forall m :: m in memories[d] ==> R.Checked(m)
    }

    // The MPU is on and holds the call region and the memories of the domain
    // `regions`, and nothing else.
    ghost predicate Valid()
      reads this
    {
      && Configured() && recs.Length == cfg.boxes + 1 && regions <= cfg.boxes
      && enabled && R.Wf(mpu) && R.Shows(mpu.slots, memories[regions])
      && mpu.slots[0] == R.CallSlot(cfg.callRegion, callLog2)
    }

    // As it is after reset: the system runs, the MPU is off and has no region enabled.
    ghost predicate Unset()
      reads this
    {
      && Configured() && recs.Length == cfg.boxes + 1 && active == 0 && regions == 0
      && !enabled && !unprivileged && R.Wf(mpu) && forall i :: 0 <= i < 16 ==> !R.Enabled(mpu.slots[i])
    }

    ghost function View(): Cpu
      reads this, recs, mem
    {
      Cpu(active, recs[..], mem[..], regions, unprivileged)
    }

    // __box_mpu_init: the call region, which nobody may access, in region 0. Bringing
    // up a box does this first; only the first time has an effect.
    method InitMpu()
      requires Valid() || Unset()
      modifies this`mpu, this`enabled
      ensures Valid() && View() == old(View())
      ensures old(enabled) ==> mpu == old(mpu)
      ensures forall a: nat ::
                R.Matches(mpu.slots[0], a) <==>
                cfg.callRegion <= a < cfg.callRegion + Arithmetic.Pow2(callLog2)
      ensures mpu.slots[0].attr / 0x1000_0000 % 2 == 1 && mpu.slots[0].attr / 0x100_0000 % 8 == 0
    {
      hide Arithmetic.Pow2, R.Matches;
      if !enabled {
        R.AlignedLow(CallMemory());
        R.RbarDecodes(cfg.callRegion, 0);
        mpu := R.WriteRbar(mpu, R.Rbar(cfg.callRegion, 0));
        mpu := R.WriteRasr(mpu, 0x1000_0001 + 2 * (callLog2 - 1));
        enabled := true;
      }
      forall a: nat
        ensures R.Matches(mpu.slots[0], a) <==>
                cfg.callRegion <= a < cfg.callRegion + Arithmetic.Pow2(callLog2)
      {
        CallRegionTraps(a);
      }
    }

    // The first region is the call region, neither privileged nor unprivileged code may
    // access it or run from it, and it decides for every address in it but those that a
    // memory of the running box contains; while the system runs, for all.
    lemma CallRegionTraps(a: nat)
      requires Valid()
      ensures var inside := cfg.callRegion <= a < cfg.callRegion + Arithmetic.Pow2(callLog2);
              && (R.Matches(mpu.slots[0], a) <==> inside)
              && (inside && (forall m :: m in memories[regions] ==> !R.Contains(m, a)) ==> R.Winner(mpu.slots, a) == 0)
              && (inside && regions == 0 ==> R.Winner(mpu.slots, a) == 0)
      ensures mpu.slots[0].attr / 0x1000_0000 % 2 == 1 && mpu.slots[0].attr / 0x100_0000 % 8 == 0
    {
      hide Arithmetic.Pow2, R.Matches, R.Contains, R.Winner, R.Shows, R.CallSlot;
      R.CallSlotCovers(cfg.callRegion, callLog2, a);
      if cfg.callRegion <= a < cfg.callRegion + Arithmetic.Pow2(callLog2)
         && forall m :: m in memories[regions] ==> !R.Contains(m, a) {
        R.CallSlotWins(mpu.slots, memories[regions], a, cfg.callRegion, callLog2);
      }
    }

    // __box_mpu_switch.
    method SwitchMpu(d: nat)
      requires Valid() && d <= cfg.boxes
      modifies this`mpu, this`unprivileged, this`regions
      ensures Valid() && regions == d && (unprivileged <==> d != 0)
    {
      R.ShownAbove(mpu.slots, memories[regions], limit);
      mpu := R.Switch(mpu, memories[d], limit);
      R.SwitchShows(mpu.slots, memories[d], limit);
      unprivileged := d != 0;
      regions := d;
    }

    // Whenever a box runs, it has access to no words but those of its memories, and there
    // to what the last memory that contains the word allows.
    lemma ActiveIsIsolated(acts: seq<Act>, lent: seq<nat>, a: nat, access: R.Access)
      requires Valid() && Represents(cfg, View(), acts, lent) && active != 0
      ensures unprivileged
      ensures R.Allows(mpu.slots, a, access) <==> R.MayAccess(memories[active], a, access)
    {
      hide R.Allows, R.MayAccess, R.Shows, R.CallSlot, R.Size, Arithmetic.Pow2;
      RunsOn(cfg, View(), acts, lent);
      R.ShownIsolates(mpu.slots, memories[active], a, access, cfg.callRegion, callLog2);
    }

    // The four words saved for the caller.
    method SaveFrame(at: nat, fp: nat, r: Rec)
      requires at + 4 <= mem.Length
      modifies mem
      ensures mem[..] == PutFrame(old(mem[..]), at, fp, r)
    {
      mem[at] := fp;
      mem[at + 1] := r.lr;
      mem[at + 2] := r.sp;
      mem[at + 3] := r.caller;
    }

    // The callee's exception frame.
    method BuildFrame(at: nat, fp: nat, pc: nat)
      requires at + 8 <= mem.Length && fp + 8 <= mem.Length && (fp + 8 <= at || at + 8 <= fp)
      modifies mem
      ensures mem[..] == PutCall(old(mem[..]), at, fp, cfg.callRegion, pc)
    {
      mem[at] := mem[fp];
      mem[at + 1] := mem[fp + 1];
      mem[at + 2] := mem[fp + 2];
      mem[at + 3] := mem[fp + 3];
      mem[at + 4] := mem[fp + 4];
      mem[at + 5] := cfg.callRegion;
      mem[at + 6] := pc;
      mem[at + 7] := mem[fp + 7];
    }

    // __box_callsetup, on a machine whose calls are a stack.
    method CallSetup(t: Trap, ghost acts: seq<Act>, ghost lent: seq<nat>) returns (lr: nat, sp: nat)
      requires Valid() && Represents(cfg, View(), acts, lent) && CallOk(cfg, View(), acts, t)
      modifies this, recs, mem
      ensures Valid() && CallFits(cfg, old(View()), t) && old(active) < |lent|
      ensures View() == MpuProtocol.CallSetup(cfg, old(View()), t).cpu
      ensures Represents(cfg, View(), Pushed(old(View()), acts, lent, t), SetAside(old(View()), lent))
      ensures lr == MpuProtocol.CallSetup(cfg, old(View()), t).lr && sp == MpuProtocol.CallSetup(cfg, old(View()), t).sp
      ensures EntersImport(cfg, old(View()), t, Resume(View(), lr, sp))
    {
      hide PutFrame, PutCall, Represents, EntersImport;
      ghost var was := View();
      RunsOn(cfg, was, acts, lent);
      CallFitsOk(cfg, was, acts, lent, t);
      TrapApart(cfg, was, acts, lent, t);
      CallPushes(cfg, was, acts, lent, t);
      ImportIsEntered(cfg, was, acts, lent, t);
      SaveFrame(t.sp, t.fp, recs[active]);
      recs[active] := recs[active].(lr := t.lr, sp := t.sp);

      var caller := active;
      active := if caller == 0 then TargetBox(cfg.boxes, t.op) else 0;
      var pc := if caller == 0 then cfg.boxJump[active - 1][TargetEntry(cfg.boxes, t.op)]
                else cfg.sysJump[caller - 1][SystemEntry(t.op)];
      lr, sp := recs[active].lr, recs[active].sp;
      recs[active] := recs[active].(caller := caller, lr := 0);
      SwitchMpu(active);

      sp := sp - 8;
      BuildFrame(sp, t.fp, pc);
    }

    // Results into the caller's exception frame.
    method PutResults(fp: nat, r0: nat, r1: nat, r2: nat, r3: nat)
      requires fp + 8 <= mem.Length
      modifies mem
      ensures mem[..] == PutReturn(old(mem[..]), fp, r0, r1, r2, r3)
    {
      mem[fp] := r0;
      mem[fp + 1] := r1;
      mem[fp + 2] := r2;
      mem[fp + 3] := r3;
      mem[fp + 6] := mem[fp + 5];
    }

    // The caller's record out of its frame.
    method RestoreRecord(d: nat)
      requires d < recs.Length && FrameFits(View(), d)
      modifies recs
      ensures recs[..] == old(recs[..][d := PopRec(View(), d)])
    {
      var sp := recs[d].sp;
      recs[d] := recs[d].(lr := mem[sp + 1], sp := mem[sp + 2], caller := mem[sp + 3]);
    }

    // __box_returnsetup. On a stack of calls the caller always has a return code, so
    // the return always reaches it.
    method ReturnSetup(t: Trap, ghost acts: seq<Act>, ghost lent: seq<nat>) returns (r: Resumption)
      requires Valid() && Represents(cfg, View(), acts, lent) && ReturnOk(cfg, View(), acts, lent, t)
      modifies this, recs, mem
      ensures Valid() && ReturnFits(cfg, old(View()), t)
      ensures old(View().recs[View().recs[View().active].caller].lr != 0)
      ensures View() == MpuProtocol.ReturnSetup(cfg, old(View()), t).cpu
      ensures Represents(cfg, View(), Popped(acts), BroughtBack(acts, lent))
      ensures var spec := MpuProtocol.ReturnSetup(cfg, old(View()), t); r == Going(spec.lr, spec.sp)
      ensures r.Going? && Returned(old(View()), t, Resume(View(), r.lr, r.sp), Last(acts))
    {
      hide PutReturn, Represents, Returned;
      ghost var was := View();
      RunsOn(cfg, was, acts, lent);
      ReturnLeaves(cfg, was, acts, lent, t);
      ReturnFitsOk(cfg, was, acts, lent, t);
      ReturnPops(cfg, was, acts, lent, t);
      recs[active] := recs[active].(lr := t.lr);
      active := recs[active].caller;
      var lr := recs[active].lr;
      if lr == 0 {
        return Stopped(-EFAULT);
      }
      var sp := recs[active].sp;
      var fp := mem[sp];
      RestoreRecord(active);
      SwitchMpu(active);
      PutResults(fp, mem[t.fp], mem[t.fp + 1], mem[t.fp + 2], mem[t.fp + 3]);
      return Going(lr, sp);
    }

    // __box_faultsetup while a box runs.
    method FaultSetup(err: nat, ghost acts: seq<Act>, ghost lent: seq<nat>) returns (r: Resumption)
      requires Valid() && Represents(cfg, View(), acts, lent) && active != 0
      modifies this, recs, mem
      ensures Valid()
      ensures old(Wf(cfg, View()) && recs[active].caller <= cfg.boxes && recs[active].caller != active
                  && FrameFits(View(), recs[active].caller))
      ensures !recs[old(active)].initialized
      ensures match MpuProtocol.FaultSetup(cfg, old(View()), err)
              case Resume(c, lr, sp) => View() == c && r == Going(lr, sp)
              case Hook(c, e) => View() == c && r == Hooked(e)
              case Halt(e) => r == Stopped(e)
    {
      hide PutReturn, Represents;
      RunsOn(cfg, View(), acts, lent);
      BoxWasCalled(cfg, View(), acts, lent);
      CallerFrame(cfg, View(), acts, lent);
      var box := active;
      recs[box] := recs[box].(initialized := false);
      if cfg.hooks[box] {
        return Hooked(err);
      }
      var caller := recs[box].caller;
      var lr, sp := recs[caller].lr, recs[caller].sp;
      var fp := mem[sp];
      if lr == 0 {
        return Stopped(-ELOOP);
      }
      if !FallibleBit(mem[fp + 6]) {
        return Stopped(err);
      }
      active := caller;
      RestoreRecord(active);
      SwitchMpu(active);
      PutResults(fp, err, 0, 0, 0);
      return Going(lr, sp);
    }

    // __box_<box>_push: stack space of a box, or NULL (0) when there is too little.
    method Push(b: nat, bytes: nat) returns (p: nat)
      requires Valid() && 1 <= b <= cfg.boxes
      modifies recs
      ensures var n := (bytes + 3) / 4;
              if old(recs[b].sp) - n < cfg.stacks[b].lo then p == 0 && View() == old(View())
              else
                && p == old(recs[b].sp) - n && recs[..] == old(recs[..][b := recs[b].(sp := recs[b].sp - n)])
                && View() == MoveSp(old(View()), b, p)
    {
      var n := (bytes + 3) / 4;
      if recs[b].sp - n < cfg.stacks[b].lo {
        return 0;
      }
      recs[b] := recs[b].(sp := recs[b].sp - n);
      return recs[b].sp;
    }

    // __box_<box>_pop.
    method Pop(b: nat, bytes: nat)
      requires Valid() && 1 <= b <= cfg.boxes && recs[b].sp + (bytes + 3) / 4 <= cfg.stacks[b].hi
      modifies recs
      ensures recs[..] == old(recs[..][b := recs[b].(sp := recs[b].sp + (bytes + 3) / 4)])
      ensures View() == MoveSp(old(View()), b, old(recs[b].sp) + (bytes + 3) / 4)
    {
      recs[b] := recs[b].(sp := recs[b].sp + (bytes + 3) / 4);
    }
  }

  lemma TrapApart(cfg: Config, c: Cpu, acts: seq<Act>, lent: seq<nat>, t: Trap)
    requires Represents(cfg, c, acts, lent) && CallOk(cfg, c, acts, t)
    ensures var at := c.recs[Target(cfg, c.active, t.op)].sp - 8;
            t.fp + 8 <= at || at + 8 <= t.sp
    ensures t.sp <= t.fp
  {
    var d := Target(cfg, c.active, t.op);
    CallFitsOk(cfg, c, acts, lent, t);
    Below(cfg, |c.mem|, c.active, d, t.sp, t.fp + 8, c.recs[d].sp - 8);
  }

  lemma RunsOn(cfg: Config, c: Cpu, acts: seq<Act>, lent: seq<nat>)
    requires Represents(cfg, c, acts, lent)
    ensures Wf(cfg, c) && Loaded(c) && |lent| == cfg.boxes + 1
  {
  }

  lemma BoxWasCalled(cfg: Config, c: Cpu, acts: seq<Act>, lent: seq<nat>)
    requires Represents(cfg, c, acts, lent) && c.active != 0
    ensures acts != [] && Last(acts).dom == 0 && lent[0] == 0
  {
  }
}
