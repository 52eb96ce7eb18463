/** The traced child as the debugger sees it through PTRACE_GETREGS /
    PTRACE_SETREGS and PTRACE_PEEKDATA / PTRACE_POKEDATA, the program
    counter accessors, and stepping over the breakpoint
    (debugger_template.c, get_pc, set_pc, step_over_breakpoint and the
    `break` command). */
module Execution {
  import opened Wrappers
  import opened Memory
  import opened Registers
  import opened Breakpoints

  /** The traced child: its memory and its register snapshot. */
  datatype Target = Target(mem: Mem, regs: Regs)

  /** The debugger's state: the child and the single breakpoint (the
      globals child and breakpt). */
  datatype Debugger = Debugger(target: Target, bp: Breakpoint)

  /** get_pc: the rip field of the snapshot; PcIsRipRegister shows it is
      the register that `register read rip` shows. */
  function GetPc(t: Target): Word {
    Get(t.regs, Rip)
  }

  /** set_pc: the child with rip replaced by pc; memory and every other
      register are left alone. */
  function SetPc(t: Target, pc: Word): (r: Target)
    ensures GetPc(r) == pc
    ensures r.mem == t.mem
    ensures forall s :: s != Rip ==> Get(r.regs, s) == Get(t.regs, s)
  {
    Target(t.mem, Set(t.regs, Rip, pc))
  }

  /** The table entry named "rip" selects the Rip field. */
  lemma RipIsRip()
    ensures RegisterAddress("rip") == Ok(Rip)
  {
    assert Offset(Rip) == 16;
    assert Descriptors[16] == RegDescriptor(16, "rip");
    RegisterAddressOnto(Rip);
  }

  /** get_pc and set_pc agree with `register read rip` and
      `register write rip <value>`. */
  lemma PcIsRipRegister(t: Target, pc: Word)
    ensures ReadRegister(t.regs, "rip") == Ok(GetPc(t))
    ensures WriteRegister(t.regs, "rip", pc) == Ok(SetPc(t, pc).regs)
  {
    RipIsRip();
  }

  /** Setting the pc to the value it holds changes nothing, and a second
      set_pc overrides the first. */
  lemma PcRoundTrip(t: Target, a: Word, b: Word)
    ensures SetPc(t, GetPc(t)) == t
    ensures SetPc(SetPc(t, a), b) == SetPc(t, b)
  {
    LayoutBijective();
    assert t.regs[Offset(Rip) := t.regs[Offset(Rip)]] == t.regs;
    assert t.regs[Offset(Rip) := a][Offset(Rip) := b] == t.regs[Offset(Rip) := b];
  }

  /** The guard of step_over_breakpoint: the breakpoint is active and
      rip - 1 (wrapping, as uint64_t does) is its address, that is, rip is
      one past it. Why the child stopped is not looked at. */
  predicate AtTrap(d: Debugger): (b: bool)
    ensures b <==> d.bp.active && d.bp.addr + 1 == GetPc(d.target)
  {
    d.bp.active && GetPc(d.target) - 1 == d.bp.addr
  }

  /** The state the single step of a step-over starts from: rip rewound
      onto the breakpoint address and the child's own byte back in place
      of the trap. */
  function Rewound(d: Debugger): (t: Target)
    requires d.bp.active && Mapped(d.target.mem, d.bp.addr)
    ensures GetPc(t) == d.bp.addr
    ensures forall s :: s != Rip ==> Get(t.regs, s) == Get(d.target.regs, s)
    ensures t.mem.Keys == d.target.mem.Keys
    ensures t.mem[At(d.bp.addr)] == d.bp.prevOpcode
    ensures forall c :: c in d.target.mem && c != At(d.bp.addr) ==> t.mem[c] == d.target.mem[c]
  {
    Target(Original(d.target.mem, d.bp), SetPc(d.target, d.bp.addr).regs)
  }

  /** step_over_breakpoint. step is PTRACE_SINGLESTEP followed by the wait:
      it executes one instruction of the child, which this model does not
      interpret. Away from the trap nothing happens; at the trap the pc is
      rewound, the breakpoint disabled, one instruction executed and the
      breakpoint enabled again. */
  function StepOver(d: Debugger, step: Target -> Target): (r: Result<Debugger, Error>)
    ensures !AtTrap(d) ==> r == Ok(d)
    ensures r.Err? ==> r.error == AccessError(d.bp.addr)
  {
    if !AtTrap(d) then Ok(d)
    else StepFromTrap(d.target, d.bp, step)
  }

  /** The trap branch of step_over_breakpoint, entered with rip one past
      the breakpoint's address, so that set_pc(get_pc() - 1) sets rip to
      that address. */
  function StepFromTrap(t: Target, bp: Breakpoint, step: Target -> Target): (r: Result<Debugger, Error>)
    ensures r.Err? ==> r.error == AccessError(bp.addr)
    ensures r.Ok? ==> r.value.bp.addr == bp.addr && r.value.bp.active
  {
    var rewound := SetPc(t, bp.addr);
    match DisableBreakpoint(rewound.mem, bp)
    case Err(e) => Err(e)
    case Ok(off) =>
      var after := step(Target(off.mem, rewound.regs));
      match EnableBreakpoint(after.mem, off.bp)
      case Err(e) => Err(e)
      case Ok(on) => Ok(Debugger(Target(on.mem, after.regs), on.bp))
  }

  /** At the trap, the single step runs from rip = addr over the child's
      own byte, and afterwards the trap is back at addr over whatever the
      instruction left there, which becomes the new saved byte. */
  lemma StepOverAtTrap(d: Debugger, step: Target -> Target)
    requires AtTrap(d) && Mapped(d.target.mem, d.bp.addr)
    ensures var after := step(Rewound(d));
      && (StepOver(d, step).Ok? <==> Mapped(after.mem, d.bp.addr))
      && (StepOver(d, step).Ok? ==> StepOver(d, step).value == Debugger(
            Target(after.mem[At(d.bp.addr) := Int3], after.regs),
            Breakpoint(d.bp.addr, after.mem[At(d.bp.addr)], true)))
  {
    StepFromMappedTrap(d.target, d.bp, step);
  }

  /** At the trap, a word that is not mapped makes the step-over fail
      before anything is executed. */
  lemma StepOverUnmapped(d: Debugger, step: Target -> Target)
    requires AtTrap(d) && !Mapped(d.target.mem, d.bp.addr)
    ensures StepOver(d, step) == Err(AccessError(d.bp.addr))
  {
  }

  /** StepOverAtTrap for the trap branch on its own. The byte at addr need
      not be the trap: after `memory write` over it the branch still
      writes prev_opcode back, steps and re-enables. */
  lemma StepFromMappedTrap(t: Target, bp: Breakpoint, step: Target -> Target)
    requires bp.active && Mapped(t.mem, bp.addr)
    ensures var after := step(Target(Original(t.mem, bp), SetPc(t, bp.addr).regs));
      && (StepFromTrap(t, bp, step).Ok? <==> Mapped(after.mem, bp.addr))
      && (StepFromTrap(t, bp, step).Ok? ==> StepFromTrap(t, bp, step).value == Debugger(
            Target(after.mem[At(bp.addr) := Int3], after.regs),
            Breakpoint(bp.addr, after.mem[At(bp.addr)], true)))
  {
  }

  /** A step-over leaves the breakpoint armed, at the same address and
      active, whatever the stepped instruction did. */
  lemma StepOverKeepsArmed(d: Debugger, step: Target -> Target)
    requires Armed(d.target.mem, d.bp)
    ensures StepOver(d, step).Ok? ==>
      var e := StepOver(d, step).value;
      && Armed(e.target.mem, e.bp)
      && e.bp.addr == d.bp.addr
      && e.bp.active == d.bp.active
  {
    if AtTrap(d) {
      StepOverAtTrap(d, step);
      var after := step(Rewound(d));
      if Mapped(after.mem, d.bp.addr) {
        UpdateKeepsMapped(after.mem, d.bp.addr, At(d.bp.addr), Int3);
      }
    }
  }

  /** Stepping over an instruction that writes no memory leaves the trap
      at addr and the breakpoint as it was; only the registers move. */
  lemma StepOverQuietInstruction(d: Debugger, step: Target -> Target)
    requires AtTrap(d) && Mapped(d.target.mem, d.bp.addr)
    requires step(Rewound(d)).mem == Rewound(d).mem
    ensures StepOver(d, step) ==
      Ok(Debugger(Target(d.target.mem[At(d.bp.addr) := Int3], step(Rewound(d)).regs), d.bp))
  {
    StepOverAtTrap(d, step);
    var m := d.target.mem;
    var a := d.bp.addr;
    var restored := Rewound(d).mem;
    assert restored == m[At(a) := d.bp.prevOpcode];
    UpdateKeepsMapped(m, a, At(a), d.bp.prevOpcode);
    UpdateTwice(m, At(a), d.bp.prevOpcode, Int3);
  }

  /** When the trap was in place, stepping over an instruction that writes
      no memory gives back the child's memory exactly as it was. */
  lemma StepOverQuietArmed(d: Debugger, step: Target -> Target)
    requires AtTrap(d) && Armed(d.target.mem, d.bp)
    requires step(Rewound(d)).mem == Rewound(d).mem
    ensures StepOver(d, step) == Ok(Debugger(Target(d.target.mem, step(Rewound(d)).regs), d.bp))
  {
    StepOverQuietInstruction(d, step);
    UpdateWithSame(d.target.mem, At(d.bp.addr), Int3);
  }

  /** The `break <address>` command as written (lines 139-141): the
      address is overwritten and the breakpoint enabled, with no regard
      for a breakpoint that is already installed. */
  function BreakAsWritten(d: Debugger, addr: Addr): (r: Result<Debugger, Error>)
    ensures r.Ok? <==> Mapped(d.target.mem, addr)
    ensures r.Ok? ==> r.value.bp == Breakpoint(addr, d.target.mem[At(addr)], true)
    ensures r.Ok? ==> r.value.target == Target(d.target.mem[At(addr) := Int3], d.target.regs)
  {
    match EnableBreakpoint(d.target.mem, d.bp.(addr := addr))
    case Err(e) => Err(e)
    case Ok(on) => Ok(Debugger(Target(on.mem, d.target.regs), on.bp))
  }

  /** Eight bytes of nop (0x90) at 0x1000. */
  const NopWord: Mem := map[
    At(0x1000) := 0x90, At(0x1001) := 0x90, At(0x1002) := 0x90, At(0x1003) := 0x90,
    At(0x1004) := 0x90, At(0x1005) := 0x90, At(0x1006) := 0x90, At(0x1007) := 0x90]

  /** Issuing `break 0x1000` twice over nops saves the trap byte itself as
      prev_opcode: disabling afterwards leaves 0xcc in the child, whose own
      byte 0x90 is lost. */
  lemma BreakTwiceLosesByte(regs: Regs)
    ensures var d0 := Debugger(Target(NopWord, regs), Breakpoint(0, 0, false));
      && BreakAsWritten(d0, 0x1000).Ok?
      && BreakAsWritten(BreakAsWritten(d0, 0x1000).value, 0x1000).Ok?
      && var d2 := BreakAsWritten(BreakAsWritten(d0, 0x1000).value, 0x1000).value;
      && d2.bp.prevOpcode == Int3
      && DisableBreakpoint(d2.target.mem, d2.bp).Ok?
      && DisableBreakpoint(d2.target.mem, d2.bp).value.mem[At(0x1000)] == Int3
      && Original(d2.target.mem, d2.bp) != NopWord
  {
    var d0 := Debugger(Target(NopWord, regs), Breakpoint(0, 0, false));
    assert Mapped(NopWord, 0x1000);
    var d1 := BreakAsWritten(d0, 0x1000).value;
    assert d1.target.mem == NopWord[At(0x1000) := Int3];
    assert Mapped(d1.target.mem, 0x1000);
    var d2 := BreakAsWritten(d1, 0x1000).value;
    assert d2.bp.prevOpcode == Int3;
    assert Original(d2.target.mem, d2.bp)[At(0x1000)] == Int3;
  }

  /** The `break <address>` command as intended: a breakpoint that is
      installed is first disabled, so its saved byte goes back into the
      child before the trap moves to addr. */
  function SetBreakpoint(d: Debugger, addr: Addr): (r: Result<Debugger, Error>)
    ensures r.Ok? ==> r.value.bp.addr == addr && r.value.bp.active
    ensures r.Ok? ==> r.value.target.regs == d.target.regs
  {
    var cleared :=
      if d.bp.active then DisableBreakpoint(d.target.mem, d.bp) else Ok(Patch(d.target.mem, d.bp));
    match cleared
    case Err(e) => Err(e)
    case Ok(off) =>
      match EnableBreakpoint(off.mem, d.bp.(addr := addr))
      case Err(e) => Err(e)
      case Ok(on) => Ok(Debugger(Target(on.mem, d.target.regs), on.bp))
  }

  /** From an armed breakpoint, moving it succeeds exactly when the new
      address is mapped, leaves the new one armed, and the child's own
      code (the memory with every trap byte put back) is what it was. */
  lemma SetBreakpointKeepsOriginal(d: Debugger, addr: Addr)
    requires Armed(d.target.mem, d.bp)
    ensures SetBreakpoint(d, addr).Ok? <==> Mapped(d.target.mem, addr)
    ensures SetBreakpoint(d, addr).Ok? ==>
      var e := SetBreakpoint(d, addr).value;
      && Armed(e.target.mem, e.bp)
      && Original(e.target.mem, e.bp) == Original(d.target.mem, d.bp)
  {
    var m := d.target.mem;
    var cleared := Original(m, d.bp);
    if d.bp.active {
      DisableRestoresOriginal(m, d.bp);
      UpdateKeepsMapped(m, addr, At(d.bp.addr), d.bp.prevOpcode);
    }
    assert cleared.Keys == m.Keys;
    if Mapped(cleared, addr) {
      EnableThenDisable(cleared, d.bp.(addr := addr));
    }
  }
}
