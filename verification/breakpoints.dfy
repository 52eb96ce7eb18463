/** The single software breakpoint and the byte-level patching that turns
    it on and off (debugger_template.c, struct breakpoint and
    enable_breakpoint / disable_breakpoint). */
module Breakpoints {
  import opened Wrappers
  import opened Memory

  /** The x86 int3 instruction: one byte that traps to the tracer. */
  const Int3: Byte := 0xCC

  /** struct breakpoint: where it is, the byte the trap replaced, and
      whether the trap is currently installed. */
  datatype Breakpoint = Breakpoint(addr: Addr, prevOpcode: Byte, active: bool)

  /** Target memory together with the breakpoint after a patch. */
  datatype Patch = Patch(mem: Mem, bp: Breakpoint)

  /** The trap is in place whenever the breakpoint says it is active. */
  predicate Armed(m: Mem, bp: Breakpoint) {
    bp.active ==> Mapped(m, bp.addr) && m[At(bp.addr)] == Int3
  }

  /** The target's own memory, as it would be without the debugger's patch. */
  function Original(m: Mem, bp: Breakpoint): Mem {
    if bp.active && At(bp.addr) in m then m[At(bp.addr) := bp.prevOpcode] else m
  }

  /** enable_breakpoint: read the word at addr, keep its low byte in
      prev_opcode, write the word back with that byte replaced by int3, and
      mark the breakpoint active. */
  function EnableBreakpoint(m: Mem, bp: Breakpoint): (r: Result<Patch, Error>)
    ensures r.Ok? <==> Mapped(m, bp.addr)
    ensures r.Err? ==> r.error == AccessError(bp.addr)
    ensures r.Ok? ==> r.value.mem == m[At(bp.addr) := Int3]
    ensures r.Ok? ==> r.value.bp == Breakpoint(bp.addr, m[At(bp.addr)], true)
  {
    match LowByte(m, bp.addr)
    case None => Err(AccessError(bp.addr))
    case Some(prevOpcode) =>
      Ok(Patch(ReplaceLowByte(m, bp.addr, Int3).value, Breakpoint(bp.addr, prevOpcode, true)))
  }

  /** disable_breakpoint: read the word at addr, write it back with its low
      byte replaced by prev_opcode, and mark the breakpoint inactive. */
  function DisableBreakpoint(m: Mem, bp: Breakpoint): (r: Result<Patch, Error>)
    ensures r.Ok? <==> Mapped(m, bp.addr)
    ensures r.Err? ==> r.error == AccessError(bp.addr)
    ensures r.Ok? ==> r.value.mem == m[At(bp.addr) := bp.prevOpcode]
    ensures r.Ok? ==> r.value.bp == bp.(active := false)
  {
    match ReplaceLowByte(m, bp.addr, bp.prevOpcode)
    case None => Err(AccessError(bp.addr))
    case Some(restored) => Ok(Patch(restored, bp.(active := false)))
  }

  /** Enabling and then disabling restores memory exactly, whatever byte
      was there before (0xcc included), and only the byte at addr is ever
      touched. */
  lemma EnableThenDisable(m: Mem, bp: Breakpoint)
    requires Mapped(m, bp.addr)
    ensures var on := EnableBreakpoint(m, bp).value;
      && Armed(on.mem, on.bp)
      && Original(on.mem, on.bp) == m
      && (forall c :: c in m && c != At(bp.addr) ==> on.mem[c] == m[c])
      && DisableBreakpoint(on.mem, on.bp) == Ok(Patch(m, Breakpoint(bp.addr, m[At(bp.addr)], false)))
  {
    var on := EnableBreakpoint(m, bp).value;
    assert Mapped(on.mem, bp.addr);
    assert m[At(bp.addr) := Int3][At(bp.addr) := m[At(bp.addr)]] == m;
  }

  /** Disabling an armed breakpoint gives back the target's original
      memory. */
  lemma DisableRestoresOriginal(m: Mem, bp: Breakpoint)
    requires bp.active && Armed(m, bp)
    ensures DisableBreakpoint(m, bp) == Ok(Patch(Original(m, bp), bp.(active := false)))
  {
  }

  /** Enabling a breakpoint over memory that holds its saved byte yields
      the breakpoint itself, active, over the armed memory. */
  lemma EnableOverSavedByte(m: Mem, bp: Breakpoint)
    requires Mapped(m, bp.addr) && m[At(bp.addr)] == bp.prevOpcode
    ensures EnableBreakpoint(m, bp) == Ok(Patch(m[At(bp.addr) := Int3], bp.(active := true)))
  {
  }

  /** Disabling an armed breakpoint and enabling it again puts back the
      same memory and the same breakpoint. */
  lemma DisableThenEnable(m: Mem, bp: Breakpoint)
    requires bp.active && Armed(m, bp)
    ensures DisableBreakpoint(m, bp).Ok?
    ensures var off := DisableBreakpoint(m, bp).value;
      EnableBreakpoint(off.mem, off.bp) == Ok(Patch(m, bp))
  {
    DisableRestoresOriginal(m, bp);
    var restored := m[At(bp.addr) := bp.prevOpcode];
    assert Mapped(restored, bp.addr);
    EnableOverSavedByte(restored, bp.(active := false));
    assert restored[At(bp.addr) := Int3] == m;
  }
}
