/** The register half of the debugger: the descriptor table, the two
    linear searches over it, and the switch from descriptor number to a
    field of the register snapshot (debugger_template.c, lines 24-59 and
    247-355). */
module Registers {
  import opened Wrappers

  /** The fields of the x86-64 struct user_regs_struct, in layout order. */
  datatype Slot =
    | R15 | R14 | R13 | R12 | Rbp | Rbx | R11 | R10 | R9
    | R8 | Rax | Rcx | Rdx | Rsi | Rdi | OrigRax | Rip | Cs
    | Eflags | Rsp | Ss | FsBase | GsBase | Ds | Es | Fs | Gs

  /** A register snapshot, as PTRACE_GETREGS fills it in: the 27 words of
      struct user_regs_struct, field Offset(s) holding register s. */
  type Regs = words: seq<bv64> | |words| == RegisterCount
    witness seq(RegisterCount, _ => 0)

  /** Word offset of a field within struct user_regs_struct. */
  function Offset(s: Slot): (r: nat)
    ensures r < RegisterCount
  {
    match s
    case R15 => 0
    case R14 => 1
    case R13 => 2
    case R12 => 3
    case Rbp => 4
    case Rbx => 5
    case R11 => 6
    case R10 => 7
    case R9 => 8
    case R8 => 9
    case Rax => 10
    case Rcx => 11
    case Rdx => 12
    case Rsi => 13
    case Rdi => 14
    case OrigRax => 15
    case Rip => 16
    case Cs => 17
    case Eflags => 18
    case Rsp => 19
    case Ss => 20
    case FsBase => 21
    case GsBase => 22
    case Ds => 23
    case Es => 24
    case Fs => 25
    case Gs => 26
  }

  /** The field at a given word offset of struct user_regs_struct. */
  function SlotAt(i: nat): (s: Slot)
    requires i < RegisterCount
    ensures Offset(s) == i
  {
    [R15, R14, R13, R12, Rbp, Rbx, R11, R10, R9, R8,
     Rax, Rcx, Rdx, Rsi, Rdi, OrigRax, Rip, Cs, Eflags, Rsp,
     Ss, FsBase, GsBase, Ds, Es, Fs, Gs][i]
  }

  /** Distinct fields sit at distinct offsets, and every offset below 27
      holds a field. */
  lemma LayoutBijective()
    ensures forall s :: SlotAt(Offset(s)) == s
    ensures forall i :: 0 <= i < RegisterCount ==> Offset(SlotAt(i)) == i
  {
  }

  /** The value held in one field of a snapshot. */
  function Get(regs: Regs, s: Slot): bv64 {
    regs[Offset(s)]
  }

  /** The snapshot with one field replaced: writing through the pointer
      that get_register_address returns. */
  function Set(regs: Regs, s: Slot, v: bv64): (r: Regs)
    ensures Get(r, s) == v
    ensures forall t :: t != s ==> Get(r, t) == Get(regs, t)
  {
    LayoutBijective();
    regs[Offset(s) := v]
  }

  /** An entry of g_register_descriptors. */
  datatype RegDescriptor = RegDescriptor(dwarf: int, name: string)

  /** n_registers. */
  const RegisterCount: nat := 27

  /** g_register_descriptors. */
  const Descriptors: seq<RegDescriptor> := [
    RegDescriptor(0, "r15"),
    RegDescriptor(1, "r14"),
    RegDescriptor(2, "r13"),
    RegDescriptor(3, "r12"),
    RegDescriptor(4, "rbp"),
    RegDescriptor(5, "rbx"),
    RegDescriptor(6, "r11"),
    RegDescriptor(7, "r10"),
    RegDescriptor(8, "r9"),
    RegDescriptor(9, "r8"),
    RegDescriptor(10, "rax"),
    RegDescriptor(11, "rcx"),
    RegDescriptor(12, "rdx"),
    RegDescriptor(13, "rsi"),
    RegDescriptor(14, "rdi"),
    RegDescriptor(15, "orig_rax"),
    RegDescriptor(16, "rip"),
    RegDescriptor(17, "cs"),
    RegDescriptor(18, "eflags"),
    RegDescriptor(19, "rsp"),
    RegDescriptor(20, "ss"),
    RegDescriptor(21, "fs_base"),
    RegDescriptor(22, "gs_base"),
    RegDescriptor(23, "ds"),
    RegDescriptor(24, "es"),
    RegDescriptor(25, "fs"),
    RegDescriptor(26, "gs")
  ]

  /** The switch of get_register_address: descriptor number n selects the
      field at word offset n of the snapshot, and every number outside
      0..26 falls into the default case (NULL). */
  function SlotOf(dwarf: int): (r: Option<Slot>)
    ensures 0 <= dwarf < RegisterCount ==> r == Some(SlotAt(dwarf))
    ensures !(0 <= dwarf < RegisterCount) ==> r == None
  {
    match dwarf
    case 0 => Some(R15)
    case 1 => Some(R14)
    case 2 => Some(R13)
    case 3 => Some(R12)
    case 4 => Some(Rbp)
    case 5 => Some(Rbx)
    case 6 => Some(R11)
    case 7 => Some(R10)
    case 8 => Some(R9)
    case 9 => Some(R8)
    case 10 => Some(Rax)
    case 11 => Some(Rcx)
    case 12 => Some(Rdx)
    case 13 => Some(Rsi)
    case 14 => Some(Rdi)
    case 15 => Some(OrigRax)
    case 16 => Some(Rip)
    case 17 => Some(Cs)
    case 18 => Some(Eflags)
    case 19 => Some(Rsp)
    case 20 => Some(Ss)
    case 21 => Some(FsBase)
    case 22 => Some(GsBase)
    case 23 => Some(Ds)
    case 24 => Some(Es)
    case 25 => Some(Fs)
    case 26 => Some(Gs)
    case _ => None
  }
  /** Every descriptor's number is its position in the table. */
  lemma DescriptorsNumbered()
    ensures |Descriptors| == RegisterCount
    ensures forall i :: 0 <= i < |Descriptors| ==> Descriptors[i].dwarf == i
  {
  }

  /** No two descriptors share a name. */
  lemma DescriptorNamesDistinct()
    ensures forall i, j :: 0 <= i < j < |Descriptors| ==> Descriptors[i].name != Descriptors[j].name
  {
  }

  /** The loop of get_register_by_name from index i on: the index of the
      first entry of table at or after i whose name equals name. */
  function FindByName(table: seq<RegDescriptor>, name: string, i: nat): (r: Option<nat>)
    requires i <= |table|
    ensures r.Some? ==> i <= r.value < |table| && table[r.value].name == name
    ensures r.Some? ==> forall j :: i <= j < r.value ==> table[j].name != name
    ensures r.None? ==> forall j :: i <= j < |table| ==> table[j].name != name
    decreases |table| - i
  {
    if i == |table| then None
    else if table[i].name == name then Some(i)
    else FindByName(table, name, i + 1)
  }

  /** get_register_by_name: the descriptor called name, None (the C NULL)
      when there is none. */
  function GetRegisterByName(name: string): (r: Option<RegDescriptor>)
    ensures r.Some? ==> r.value in Descriptors && r.value.name == name
    ensures r.Some? ==> 0 <= r.value.dwarf < RegisterCount && Descriptors[r.value.dwarf] == r.value
    ensures r.None? <==> forall i :: 0 <= i < |Descriptors| ==> Descriptors[i].name != name
  {
    DescriptorsNumbered();
    match FindByName(Descriptors, name, 0)
    case None => None
    case Some(i) => Some(Descriptors[i])
  }

  /** Looking up the name of any table entry finds that very entry. */
  lemma GetRegisterByNameOfEntry(i: nat)
    requires i < |Descriptors|
    ensures GetRegisterByName(Descriptors[i].name) == Some(Descriptors[i])
  {
    DescriptorNamesDistinct();
  }

  /** The loop of get_register_by_dwarf_number from index i on: the index
      of the first entry of table at or after i numbered number. */
  function FindByNumber(table: seq<RegDescriptor>, number: int, i: nat): (r: Option<nat>)
    requires i <= |table|
    ensures r.Some? ==> i <= r.value < |table| && table[r.value].dwarf == number
    ensures r.Some? ==> forall j :: i <= j < r.value ==> table[j].dwarf != number
    ensures r.None? ==> forall j :: i <= j < |table| ==> table[j].dwarf != number
    decreases |table| - i
  {
    if i == |table| then None
    else if table[i].dwarf == number then Some(i)
    else FindByNumber(table, number, i + 1)
  }

  /** get_register_by_dwarf_number: entry number of the table for a number
      in 0..26, None for any other number. */
  function GetRegisterByDwarfNumber(number: int): (r: Option<RegDescriptor>)
    ensures 0 <= number < RegisterCount ==> r == Some(Descriptors[number])
    ensures !(0 <= number < RegisterCount) ==> r == None
  {
    DescriptorsNumbered();
    match FindByNumber(Descriptors, number, 0)
    case None => None
    case Some(i) => Some(Descriptors[i])
  }

  /** get_register_address: the snapshot field named name. An unknown name
      is an error here where the C code dereferences NULL (line 269). */
  function RegisterAddress(name: string): (r: Result<Slot, Error>)
    ensures r.Err? <==> GetRegisterByName(name).None?
    ensures r.Err? ==> r.error == UnknownRegister(name)
    ensures r.Ok? ==> Offset(r.value) == GetRegisterByName(name).value.dwarf
  {
    match GetRegisterByName(name)
    case None => Err(UnknownRegister(name))
    case Some(d) =>
      match SlotOf(d.dwarf)
      case None => Err(InvalidRegister(d.dwarf))
      case Some(s) => Ok(s)
  }

  /** Every snapshot field is selected by the table name at its offset. */
  lemma RegisterAddressOnto(s: Slot)
    ensures RegisterAddress(Descriptors[Offset(s)].name) == Ok(s)
  {
    var i := Offset(s);
    LayoutBijective();
    DescriptorsNumbered();
    GetRegisterByNameOfEntry(i);
    assert GetRegisterByName(Descriptors[i].name).value.dwarf == i;
    assert SlotOf(i) == Some(s);
  }

  /** Two names that select the same snapshot field are the same name. */
  lemma RegisterAddressInjective(n1: string, n2: string)
    ensures RegisterAddress(n1).Ok? && RegisterAddress(n1) == RegisterAddress(n2) ==> n1 == n2
  {
  }

  /** `register read <name>`: the value of the named register. */
  function ReadRegister(regs: Regs, name: string): (r: Result<bv64, Error>)
    ensures r.Err? <==> GetRegisterByName(name).None?
    ensures r.Ok? ==> r.value == regs[GetRegisterByName(name).value.dwarf]
  {
    match RegisterAddress(name)
    case Err(e) => Err(e)
    case Ok(s) => Ok(Get(regs, s))
  }

  /** `register write <name> <value>`: the snapshot committed back with the
      named register set to v. */
  function WriteRegister(regs: Regs, name: string, v: bv64): (r: Result<Regs, Error>)
    ensures r.Err? <==> GetRegisterByName(name).None?
    ensures r.Ok? ==> r.value == regs[GetRegisterByName(name).value.dwarf := v]
  {
    match RegisterAddress(name)
    case Err(e) => Err(e)
    case Ok(s) => Ok(Set(regs, s, v))
  }

  /** Writing a register by name and reading it back yields the value
      written; every other named register keeps its value; an unknown name
      fails for both. */
  lemma RegisterWriteRead(regs: Regs, name: string, other: string, v: bv64)
    ensures WriteRegister(regs, name, v).Ok? ==>
      ReadRegister(WriteRegister(regs, name, v).value, name) == Ok(v)
    ensures WriteRegister(regs, name, v).Ok? && other != name ==>
      ReadRegister(WriteRegister(regs, name, v).value, other) == ReadRegister(regs, other)
    ensures WriteRegister(regs, name, v).Err? <==> ReadRegister(regs, name).Err?
  {
    if WriteRegister(regs, name, v).Ok? && other != name && RegisterAddress(other).Ok? {
      if RegisterAddress(other) == RegisterAddress(name) {
        RegisterAddressInjective(name, other);
      }
    }
  }
}
