/** The assembler's two constant tables and their linear searches: register
    names to register numbers, and mnemonics to format, opcode, funct3 and
    funct7.

    Each table is proved against an independent reference: register names
    against the integer register convention of the RISC-V ELF psABI (numeric
    names `x0`..`x31`, the ABI names `zero`, `ra`, `sp`, `gp`, `tp`, `t0`..`t6`,
    `s0`..`s11`, `a0`..`a7`, and `fp` as a second name for `s0`), and
    mnemonics against the RV32I base opcode map. */
module EncodingTable {
  import opened Wrappers
  import opened Types

  // ===========================================================================
  // Registers

  datatype RegisterEntry = RegisterEntry(name: string, number: nat)

  const RegisterTable: seq<RegisterEntry> :=
    [RegisterEntry("zero", 0), RegisterEntry("x0", 0), RegisterEntry("ra", 1), RegisterEntry("x1", 1), RegisterEntry("sp", 2), RegisterEntry("x2", 2), RegisterEntry("gp", 3), RegisterEntry("x3", 3)] +
    [RegisterEntry("tp", 4), RegisterEntry("x4", 4), RegisterEntry("t0", 5), RegisterEntry("x5", 5), RegisterEntry("t1", 6), RegisterEntry("x6", 6), RegisterEntry("t2", 7), RegisterEntry("x7", 7)] +
    [RegisterEntry("s0", 8), RegisterEntry("fp", 8), RegisterEntry("x8", 8), RegisterEntry("s1", 9), RegisterEntry("x9", 9), RegisterEntry("a0", 10), RegisterEntry("x10", 10), RegisterEntry("a1", 11), RegisterEntry("x11", 11)] +
    [RegisterEntry("a2", 12), RegisterEntry("x12", 12), RegisterEntry("a3", 13), RegisterEntry("x13", 13), RegisterEntry("a4", 14), RegisterEntry("x14", 14), RegisterEntry("a5", 15), RegisterEntry("x15", 15)] +
    [RegisterEntry("a6", 16), RegisterEntry("x16", 16), RegisterEntry("a7", 17), RegisterEntry("x17", 17), RegisterEntry("s2", 18), RegisterEntry("x18", 18), RegisterEntry("s3", 19), RegisterEntry("x19", 19)] +
    [RegisterEntry("s4", 20), RegisterEntry("x20", 20), RegisterEntry("s5", 21), RegisterEntry("x21", 21), RegisterEntry("s6", 22), RegisterEntry("x22", 22), RegisterEntry("s7", 23), RegisterEntry("x23", 23)] +
    [RegisterEntry("s8", 24), RegisterEntry("x24", 24), RegisterEntry("s9", 25), RegisterEntry("x25", 25), RegisterEntry("s10", 26), RegisterEntry("x26", 26), RegisterEntry("s11", 27), RegisterEntry("x27", 27)] +
    [RegisterEntry("t3", 28), RegisterEntry("x28", 28), RegisterEntry("t4", 29), RegisterEntry("x29", 29), RegisterEntry("t5", 30), RegisterEntry("x30", 30), RegisterEntry("t6", 31), RegisterEntry("x31", 31)]

  /** The linear search of `get_register_number`, from entry i on: the number
      of the first entry named `name`, or -1 when there is none. */
  function RegisterFrom(name: string, i: nat): (r: int)
    decreases |RegisterTable| - i
    ensures r == -1 <==> forall j | i <= j < |RegisterTable| :: RegisterTable[j].name != name
    ensures r != -1 ==>
      exists j | i <= j < |RegisterTable| ::
        RegisterTable[j].name == name && RegisterTable[j].number == r &&
        forall k | i <= k < j :: RegisterTable[k].name != name
  {
    if i >= |RegisterTable| then -1
    else if RegisterTable[i].name == name then RegisterTable[i].number
    else RegisterFrom(name, i + 1)
  }

  /** `get_register_number`: the register a name denotes, or -1. */
  function RegisterNumber(name: string): (r: int)
    ensures r == -1 <==> forall j | 0 <= j < |RegisterTable| :: RegisterTable[j].name != name
  {
    RegisterFrom(name, 0)
  }

  // ---------------------------------------------------------------------------
  // The psABI register names, as an independent reference

  predicate IsDigit(c: char) { '0' <= c <= '9' }

  function DigitValue(c: char): (d: nat)
    requires IsDigit(c)
    ensures d < 10
  {
    (c as int) - ('0' as int)
  }

  function DigitChar(d: nat): (c: char)
    requires d < 10
    ensures IsDigit(c) && DigitValue(c) == d
  {
    (('0' as int) + d) as char
  }

  /** The canonical decimal numeral of k: no leading zero. */
  function Numeral(k: nat): (s: string)
    requires k < 100
    ensures 1 <= |s| <= 2
  {
    if k < 10 then [DigitChar(k)] else [DigitChar(k / 10), DigitChar(k % 10)]
  }

  /** The value of the canonical one- or two-digit numeral that follows the
      first character of a name. */
  function Suffix(name: string): Option<nat>
  {
    if |name| == 2 && IsDigit(name[1]) then Some(DigitValue(name[1]))
    else if |name| == 3 && IsDigit(name[1]) && IsDigit(name[2]) && name[1] != '0' then
      Some(10 * DigitValue(name[1]) + DigitValue(name[2]))
    else None
  }

  /** Suffix k, when lo <= k <= hi, names register k + base. */
  function Shifted(k: Option<nat>, lo: nat, hi: nat, base: int): Option<nat>
  {
    if k.Some? && lo <= k.value <= hi && k.value + base >= 0 then Some(k.value + base) else None
  }

  /** The register a psABI name denotes. */
  function AbiNumber(name: string): (n: Option<nat>)
    ensures n.Some? ==> n.value < 32
  {
    if |name| < 2 then None
    else if |name| == 4 then (if name == "zero" then Some(0) else None)
    else if |name| == 2 && !IsDigit(name[1]) then
      (if name == "ra" then Some(1) else if name == "sp" then Some(2) else if name == "gp" then Some(3)
       else if name == "tp" then Some(4) else if name == "fp" then Some(8) else None)
    else
      var k := Suffix(name);
      match name[0]
      case 'x' => Shifted(k, 0, 31, 0)
      case 't' => if k.Some? && k.value <= 2 then Shifted(k, 0, 2, 5) else Shifted(k, 3, 6, 25)
      case 's' => if k.Some? && k.value <= 1 then Shifted(k, 0, 1, 8) else Shifted(k, 2, 11, 16)
      case 'a' => Shifted(k, 0, 7, 10)
      case _ => None
  }

  /** Which of a register's names: 2 for the numeric `xN`, 1 for `fp`, 0 for
      the ABI name. */
  function Kind(name: string): nat
  {
    if |name| > 0 && name[0] == 'x' then 2 else if name == "fp" then 1 else 0
  }

  predicate ValidKind(n: nat, kind: nat)
  {
    n < 32 && (kind == 0 || kind == 2 || (kind == 1 && n == 8))
  }

  /** The name of kind `kind` of register n. */
  function AbiName(n: nat, kind: nat): string
    requires ValidKind(n, kind)
  {
    if kind == 2 then "x" + Numeral(n)
    else if kind == 1 then "fp"
    else if n == 0 then "zero"
    else if n == 1 then "ra"
    else if n == 2 then "sp"
    else if n == 3 then "gp"
    else if n == 4 then "tp"
    else if n <= 7 then "t" + Numeral(n - 5)
    else if n <= 9 then "s" + Numeral(n - 8)
    else if n <= 17 then "a" + Numeral(n - 10)
    else if n <= 27 then "s" + Numeral(n - 16)
    else "t" + Numeral(n - 25)
  }

  /** Reading a constructed name gives back the register and the kind. */
  lemma AbiNameNumber(n: nat, kind: nat)
    requires ValidKind(n, kind)
    ensures AbiNumber(AbiName(n, kind)) == Some(n) && Kind(AbiName(n, kind)) == kind
  {
    var name := AbiName(n, kind);
    if kind == 2 || 5 <= n {
      var k: nat := if kind == 2 then n else if n <= 7 then n - 5 else if n <= 9 then n - 8
        else if n <= 17 then n - 10 else if n <= 27 then n - 16 else n - 25;
      if kind == 1 {
        assert name == "fp";
      } else {
        assert name[1..] == Numeral(k);
        NumeralSuffix(name, k);
      }
    }
  }

  lemma NumeralSuffix(name: string, k: nat)
    requires k < 100 && |name| >= 1 && name[1..] == Numeral(k)
    ensures Suffix(name) == Some(k)
  {
    if k >= 10 {
      assert name[1] == DigitChar(k / 10) && name[2] == DigitChar(k % 10);
    } else {
      assert name[1] == DigitChar(k);
    }
  }

  /** A suffix is written as its canonical numeral. */
  lemma SuffixNumeral(name: string)
    requires Suffix(name).Some?
    ensures Suffix(name).value < 100 && name[1..] == Numeral(Suffix(name).value)
  {
    var k := Suffix(name).value;
    if |name| == 2 {
      assert DigitChar(DigitValue(name[1])) == name[1];
    } else {
      assert k / 10 == DigitValue(name[1]) && k % 10 == DigitValue(name[2]);
      assert DigitChar(DigitValue(name[1])) == name[1];
      assert DigitChar(DigitValue(name[2])) == name[2];
    }
  }

  /** A psABI name is the constructed name of its register and kind: no two
      names share both. */
  lemma AbiNameUnique(name: string)
    requires AbiNumber(name).Some?
    ensures ValidKind(AbiNumber(name).value, Kind(name))
    ensures name == AbiName(AbiNumber(name).value, Kind(name))
  {
    var n := AbiNumber(name).value;
    if |name| == 4 || (|name| == 2 && !IsDigit(name[1])) {
    } else {
      SuffixNumeral(name);
      assert name == [name[0]] + name[1..];
    }
  }

  // ---------------------------------------------------------------------------
  // The table against the reference, row by row

  /** The register of row i: the table lists registers in order, with the
      three names of register 8 at rows 16 to 18. */
  function NumberAt(i: nat): nat
  {
    if i < 16 then i / 2 else if i < 19 then 8 else (i - 1) / 2
  }

  /** The kind of name at row i. */
  function KindAt(i: nat): nat
  {
    if i < 16 then (if i % 2 == 1 then 2 else 0)
    else if i < 19 then i - 16
    else (if i % 2 == 0 then 2 else 0)
  }

  /** The row holding the name of kind `kind` of register n. */
  function RowOf(n: nat, kind: nat): (i: nat)
    requires ValidKind(n, kind)
    ensures i < |RegisterTable| && NumberAt(i) == n && KindAt(i) == kind
  {
    var odd := if kind == 2 then 1 else 0;
    if n < 8 then 2 * n + odd else if n == 8 then 16 + kind else 2 * n + 1 + odd
  }

  /** Row i is a psABI name of the register of row i, of the row's kind. */
  predicate RowFits(i: nat, r: RegisterEntry)
  {
    AbiNumber(r.name) == Some(r.number) && r.number == NumberAt(i) && Kind(r.name) == KindAt(i)
  }

  lemma RowsFit0()
    ensures forall i | 0 <= i < 4 :: RowFits(i, RegisterTable[i])
  {
    forall i | 0 <= i < 4 ensures RowFits(i, RegisterTable[i]) {
      if i == 0 { assert RowFits(0, RegisterTable[0]); } else if i == 1 { assert RowFits(1, RegisterTable[1]); } else if i == 2 { assert RowFits(2, RegisterTable[2]); } else { assert RowFits(3, RegisterTable[3]); }
    }
  }

  lemma RowsFit4()
    ensures forall i | 4 <= i < 8 :: RowFits(i, RegisterTable[i])
  {
    forall i | 4 <= i < 8 ensures RowFits(i, RegisterTable[i]) {
      if i == 4 { assert RowFits(4, RegisterTable[4]); } else if i == 5 { assert RowFits(5, RegisterTable[5]); } else if i == 6 { assert RowFits(6, RegisterTable[6]); } else { assert RowFits(7, RegisterTable[7]); }
    }
  }

  lemma RowsFit8()
    ensures forall i | 8 <= i < 12 :: RowFits(i, RegisterTable[i])
  {
    forall i | 8 <= i < 12 ensures RowFits(i, RegisterTable[i]) {
      if i == 8 { assert RowFits(8, RegisterTable[8]); } else if i == 9 { assert RowFits(9, RegisterTable[9]); } else if i == 10 { assert RowFits(10, RegisterTable[10]); } else { assert RowFits(11, RegisterTable[11]); }
    }
  }

  lemma RowsFit12()
    ensures forall i | 12 <= i < 16 :: RowFits(i, RegisterTable[i])
  {
    forall i | 12 <= i < 16 ensures RowFits(i, RegisterTable[i]) {
      if i == 12 { assert RowFits(12, RegisterTable[12]); } else if i == 13 { assert RowFits(13, RegisterTable[13]); } else if i == 14 { assert RowFits(14, RegisterTable[14]); } else { assert RowFits(15, RegisterTable[15]); }
    }
  }

  lemma RowsFit16()
    ensures forall i | 16 <= i < 20 :: RowFits(i, RegisterTable[i])
  {
    forall i | 16 <= i < 20 ensures RowFits(i, RegisterTable[i]) {
      if i == 16 { assert RowFits(16, RegisterTable[16]); } else if i == 17 { assert RowFits(17, RegisterTable[17]); } else if i == 18 { assert RowFits(18, RegisterTable[18]); } else { assert RowFits(19, RegisterTable[19]); }
    }
  }

  lemma RowsFit20()
    ensures forall i | 20 <= i < 24 :: RowFits(i, RegisterTable[i])
  {
    forall i | 20 <= i < 24 ensures RowFits(i, RegisterTable[i]) {
      if i == 20 { assert RowFits(20, RegisterTable[20]); } else if i == 21 { assert RowFits(21, RegisterTable[21]); } else if i == 22 { assert RowFits(22, RegisterTable[22]); } else { assert RowFits(23, RegisterTable[23]); }
    }
  }

  lemma RowsFit24()
    ensures forall i | 24 <= i < 28 :: RowFits(i, RegisterTable[i])
  {
    forall i | 24 <= i < 28 ensures RowFits(i, RegisterTable[i]) {
      if i == 24 { assert RowFits(24, RegisterTable[24]); } else if i == 25 { assert RowFits(25, RegisterTable[25]); } else if i == 26 { assert RowFits(26, RegisterTable[26]); } else { assert RowFits(27, RegisterTable[27]); }
    }
  }

  lemma RowsFit28()
    ensures forall i | 28 <= i < 32 :: RowFits(i, RegisterTable[i])
  {
    forall i | 28 <= i < 32 ensures RowFits(i, RegisterTable[i]) {
      if i == 28 { assert RowFits(28, RegisterTable[28]); } else if i == 29 { assert RowFits(29, RegisterTable[29]); } else if i == 30 { assert RowFits(30, RegisterTable[30]); } else { assert RowFits(31, RegisterTable[31]); }
    }
  }

  lemma RowsFit32()
    ensures forall i | 32 <= i < 36 :: RowFits(i, RegisterTable[i])
  {
    forall i | 32 <= i < 36 ensures RowFits(i, RegisterTable[i]) {
      if i == 32 { assert RowFits(32, RegisterTable[32]); } else if i == 33 { assert RowFits(33, RegisterTable[33]); } else if i == 34 { assert RowFits(34, RegisterTable[34]); } else { assert RowFits(35, RegisterTable[35]); }
    }
  }

  lemma RowsFit36()
    ensures forall i | 36 <= i < 40 :: RowFits(i, RegisterTable[i])
  {
    forall i | 36 <= i < 40 ensures RowFits(i, RegisterTable[i]) {
      if i == 36 { assert RowFits(36, RegisterTable[36]); } else if i == 37 { assert RowFits(37, RegisterTable[37]); } else if i == 38 { assert RowFits(38, RegisterTable[38]); } else { assert RowFits(39, RegisterTable[39]); }
    }
  }

  lemma RowsFit40()
    ensures forall i | 40 <= i < 44 :: RowFits(i, RegisterTable[i])
  {
    forall i | 40 <= i < 44 ensures RowFits(i, RegisterTable[i]) {
      if i == 40 { assert RowFits(40, RegisterTable[40]); } else if i == 41 { assert RowFits(41, RegisterTable[41]); } else if i == 42 { assert RowFits(42, RegisterTable[42]); } else { assert RowFits(43, RegisterTable[43]); }
    }
  }

  lemma RowsFit44()
    ensures forall i | 44 <= i < 48 :: RowFits(i, RegisterTable[i])
  {
    forall i | 44 <= i < 48 ensures RowFits(i, RegisterTable[i]) {
      if i == 44 { assert RowFits(44, RegisterTable[44]); } else if i == 45 { assert RowFits(45, RegisterTable[45]); } else if i == 46 { assert RowFits(46, RegisterTable[46]); } else { assert RowFits(47, RegisterTable[47]); }
    }
  }

  lemma RowsFit48()
    ensures forall i | 48 <= i < 52 :: RowFits(i, RegisterTable[i])
  {
    forall i | 48 <= i < 52 ensures RowFits(i, RegisterTable[i]) {
      if i == 48 { assert RowFits(48, RegisterTable[48]); } else if i == 49 { assert RowFits(49, RegisterTable[49]); } else if i == 50 { assert RowFits(50, RegisterTable[50]); } else { assert RowFits(51, RegisterTable[51]); }
    }
  }

  lemma RowsFit52()
    ensures forall i | 52 <= i < 56 :: RowFits(i, RegisterTable[i])
  {
    forall i | 52 <= i < 56 ensures RowFits(i, RegisterTable[i]) {
      if i == 52 { assert RowFits(52, RegisterTable[52]); } else if i == 53 { assert RowFits(53, RegisterTable[53]); } else if i == 54 { assert RowFits(54, RegisterTable[54]); } else { assert RowFits(55, RegisterTable[55]); }
    }
  }

  lemma RowsFit56()
    ensures forall i | 56 <= i < 60 :: RowFits(i, RegisterTable[i])
  {
    forall i | 56 <= i < 60 ensures RowFits(i, RegisterTable[i]) {
      if i == 56 { assert RowFits(56, RegisterTable[56]); } else if i == 57 { assert RowFits(57, RegisterTable[57]); } else if i == 58 { assert RowFits(58, RegisterTable[58]); } else { assert RowFits(59, RegisterTable[59]); }
    }
  }

  lemma RowsFit60()
    ensures forall i | 60 <= i < 64 :: RowFits(i, RegisterTable[i])
  {
    forall i | 60 <= i < 64 ensures RowFits(i, RegisterTable[i]) {
      if i == 60 { assert RowFits(60, RegisterTable[60]); } else if i == 61 { assert RowFits(61, RegisterTable[61]); } else if i == 62 { assert RowFits(62, RegisterTable[62]); } else { assert RowFits(63, RegisterTable[63]); }
    }
  }

  lemma RowsFit64()
    ensures RowFits(64, RegisterTable[64])
  {
    assert RowFits(64, RegisterTable[64]);
  }

  lemma AllRowsFit()
    ensures forall i | 0 <= i < |RegisterTable| :: RowFits(i, RegisterTable[i])
  {
    RowsFit0();
    RowsFit4();
    RowsFit8();
    RowsFit12();
    RowsFit16();
    RowsFit20();
    RowsFit24();
    RowsFit28();
    RowsFit32();
    RowsFit36();
    RowsFit40();
    RowsFit44();
    RowsFit48();
    RowsFit52();
    RowsFit56();
    RowsFit60();
    RowsFit64();
  }

  /** Every row names its register by its psABI name, and every psABI name of
      every register has a row. */
  lemma RegisterTableIsAbi()
    ensures forall i | 0 <= i < |RegisterTable| :: AbiNumber(RegisterTable[i].name) == Some(RegisterTable[i].number)
    ensures forall n: nat, kind: nat | ValidKind(n, kind) ::
      RegisterTable[RowOf(n, kind)].name == AbiName(n, kind)
  {
    AllRowsFit();
    forall n: nat, kind: nat | ValidKind(n, kind)
      ensures RegisterTable[RowOf(n, kind)].name == AbiName(n, kind)
    {
      var i := RowOf(n, kind);
      assert RowFits(i, RegisterTable[i]);
      AbiNameUnique(RegisterTable[i].name);
    }
  }

  /** `get_register_number` recognises exactly the psABI register names, and
      each as the register the psABI gives it. */
  lemma RegisterNumberIsAbi(name: string)
    ensures RegisterNumber(name) == (if AbiNumber(name).Some? then AbiNumber(name).value else -1)
  {
    RegisterTableIsAbi();
    var r := RegisterNumber(name);
    if AbiNumber(name).Some? {
      var n := AbiNumber(name).value;
      AbiNameUnique(name);
      assert RegisterTable[RowOf(n, Kind(name))].name == name;
      var j :| 0 <= j < |RegisterTable| && RegisterTable[j].name == name && RegisterTable[j].number == r;
    } else {
      forall j | 0 <= j < |RegisterTable| ensures RegisterTable[j].name != name {
        assert AbiNumber(RegisterTable[j].name).Some?;
      }
    }
  }

  /** Every register number the search returns is a register: 0 to 31. */
  lemma RegisterNumberRange(name: string)
    ensures RegisterNumber(name) == -1 || 0 <= RegisterNumber(name) < 32
  {
    RegisterNumberIsAbi(name);
  }

  /** Every register answers to its numeric name and to its ABI name. */
  lemma RegisterNames(n: nat)
    requires n < 32
    ensures RegisterNumber("x" + Numeral(n)) == n
    ensures RegisterNumber(AbiName(n, 0)) == n
  {
    AbiNameNumber(n, 2);
    AbiNameNumber(n, 0);
    RegisterNumberIsAbi(AbiName(n, 2));
    RegisterNumberIsAbi(AbiName(n, 0));
  }

  /** `s0`, `fp` and `x8` are the same register. Each name is looked up in
      a lemma of its own: the three literal lookups together are too costly
      for the solver. */
  lemma FramePointer()
    ensures RegisterNumber("s0") == 8 && RegisterNumber("fp") == 8 && RegisterNumber("x8") == 8
  {
    SavedRegister0();
    FramePointerName();
    NumericRegister8();
  }

  lemma SavedRegister0()
    ensures RegisterNumber("s0") == 8
  {
    RegisterNumberIsAbi("s0");
  }

  lemma FramePointerName()
    ensures RegisterNumber("fp") == 8
  {
    RegisterNumberIsAbi("fp");
  }

  lemma NumericRegister8()
    ensures RegisterNumber("x8") == 8
  {
    RegisterNumberIsAbi("x8");
  }

  // ===========================================================================
  // Instructions

  /** One row of `inst_table`; funct3 and funct7 are -1 where the format has
      no such field. */
  datatype InstructionEntry = InstructionEntry(mnemonic: string, format: Format, opcode: nat, funct3: int, funct7: int)

  const InstructionTable: seq<InstructionEntry> := [
    InstructionEntry("add",  R, 0x33, 0, 0x00),
    InstructionEntry("sub",  R, 0x33, 0, 0x20),
    InstructionEntry("xor",  R, 0x33, 4, 0x00),
    InstructionEntry("or",   R, 0x33, 6, 0x00),
    InstructionEntry("and",  R, 0x33, 7, 0x00),
    InstructionEntry("addi", I, 0x13, 0, -1),
    InstructionEntry("slli", I, 0x13, 1, 0x00),
    InstructionEntry("srli", I, 0x13, 5, 0x00),
    InstructionEntry("jalr", I, 0x67, 0, -1),
    InstructionEntry("lw",   I, 0x03, 2, -1),
    InstructionEntry("sw",   S, 0x23, 2, -1),
    InstructionEntry("beq",  B, 0x63, 0, -1),
    InstructionEntry("bne",  B, 0x63, 1, -1),
    InstructionEntry("lui",  U, 0x37, -1, -1),
    InstructionEntry("jal",  J, 0x6F, -1, -1)
  ]

  /** The linear search of `find_instruction`, from row i on. */
  function InstructionFrom(mnemonic: string, i: nat): (r: Option<InstructionEntry>)
    decreases |InstructionTable| - i
    ensures r.None? <==> forall j | i <= j < |InstructionTable| :: InstructionTable[j].mnemonic != mnemonic
    ensures r.Some? ==>
      exists j | i <= j < |InstructionTable| ::
        InstructionTable[j] == r.value && r.value.mnemonic == mnemonic &&
        forall k | i <= k < j :: InstructionTable[k].mnemonic != mnemonic
  {
    if i >= |InstructionTable| then None
    else if InstructionTable[i].mnemonic == mnemonic then Some(InstructionTable[i])
    else InstructionFrom(mnemonic, i + 1)
  }

  /** `find_instruction`: the row for a mnemonic, or None (NULL). */
  function FindInstruction(mnemonic: string): (r: Option<InstructionEntry>)
    ensures r.None? <==> forall j | 0 <= j < |InstructionTable| :: InstructionTable[j].mnemonic != mnemonic
    ensures r.Some? ==> r.value in InstructionTable && r.value.mnemonic == mnemonic
  {
    InstructionFrom(mnemonic, 0)
  }

  /** The RV32I base opcode map (RISC-V Unprivileged ISA, chapter "RV32/64G
      Instruction Set Listings"), for every base instruction but FENCE, ECALL
      and EBREAK, with -1 for a field the format does not have; for the
      immediate shifts funct7 is the top seven bits of the immediate. */
  function IsaEncoding(m: string): Option<InstructionEntry>
  {
    match m
    case "lui"   => Some(InstructionEntry(m, U, 0x37, -1, -1))
    case "auipc" => Some(InstructionEntry(m, U, 0x17, -1, -1))
    case "jal"   => Some(InstructionEntry(m, J, 0x6F, -1, -1))
    case "jalr"  => Some(InstructionEntry(m, I, 0x67, 0, -1))
    case "beq"   => Some(InstructionEntry(m, B, 0x63, 0, -1))
    case "bne"   => Some(InstructionEntry(m, B, 0x63, 1, -1))
    case "blt"   => Some(InstructionEntry(m, B, 0x63, 4, -1))
    case "bge"   => Some(InstructionEntry(m, B, 0x63, 5, -1))
    case "bltu"  => Some(InstructionEntry(m, B, 0x63, 6, -1))
    case "bgeu"  => Some(InstructionEntry(m, B, 0x63, 7, -1))
    case "lb"    => Some(InstructionEntry(m, I, 0x03, 0, -1))
    case "lh"    => Some(InstructionEntry(m, I, 0x03, 1, -1))
    case "lw"    => Some(InstructionEntry(m, I, 0x03, 2, -1))
    case "lbu"   => Some(InstructionEntry(m, I, 0x03, 4, -1))
    case "lhu"   => Some(InstructionEntry(m, I, 0x03, 5, -1))
    case "sb"    => Some(InstructionEntry(m, S, 0x23, 0, -1))
    case "sh"    => Some(InstructionEntry(m, S, 0x23, 1, -1))
    case "sw"    => Some(InstructionEntry(m, S, 0x23, 2, -1))
    case "addi"  => Some(InstructionEntry(m, I, 0x13, 0, -1))
    case "slti"  => Some(InstructionEntry(m, I, 0x13, 2, -1))
    case "sltiu" => Some(InstructionEntry(m, I, 0x13, 3, -1))
    case "xori"  => Some(InstructionEntry(m, I, 0x13, 4, -1))
    case "ori"   => Some(InstructionEntry(m, I, 0x13, 6, -1))
    case "andi"  => Some(InstructionEntry(m, I, 0x13, 7, -1))
    case "slli"  => Some(InstructionEntry(m, I, 0x13, 1, 0x00))
    case "srli"  => Some(InstructionEntry(m, I, 0x13, 5, 0x00))
    case "srai"  => Some(InstructionEntry(m, I, 0x13, 5, 0x20))
    case "add"   => Some(InstructionEntry(m, R, 0x33, 0, 0x00))
    case "sub"   => Some(InstructionEntry(m, R, 0x33, 0, 0x20))
    case "sll"   => Some(InstructionEntry(m, R, 0x33, 1, 0x00))
    case "slt"   => Some(InstructionEntry(m, R, 0x33, 2, 0x00))
    case "sltu"  => Some(InstructionEntry(m, R, 0x33, 3, 0x00))
    case "xor"   => Some(InstructionEntry(m, R, 0x33, 4, 0x00))
    case "srl"   => Some(InstructionEntry(m, R, 0x33, 5, 0x00))
    case "sra"   => Some(InstructionEntry(m, R, 0x33, 5, 0x20))
    case "or"    => Some(InstructionEntry(m, R, 0x33, 6, 0x00))
    case "and"   => Some(InstructionEntry(m, R, 0x33, 7, 0x00))
    case _       => None
  }

  /** Every row of the table is the RV32I encoding of its mnemonic. */
  lemma InstructionTableIsIsa()
    ensures forall i | 0 <= i < |InstructionTable| ::
      IsaEncoding(InstructionTable[i].mnemonic) == Some(InstructionTable[i])
  {
    RowsIsa0();
    RowsIsa5();
    RowsIsa10();
  }

  lemma RowsIsa0()
    ensures forall i | 0 <= i < 5 :: IsaEncoding(InstructionTable[i].mnemonic) == Some(InstructionTable[i])
  {
  }

  lemma RowsIsa5()
    ensures forall i | 5 <= i < 10 :: IsaEncoding(InstructionTable[i].mnemonic) == Some(InstructionTable[i])
  {
  }

  lemma RowsIsa10()
    ensures forall i | 10 <= i < 15 :: IsaEncoding(InstructionTable[i].mnemonic) == Some(InstructionTable[i])
  {
  }

  /** The values of a row fit the bit-fields they are stored into, and the
      opcode is not 0x7F, the low seven bits of the error sentinel. */
  predicate FieldsFit(e: InstructionEntry)
  {
    e.opcode < 0x7F &&
    (e.format in {R, I, S, B} ==> 0 <= e.funct3 < 8) &&
    (e.format == R ==> 0 <= e.funct7 < 128)
  }

  lemma TableFieldsFit()
    ensures forall i | 0 <= i < |InstructionTable| :: FieldsFit(InstructionTable[i])
  {
  }

  lemma RowFieldsFit(e: InstructionEntry)
    requires e in InstructionTable
    ensures FieldsFit(e)
  {
    TableFieldsFit();
  }

  /** `find_instruction` only ever answers with the RV32I encoding of the
      mnemonic it was given, and it finds every row of the table: no row is
      hidden behind an earlier one with the same mnemonic. */
  lemma FindInstructionIsIsa(mnemonic: string)
    ensures FindInstruction(mnemonic).Some? ==> FindInstruction(mnemonic) == IsaEncoding(mnemonic)
    ensures forall i | 0 <= i < |InstructionTable| ::
      FindInstruction(InstructionTable[i].mnemonic) == Some(InstructionTable[i])
  {
    InstructionTableIsIsa();
    forall i | 0 <= i < |InstructionTable|
      ensures FindInstruction(InstructionTable[i].mnemonic) == Some(InstructionTable[i])
    {
      var m := InstructionTable[i].mnemonic;
      var e := FindInstruction(m).value;
      assert IsaEncoding(e.mnemonic) == Some(e);
    }
  }

  /** The shift right arithmetic and the byte and halfword loads are RV32I
      instructions that the table does not list, so they are rejected as
      unknown. */
  lemma UnlistedInstructions()
    ensures forall m | m in {"srai", "lb", "lh", "lbu", "lhu"} :: IsaEncoding(m).Some? && FindInstruction(m) == None
  {
    assert forall j | 0 <= j < |InstructionTable| ::
      InstructionTable[j].mnemonic !in {"srai", "lb", "lh", "lbu", "lhu"};
  }

  /** The first five rows are the register-register operations: all share
      the OP opcode, and `sub` is `add` with funct7 0b0100000. */
  lemma RegisterRegisterRows()
    ensures forall i | 0 <= i < 5 :: InstructionTable[i].format == R && InstructionTable[i].opcode == 0x33
    ensures InstructionTable[0].mnemonic == "add" && InstructionTable[1].mnemonic == "sub"
    ensures InstructionTable[1] == InstructionTable[0].(mnemonic := "sub", funct7 := 0x20)
  {
  }
}
