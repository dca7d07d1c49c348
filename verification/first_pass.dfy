/** `parse_lines`, the assembler's first pass: every line that is not a bare
    label becomes an instruction at the next word address, and labels go into
    the symbol table.

    `Step`, `Scan` and `FirstPass` follow the loop as written: a pending label
    from a label-only line, the instructions so far and the table contents.
    `Instructions`, `Labels` and `Defined` describe the same outcome line by
    line, without the loop's state: an instruction's address counts the
    instructions before it, its label is the label-only line just above it
    if there is one and its own inline label otherwise, and the table ends up
    holding exactly the labels of the instructions, at their addresses,
    followed by a label left over at the end of the input. `PassMatches`
    proves the two agree. `ScanLines` and `ParseLines` are the loop itself,
    over an array of instructions and the `SymbolTable` class; a ghost
    `Trace` of the states it goes through ties them to `Scan`. */
module FirstPass {
  import opened Wrappers
  import opened Types
  import opened Parser
  import opened SymbolTable
  import LineSyntax

  /** The loop's state: the pending label, the instructions emitted and the
      symbol table's contents. */
  datatype Pass = Pass(pending: Option<string>, insts: seq<Instruction>, syms: seq<Symbol>)

  /** The address of the instruction emitted after `count` others. */
  function AddressAt(count: nat): nat
  {
    BASE_ADDRESS + 4 * count
  }

  /** How the loop reads a line that is not a bare label, given its line
      number (counted from 1). The pass is stated for any reader; the
      assembler's is `ReaderOf(dialect)`, that is `parse_line`. */
  type Reader = (string, nat) -> Instruction

  /** `parse_line` in the given dialect. */
  function ReaderOf(dialect: Dialect): Reader
  {
    (line: string, lineNumber: nat) => ParsedLine(line, lineNumber, dialect)
  }

  /** One iteration of the loop, over line `i` (counted from 0); `None` where
      the C code exits on a label defined twice. */
  function Step(st: Pass, line: string, i: nat, parse: Reader): Option<Pass>
  {
    if IsLabelOnly(line) then
      Some(st.(pending := Some(StripLabel(line))))
    else
      var parsed := parse(line, i + 1);
      var tag := if st.pending.Some? then st.pending else parsed.labelName;
      var inst := parsed.(labelName := tag, address := AddressAt(|st.insts|));
      if tag.None? then
        Some(Pass(None, st.insts + [inst], st.syms))
      else
        match AddSymbol(st.syms, tag.value, inst.address)
        case None => None
        case Some(syms) => Some(Pass(None, st.insts + [inst], syms))
  }

  /** The loop over the first `n` lines, starting from table contents
      `syms`. */
  function Scan(lines: seq<string>, n: nat, parse: Reader, syms: seq<Symbol>): Option<Pass>
    requires n <= |lines|
  {
    if n == 0 then Some(Pass(None, [], syms))
    else Continue(Scan(lines, n - 1, parse, syms), lines[n - 1], n - 1, parse)
  }

  /** The next iteration, unless the loop has stopped. */
  function Continue(prev: Option<Pass>, line: string, i: nat, parse: Reader): Option<Pass>
  {
    match prev
    case None => None
    case Some(st) => Step(st, line, i, parse)
  }

  /** `parse_lines`: the loop, then a label still pending at the end goes in
      at the address after the last instruction. */
  function FirstPass(lines: seq<string>, parse: Reader, syms: seq<Symbol>): Option<Pass>
  {
    match Scan(lines, |lines|, parse, syms)
    case None => None
    case Some(st) =>
      if st.pending.None? then Some(st)
      else
        match AddSymbol(st.syms, st.pending.value, AddressAt(|st.insts|))
        case None => None
        case Some(added) => Some(Pass(None, st.insts, added))
  }

  // ---------------------------------------------------------------------------
  // The outcome, line by line

  /** How many of the first `n` lines hold an instruction. */
  function Emitted(lines: seq<string>, n: nat): nat
    requires n <= |lines|
  {
    if n == 0 then 0
    else Emitted(lines, n - 1) + if IsLabelOnly(lines[n - 1]) then 0 else 1
  }

  /** The label waiting after the first `n` lines: the previous line's, if
      that line is a bare label. */
  function PendingAt(lines: seq<string>, n: nat): Option<string>
    requires n <= |lines|
  {
    if n > 0 && IsLabelOnly(lines[n - 1]) then Some(StripLabel(lines[n - 1])) else None
  }

  /** The instruction line `j` becomes: the line as read, with the label
      waiting above it, or else its own, and the address after the
      instructions of the lines before it. */
  function InstructionAt(lines: seq<string>, parse: Reader, j: nat): Instruction
    requires j < |lines|
  {
    var parsed := parse(lines[j], j + 1);
    var tag := if PendingAt(lines, j).Some? then PendingAt(lines, j) else parsed.labelName;
    parsed.(labelName := tag, address := AddressAt(Emitted(lines, j)))
  }

  /** The instructions of the first `n` lines, one per line that is not a
      bare label. */
  function Instructions(lines: seq<string>, parse: Reader, n: nat): (insts: seq<Instruction>)
    requires n <= |lines|
    ensures |insts| == Emitted(lines, n)
  {
    if n == 0 then []
    else
      Instructions(lines, parse, n - 1) +
      if IsLabelOnly(lines[n - 1]) then [] else [InstructionAt(lines, parse, n - 1)]
  }

  /** The table entry an instruction's label makes, if it has one. */
  function SymbolOf(inst: Instruction): seq<Symbol>
  {
    if inst.labelName.Some? then [Symbol(inst.labelName.value, inst.address)] else []
  }

  /** The table entries the labels of `insts` make, in order: each label
      at its instruction's address. */
  function Labels(insts: seq<Instruction>): (syms: seq<Symbol>)
    ensures |syms| <= |insts|
  {
    if |insts| == 0 then [] else Labels(insts[..|insts| - 1]) + SymbolOf(insts[|insts| - 1])
  }

  /** One more instruction adds its own label, if it has one. */
  lemma LabelsAppend(insts: seq<Instruction>, inst: Instruction)
    ensures Labels(insts + [inst]) == Labels(insts) + SymbolOf(inst)
  {
    assert (insts + [inst])[..|insts|] == insts;
  }

  /** Every labelled instruction has its label, at its address, among the
      labels. */
  lemma {:induction false} LabelListed(insts: seq<Instruction>, k: nat)
    requires k < |insts| && insts[k].labelName.Some?
    ensures Symbol(insts[k].labelName.value, insts[k].address) in Labels(insts)
  {
    var front := insts[..|insts| - 1];
    if k < |front| {
      assert front[k] == insts[k];
      LabelListed(front, k);
    }
  }

  /** The symbols a whole input defines: the instructions' labels, then a
      label left on the last line, at the address after the last
      instruction. */
  function Defined(lines: seq<string>, parse: Reader): seq<Symbol>
  {
    Labels(Instructions(lines, parse, |lines|)) +
      if PendingAt(lines, |lines|).Some? then [Symbol(PendingAt(lines, |lines|).value, AddressAt(Emitted(lines, |lines|)))] else []
  }

  /** The k-th instruction sits at `BASE_ADDRESS + 4 * k`. */
  lemma {:induction false} InstructionAddress(lines: seq<string>, parse: Reader, n: nat, k: nat)
    requires n <= |lines| && k < |Instructions(lines, parse, n)|
    ensures Instructions(lines, parse, n)[k].address == AddressAt(k)
  {
    var before := Instructions(lines, parse, n - 1);
    if k < |before| {
      InstructionAddress(lines, parse, n - 1, k);
      assert Instructions(lines, parse, n)[k] == before[k];
    } else {
      assert Instructions(lines, parse, n)[k] == InstructionAt(lines, parse, n - 1);
    }
  }

  /** `added` can go into a table holding `syms` one by one without a name
      being defined twice. */
  predicate Addable(syms: seq<Symbol>, added: seq<Symbol>)
  {
    Unique(added) &&
    forall i, j | 0 <= i < |added| && 0 <= j < |syms| :: added[i].name != syms[j].name
  }

  /** Adding one more symbol: it succeeds exactly when its name is new. */
  lemma AddableStep(syms: seq<Symbol>, added: seq<Symbol>, s: Symbol)
    requires Addable(syms, added)
    ensures AddSymbol(syms + added, s.name, s.address).Some? <==> Addable(syms, added + [s])
    ensures AddSymbol(syms + added, s.name, s.address).Some? ==>
      AddSymbol(syms + added, s.name, s.address).value == syms + (added + [s])
  {
    var all := syms + added;
    var more := added + [s];
    if AddSymbol(all, s.name, s.address).None? {
      var i :| 0 <= i < |all| && all[i].name == s.name;
      if i < |syms| {
        assert more[|added|].name == syms[i].name;
      } else {
        assert more[i - |syms|].name == more[|added|].name;
      }
    } else {
      assert forall i | 0 <= i < |all| :: all[i].name != s.name;
      forall i, j | 0 <= i < j < |more| ensures more[i].name != more[j].name {
        if j == |added| {
          assert more[i] == all[|syms| + i];
        }
      }
      forall i, j | 0 <= i < |more| && 0 <= j < |syms| ensures more[i].name != syms[j].name {
        if i == |added| {
          assert syms[j] == all[j];
        }
      }
    }
  }

  /** A sequence that can be added has every prefix addable too. */
  lemma AddablePrefix(syms: seq<Symbol>, added: seq<Symbol>, s: Symbol)
    requires Addable(syms, added + [s])
    ensures Addable(syms, added)
  {
    var more := added + [s];
    assert forall i | 0 <= i < |added| :: added[i] == more[i];
  }

  /** One iteration over a line holding an instruction, when the state so
      far is the line-by-line one: the instruction is `InstructionAt`, and
      its label, if any, goes into the table. */
  lemma StepInstruction(lines: seq<string>, j: nat, parse: Reader, st: Pass)
    requires j < |lines| && !IsLabelOnly(lines[j])
    requires st.pending == PendingAt(lines, j) && |st.insts| == Emitted(lines, j)
    ensures var inst := InstructionAt(lines, parse, j);
      Step(st, lines[j], j, parse) ==
        if inst.labelName.None? then Some(Pass(None, st.insts + [inst], st.syms))
        else
          match AddSymbol(st.syms, inst.labelName.value, inst.address)
          case None => None
          case Some(added) => Some(Pass(None, st.insts + [inst], added))
  {
  }

  /** Emitting one more instruction, on the table contents: the table
      grows by the instruction's label, if it has one, and the step fails
      exactly when that label is already defined. */
  lemma EmitStep(syms: seq<Symbol>, bound: seq<Symbol>, before: seq<Instruction>, inst: Instruction)
    requires Addable(syms, bound)
    ensures var after := before + [inst];
      (if inst.labelName.None? then Some(Pass(None, after, syms + bound))
       else
         match AddSymbol(syms + bound, inst.labelName.value, inst.address)
         case None => None
         case Some(added) => Some(Pass(None, after, added))) ==
      if Addable(syms, bound + SymbolOf(inst)) then Some(Pass(None, after, syms + (bound + SymbolOf(inst))))
      else None
  {
    if inst.labelName.Some? {
      AddableStep(syms, bound, Symbol(inst.labelName.value, inst.address));
    } else {
      assert bound + SymbolOf(inst) == bound;
    }
  }

  /** `r` is the loop's state after `n` lines as described line by line:
      stopped exactly when a label would be defined twice. */
  predicate Matches(lines: seq<string>, parse: Reader, n: nat, syms: seq<Symbol>, r: Option<Pass>)
    requires n <= |lines|
  {
    var bound := Labels(Instructions(lines, parse, n));
    r == if Addable(syms, bound) then Some(Pass(PendingAt(lines, n), Instructions(lines, parse, n), syms + bound))
         else None
  }

  /** One iteration keeps the loop's state as described line by line. */
  lemma StepMatches(lines: seq<string>, n: nat, parse: Reader, syms: seq<Symbol>, prev: Option<Pass>)
    requires 0 < n <= |lines| && Matches(lines, parse, n - 1, syms, prev)
    ensures Matches(lines, parse, n, syms, Continue(prev, lines[n - 1], n - 1, parse))
  {
    if IsLabelOnly(lines[n - 1]) {
      assert Instructions(lines, parse, n) == Instructions(lines, parse, n - 1);
    } else {
      StepEmits(lines, n, parse, syms, prev);
    }
  }

  /** `StepMatches` over a line that holds an instruction. */
  lemma StepEmits(lines: seq<string>, n: nat, parse: Reader, syms: seq<Symbol>, prev: Option<Pass>)
    requires 0 < n <= |lines| && !IsLabelOnly(lines[n - 1])
    requires Matches(lines, parse, n - 1, syms, prev)
    ensures Matches(lines, parse, n, syms, Continue(prev, lines[n - 1], n - 1, parse))
  {
    var inst := InstructionAt(lines, parse, n - 1);
    assert Instructions(lines, parse, n) == Instructions(lines, parse, n - 1) + [inst];
    if prev.Some? {
      StepInstruction(lines, n - 1, parse, prev.value);
    }
    EmitKeeps(syms, Instructions(lines, parse, n - 1), inst, PendingAt(lines, n - 1),
              prev, Continue(prev, lines[n - 1], n - 1, parse));
  }

  /** Emitting `inst` after `insts`, on the table: the state stays the one
      described by the labels of the instructions. */
  lemma EmitKeeps(syms: seq<Symbol>, insts: seq<Instruction>, inst: Instruction, pending: Option<string>,
                  prev: Option<Pass>, next: Option<Pass>)
    requires prev == if Addable(syms, Labels(insts)) then Some(Pass(pending, insts, syms + Labels(insts))) else None
    requires prev.None? ==> next.None?
    requires prev.Some? ==> (next ==
      if inst.labelName.None? then Some(Pass(None, insts + [inst], prev.value.syms))
      else
        match AddSymbol(prev.value.syms, inst.labelName.value, inst.address)
        case None => None
        case Some(added) => Some(Pass(None, insts + [inst], added)))
    ensures next == if Addable(syms, Labels(insts + [inst]))
                    then Some(Pass(None, insts + [inst], syms + Labels(insts + [inst]))) else None
  {
    var bound := Labels(insts);
    LabelsAppend(insts, inst);
    if inst.labelName.Some? {
      if Addable(syms, bound + SymbolOf(inst)) {
        AddablePrefix(syms, bound, Symbol(inst.labelName.value, inst.address));
      }
    } else {
      assert bound + SymbolOf(inst) == bound;
    }
    if Addable(syms, bound) {
      EmitStep(syms, bound, insts, inst);
    }
  }

  /** The loop's state after `n` lines, described line by line. */
  lemma {:induction false} ScanMatches(lines: seq<string>, n: nat, parse: Reader, syms: seq<Symbol>)
    requires n <= |lines|
    ensures Matches(lines, parse, n, syms, Scan(lines, n, parse, syms))
  {
    if n > 0 {
      ScanMatches(lines, n - 1, parse, syms);
      StepMatches(lines, n, parse, syms, Scan(lines, n - 1, parse, syms));
      assert Scan(lines, n, parse, syms) ==
        Continue(Scan(lines, n - 1, parse, syms), lines[n - 1], n - 1, parse);
    } else {
      assert syms + [] == syms;
    }
  }

  /** `parse_lines` succeeds exactly when no label is defined twice, and then
      gives the instructions line by line and the table with every defined
      symbol appended. */
  lemma PassMatches(lines: seq<string>, parse: Reader, syms: seq<Symbol>)
    ensures FirstPass(lines, parse, syms) ==
        if Addable(syms, Defined(lines, parse))
        then Some(Pass(None, Instructions(lines, parse, |lines|), syms + Defined(lines, parse)))
        else None
  {
    ScanMatches(lines, |lines|, parse, syms);
    var bound := Labels(Instructions(lines, parse, |lines|));
    assert Scan(lines, |lines|, parse, syms) ==
      if Addable(syms, bound) then Some(Pass(PendingAt(lines, |lines|), Instructions(lines, parse, |lines|), syms + bound))
      else None;
    var pending := PendingAt(lines, |lines|);
    if pending.Some? {
      var s := Symbol(pending.value, AddressAt(Emitted(lines, |lines|)));
      if Addable(syms, Defined(lines, parse)) {
        AddablePrefix(syms, bound, s);
      }
      if Addable(syms, bound) {
        AddableStep(syms, bound, s);
      }
    } else {
      assert Defined(lines, parse) == bound;
    }
  }

  /** Once the loop stops on a label defined twice, the scan and the whole
      pass fail. */
  lemma {:induction false} ScanStops(lines: seq<string>, n: nat, parse: Reader, syms: seq<Symbol>)
    requires n <= |lines| && Scan(lines, n, parse, syms).None?
    ensures Scan(lines, |lines|, parse, syms).None?
    ensures FirstPass(lines, parse, syms).None?
    decreases |lines| - n
  {
    if n < |lines| {
      assert Scan(lines, n + 1, parse, syms) ==
        Continue(Scan(lines, n, parse, syms), lines[n], n, parse);
      ScanStops(lines, n + 1, parse, syms);
    }
  }

  // ---------------------------------------------------------------------------
  // What a successful pass gives

  /** The instructions of fewer lines begin those of more lines. */
  lemma {:induction false} InstructionKept(lines: seq<string>, parse: Reader, n: nat, m: nat, k: nat)
    requires n <= m <= |lines| && k < |Instructions(lines, parse, n)|
    ensures k < |Instructions(lines, parse, m)|
    ensures Instructions(lines, parse, m)[k] == Instructions(lines, parse, n)[k]
    decreases m - n
  {
    if n < m {
      InstructionKept(lines, parse, n, m - 1, k);
      var before := Instructions(lines, parse, m - 1);
      assert Instructions(lines, parse, m)[k] == before[k];
    }
  }

  /** A symbol added without clashes is found at its own address. */
  lemma FoundAfter(syms: seq<Symbol>, added: seq<Symbol>, i: nat)
    requires Addable(syms, added) && i < |added|
    ensures Find(syms + added, added[i].name) == Some(added[i].address)
  {
    var all := syms + added;
    assert all[|syms| + i] == added[i];
    forall k | 0 <= k < |syms| + i
      ensures all[k].name != added[i].name
    {
      if k >= |syms| {
        assert all[k] == added[k - |syms|];
      }
    }
    FindFirst(all, |syms| + i);
  }

  /** `s`, defined by the input, is found at its address after a
      successful pass. */
  lemma DefinedFound(lines: seq<string>, parse: Reader, syms: seq<Symbol>, s: Symbol)
    requires FirstPass(lines, parse, syms).Some? && s in Defined(lines, parse)
    ensures Find(FirstPass(lines, parse, syms).value.syms, s.name) == Some(s.address)
  {
    PassMatches(lines, parse, syms);
    var defined := Defined(lines, parse);
    var i :| 0 <= i < |defined| && defined[i] == s;
    FoundAfter(syms, defined, i);
  }

  /** The k-th instruction of a successful pass sits at `BASE_ADDRESS + 4k`,
      one per line that is not a bare label, and its label, if any, is
      found in the table at that address. */
  lemma PassAddresses(lines: seq<string>, parse: Reader, syms: seq<Symbol>, k: nat)
    requires FirstPass(lines, parse, syms).Some?
    ensures var r := FirstPass(lines, parse, syms).value;
      |r.insts| == Emitted(lines, |lines|) &&
      (k < |r.insts| ==> r.insts[k].address == AddressAt(k)) &&
      (k < |r.insts| && r.insts[k].labelName.Some? ==>
         Find(r.syms, r.insts[k].labelName.value) == Some(AddressAt(k)))
  {
    PassMatches(lines, parse, syms);
    var insts := Instructions(lines, parse, |lines|);
    if k < |insts| {
      InstructionAddress(lines, parse, |lines|, k);
      if insts[k].labelName.Some? {
        LabelListed(insts, k);
        DefinedFound(lines, parse, syms, Symbol(insts[k].labelName.value, insts[k].address));
      }
    }
  }

  /** A bare label on line `j` followed by an instruction names that
      instruction: the instruction carries it, and the table gives its
      address. */
  lemma LabelNamesNext(lines: seq<string>, parse: Reader, syms: seq<Symbol>, j: nat)
    requires j + 1 < |lines| && IsLabelOnly(lines[j]) && !IsLabelOnly(lines[j + 1])
    requires FirstPass(lines, parse, syms).Some?
    ensures var r := FirstPass(lines, parse, syms).value;
      var k := Emitted(lines, j);
      k < |r.insts| && r.insts[k].labelName == Some(StripLabel(lines[j])) &&
      Find(r.syms, StripLabel(lines[j])) == Some(AddressAt(k))
  {
    PassMatches(lines, parse, syms);
    var k := Emitted(lines, j);
    var inst := InstructionAt(lines, parse, j + 1);
    assert Emitted(lines, j + 1) == k;
    assert Instructions(lines, parse, j + 2) == Instructions(lines, parse, j + 1) + [inst];
    assert Instructions(lines, parse, j + 2)[k] == inst;
    InstructionKept(lines, parse, j + 2, |lines|, k);
    PassAddresses(lines, parse, syms, k);
  }

  /** A bare label on the last line is found at the address after the last
      instruction. */
  lemma TrailingLabelFound(lines: seq<string>, parse: Reader, syms: seq<Symbol>)
    requires PendingAt(lines, |lines|).Some? && FirstPass(lines, parse, syms).Some?
    ensures var r := FirstPass(lines, parse, syms).value;
      Find(r.syms, PendingAt(lines, |lines|).value) == Some(AddressAt(|r.insts|))
  {
    PassMatches(lines, parse, syms);
    var defined := Defined(lines, parse);
    var s := Symbol(PendingAt(lines, |lines|).value, AddressAt(Emitted(lines, |lines|)));
    assert defined[|defined| - 1] == s;
    DefinedFound(lines, parse, syms, s);
  }

  /** Of two bare labels in a row only the second is kept: the first names
      nothing. */
  lemma LastLabelKept(parse: Reader)
    ensures FirstPass(["a:", "b:"], parse, []) == Some(Pass(None, [], [Symbol("b", BASE_ADDRESS)]))
  {
    var lines := ["a:", "b:"];
    assert IsLabelOnly("a:") && IsLabelOnly("b:");
    assert StripLabel("a:") == "a" && StripLabel("b:") == "b" by {
      assert "a:"[..1] == "a" && "b:"[..1] == "b";
    }
    var first := Pass(Some("a"), [], []);
    var second := Pass(Some("b"), [], []);
    assert Scan(lines, 0, parse, []) == Some(Pass(None, [], []));
    assert Scan(lines, 1, parse, []) == Some(first);
    assert Scan(lines, 2, parse, []) == Some(second);
    var empty: seq<Symbol> := [];
    assert Find(empty, "b").None?;
    assert empty + [Symbol("b", BASE_ADDRESS)] == [Symbol("b", BASE_ADDRESS)];
  }

  /** `is_label_only` looks at the line as read, before `parse_line` cuts
      its comment: a label followed by a comment is not label-only, and it
      becomes an instruction with an empty mnemonic that takes an address. */
  lemma CommentedLabelEmits()
    ensures FirstPass(["a: #"], ReaderOf(Compact), []) ==
      Some(Pass(None, [Instruction(Some("a"), "", [], 1, BASE_ADDRESS)], [Symbol("a", BASE_ADDRESS)]))
  {
    var line := "a: #";
    assert !IsLabelOnly(line);
    LineSyntax.CommentedLabelLine();
    var empty: seq<Symbol> := [];
    StepLabelled(Pass(None, [], empty), line, 0, ReaderOf(Compact));
    var inst := Instruction(Some("a"), "", [], 1, BASE_ADDRESS);
    var syms := [Symbol("a", BASE_ADDRESS)];
    assert ReaderOf(Compact)(line, 0 + 1).(address := AddressAt(0)) == inst;
    var none: seq<Instruction> := [];
    assert none + [inst] == [inst];
    assert empty + [Symbol("a", AddressAt(0))] == syms;
    assert Step(Pass(None, none, empty), line, 0, ReaderOf(Compact)) == Some(Pass(None, [inst], syms));
    assert Scan([line], 0, ReaderOf(Compact), []) == Some(Pass(None, [], empty));
    assert Scan([line], 1, ReaderOf(Compact), []) == Some(Pass(None, [inst], syms));
  }

  /** A labelled line, with no label pending and its name not yet taken,
      adds the instruction and its symbol. */
  lemma StepLabelled(st: Pass, line: string, i: nat, parse: Reader)
    requires !IsLabelOnly(line) && st.pending.None? && parse(line, i + 1).labelName.Some?
    requires Find(st.syms, parse(line, i + 1).labelName.value).None?
    ensures Step(st, line, i, parse) ==
      Some(Pass(None, st.insts + [parse(line, i + 1).(address := AddressAt(|st.insts|))],
        st.syms + [Symbol(parse(line, i + 1).labelName.value, AddressAt(|st.insts|))]))
  {
  }

  // ---------------------------------------------------------------------------
  // The loop over the symbol table class

  /** The states the scan goes through, one per line consumed: `trace[k]`
      is the state before line `k`. */
  ghost predicate Trace(lines: seq<string>, parse: Reader, syms: seq<Symbol>, trace: seq<Pass>)
  {
    0 < |trace| <= |lines| + 1 && trace[0] == Pass(None, [], syms) &&
    forall k {:trigger Step(trace[k], lines[k], k, parse)} | 0 <= k < |trace| - 1 ::
      Step(trace[k], lines[k], k, parse) == Some(trace[k + 1])
  }

  /** A trace can take one more step. */
  lemma TraceExtend(lines: seq<string>, parse: Reader, syms: seq<Symbol>, trace: seq<Pass>, next: Pass)
    requires Trace(lines, parse, syms, trace) && |trace| <= |lines|
    requires Step(trace[|trace| - 1], lines[|trace| - 1], |trace| - 1, parse) == Some(next)
    ensures Trace(lines, parse, syms, trace + [next])
  {
    var longer := trace + [next];
    forall k | 0 <= k < |longer| - 1
      ensures Step(longer[k], lines[k], k, parse) == Some(longer[k + 1])
    {
      assert longer[k] == trace[k];
    }
  }

  /** A trace without its last state is a trace. */
  lemma TracePrefix(lines: seq<string>, parse: Reader, syms: seq<Symbol>, trace: seq<Pass>, n: nat)
    requires Trace(lines, parse, syms, trace) && 0 < n < |trace|
    ensures Trace(lines, parse, syms, trace[..n]) && trace[..n][n - 1] == trace[n - 1]
  {
    var shorter := trace[..n];
    forall k | 0 <= k < |shorter| - 1
      ensures Step(shorter[k], lines[k], k, parse) == Some(shorter[k + 1])
    {
      assert shorter[k] == trace[k] && shorter[k + 1] == trace[k + 1];
    }
  }

  /** A trace ends in the state the scan reaches. */
  lemma {:induction false} TraceScan(lines: seq<string>, parse: Reader, syms: seq<Symbol>,
                                     trace: seq<Pass>, n: nat)
    requires Trace(lines, parse, syms, trace) && n == |trace| - 1
    ensures Scan(lines, n, parse, syms) == Some(trace[n])
  {
    if n > 0 {
      var shorter := trace[..n];
      TracePrefix(lines, parse, syms, trace, n);
      TraceScan(lines, parse, syms, shorter, n - 1);
      assert Scan(lines, n, parse, syms) ==
        Continue(Scan(lines, n - 1, parse, syms), lines[n - 1], n - 1, parse);
    }
  }

  /** A label-only line moves the trace on by replacing the pending label. */
  lemma LabelLine(lines: seq<string>, parse: Reader, syms: seq<Symbol>, trace: seq<Pass>,
                  i: nat, next: Pass)
    requires Trace(lines, parse, syms, trace) && |trace| == i + 1 && i < |lines|
    requires IsLabelOnly(lines[i]) && next == trace[i].(pending := Some(StripLabel(lines[i])))
    ensures Trace(lines, parse, syms, trace + [next])
  {
    TraceExtend(lines, parse, syms, trace, next);
  }

  /** A trace whose next line defines a label a second time. */
  ghost predicate Stuck(lines: seq<string>, parse: Reader, syms: seq<Symbol>, trace: seq<Pass>)
  {
    Trace(lines, parse, syms, trace) && |trace| <= |lines| &&
    Step(trace[|trace| - 1], lines[|trace| - 1], |trace| - 1, parse).None?
  }

  /** Once the trace is stuck the whole pass fails. */
  lemma StuckFails(lines: seq<string>, parse: Reader, syms: seq<Symbol>, trace: seq<Pass>)
    requires Stuck(lines, parse, syms, trace)
    ensures FirstPass(lines, parse, syms).None?
  {
    var n := |trace| - 1;
    TraceScan(lines, parse, syms, trace, n);
    assert Scan(lines, n + 1, parse, syms) ==
      Continue(Scan(lines, n, parse, syms), lines[n], n, parse);
    ScanStops(lines, n + 1, parse, syms);
  }

  /** One iteration over a line holding an instruction, in the terms the
      loop of `ParseLines` computes: the parsed line, the instruction it
      stores and what adding its label did to the table. */
  lemma EmitMatches(st: Pass, line: string, i: nat, parse: Reader, parsed: Instruction,
                    inst: Instruction, ok: bool, after: seq<Symbol>)
    requires !IsLabelOnly(line) && parsed == parse(line, i + 1)
    requires inst == parsed.(labelName := if st.pending.Some? then st.pending else parsed.labelName,
                             address := AddressAt(|st.insts|))
    requires inst.labelName.None? ==> ok && after == st.syms
    requires inst.labelName.Some? ==>
      AddSymbol(st.syms, inst.labelName.value, inst.address) == if ok then Some(after) else None
    ensures Step(st, line, i, parse) == if ok then Some(Pass(None, st.insts + [inst], after)) else None
  {
  }

  /** The end of the pass, in the terms `ParseLines` computes: the state
      the scan reached and what adding a trailing label did to the table. */
  lemma FinishMatches(lines: seq<string>, parse: Reader, syms: seq<Symbol>, st: Pass,
                      ok: bool, after: seq<Symbol>)
    requires Scan(lines, |lines|, parse, syms) == Some(st)
    requires st.pending.None? ==> ok && after == st.syms
    requires st.pending.Some? ==>
      AddSymbol(st.syms, st.pending.value, AddressAt(|st.insts|)) == if ok then Some(after) else None
    ensures FirstPass(lines, parse, syms) == if ok then Some(Pass(None, st.insts, after)) else None
  {
  }

  /** The body of the loop of `parse_lines` for a line holding an
      instruction: parse it, give it the pending label or its own, number
      it after the `count` instructions already stored and add its label to
      the table; `added` is false where the C code exits on a label defined
      twice. */
  method EmitLine(line: string, i: nat, dialect: Dialect, pending: Option<string>,
                  table: SymbolTable, count: nat,
                  ghost lines: seq<string>, ghost syms: seq<Symbol>, ghost trace: seq<Pass>)
      returns (added: bool, inst: Instruction)
    requires i < |lines| && line == lines[i] && !IsLabelOnly(line) && table.Valid()
    requires Trace(lines, ReaderOf(dialect), syms, trace) && |trace| == i + 1
    requires trace[i] == Pass(pending, trace[i].insts, table.Symbols()) && |trace[i].insts| == count
    modifies table, table.entries
    ensures table.Valid()
    ensures table.entries == old(table.entries) || fresh(table.entries)
    ensures added ==> Trace(lines, ReaderOf(dialect), syms, trace + [Pass(None, trace[i].insts + [inst], table.Symbols())])
    ensures !added ==> Stuck(lines, ReaderOf(dialect), syms, trace)
  {
    ghost var st := trace[i];
    var parsed := ParseLine(line, i + 1, dialect);
    var tag := if pending.Some? then pending else parsed.labelName;
    inst := parsed.(labelName := tag, address := BASE_ADDRESS + 4 * count);
    added := true;
    if tag.Some? {
      added := table.Add(tag.value, inst.address);
    }
    EmitMatches(st, line, i, ReaderOf(dialect), parsed, inst, added, table.Symbols());
    if added {
      TraceExtend(lines, ReaderOf(dialect), syms, trace, Pass(None, st.insts + [inst], table.Symbols()));
    }
  }

  /** The loop of `parse_lines`: every line in turn, filling an array of
      instructions and the symbol table and keeping the label still waiting
      for an instruction; `ok` is false where the C code exits on a label
      defined twice. The ghost `trace` holds the states the loop went
      through. */
  method ScanLines(lines: seq<string>, dialect: Dialect, table: SymbolTable)
      returns (ok: bool, instructions: array<Instruction>, count: nat, pending: Option<string>,
               ghost trace: seq<Pass>)
    requires table.Valid()
    modifies table, table.entries
    ensures table.Valid()
    ensures table.entries == old(table.entries) || fresh(table.entries)
    ensures fresh(instructions) && instructions.Length == |lines| && count <= |lines|
    ensures ok ==> Trace(lines, ReaderOf(dialect), old(table.Symbols()), trace) && |trace| == |lines| + 1
    ensures ok ==> trace[|lines|] == Pass(pending, instructions[..count], table.Symbols())
    ensures !ok ==> Stuck(lines, ReaderOf(dialect), old(table.Symbols()), trace)
  {
    instructions := new Instruction[|lines|](_ => Instruction(None, "", [], 0, 0));
    ghost var syms := table.Symbols();
    assert syms == old(table.Symbols());
    pending := None;
    count := 0;
    trace := [Pass(None, [], syms)];
    var i := 0;
    while i < |lines|
      invariant i <= |lines| && count <= i
      invariant table.Valid()
      invariant table.entries == old(table.entries) || fresh(table.entries)
      invariant Trace(lines, ReaderOf(dialect), syms, trace) && |trace| == i + 1
      invariant trace[i] == Pass(pending, instructions[..count], table.Symbols())
    {
      var line := lines[i];
      if IsLabelOnly(line) {
        pending := Some(StripLabel(line));
        ghost var next := trace[i].(pending := pending);
        LabelLine(lines, ReaderOf(dialect), syms, trace, i, next);
        trace := trace + [next];
      } else {
        var added, inst := EmitLine(line, i, dialect, pending, table, count, lines, syms, trace);
        if !added {
          return false, instructions, count, pending, trace;
        }
        ghost var next := Pass(None, trace[i].insts + [inst], table.Symbols());
        instructions[count] := inst;
        count := count + 1;
        assert instructions[..count] == next.insts;
        pending := None;
        trace := trace + [next];
      }
      i := i + 1;
    }
    ok := true;
  }

  /** `parse_lines`: the loop over the lines, then the label still waiting
      at the end bound to the address after the last instruction. */
  method ParseLines(lines: seq<string>, dialect: Dialect, table: SymbolTable)
      returns (ok: bool, instructions: array<Instruction>, count: nat)
    requires table.Valid()
    modifies table, table.entries
    ensures table.Valid()
    ensures fresh(instructions) && instructions.Length == |lines| && count <= |lines|
    ensures FirstPass(lines, ReaderOf(dialect), old(table.Symbols())) ==
      if ok then Some(Pass(None, instructions[..count], table.Symbols())) else None
  {
    ghost var syms := table.Symbols();
    var pending;
    ghost var trace;
    ok, instructions, count, pending, trace := ScanLines(lines, dialect, table);
    if !ok {
      StuckFails(lines, ReaderOf(dialect), syms, trace);
      return;
    }
    TraceScan(lines, ReaderOf(dialect), syms, trace, |lines|);
    ok := AddPending(pending, count, table, lines, ReaderOf(dialect), syms, instructions[..count]);
  }

  /** The end of `parse_lines`: a label still waiting after the loop goes
      into the table at the address after the last of the `count`
      instructions. */
  method AddPending(pending: Option<string>, count: nat, table: SymbolTable,
                    ghost lines: seq<string>, ghost parse: Reader, ghost syms: seq<Symbol>,
                    ghost insts: seq<Instruction>)
      returns (ok: bool)
    requires table.Valid() && |insts| == count
    requires Scan(lines, |lines|, parse, syms) == Some(Pass(pending, insts, table.Symbols()))
    modifies table, table.entries
    ensures table.Valid()
    ensures FirstPass(lines, parse, syms) == if ok then Some(Pass(None, insts, table.Symbols())) else None
  {
    ghost var st := Pass(pending, insts, table.Symbols());
    ok := true;
    if pending.Some? {
      ok := table.Add(pending.value, BASE_ADDRESS + 4 * count);
    }
    FinishMatches(lines, parse, syms, st, ok, table.Symbols());
  }
}
