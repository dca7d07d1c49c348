/** The line parser: `is_label_only`, `strip_label`, `split_operands` and
    `parse_line`.

    `parse_line` copies the line into a buffer of 256 characters and splits
    it with `strtok`, whose saved position is the state of the class
    `Tokenizer` here; the pure functions say what each call returns, and the
    methods are proved to compute them. The compact assembler also cuts the
    buffer at the first '#' and right-trims it before splitting; the header
    version does not, which is the `Dialect` parameter. */
module Parser {
  import opened Wrappers
  import opened Types
  import opened Text

  /** Which of the two copies of `parse_line`. */
  datatype Dialect = Compact | Headers

  const BLANKS: set<char> := {' ', '\t'}
  const COMMA: set<char> := {','}
  const NEWLINE: set<char> := {'\n'}

  /** `is_label_only`: the line ends with ':'. */
  predicate IsLabelOnly(line: string)
  {
    |line| > 0 && line[|line| - 1] == ':'
  }

  /** `strip_label`: one trailing ':' removed, anything else kept. */
  function StripLabel(token: string): (name: string)
    ensures IsLabelOnly(token) ==> token == name + ":"
    ensures !IsLabelOnly(token) ==> name == token
  {
    if IsLabelOnly(token) then token[..|token| - 1] else token
  }

  // ---------------------------------------------------------------------------
  // strtok

  /** `strspn` from position p: the first position from p on whose character
      is not in the set, or the end. */
  function SkipFrom(s: string, p: nat, cs: set<char>): (q: nat)
    requires p <= |s|
    ensures p <= q <= |s|
    ensures q < |s| ==> s[q] !in cs
    decreases |s| - p
  {
    if p == |s| || s[p] !in cs then p else SkipFrom(s, p + 1, cs)
  }

  /** Every character `SkipFrom` passes over is in the set. */
  lemma {:induction false} SkipSpan(s: string, p: nat, cs: set<char>)
    requires p <= |s|
    ensures forall i | p <= i < SkipFrom(s, p, cs) :: s[i] in cs
    decreases |s| - p
  {
    if p < |s| && s[p] in cs {
      SkipSpan(s, p + 1, cs);
    }
  }

  /** `strcspn` from position p: the first position from p on whose
      character is in the set, or the end. */
  function ScanFrom(s: string, p: nat, cs: set<char>): (q: nat)
    requires p <= |s|
    ensures p <= q <= |s|
    ensures q < |s| ==> s[q] in cs
    decreases |s| - p
  {
    if p == |s| || s[p] in cs then p else ScanFrom(s, p + 1, cs)
  }

  /** No character `ScanFrom` passes over is in the set. */
  lemma {:induction false} ScanSpan(s: string, p: nat, cs: set<char>)
    requires p <= |s|
    ensures forall i | p <= i < ScanFrom(s, p, cs) :: s[i] !in cs
    decreases |s| - p
  {
    if p < |s| && s[p] !in cs {
      ScanSpan(s, p + 1, cs);
    }
  }

  /** A position characterised as `strspn` characterises it is the one
      `SkipFrom` finds. */
  lemma SkipAt(s: string, p: nat, q: nat, cs: set<char>)
    requires p <= q <= |s|
    requires forall i | p <= i < q :: s[i] in cs
    requires q == |s| || s[q] !in cs
    ensures SkipFrom(s, p, cs) == q
  {
    var k := SkipFrom(s, p, cs);
    SkipSpan(s, p, cs);
    assert q < |s| ==> s[q] !in cs;
    assert k < |s| ==> s[k] !in cs;
  }

  /** Likewise for `strcspn` and `ScanFrom`. */
  lemma ScanAt(s: string, p: nat, q: nat, cs: set<char>)
    requires p <= q <= |s|
    requires forall i | p <= i < q :: s[i] !in cs
    requires q == |s| || s[q] in cs
    ensures ScanFrom(s, p, cs) == q
  {
    var k := ScanFrom(s, p, cs);
    ScanSpan(s, p, cs);
    assert q < |s| ==> s[q] in cs;
    assert k < |s| ==> s[k] in cs;
  }

  /** What one call of `strtok` gives: the token, if any, and the new saved
      position. */
  datatype Cut = Cut(token: Option<string>, next: nat)

  /** One call of `strtok` on the buffer s whose saved position is p: the
      token, if any, and the new saved position. The call skips delimiters,
      takes the characters up to the next delimiter or the end, and
      overwrites that delimiter with a terminator, so the next call starts
      after it. With no token left, the position moves to the end. */
  function Strtok(s: string, p: nat, delims: set<char>): (r: Cut)
    requires p <= |s|
    ensures p <= r.next <= |s|
    ensures r.token.Some? ==> p < r.next && |r.token.value| > 0 && Avoids(r.token.value, delims)
  {
    var start := SkipFrom(s, p, delims);
    if start == |s| then Cut(None, |s|)
    else
      var end := ScanFrom(s, start, delims);
      ScanSpan(s, start, delims);
      assert forall i | 0 <= i < end - start :: s[start..end][i] == s[start + i];
      Cut(Some(s[start..end]), if end == |s| then end else end + 1)
  }

  /** `strtok` finds no token exactly when only delimiters are left. */
  lemma StrtokNone(s: string, p: nat, delims: set<char>)
    requires p <= |s|
    ensures Strtok(s, p, delims).token.None? <==> forall i | p <= i < |s| :: s[i] in delims
  {
    SkipSpan(s, p, delims);
  }

  /** Delimiters from p to a, a token from a to b, then a delimiter or the
      end: that token is what `strtok` returns. */
  lemma StrtokOf(s: string, p: nat, a: nat, b: nat, delims: set<char>)
    requires p <= a < b <= |s|
    requires forall i | p <= i < a :: s[i] in delims
    requires forall i | a <= i < b :: s[i] !in delims
    requires b == |s| || s[b] in delims
    ensures Strtok(s, p, delims) == Cut(Some(s[a..b]), if b == |s| then b else b + 1)
  {
    SkipAt(s, p, a, delims);
    ScanAt(s, a, b, delims);
  }

  /** The saved position of `strtok` over one buffer. */
  class Tokenizer {
    const text: string
    var pos: nat

    constructor (text: string)
      ensures this.text == text && pos == 0
    {
      this.text := text;
      pos := 0;
    }

    /** One call of `strtok` with these delimiters. */
    method Next(delims: set<char>) returns (token: Option<string>)
      requires pos <= |text|
      modifies this
      ensures Cut(token, pos) == Strtok(text, old(pos), delims)
    {
      var start := pos;
      while start < |text| && text[start] in delims
        invariant pos <= start <= |text|
        invariant forall i | pos <= i < start :: text[i] in delims
      {
        start := start + 1;
      }
      if start == |text| {
        SkipAt(text, pos, start, delims);
        token := None;
        pos := start;
        return;
      }
      var end := start;
      while end < |text| && text[end] !in delims
        invariant start <= end <= |text|
        invariant forall i | start <= i < end :: text[i] !in delims
      {
        end := end + 1;
      }
      StrtokOf(text, pos, start, end, delims);
      token := Some(text[start..end]);
      pos := if end == |text| then end else end + 1;
    }
  }

  // ---------------------------------------------------------------------------
  // split_operands

  /** Every token `strtok` returns from position p on, call after call. */
  function Tokens(s: string, p: nat, delims: set<char>): seq<string>
    requires p <= |s|
    decreases |s| - p
  {
    match Strtok(s, p, delims)
    case Cut(None, _) => []
    case Cut(Some(t), q) => [t] + Tokens(s, q, delims)
  }

  function TrimEach(ts: seq<string>): (r: seq<string>)
    ensures |r| == |ts| && forall i | 0 <= i < |ts| :: r[i] == TrimLeft(ts[i])
  {
    if |ts| == 0 then [] else [TrimLeft(ts[0])] + TrimEach(ts[1..])
  }

  /** The first four of a list, as many as `char *operands[4]` holds. */
  function FirstFour<T>(xs: seq<T>): (ys: seq<T>)
    ensures |ys| <= MAX_OPERANDS && |ys| <= |xs| && ys == xs[..|ys|]
    ensures |xs| <= MAX_OPERANDS ==> ys == xs
  {
    if |xs| <= MAX_OPERANDS then xs else xs[..MAX_OPERANDS]
  }

  /** What `split_operands` keeps: the first four comma-separated pieces
      that are not empty, each left-trimmed. */
  function Operands(s: string): (ops: seq<string>)
    ensures |ops| <= MAX_OPERANDS
  {
    TrimEach(FirstFour(Tokens(s, 0, COMMA)))
  }

  /** `split_operands`: fills the four-slot array from the front and returns
      how many slots it filled; the other slots are untouched. */
  method SplitOperands(str: string, operands: array<string>) returns (count: nat)
    requires operands.Length == MAX_OPERANDS
    modifies operands
    ensures count <= MAX_OPERANDS
    ensures operands[..count] == Operands(str)
    ensures forall i | count <= i < MAX_OPERANDS :: operands[i] == old(operands[i])
  {
    ghost var all, before := Tokens(str, 0, COMMA), operands[..];
    var tokenizer := new Tokenizer(str);
    var token := tokenizer.Next(COMMA);
    TokensStep(str, 0, COMMA, token, tokenizer.pos);
    count := 0;
    while token.Some? && count < MAX_OPERANDS
      invariant tokenizer.text == str && tokenizer.pos <= |str|
      invariant SplitProgress(operands[..], count, token, all, Tokens(str, tokenizer.pos, COMMA), before)
      decreases MAX_OPERANDS - count
    {
      ghost var ops, t, p, rest := operands[..], token, tokenizer.pos, Tokens(str, tokenizer.pos, COMMA);
      operands[count] := TrimLeft(token.value);
      token := tokenizer.Next(COMMA);
      TokensStep(str, p, COMMA, token, tokenizer.pos);
      SplitStep(ops, count, t, all, rest, before, operands[..], token, Tokens(str, tokenizer.pos, COMMA));
      count := count + 1;
    }
    SplitDone(operands[..], count, token, all, Tokens(str, tokenizer.pos, COMMA), before);
  }

  /** One more call of `strtok`: its token, then the tokens after it. */
  lemma TokensStep(s: string, p: nat, delims: set<char>, token: Option<string>, q: nat)
    requires p <= |s| && token == Strtok(s, p, delims).token && q == Strtok(s, p, delims).next
    ensures token.None? ==> Tokens(s, p, delims) == []
    ensures token.Some? ==> Tokens(s, p, delims) == [token.value] + Tokens(s, q, delims)
  {
  }

  /** How far `split_operands` has got through the tokens `all`: the first
      count slots hold the first count tokens, left-trimmed; the current
      token is the next one, and `rest` are those after it. */
  ghost predicate SplitProgress(ops: seq<string>, count: nat, token: Option<string>, all: seq<string>, rest: seq<string>,
                                before: seq<string>)
  {
    count <= MAX_OPERANDS && |ops| == MAX_OPERANDS && count <= |all| && |before| == MAX_OPERANDS &&
    (forall i | count <= i < MAX_OPERANDS :: ops[i] == before[i]) &&
    (forall i | 0 <= i < count :: ops[i] == TrimLeft(all[i])) &&
    (token.None? ==> count == |all|) &&
    (token.Some? ==> count < |all| && token.value == all[count] && all[count + 1..] == rest)
  }

  lemma SplitStep(ops: seq<string>, count: nat, token: Option<string>, all: seq<string>, rest: seq<string>,
                  before: seq<string>, ops': seq<string>, next: Option<string>, more: seq<string>)
    requires SplitProgress(ops, count, token, all, rest, before) && token.Some? && count < MAX_OPERANDS
    requires ops' == ops[count := TrimLeft(token.value)]
    requires next.Some? ==> rest == [next.value] + more
    requires next.None? ==> rest == []
    ensures SplitProgress(ops', count + 1, next, all, more, before)
  {
    assert ops'[count] == TrimLeft(all[count]);
    if next.Some? {
      assert all[count + 1..] == [next.value] + more;
      assert all[count + 1] == next.value;
      assert all[count + 2..] == all[count + 1..][1..];
    } else {
      assert |all[count + 1..]| == 0;
    }
  }

  lemma SplitDone(ops: seq<string>, count: nat, token: Option<string>, all: seq<string>, rest: seq<string>,
                  before: seq<string>)
    requires SplitProgress(ops, count, token, all, rest, before) && (token.None? || count == MAX_OPERANDS)
    ensures ops[..count] == TrimEach(FirstFour(all))
    ensures forall i | count <= i < MAX_OPERANDS :: ops[i] == before[i]
  {
  }

  // ---------------------------------------------------------------------------
  // parse_line

  /** `strchr` for '#' and a terminator there: the text before the first
      '#'. */
  function CutComment(s: string): (t: string)
    ensures |t| <= |s| && t == s[..|t|] && Avoids(t, {'#'})
    ensures |t| < |s| ==> s[|t|] == '#'
  {
    s[..Strcspn(s, {'#'})]
  }

  /** `rtrim`: steps back from the last character over white space and
      ends the string after the first character that is not. */
  method RightTrim(s: string) returns (t: string)
    ensures t == TrimRight(s)
  {
    var end := |s|;
    assert s[..end] == s;
    while end > 0 && IsSpace(s[end - 1])
      invariant 0 <= end <= |s|
      invariant TrimRight(s[..end]) == TrimRight(s)
    {
      assert s[..end][..end - 1] == s[..end - 1];
      end := end - 1;
    }
    t := s[..end];
  }

  /** The buffer `parse_line` tokenises: the first 255 characters, and in
      the compact assembler only what comes before a '#', right-trimmed. */
  function LineBuffer(line: string, dialect: Dialect): (b: string)
    ensures |b| < SOURCE_LINE_MAX
  {
    var copy := Prefix(line, SOURCE_LINE_MAX - 1);
    if dialect == Compact then TrimRight(CutComment(copy)) else copy
  }

  /** `parse_line`: a first token containing ':' is the label (one trailing
      ':' removed); the next token is the mnemonic, cut to seven
      characters; the rest of the buffer, up to a newline, holds the
      operands. A line without a mnemonic gives an empty one and no
      operands. The address is left 0. */
  function ParsedLine(line: string, lineNumber: nat, dialect: Dialect): (inst: Instruction)
    ensures inst.Fits() && inst.lineNumber == lineNumber && inst.address == 0
    ensures inst.mnemonic == "" ==> inst.operands == []
  {
    var b := LineBuffer(line, dialect);
    var first := Strtok(b, 0, BLANKS);
    if first.token.Some? && ':' in first.token.value then
      var second := Strtok(b, first.next, BLANKS);
      Finish(Some(StripLabel(first.token.value)), second.token, b, second.next, lineNumber)
    else
      Finish(None, first.token, b, first.next, lineNumber)
  }

  /** The part of `parse_line` after the label: the mnemonic token, if any,
      and the operands from the buffer b after the saved position p. */
  function Finish(labelName: Option<string>, mnemonic: Option<string>, b: string, p: nat, lineNumber: nat): (inst: Instruction)
    requires p <= |b|
    requires mnemonic.Some? ==> |mnemonic.value| > 0
    ensures inst.Fits()
    ensures inst.labelName == labelName && inst.lineNumber == lineNumber && inst.address == 0
    ensures inst.mnemonic == "" <==> mnemonic.None?
    ensures inst.mnemonic == "" ==> inst.operands == []
  {
    match mnemonic
    case None => Instruction(labelName, "", [], lineNumber, 0)
    case Some(m) =>
      var operandText := Strtok(b, p, NEWLINE).token;
      Instruction(labelName, Prefix(m, MNEMONIC_MAX),
                  if operandText.Some? then Operands(operandText.value) else [], lineNumber, 0)
  }

  /** `parse_line`, step by step over the buffer. */
  method ParseLine(line: string, lineNumber: nat, dialect: Dialect) returns (inst: Instruction)
    ensures inst == ParsedLine(line, lineNumber, dialect)
  {
    var buffer := Prefix(line, SOURCE_LINE_MAX - 1);
    if dialect == Compact {
      buffer := CutComment(buffer);
      buffer := RightTrim(buffer);
    }
    assert buffer == LineBuffer(line, dialect);
    var tokenizer := new Tokenizer(buffer);
    var token := tokenizer.Next(BLANKS);
    var labelName: Option<string> := None;
    if token.Some? && ':' in token.value {
      labelName := Some(StripLabel(token.value));
      token := tokenizer.Next(BLANKS);
    }
    if token.None? {
      return Instruction(labelName, "", [], lineNumber, 0);
    }
    var mnemonic := Prefix(token.value, MNEMONIC_MAX);
    var operandText := tokenizer.Next(NEWLINE);
    var operands := new string[MAX_OPERANDS];
    var count := 0;
    if operandText.Some? {
      count := SplitOperands(operandText.value, operands);
    }
    inst := Instruction(labelName, mnemonic, operands[..count], lineNumber, 0);
  }
}
