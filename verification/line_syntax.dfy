/** What `parse_line` makes of the lines an assembler programmer writes.

    `Render` writes an instruction the usual way, `label: mnemonic op, op`,
    and the main lemma here says `parse_line` reads it back: the label, the
    mnemonic and the operands (the first four of them) come out as they went
    in. Beside it: in the compact assembler a comment and trailing white
    space change nothing. */
module LineSyntax {
  import opened Wrappers
  import opened Types
  import opened Text
  import opened Parser

  // ---------------------------------------------------------------------------
  // strtok over concatenations

  /** `strtok` from inside the second half of a buffer sees only that half:
      the same token, at a position shifted by the length of the first. */
  lemma StrtokShift(x: string, y: string, i: nat, delims: set<char>)
    requires i <= |y|
    ensures Strtok(x + y, |x| + i, delims) ==
      Cut(Strtok(y, i, delims).token, |x| + Strtok(y, i, delims).next)
  {
    var a := SkipFrom(y, i, delims);
    SkipShift(x, y, i, delims);
    if a < |y| {
      var b := ScanFrom(y, a, delims);
      ScanShift(x, y, a, delims);
      assert (x + y)[|x| + a..|x| + b] == y[a..b];
    }
  }

  lemma SkipShift(x: string, y: string, i: nat, cs: set<char>)
    requires i <= |y|
    ensures SkipFrom(x + y, |x| + i, cs) == |x| + SkipFrom(y, i, cs)
  {
    SkipSpan(y, i, cs);
    SkipAt(x + y, |x| + i, |x| + SkipFrom(y, i, cs), cs);
  }

  lemma ScanShift(x: string, y: string, i: nat, cs: set<char>)
    requires i <= |y|
    ensures ScanFrom(x + y, |x| + i, cs) == |x| + ScanFrom(y, i, cs)
  {
    ScanSpan(y, i, cs);
    ScanAt(x + y, |x| + i, |x| + ScanFrom(y, i, cs), cs);
  }

  /** Every token from a position in the second half of a buffer is a token
      of the second half alone. */
  lemma {:induction false} TokensShift(x: string, y: string, i: nat, delims: set<char>)
    requires i <= |y|
    ensures Tokens(x + y, |x| + i, delims) == Tokens(y, i, delims)
    decreases |y| - i
  {
    StrtokShift(x, y, i, delims);
    var r := Strtok(y, i, delims);
    if r.token.Some? {
      TokensShift(x, y, r.next, delims);
    }
  }

  /** A token at the very start of a buffer, ended by a delimiter or by the
      end of the buffer. */
  lemma FirstToken(t: string, rest: string, delims: set<char>)
    requires |t| > 0 && Avoids(t, delims)
    requires |rest| == 0 || rest[0] in delims
    ensures Strtok(t + rest, 0, delims) == Cut(Some(t), |t| + if |rest| == 0 then 0 else 1)
  {
    var s := t + rest;
    assert forall k | 0 <= k < |t| :: s[k] == t[k];
    assert |rest| > 0 ==> s[|t|] == rest[0];
    StrtokOf(s, 0, 0, |t|, delims);
    assert s[0..|t|] == t;
  }

  /** No token is left at the end of the buffer. */
  lemma NoTokenAtEnd(s: string, delims: set<char>)
    ensures Strtok(s, |s|, delims).token == None
  {
  }

  // ---------------------------------------------------------------------------
  // Operand lists

  /** What no written piece contains: white space, which ends a token and is
      trimmed; ',' which separates operands; and '#' which starts a
      comment. */
  predicate Plain(s: string)
  {
    forall i | 0 <= i < |s| :: !IsSpace(s[i]) && s[i] != ',' && s[i] != '#'
  }

  predicate AllPlain(ops: seq<string>)
  {
    forall i | 0 <= i < |ops| :: |ops[i]| > 0 && Plain(ops[i])
  }

  /** Operands written one after the other, separated by ", ". */
  function Join(ops: seq<string>): (s: string)
    requires |ops| > 0
  {
    if |ops| == 1 then ops[0] else ops[0] + ", " + Join(ops[1..])
  }

  /** The pieces after the first, each with the blank it was written
      after. */
  function Spaced(ops: seq<string>): (ts: seq<string>)
    ensures |ts| == |ops|
  {
    if |ops| == 0 then [] else [" " + ops[0]] + Spaced(ops[1..])
  }

  /** A buffer holding one token and nothing else. */
  lemma SingleToken(t: string, delims: set<char>)
    requires |t| > 0 && Avoids(t, delims)
    ensures Tokens(t, 0, delims) == [t]
  {
    assert t + "" == t;
    FirstToken(t, "", delims);
    NoTokenAtEnd(t, delims);
  }

  /** A token, a delimiter, and then more text: the token comes first, then
      the tokens of the rest. */
  lemma TokensAfterFirst(t: string, sep: char, more: string, delims: set<char>)
    requires |t| > 0 && Avoids(t, delims) && sep in delims
    ensures Tokens(t + [sep] + more, 0, delims) == [t] + Tokens(more, 0, delims)
  {
    var s := t + [sep] + more;
    assert s == t + ([sep] + more);
    FirstToken(t, [sep] + more, delims);
    TokensShift(t + [sep], more, 0, delims);
  }

  /** A token preceded by blanks still avoids the comma. */
  lemma LeadAvoids(lead: string, op: string)
    requires AllSpace(lead) && Avoids(lead, COMMA) && Plain(op)
    ensures Avoids(lead + op, COMMA)
  {
    var t := lead + op;
    forall k | 0 <= k < |t| ensures t[k] !in COMMA {
      if k >= |lead| {
        assert t[k] == op[k - |lead|];
      }
    }
  }

  lemma PlainTail(ops: seq<string>)
    requires |ops| > 0 && AllPlain(ops)
    ensures AllPlain(ops[1..])
  {
    forall k | 0 <= k < |ops[1..]| ensures |ops[1..][k]| > 0 && Plain(ops[1..][k]) {
      assert ops[1..][k] == ops[k + 1];
    }
  }

  /** Splitting at the commas gives back each operand, with the blank that
      followed the comma before it still in front. */
  lemma {:induction false} TokensOfJoin(lead: string, ops: seq<string>)
    requires |ops| > 0 && AllPlain(ops) && AllSpace(lead) && Avoids(lead, COMMA)
    ensures Tokens(lead + Join(ops), 0, COMMA) == [lead + ops[0]] + Spaced(ops[1..])
    decreases |ops|
  {
    var t := lead + ops[0];
    LeadAvoids(lead, ops[0]);
    if |ops| == 1 {
      SingleToken(t, COMMA);
    } else {
      var more := " " + Join(ops[1..]);
      assert lead + Join(ops) == t + [','] + more;
      TokensAfterFirst(t, ',', more, COMMA);
      PlainTail(ops);
      TokensOfJoin(" ", ops[1..]);
      assert ops[1..][1..] == ops[2..];
    }
  }

  /** Left-trimming the pieces gives the operands back. */
  lemma TrimSpaced(ops: seq<string>)
    requires AllPlain(ops)
    ensures TrimEach(Spaced(ops)) == ops
  {
    var ts := Spaced(ops);
    forall k | 0 <= k < |ops| ensures TrimLeft(ts[k]) == ops[k] {
      SpacedAt(ops, k);
      TrimLeftSkipsSpace(" ", ops[k]);
      assert TrimLeft(ops[k]) == ops[k];
    }
  }

  lemma {:induction false} SpacedAt(ops: seq<string>, k: nat)
    requires k < |ops|
    ensures Spaced(ops)[k] == " " + ops[k]
  {
    if k > 0 {
      SpacedAt(ops[1..], k - 1);
    }
  }

  /** Trimming the pieces of a written operand list and keeping four gives
      the first four operands. */
  lemma TrimPieces(ops: seq<string>)
    requires |ops| > 0 && AllPlain(ops)
    ensures TrimEach(FirstFour([ops[0]] + Spaced(ops[1..]))) == FirstFour(ops)
  {
    var ts := [ops[0]] + Spaced(ops[1..]);
    PlainTail(ops);
    TrimSpaced(ops[1..]);
    assert TrimLeft(ops[0]) == ops[0];
    var trimmed := TrimEach(FirstFour(ts));
    forall k | 0 <= k < |trimmed| ensures trimmed[k] == ops[k] {
      if k > 0 {
        assert ts[k] == Spaced(ops[1..])[k - 1];
        assert TrimEach(Spaced(ops[1..]))[k - 1] == ops[1..][k - 1];
      }
    }
  }

  /** `split_operands` on operands written with ", " between them: the first
      four operands. */
  lemma OperandsOfJoin(ops: seq<string>)
    requires |ops| > 0 && AllPlain(ops)
    ensures Operands(Join(ops)) == FirstFour(ops)
  {
    JoinTokens(ops);
    OperandsOfTokens(Join(ops), [ops[0]] + Spaced(ops[1..]));
    TrimPieces(ops);
  }

  /** `TokensOfJoin` with nothing in front of the first operand. */
  lemma JoinTokens(ops: seq<string>)
    requires |ops| > 0 && AllPlain(ops)
    ensures Tokens(Join(ops), 0, COMMA) == [ops[0]] + Spaced(ops[1..])
  {
    assert "" + Join(ops) == Join(ops);
    assert "" + ops[0] == ops[0];
    TokensOfJoin("", ops);
  }

  /** `split_operands` keeps the first four tokens, left-trimmed. */
  lemma OperandsOfTokens(s: string, ts: seq<string>)
    requires Tokens(s, 0, COMMA) == ts
    ensures Operands(s) == TrimEach(FirstFour(ts))
  {
  }

  // ---------------------------------------------------------------------------
  // Whole lines

  /** The label as written before the mnemonic, with its ':' and a blank. */
  function LabelPart(labelName: Option<string>): string
  {
    if labelName.Some? then labelName.value + ": " else ""
  }

  /** The operands as written after the mnemonic, after a blank. */
  function Tail(ops: seq<string>): string
  {
    if |ops| == 0 then "" else " " + Join(ops)
  }

  /** An instruction written out: `labelName: mnemonic op1, op2, ...`. */
  function Render(labelName: Option<string>, mnemonic: string, ops: seq<string>): string
  {
    LabelPart(labelName) + (mnemonic + Tail(ops))
  }

  /** What a rendered line must be made of for `parse_line` to read it back:
      labelName, mnemonic and operands free of blanks, commas and '#', a
      mnemonic of one to seven characters without ':', and a line that fits
      the 256-character buffer. */
  predicate Writable(labelName: Option<string>, mnemonic: string, ops: seq<string>)
  {
    (labelName.Some? ==> Plain(labelName.value)) &&
    0 < |mnemonic| <= MNEMONIC_MAX && Plain(mnemonic) && ':' !in mnemonic &&
    AllPlain(ops) &&
    |Render(labelName, mnemonic, ops)| < SOURCE_LINE_MAX
  }

  lemma AvoidsConcat(a: string, b: string, cs: set<char>)
    requires Avoids(a, cs) && Avoids(b, cs)
    ensures Avoids(a + b, cs)
  {
    var s := a + b;
    forall k | 0 <= k < |s| ensures s[k] !in cs {
      if k >= |a| {
        assert s[k] == b[k - |a|];
      }
    }
  }

  /** The characters of written operands: no '#', no newline, no blank or
      comma, and no white space at the end. */
  lemma {:induction false} JoinText(ops: seq<string>)
    requires |ops| > 0 && AllPlain(ops)
    ensures |Join(ops)| > 0 && !IsSpace(Join(ops)[|Join(ops)| - 1])
    ensures Avoids(Join(ops), {'#'}) && Avoids(Join(ops), NEWLINE)
    decreases |ops|
  {
    var j := Join(ops);
    if |ops| == 1 {
      assert j == ops[0];
    } else {
      PlainTail(ops);
      JoinText(ops[1..]);
      var rest := Join(ops[1..]);
      assert j == ops[0] + ", " + rest;
      assert j[|j| - 1] == rest[|rest| - 1];
      AvoidsConcat(ops[0] + ", ", rest, {'#'});
      AvoidsConcat(ops[0] + ", ", rest, NEWLINE);
    }
  }

  lemma LastOf(a: string, b: string)
    requires |b| > 0
    ensures (a + b)[|a + b| - 1] == b[|b| - 1]
  {
  }

  /** A written line holds no '#' and does not end in white space. */
  lemma RenderText(labelName: Option<string>, mnemonic: string, ops: seq<string>)
    requires Writable(labelName, mnemonic, ops)
    ensures var line := Render(labelName, mnemonic, ops);
      Avoids(line, {'#'}) && |line| > 0 && !IsSpace(line[|line| - 1])
  {
    var body := mnemonic + Tail(ops);
    assert Avoids(LabelPart(labelName), {'#'}) by {
      if labelName.Some? {
        assert forall k | 0 <= k < |labelName.value| :: LabelPart(labelName)[k] == labelName.value[k];
      }
    }
    if |ops| == 0 {
      assert body == mnemonic;
    } else {
      JoinText(ops);
      AvoidsConcat(" ", Join(ops), {'#'});
      AvoidsConcat(mnemonic, Tail(ops), {'#'});
      LastOf(" ", Join(ops));
      LastOf(mnemonic, Tail(ops));
    }
    AvoidsConcat(LabelPart(labelName), body, {'#'});
    LastOf(LabelPart(labelName), body);
  }

  /** `CutComment` stops at the first '#', or takes everything. */
  lemma CutAt(s: string, k: nat)
    requires k <= |s| && Avoids(s[..k], {'#'})
    requires k == |s| || s[k] == '#'
    ensures CutComment(s) == s[..k]
  {
    var n := Strcspn(s, {'#'});
  }

  /** The compact `parse_line` reads "a: #" as the label "a" with no
      mnemonic. */
  lemma CommentedLabelLine()
    ensures ParsedLine("a: #", 1, Compact) == Instruction(Some("a"), "", [], 1, 0)
  {
    var b := LineBuffer("a: #", Compact);
    assert Prefix("a: #", SOURCE_LINE_MAX - 1) == "a: #";
    assert CutComment("a: #") == "a: " by { CutAt("a: #", 3); }
    assert TrimRight("a: ") == "a:";
    assert b == "a:";
    StrtokOf(b, 0, 0, 2, BLANKS);
    assert Strtok(b, 0, BLANKS) == Cut(Some("a:"), 2);
    NoTokenAtEnd(b, BLANKS);
    assert StripLabel("a:") == "a" by { assert "a:"[..1] == "a"; }
  }

  /** A written line is its own buffer, in either assembler. */
  lemma RenderBuffer(labelName: Option<string>, mnemonic: string, ops: seq<string>, dialect: Dialect)
    requires Writable(labelName, mnemonic, ops)
    ensures LineBuffer(Render(labelName, mnemonic, ops), dialect) == Render(labelName, mnemonic, ops)
  {
    var line := Render(labelName, mnemonic, ops);
    RenderText(labelName, mnemonic, ops);
    assert line[..|line|] == line;
    CutAt(line, |line|);
  }

  /** The label token `name:` at the start of a line. */
  lemma LabelToken(name: string, rest: string)
    requires Plain(name)
    ensures var first := Strtok(name + ": " + rest, 0, BLANKS);
      first.token == Some(name + ":") && first.next == |name| + 2 &&
      ':' in name + ":" && StripLabel(name + ":") == name
  {
    var token := name + ":";
    assert Avoids(token, BLANKS) by {
      forall k | 0 <= k < |token| ensures token[k] !in BLANKS {
        if k < |name| {
          assert token[k] == name[k];
        }
      }
    }
    assert name + ": " + rest == token + (" " + rest);
    FirstToken(token, " " + rest, BLANKS);
    assert token[|token| - 1] == ':';
  }

  /** The mnemonic, read from where the label left off. */
  lemma MnemonicAt(pre: string, mnemonic: string, ops: seq<string>)
    requires |mnemonic| > 0 && Plain(mnemonic) && AllPlain(ops)
    ensures Strtok(pre + (mnemonic + Tail(ops)), |pre|, BLANKS) ==
      Cut(Some(mnemonic), |pre| + |mnemonic| + if |ops| == 0 then 0 else 1)
  {
    assert |pre| + 0 == |pre|;
    StrtokShift(pre, mnemonic + Tail(ops), 0, BLANKS);
    FirstToken(mnemonic, Tail(ops), BLANKS);
  }

  /** The operand text is everything after the blank that follows the
      mnemonic. */
  lemma TailText(ops: seq<string>)
    requires AllPlain(ops)
    ensures (if |ops| == 0 then 0 else 1) <= |Tail(ops)|
    ensures Strtok(Tail(ops), if |ops| == 0 then 0 else 1, NEWLINE).token ==
      if |ops| == 0 then None else Some(Join(ops))
  {
    if |ops| == 0 {
      NoTokenAtEnd(Tail(ops), NEWLINE);
    } else {
      JoinText(ops);
      StrtokShift(" ", Join(ops), 0, NEWLINE);
      assert Join(ops) + "" == Join(ops);
      FirstToken(Join(ops), "", NEWLINE);
    }
  }

  /** A token read from the end part of a line is the token read from that
      part alone. */
  lemma OperandTextShift(pre: string, mid: string, tail: string, c: nat, text: Option<string>)
    requires c <= |tail| && Strtok(tail, c, NEWLINE).token == text
    ensures |pre| + |mid| + c <= |pre + (mid + tail)|
    ensures Strtok(pre + (mid + tail), |pre| + |mid| + c, NEWLINE).token == text
  {
    StrtokShift(mid, tail, c, NEWLINE);
    StrtokShift(pre, mid + tail, |mid| + c, NEWLINE);
  }

  /** The rest of `parse_line` once the mnemonic is read and the operand
      text found. */
  lemma FinishRendered(name: Option<string>, line: string, q: nat, mnemonic: string, text: Option<string>,
                       operands: seq<string>, lineNumber: nat)
    requires 0 < |mnemonic| <= MNEMONIC_MAX && q <= |line| && Strtok(line, q, NEWLINE).token == text
    requires operands == if text.None? then [] else Operands(text.value)
    ensures Finish(name, Some(mnemonic), line, q, lineNumber) == Instruction(name, mnemonic, operands, lineNumber, 0)
  {
    assert Prefix(mnemonic, MNEMONIC_MAX) == mnemonic;
  }

  /** Everything `parse_line` does after the mnemonic of a written line. */
  lemma RestOfLine(name: Option<string>, pre: string, mnemonic: string, ops: seq<string>, lineNumber: nat)
    requires 0 < |mnemonic| <= MNEMONIC_MAX && AllPlain(ops)
    ensures |pre| + |mnemonic| + (if |ops| == 0 then 0 else 1) <= |pre + (mnemonic + Tail(ops))|
    ensures Finish(name, Some(mnemonic), pre + (mnemonic + Tail(ops)), |pre| + |mnemonic| + (if |ops| == 0 then 0 else 1),
                   lineNumber) == Instruction(name, mnemonic, FirstFour(ops), lineNumber, 0)
  {
    OperandTextAt(pre, mnemonic, ops);
    FinishOperands(name, pre + (mnemonic + Tail(ops)), |pre| + |mnemonic| + (if |ops| == 0 then 0 else 1),
                   mnemonic, ops, lineNumber);
  }

  /** The operand text, read after the mnemonic up to the end of the line. */
  lemma OperandTextAt(pre: string, mnemonic: string, ops: seq<string>)
    requires AllPlain(ops)
    ensures |pre| + |mnemonic| + (if |ops| == 0 then 0 else 1) <= |pre + (mnemonic + Tail(ops))|
    ensures Strtok(pre + (mnemonic + Tail(ops)), |pre| + |mnemonic| + (if |ops| == 0 then 0 else 1), NEWLINE).token ==
      if |ops| == 0 then None else Some(Join(ops))
  {
    TailText(ops);
    OperandTextShift(pre, mnemonic, Tail(ops), if |ops| == 0 then 0 else 1, if |ops| == 0 then None else Some(Join(ops)));
  }

  /** `FinishRendered` when the operand text is the written operands. */
  lemma FinishOperands(name: Option<string>, line: string, q: nat, mnemonic: string, ops: seq<string>, lineNumber: nat)
    requires 0 < |mnemonic| <= MNEMONIC_MAX && AllPlain(ops) && q <= |line|
    requires Strtok(line, q, NEWLINE).token == if |ops| == 0 then None else Some(Join(ops))
    ensures Finish(name, Some(mnemonic), line, q, lineNumber) == Instruction(name, mnemonic, FirstFour(ops), lineNumber, 0)
  {
    if |ops| > 0 {
      OperandsOfJoin(ops);
    }
    FinishRendered(name, line, q, mnemonic, if |ops| == 0 then None else Some(Join(ops)), FirstFour(ops), lineNumber);
  }

  /** `parse_line` reads a written instruction back: the label, the
      mnemonic and the first four operands, in either assembler. */
  lemma ParseRendered(labelName: Option<string>, mnemonic: string, ops: seq<string>, lineNumber: nat, dialect: Dialect)
    requires Writable(labelName, mnemonic, ops)
    ensures ParsedLine(Render(labelName, mnemonic, ops), lineNumber, dialect) ==
      Instruction(labelName, mnemonic, FirstFour(ops), lineNumber, 0)
  {
    RenderBuffer(labelName, mnemonic, ops, dialect);
    ParseWritten(labelName, LabelPart(labelName), mnemonic, ops, lineNumber, dialect);
  }

  /** The body of `ParseRendered`, over a line already known to be its own
      buffer. */
  lemma ParseWritten(labelName: Option<string>, pre: string, mnemonic: string, ops: seq<string>, lineNumber: nat, dialect: Dialect)
    requires pre == LabelPart(labelName) && (labelName.Some? ==> Plain(labelName.value))
    requires 0 < |mnemonic| <= MNEMONIC_MAX && Plain(mnemonic) && ':' !in mnemonic && AllPlain(ops)
    requires LineBuffer(pre + (mnemonic + Tail(ops)), dialect) == pre + (mnemonic + Tail(ops))
    ensures ParsedLine(pre + (mnemonic + Tail(ops)), lineNumber, dialect) ==
      Instruction(labelName, mnemonic, FirstFour(ops), lineNumber, 0)
  {
    if labelName.Some? {
      LabelToken(labelName.value, mnemonic + Tail(ops));
      ParseLabelled(labelName.value, labelName.value + ":", pre, mnemonic, ops, lineNumber, dialect);
    } else {
      ParseBare(pre, mnemonic, ops, lineNumber, dialect);
    }
  }

  /** `ParseWritten` for a line with a label, given how its first token
      reads. */
  lemma ParseLabelled(name: string, token: string, pre: string, mnemonic: string, ops: seq<string>, lineNumber: nat, dialect: Dialect)
    requires ':' in token && StripLabel(token) == name
    requires Strtok(pre + (mnemonic + Tail(ops)), 0, BLANKS) == Cut(Some(token), |pre|)
    requires 0 < |mnemonic| <= MNEMONIC_MAX && Plain(mnemonic) && AllPlain(ops)
    requires LineBuffer(pre + (mnemonic + Tail(ops)), dialect) == pre + (mnemonic + Tail(ops))
    ensures ParsedLine(pre + (mnemonic + Tail(ops)), lineNumber, dialect) ==
      Instruction(Some(name), mnemonic, FirstFour(ops), lineNumber, 0)
  {
    var line := pre + (mnemonic + Tail(ops));
    var q := |pre| + |mnemonic| + if |ops| == 0 then 0 else 1;
    ParsedLabelled(line, lineNumber, dialect, token, name);
    MnemonicAt(pre, mnemonic, ops);
    RestOfLine(Some(name), pre, mnemonic, ops, lineNumber);
  }

  /** `ParseWritten` for a line without a label. */
  lemma ParseBare(pre: string, mnemonic: string, ops: seq<string>, lineNumber: nat, dialect: Dialect)
    requires pre == ""
    requires 0 < |mnemonic| <= MNEMONIC_MAX && Plain(mnemonic) && ':' !in mnemonic && AllPlain(ops)
    requires LineBuffer(pre + (mnemonic + Tail(ops)), dialect) == pre + (mnemonic + Tail(ops))
    ensures ParsedLine(pre + (mnemonic + Tail(ops)), lineNumber, dialect) ==
      Instruction(None, mnemonic, FirstFour(ops), lineNumber, 0)
  {
    var line := pre + (mnemonic + Tail(ops));
    var q := |mnemonic| + if |ops| == 0 then 0 else 1;
    MnemonicAt(pre, mnemonic, ops);
    assert Strtok(line, 0, BLANKS) == Cut(Some(mnemonic), q);
    RestOfLine(None, pre, mnemonic, ops, lineNumber);
  }

  /** `parse_line` on a buffer whose first token is a label. */
  lemma ParsedLabelled(line: string, lineNumber: nat, dialect: Dialect, token: string, name: string)
    requires LineBuffer(line, dialect) == line
    requires Strtok(line, 0, BLANKS).token == Some(token)
    requires ':' in token && StripLabel(token) == name
    ensures var second := Strtok(line, Strtok(line, 0, BLANKS).next, BLANKS);
      ParsedLine(line, lineNumber, dialect) == Finish(Some(name), second.token, line, second.next, lineNumber)
  {
  }

  /** In the compact assembler a comment changes nothing: the line with
      `#` and anything after it parses as the line without. */
  lemma CommentIgnored(line: string, comment: string, lineNumber: nat)
    requires Avoids(line, {'#'})
    ensures ParsedLine(line + "#" + comment, lineNumber, Compact) == ParsedLine(line, lineNumber, Compact)
  {
    var s := line + "#" + comment;
    var cut := SOURCE_LINE_MAX - 1;
    if |line| >= cut {
      assert Prefix(s, cut) == Prefix(line, cut);
    } else {
      var p := Prefix(s, cut);
      assert p[..|line|] == line;
      assert p[|line|] == '#';
      CutAt(p, |line|);
      assert line[..|line|] == line;
      CutAt(line, |line|);
    }
  }

  /** In the compact assembler white space at the end of a line changes
      nothing. */
  lemma TrailingSpaceIgnored(line: string, spaces: string, lineNumber: nat)
    requires AllSpace(spaces) && |line| + |spaces| < SOURCE_LINE_MAX
    ensures ParsedLine(line + spaces, lineNumber, Compact) == ParsedLine(line, lineNumber, Compact)
  {
    var s := line + spaces;
    assert Prefix(s, SOURCE_LINE_MAX - 1) == s;
    assert Prefix(line, SOURCE_LINE_MAX - 1) == line;
    var k := Strcspn(line, {'#'});
    assert s[..k] == line[..k];
    if k < |line| {
      assert s[k] == '#';
      CutAt(s, k);
      assert CutComment(s) == CutComment(line);
    } else {
      assert Avoids(spaces, {'#'});
      assert line[..k] == line;
      AvoidsConcat(line, spaces, {'#'});
      assert s[..|s|] == s;
      CutAt(s, |s|);
      TrimRightSkipsSpace(line, spaces);
      assert TrimRight(CutComment(s)) == TrimRight(CutComment(line));
    }
    assert LineBuffer(s, Compact) == LineBuffer(line, Compact);
  }
}
