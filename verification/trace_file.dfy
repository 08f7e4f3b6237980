/** The line-oriented trace format: the generator writes one line per
    operation type drawn, and the parser turns each line whose first word is
    a command back into an action, skipping every other line. Lines are
    given as strings without their terminating newline. */
module TraceFile {
  import opened Text
  import opened Trace

  /** The line `generate_file` writes for a drawn operation type. */
  function EncodeOp(opType: int): string {
    if opType == 0 then "read 0"
    else if opType == 1 then "write 0 1"
    else if opType == 2 then "read 1"
    else if opType == 3 then "write 1 1"
    else "string"
  }

  /** The action each operation type stands for. */
  function Intended(opType: int): Action {
    if opType == 0 then Action(Read, 0, 0)
    else if opType == 1 then Action(Write, 0, 1)
    else if opType == 2 then Action(Read, 1, 0)
    else if opType == 3 then Action(Write, 1, 1)
    else Action(Str, -1, 0)
  }

  /** The general shape of the three kinds of line: `read <field>`,
      `write <field> <value>` and `string`. */
  function Format(a: Action): string {
    match a.op
    case Read => "read " + Decimal(a.field)
    case Write => "write " + Decimal(a.field) + " " + Decimal(a.value)
    case Str => "string"
  }

  /** An action as the parser builds it: READ carries the default value 0,
      STR the default field -1 and value 0. */
  predicate Canonical(a: Action) {
    (a.op == Read ==> a.value == 0) && (a.op == Str ==> a.field == -1 && a.value == 0)
  }

  predicate IsCommand(word: string) {
    word == "read" || word == "write" || word == "string"
  }

  /** The operation a command word names: `read` is READ, `write` is WRITE
      and `string` is STR. */
  function CommandOp(word: string): Op
    requires IsCommand(word)
  {
    if word == "read" then Read else if word == "write" then Write else Str
  }

  /** The per-line work of `parse_file`: `iss >> cmd` takes the first word,
      then the command decides. A `read` line extracts one integer and a
      `write` line two; an extraction that fails gives 0 here (see README).
      A line whose first word is no command yields nothing. */
  function DecodeLine(line: string): (r: Option<Action>)
    ensures r.Some? <==> IsCommand(SplitWord(line).0)
    ensures r.Some? ==> r.value.op == CommandOp(SplitWord(line).0)
    ensures r.Some? ==> Canonical(r.value)
  {
    var (cmd, rest) := SplitWord(line);
    DecodeCommand(cmd, rest)
  }

  /** The dispatch on the first word `cmd`; `rest` is the line after it. */
  function DecodeCommand(cmd: string, rest: string): (r: Option<Action>)
    ensures r.Some? <==> IsCommand(cmd)
    ensures r.Some? ==> r.value.op == CommandOp(cmd)
    ensures r.Some? ==> Canonical(r.value)
  {
    if cmd == "read" then
      Some(Action(Read, ValueOr(ReadInt(rest), 0), 0))
    else if cmd == "write" then
      match ReadInt(rest)
      case Some((f, after)) => Some(Action(Write, f, ValueOr(ReadInt(after), 0)))
      case None => Some(Action(Write, 0, 0))
    else if cmd == "string" then
      Some(Action(Str, -1, 0))
    else
      None
  }

  /** What one line contributes to the parsed trace. */
  function Emitted(line: string): seq<Action> {
    match DecodeLine(line)
    case Some(a) => [a]
    case None => []
  }

  /** The actions `parse_file` returns for a file with these lines. */
  function Decode(lines: seq<string>): seq<Action>
    decreases |lines|
  {
    if lines == [] then [] else Emitted(lines[0]) + Decode(lines[1..])
  }

  /** Number of lines whose first word is a command. */
  function CommandLines(lines: seq<string>): (n: nat)
    ensures n <= |lines|
    decreases |lines|
  {
    if lines == [] then 0
    else (if IsCommand(SplitWord(lines[0]).0) then 1 else 0) + CommandLines(lines[1..])
  }

  /** Parsing is line by line: the actions of two pieces of a file are the
      actions of the first piece followed by those of the second. */
  lemma {:induction false} DecodeAppend(first: seq<string>, second: seq<string>)
    ensures Decode(first + second) == Decode(first) + Decode(second)
    decreases |first|
  {
    if first == [] {
      assert first + second == second;
    } else {
      assert (first + second)[1..] == first[1..] + second;
      DecodeAppend(first[1..], second);
    }
  }

  /** One step of the reading loop: pushing what line `k` decodes to
      extends the parse of the lines before it. */
  lemma PushDecoded(lines: seq<string>, k: nat, decoded: Option<Action>, actions: seq<Action>)
    requires k < |lines| && decoded == DecodeLine(lines[k])
    requires actions == Decode(lines[..k]) + (if decoded.Some? then [decoded.value] else [])
    ensures actions == Decode(lines[..k + 1])
  {
    var done, line := lines[..k], lines[k];
    assert lines[..k + 1] == done + [line];
    DecodeAppend(done, [line]);
    DecodeSingle(line);
  }

  lemma DecodeSingle(line: string)
    ensures Decode([line]) == if DecodeLine(line).Some? then [DecodeLine(line).value] else []
  {
    assert [line][1..] == [];
  }

  /** One action per command line and none for any other line, so never
      more actions than lines. */
  lemma {:induction false} DecodeLength(lines: seq<string>)
    ensures |Decode(lines)| == CommandLines(lines)
    ensures |Decode(lines)| <= |lines|
    decreases |lines|
  {
    if lines != [] {
      DecodeLength(lines[1..]);
    }
  }

  /** A `read <field>` line parses back to READ of that field. */
  lemma ReadLineRoundTrip(field: int32)
    ensures DecodeLine("read " + Decimal(field)) == Some(Action(Read, field, 0))
  {
    var line := "read " + Decimal(field);
    var tail := " " + Decimal(field);
    assert SplitWord(line) == ("read", tail) by {
      assert line == "read" + tail;
      SplitWordOf("read", tail);
    }
    assert ReadInt(tail) == Some((field, "")) by {
      ReadSpacedDecimal(field, "");
      assert " " + Decimal(field) + "" == tail;
    }
  }

  /** A `write <field> <value>` line parses back to WRITE of that value to
      that field. */
  lemma WriteLineRoundTrip(field: int32, value: int32)
    ensures DecodeLine("write " + Decimal(field) + " " + Decimal(value))
         == Some(Action(Write, field, value))
  {
    var line := "write " + Decimal(field) + " " + Decimal(value);
    var second := " " + Decimal(value);
    var tail := " " + Decimal(field) + second;
    assert SplitWord(line) == ("write", tail) by {
      assert line == "write" + tail;
      SplitWordOf("write", tail);
    }
    assert ReadInt(tail) == Some((field, second)) by {
      ReadSpacedDecimal(field, second);
    }
    assert ReadInt(second) == Some((value, "")) by {
      ReadSpacedDecimal(value, "");
      assert " " + Decimal(value) + "" == second;
    }
  }

  /** Every well-formed line parses back to the action it was written from. */
  lemma FormatRoundTrip(a: Action)
    requires Canonical(a)
    ensures DecodeLine(Format(a)) == Some(a)
  {
    match a.op
    case Read =>
      ReadLineRoundTrip(a.field);
    case Write =>
      WriteLineRoundTrip(a.field, a.value);
    case Str =>
      SplitWordOf("string", "");
      assert Format(a) == "string" + "";
  }

  /** Each of the five generated lines parses back to the action its
      operation type stands for. */
  lemma LineRoundTrip(opType: int)
    ensures DecodeLine(EncodeOp(opType)) == Some(Intended(opType))
  {
    assert Decimal(0) == "0" && Decimal(1) == "1";
    assert EncodeOp(opType) == Format(Intended(opType));
    FormatRoundTrip(Intended(opType));
  }

  /** A whole generated file parses back to the intended trace, one action
      per line, in order. */
  lemma {:induction false} TraceRoundTrip(opTypes: seq<int>, lines: seq<string>)
    requires |lines| == |opTypes|
    requires forall i :: 0 <= i < |lines| ==> lines[i] == EncodeOp(opTypes[i])
    ensures |Decode(lines)| == |opTypes|
    ensures forall i :: 0 <= i < |opTypes| ==> Decode(lines)[i] == Intended(opTypes[i])
    decreases |lines|
  {
    if lines != [] {
      LineRoundTrip(opTypes[0]);
      TraceRoundTrip(opTypes[1..], lines[1..]);
      assert Decode(lines) == [Intended(opTypes[0])] + Decode(lines[1..]);
    }
  }

  /** The writing loop of `generate_file`, with the drawn operation types
      given as input: one line per operation, in order. */
  method GenerateLines(opTypes: seq<int>) returns (lines: seq<string>)
    ensures |lines| == |opTypes|
    ensures forall i :: 0 <= i < |opTypes| ==> lines[i] == EncodeOp(opTypes[i])
  {
    lines := [];
    for i := 0 to |opTypes|
      invariant |lines| == i
      invariant forall j :: 0 <= j < i ==> lines[j] == EncodeOp(opTypes[j])
    {
      lines := lines + [EncodeOp(opTypes[i])];
    }
  }

  /** The reading loop of `parse_file`: decode each line and push the action
      it yields, if any. */
  method ParseLines(lines: seq<string>) returns (actions: seq<Action>)
    ensures actions == Decode(lines)
  {
    actions := [];
    for k := 0 to |lines|
      invariant actions == Decode(lines[..k])
    {
      var decoded := DecodeLine(lines[k]);
      if decoded.Some? {
        actions := actions + [decoded.value];
      }
      PushDecoded(lines, k, decoded, actions);
    }
    assert lines[..|lines|] == lines;
  }
}
