/**
 * The reversible stack machine: a queue of textual instructions, a stack of
 * `i32` values and an undo history.  `Step`, `Undo` and `RunToEnd` describe
 * one `forward`, one `back` and one `run` on a snapshot of the machine; the
 * class `Interpreter` performs them in place and is proved to agree.
 */
module ReversibleInterpreter {
  import opened Options
  import opened Decimal
  import opened Text

  datatype RuntimeError = DivideByZero | StackUnderflow | InvalidCommand | NoInstructions

  datatype Outcome = Ok | Err(error: RuntimeError)

  const I32_MIN: int := -0x8000_0000
  const I32_MAX: int := 0x7FFF_FFFF

  predicate InI32(x: int) {
    I32_MIN <= x <= I32_MAX
  }

  /**
   * `str::parse::<i32>()`: an optional `+` or `-`, then at least one ASCII
   * digit, and a value that fits in 32 bits.
   */
  function ParseI32(t: string): (r: Option<int>)
    ensures r.Some? ==> InI32(r.value)
    ensures r.Some? <==>
      |t| > 0 &&
      var b := if t[0] == '+' || t[0] == '-' then t[1..] else t;
      |b| > 0 && AllDigits(b) && InI32(if t[0] == '-' then -(DecimalValue(b) as int) else DecimalValue(b))
    ensures r.Some? ==>
      r.value == if t[0] == '-' then -(DecimalValue(t[1..]) as int) else DecimalValue(if t[0] == '+' then t[1..] else t)
  {
    if |t| == 0 then None
    else
      var signed := t[0] == '+' || t[0] == '-';
      var body := if signed then t[1..] else t;
      if |body| == 0 || !AllDigits(body) then None
      else
        var mag: int := DecimalValue(body);
        var v := if t[0] == '-' then -mag else mag;
        if InI32(v) then Some(v) else None
  }

  /** An explicit `+` in front of an unsigned numeral changes nothing. */
  lemma ParseI32Plus(t: string)
    requires |t| > 0 && t[0] != '+' && t[0] != '-'
    ensures ParseI32("+" + t) == ParseI32(t)
  {
    assert ("+" + t)[1..] == t;
  }

  /** A leading zero changes nothing, after a sign or without one. */
  lemma ParseI32LeadingZero(sign: string, t: string)
    requires sign == "" || sign == "+" || sign == "-"
    requires |t| > 0 && AllDigits(t)
    ensures ParseI32(sign + "0" + t) == ParseI32(sign + t)
  {
    DecimalValueLeadingZero(t);
    var a := sign + "0" + t;
    var b := sign + t;
    if sign == "" {
      assert a == "0" + t && b == t;
    } else {
      assert a[0] == sign[0] && a[1..] == "0" + t;
      assert b[0] == sign[0] && b[1..] == t;
    }
  }

  /** What `to_string()` renders for an `i32`, `parse::<i32>()` reads back. */
  lemma ParseI32RoundTrip(n: int)
    requires InI32(n)
    ensures ParseI32(IntToString(n)) == Some(n)
  {
    var t := IntToString(n);
    if n < 0 {
      assert t[1..] == NatToString(-n);
      NatToStringRoundTrip(-n);
    } else {
      NatToStringRoundTrip(n);
    }
  }

  datatype BinOp = Add | Mul | Sub | Div

  /** One decoded instruction. */
  datatype Command = Push(value: int) | Pop | Binary(op: BinOp)

  function OpName(op: BinOp): string {
    match op
    case Add => "ADD"
    case Mul => "MUL"
    case Sub => "SUB"
    case Div => "DIV"
  }

  /** The operation an opcode names, if it names one of the four. */
  function NamedOp(s: string): (r: Option<BinOp>)
    ensures r.Some? ==> OpName(r.value) == s
    ensures forall op :: OpName(op) == s ==> r == Some(op)
  {
    if s == "ADD" then Some(Add)
    else if s == "MUL" then Some(Mul)
    else if s == "SUB" then Some(Sub)
    else if s == "DIV" then Some(Div)
    else None
  }

  predicate IsOpName(s: string) {
    NamedOp(s).Some?
  }

  /** The four opcodes are told apart from each other and from `PUSH` and `POP`. */
  lemma OpNameIsOpName(op: BinOp)
    ensures NamedOp(OpName(op)) == Some(op) && OpName(op) != "PUSH" && OpName(op) != "POP"
  {
  }

  /**
   * How `forward` reads the front instruction: trim it, split it at single
   * spaces, trim the first piece; `PUSH` takes exactly one `i32` operand, the
   * other five opcodes take none, and everything else is `None`
   * (an `InvalidCommand`).
   */
  function Decode(instruction: string): (c: Option<Command>)
    ensures c.Some? && c.value.Push? ==> InI32(c.value.value)
  {
    DecodeWords(Split(Trim(instruction), ' '))
  }

  /** The decision `forward` takes on the pieces of the trimmed instruction. */
  function DecodeWords(parts: seq<string>): (c: Option<Command>)
    requires |parts| >= 1
    ensures c.Some? && c.value.Push? ==> InI32(c.value.value)
  {
    var head := Trim(parts[0]);
    if head == "PUSH" then
      if |parts| != 2 then None
      else
        match ParseI32(parts[1])
        case Some(n) => Some(Push(n))
        case None => None
    else if head == "POP" then
      if |parts| != 1 then None else Some(Pop)
    else
      match NamedOp(head)
      case Some(op) => if |parts| != 1 then None else Some(Binary(op))
      case None => None
  }

  /** The text `back` puts at the front of the queue for an undone command. */
  function Render(c: Command): (r: string)
    ensures |r| > 0 && !IsWhitespace(r[0]) && !IsWhitespace(r[|r| - 1])
    ensures ' ' in r <==> c.Push?
  {
    match c
    case Push(n) =>
      NoSpaceInIntToString(n);
      var t := "PUSH" + " " + IntToString(n);
      assert t[4] == ' ';
      t
    case Pop => "POP"
    case Binary(op) => OpName(op)
  }

  lemma NoSpaceInIntToString(n: int)
    ensures ' ' !in IntToString(n)
    ensures !IsWhitespace(IntToString(n)[|IntToString(n)| - 1])
  {
    var t := IntToString(n);
    if n < 0 {
      assert t == "-" + NatToString(-n);
      assert forall k :: 1 <= k < |t| ==> t[k] == NatToString(-n)[k - 1];
    }
  }

  lemma DecodeRenderPush(n: int)
    requires InI32(n)
    ensures Decode(Render(Push(n))) == Some(Push(n))
  {
    var t := IntToString(n);
    NoSpaceInIntToString(n);
    DecodeWordThenRest("PUSH", t);
    SplitNoSeparator(t, ' ');
    assert ["PUSH"] + Split(t, ' ') == ["PUSH", t];
    ParseI32RoundTrip(n);
  }

  /** A single word with no white space decodes as the one-piece instruction it is. */
  lemma DecodeSingleWord(w: string)
    requires |w| > 0 && !IsWhitespace(w[0]) && !IsWhitespace(w[|w| - 1]) && ' ' !in w
    ensures Decode(w) == DecodeWords([w])
    ensures Trim([w][0]) == w
  {
    TrimUnchanged(w);
    SplitNoSeparator(w, ' ');
  }

  lemma DecodeRenderPop()
    ensures Decode(Render(Pop)) == Some(Pop)
  {
    DecodeSingleWord("POP");
  }

  lemma DecodeRenderBinary(op: BinOp)
    ensures Decode(Render(Binary(op))) == Some(Binary(op))
  {
    var w := OpName(op);
    assert Render(Binary(op)) == w;
    DecodeSingleWord(w);
    OpNameIsOpName(op);
  }

  /** Every command, once rendered by `back`, decodes to itself. */
  lemma DecodeRender(c: Command)
    requires c.Push? ==> InI32(c.value)
    ensures Decode(Render(c)) == Some(c)
  {
    match c
    case Push(n) => DecodeRenderPush(n);
    case Pop => DecodeRenderPop();
    case Binary(op) => DecodeRenderBinary(op);
  }

  /** An instruction that is a word, a space and more text splits at that first space. */
  lemma DecodeWordThenRest(w: string, rest: string)
    requires |w| > 0 && !IsWhitespace(w[0]) && !IsWhitespace(w[|w| - 1]) && ' ' !in w
    requires |rest| > 0 && !IsWhitespace(rest[|rest| - 1])
    ensures Decode(w + " " + rest) == DecodeWords([w] + Split(rest, ' '))
    ensures Trim(([w] + Split(rest, ' '))[0]) == w
  {
    var s := w + " " + rest;
    assert s[0] == w[0] && s[|s| - 1] == rest[|rest| - 1];
    TrimUnchanged(s);
    assert s == w + [' '] + rest;
    SplitAfterWord(w, ' ', rest);
    TrimUnchanged(w);
  }

  /** `PUSH` without its operand is an `InvalidCommand`. */
  lemma PushWithoutOperand()
    ensures Decode("PUSH") == None
  {
    DecodeSingleWord("PUSH");
  }

  /**
   * `PUSH` with one operand is accepted exactly when the operand parses as an
   * `i32`, in any form `parse` takes (`+5`, `007`, `-0`), and pushes its value;
   * otherwise it is an `InvalidCommand`.
   */
  lemma PushOperand(w: string)
    requires |w| > 0 && !IsWhitespace(w[|w| - 1]) && ' ' !in w
    ensures Decode("PUSH " + w) == if ParseI32(w).Some? then Some(Push(ParseI32(w).value)) else None
  {
    assert "PUSH " + w == "PUSH" + " " + w;
    DecodeWordThenRest("PUSH", w);
    SplitNoSeparator(w, ' ');
    assert ["PUSH"] + Split(w, ' ') == ["PUSH", w];
  }

  /** `PUSH` followed by more than one operand is an `InvalidCommand`, whatever the operands. */
  lemma PushExtraOperand(w: string, rest: string)
    requires ' ' !in w
    requires |rest| > 0 && !IsWhitespace(rest[|rest| - 1])
    ensures Decode("PUSH " + w + " " + rest) == None
  {
    var tail := w + " " + rest;
    assert "PUSH " + w + " " + rest == "PUSH" + " " + tail;
    assert tail[|tail| - 1] == rest[|rest| - 1];
    DecodeWordThenRest("PUSH", tail);
    assert tail == w + [' '] + rest;
    SplitAfterWord(w, ' ', rest);
    assert |["PUSH"] + Split(tail, ' ')| >= 3;
  }

  /** `POP` and the four operations take no operand: one more word makes them invalid. */
  lemma OperandNotExpected(w: string, rest: string)
    requires w == "POP" || IsOpName(w)
    requires |rest| > 0 && !IsWhitespace(rest[|rest| - 1])
    ensures Decode(w + " " + rest) == None
  {
    if w != "POP" {
      OpNameIsOpName(NamedOp(w).value);
    }
    DecodeWordThenRest(w, rest);
  }

  /** A first word that is none of the six opcodes is an `InvalidCommand`, whatever follows. */
  lemma UnknownOpcode(w: string, rest: string)
    requires |w| > 0 && !IsWhitespace(w[0]) && !IsWhitespace(w[|w| - 1]) && ' ' !in w
    requires w != "PUSH" && w != "POP" && !IsOpName(w)
    requires |rest| > 0 && !IsWhitespace(rest[|rest| - 1])
    ensures Decode(w) == None
    ensures Decode(w + " " + rest) == None
  {
    DecodeSingleWord(w);
    DecodeWordThenRest(w, rest);
  }

  function Abs(x: int): int {
    if x < 0 then -x else x
  }

  lemma DivMod(x: nat, y: nat)
    requires y > 0
    ensures x == (x / y) * y + x % y && 0 <= x % y < y
  {
  }

  /** Dividing a natural number by at least 1 never makes it larger, and by at least 2 makes it smaller. */
  lemma DivShrinks(x: nat, y: nat)
    requires y >= 1
    ensures 0 <= x / y <= x
    ensures x > 0 && y >= 2 ==> x / y < x
  {
    var q := x / y;
    DivMod(x, y);
    assert q * y == q + q * (y - 1);
    if y >= 2 {
      assert q * (y - 1) == q + q * (y - 2);
    }
  }

  /** Rust's `/` on integers: the quotient rounded toward zero. */
  function TruncDiv(a: int, b: int): (q: int)
    requires b != 0
    ensures a >= 0 ==> 0 <= a - q * b < Abs(b)
    ensures a < 0 ==> -Abs(b) < a - q * b <= 0
  {
    var q0 := Abs(a) / Abs(b);
    DivMod(Abs(a), Abs(b));
    if (a < 0) == (b < 0) then
      assert q0 * b == if b < 0 then -(q0 * Abs(b)) else q0 * Abs(b);
      q0
    else
      assert (-q0) * b == if b < 0 then q0 * Abs(b) else -(q0 * Abs(b));
      -q0
  }

  /**
   * The quotient rounded toward zero, written out: no larger than the
   * dividend, positive only for operands of one sign, and as large as the
   * dividend only for a divisor of 1 or -1.
   */
  lemma TowardZeroMagnitude(a: int, b: int)
    requires b != 0
    ensures var q := if (a < 0) == (b < 0) then Abs(a) / Abs(b) else -(Abs(a) / Abs(b));
      && Abs(q) <= Abs(a)
      && (q > 0 ==> (a < 0) == (b < 0))
      && (a != 0 && Abs(q) == Abs(a) ==> Abs(b) == 1)
  {
    DivShrinks(Abs(a), Abs(b));
  }

  /** `num1 op num2`, where `num1` was the top of the stack and `num2` the one below. */
  function Apply(op: BinOp, num1: int, num2: int): (r: int)
    requires op == Div ==> num2 != 0
    ensures op == Div ==> Abs(r) <= Abs(num1)
    ensures op == Div && r > 0 ==> (num1 < 0) == (num2 < 0)
    ensures op == Div && num1 != 0 && Abs(r) == Abs(num1) ==> Abs(num2) == 1
  {
    match op
    case Add => num1 + num2
    case Mul => num1 * num2
    case Sub => num1 - num2
    case Div => TowardZeroMagnitude(num1, num2); TruncDiv(num1, num2)
  }

  /** Of all `i32` divisions, only `i32::MIN / -1` leaves the `i32` range. */
  lemma DivOverflow(num1: int, num2: int)
    requires InI32(num1) && InI32(num2) && num2 != 0
    ensures !InI32(Apply(Div, num1, num2)) <==> num1 == I32_MIN && num2 == -1
  {
    if num1 == I32_MIN && num2 == -1 {
      assert TruncDiv(num1, num2) == 0x8000_0000;
    }
  }

  /** A binary operation whose `i32` result would overflow (a panic in the source). */
  predicate OperationOverflows(stack: seq<int>, op: BinOp) {
    |stack| >= 2 && !(op == Div && stack[|stack| - 2] == 0)
    && !InI32(Apply(op, stack[|stack| - 1], stack[|stack| - 2]))
  }

  /** One undo record: the opcode and the operands it consumed. */
  datatype Entry = Entry(name: string, args: seq<int>)

  predicate ValidEntry(e: Entry) {
    (e.name == "PUSH" && |e.args| == 0) || (e.name == "POP" && |e.args| == 1)
    || (IsOpName(e.name) && |e.args| == 2)
  }

  predicate ValidHistory(h: seq<Entry>) {
    forall k :: 0 <= k < |h| ==> ValidEntry(h[k])
  }

  /** A snapshot of the interpreter's three fields. */
  datatype Machine = Machine(instructions: seq<string>, stack: seq<int>, history: seq<Entry>)

  /** `do_operation` on a snapshot of the stack and the history. */
  function Operate(stack: seq<int>, history: seq<Entry>, op: BinOp): (r: (seq<int>, seq<Entry>, Outcome))
    requires !OperationOverflows(stack, op)
    ensures r.2.Err? ==> r.0 == stack && r.1 == history
    ensures r.2 == Err(StackUnderflow) <==> |stack| < 2
    ensures r.2 == Err(DivideByZero) <==> |stack| >= 2 && op == Div && stack[|stack| - 2] == 0
    ensures r.2.Ok? ==> |r.0| == |stack| - 1 && r.0[..|stack| - 2] == stack[..|stack| - 2]
    ensures r.2.Ok? ==> r.1 == history + [Entry(OpName(op), [stack[|stack| - 2], stack[|stack| - 1]])]
    ensures r.2.Ok? ==> InI32(r.0[|r.0| - 1])
  {
    if |stack| < 2 then (stack, history, Err(StackUnderflow))
    else
      var num1 := stack[|stack| - 1];
      var num2 := stack[|stack| - 2];
      if op == Div && num2 == 0 then (stack, history, Err(DivideByZero))
      else (stack[..|stack| - 2] + [Apply(op, num1, num2)], history + [Entry(OpName(op), [num2, num1])], Ok)
  }

  /** A decoded command that is a binary operation whose result overflows `i32`. */
  predicate CommandOverflows(stack: seq<int>, c: Option<Command>) {
    c.Some? && c.value.Binary? && OperationOverflows(stack, c.value.op)
  }

  /** The front instruction is a binary operation whose result overflows `i32`. */
  predicate Overflows(m: Machine) {
    |m.instructions| > 0 && CommandOverflows(m.stack, Decode(m.instructions[0]))
  }

  /**
   * `forward` once the front instruction has been decoded to `c`: it uses
   * only `c`, the rest of the queue, the stack and the history.
   */
  function Execute(m: Machine, c: Option<Command>): (r: (Machine, Outcome))
    requires |m.instructions| > 0 && !CommandOverflows(m.stack, c)
    ensures r.1.Err? ==> r.0 == m
    ensures r.1 == Err(InvalidCommand) <==> c.None?
    ensures r.1 != Err(NoInstructions)
    ensures r.1.Ok? ==> r.0.instructions == m.instructions[1..]
    ensures r.1.Ok? ==> |r.0.history| == |m.history| + 1 && r.0.history[..|m.history|] == m.history
    ensures ValidHistory(m.history) ==> ValidHistory(r.0.history)
  {
    match c
    case None => (m, Err(InvalidCommand))
    case Some(Push(n)) =>
      (Machine(m.instructions[1..], m.stack + [n], m.history + [Entry("PUSH", [])]), Ok)
    case Some(Pop) =>
      if |m.stack| == 0 then (m, Err(StackUnderflow))
      else
        (Machine(m.instructions[1..], m.stack[..|m.stack| - 1],
                 m.history + [Entry("POP", [m.stack[|m.stack| - 1]])]), Ok)
    case Some(Binary(op)) =>
      var (stack', history', res) := Operate(m.stack, m.history, op);
      if res.Ok? then (Machine(m.instructions[1..], stack', history'), Ok)
      else (Machine(m.instructions, stack', history'), res)
  }

  /** One `forward`: the new snapshot and what the call returns. */
  function Step(m: Machine): (r: (Machine, Outcome))
    requires !Overflows(m)
    ensures r.1.Err? ==> r.0 == m
    ensures r.1 == Err(NoInstructions) <==> |m.instructions| == 0
    ensures r.1 == Err(InvalidCommand) <==> |m.instructions| > 0 && Decode(m.instructions[0]).None?
    ensures r.1.Ok? ==> |m.instructions| > 0 && r.0.instructions == m.instructions[1..]
    ensures r.1.Ok? ==> |r.0.history| == |m.history| + 1 && r.0.history[..|m.history|] == m.history
    ensures ValidHistory(m.history) ==> ValidHistory(r.0.history)
  {
    if |m.instructions| == 0 then (m, Err(NoInstructions))
    else Execute(m, Decode(m.instructions[0]))
  }

  /** A successful binary step replaces the two top values by one: PUSH 4, PUSH 9, DIV leaves 2. */
  lemma BinaryStepResult(m: Machine, op: BinOp)
    requires |m.instructions| > 0 && Decode(m.instructions[0]) == Some(Binary(op))
    requires !Overflows(m) && Step(m).1.Ok?
    ensures |m.stack| >= 2 && (op == Div ==> m.stack[|m.stack| - 2] != 0)
    ensures Step(m).0.stack
      == m.stack[..|m.stack| - 2] + [Apply(op, m.stack[|m.stack| - 1], m.stack[|m.stack| - 2])]
  {
  }

  /** What `back` needs to find in order not to panic. */
  predicate CanUndo(m: Machine) {
    |m.history| > 0 ==>
      var e := m.history[|m.history| - 1];
      (e.name == "PUSH" ==> |m.stack| > 0)
      && (e.name == "POP" ==> |e.args| >= 1)
      && (IsOpName(e.name) ==> |e.args| >= 2)
  }

  function DropLast(s: seq<int>): seq<int> {
    if |s| == 0 then s else s[..|s| - 1]
  }

  /** One `back`: the new snapshot and what the call returns. */
  function Undo(m: Machine): (r: (Machine, Outcome))
    requires CanUndo(m)
    ensures r.1 == Err(NoInstructions) <==> |m.history| == 0
    ensures |m.history| == 0 ==> r.0 == m
    ensures |m.history| > 0 ==> r.0.history == m.history[..|m.history| - 1]
    ensures r.1.Ok? ==> |r.0.instructions| == |m.instructions| + 1 && r.0.instructions[1..] == m.instructions
    ensures ValidHistory(m.history) ==> ValidHistory(r.0.history)
  {
    if |m.history| == 0 then (m, Err(NoInstructions))
    else
      var e := m.history[|m.history| - 1];
      var history' := m.history[..|m.history| - 1];
      if e.name == "PUSH" then
        (Machine([e.name + " " + IntToString(m.stack[|m.stack| - 1])] + m.instructions,
                 m.stack[..|m.stack| - 1], history'), Ok)
      else if e.name == "POP" then
        (Machine([e.name] + m.instructions, m.stack + [e.args[0]], history'), Ok)
      else if IsOpName(e.name) then
        (Machine([e.name] + m.instructions, DropLast(m.stack) + [e.args[0], e.args[1]], history'), Ok)
      else (m.(history := history'), Err(InvalidCommand))
  }

  /** `back` on the record `PUSH` leaves: the pushed value goes back into the instruction. */
  lemma UndoPushRecord(rest: seq<string>, stack: seq<int>, history: seq<Entry>, v: int)
    ensures var m1 := Machine(rest, stack + [v], history + [Entry("PUSH", [])]);
      CanUndo(m1) && Undo(m1) == (Machine([Render(Push(v))] + rest, stack, history), Ok)
  {
    var history' := history + [Entry("PUSH", [])];
    assert (stack + [v])[..|stack|] == stack;
    assert history'[..|history|] == history;
  }

  /** `back` on the record `POP` leaves: the popped value goes back on the stack. */
  lemma UndoPopRecord(rest: seq<string>, stack: seq<int>, history: seq<Entry>)
    requires |stack| > 0
    ensures var m1 := Machine(rest, stack[..|stack| - 1], history + [Entry("POP", [stack[|stack| - 1]])]);
      CanUndo(m1) && Undo(m1) == (Machine([Render(Pop)] + rest, stack, history), Ok)
  {
    var n := |stack|;
    var history' := history + [Entry("POP", [stack[n - 1]])];
    assert history'[..|history|] == history;
    assert stack[..n - 1] + [stack[n - 1]] == stack;
  }

  lemma UndoAfterPush(m: Machine, v: int)
    requires |m.instructions| > 0 && Decode(m.instructions[0]) == Some(Push(v))
    ensures Step(m) == (Machine(m.instructions[1..], m.stack + [v], m.history + [Entry("PUSH", [])]), Ok)
    ensures CanUndo(Step(m).0)
    ensures Undo(Step(m).0) == (Machine([Render(Push(v))] + m.instructions[1..], m.stack, m.history), Ok)
  {
    UndoPushRecord(m.instructions[1..], m.stack, m.history, v);
  }

  lemma UndoAfterPop(m: Machine)
    requires |m.instructions| > 0 && Decode(m.instructions[0]) == Some(Pop) && |m.stack| > 0
    ensures Step(m).1.Ok?
    ensures CanUndo(Step(m).0)
    ensures Undo(Step(m).0) == (Machine([Render(Pop)] + m.instructions[1..], m.stack, m.history), Ok)
  {
    UndoPopRecord(m.instructions[1..], m.stack, m.history);
  }

  /** `back` on the record a binary operation leaves: the two operands come back in place of its result. */
  lemma UndoBinaryRecord(rest: seq<string>, stack: seq<int>, history: seq<Entry>, op: BinOp, stack': seq<int>)
    requires |stack| >= 2 && |stack'| == |stack| - 1 && stack'[..|stack| - 2] == stack[..|stack| - 2]
    ensures var m1 := Machine(rest, stack', history + [Entry(OpName(op), [stack[|stack| - 2], stack[|stack| - 1]])]);
      CanUndo(m1) && Undo(m1) == (Machine([OpName(op)] + rest, stack, history), Ok)
  {
    var n := |stack|;
    var history' := history + [Entry(OpName(op), [stack[n - 2], stack[n - 1]])];
    OpNameIsOpName(op);
    assert history'[..|history|] == history;
    assert DropLast(stack') == stack[..n - 2];
    assert stack[..n - 2] + [stack[n - 2], stack[n - 1]] == stack;
  }

  lemma UndoAfterBinary(m: Machine, op: BinOp)
    requires |m.instructions| > 0 && Decode(m.instructions[0]) == Some(Binary(op))
    requires !Overflows(m) && Step(m).1.Ok?
    ensures CanUndo(Step(m).0)
    ensures Undo(Step(m).0) == (Machine([Render(Binary(op))] + m.instructions[1..], m.stack, m.history), Ok)
  {
    assert Step(m) == Execute(m, Some(Binary(op)));
    var r := Operate(m.stack, m.history, op);
    UndoBinaryRecord(m.instructions[1..], m.stack, m.history, op, r.0);
  }

  /**
   * `back` after a successful `forward` restores the stack and the history
   * and puts the executed command back at the front of the queue, rendered
   * in the canonical form `back` uses.
   */
  lemma UndoAfterStep(m: Machine)
    requires !Overflows(m) && Step(m).1.Ok?
    ensures CanUndo(Step(m).0)
    ensures Undo(Step(m).0)
      == (Machine([Render(Decode(m.instructions[0]).value)] + m.instructions[1..], m.stack, m.history), Ok)
  {
    match Decode(m.instructions[0]).value
    case Push(v) => UndoAfterPush(m, v);
    case Pop => UndoAfterPop(m);
    case Binary(op) => UndoAfterBinary(m, op);
  }

  /** `forward` looks only at the decoded front instruction, the rest of the queue, the stack and the history. */
  lemma StepDependsOnDecoded(a: Machine, b: Machine)
    requires |a.instructions| > 0 && |b.instructions| > 0
    requires Decode(a.instructions[0]) == Decode(b.instructions[0])
    requires a.instructions[1..] == b.instructions[1..] && a.stack == b.stack && a.history == b.history
    requires !Overflows(a)
    ensures !Overflows(b) && Step(b).1 == Step(a).1
    ensures Step(a).1.Ok? ==> Step(b).0 == Step(a).0
  {
    var c := Decode(a.instructions[0]);
    assert Step(a) == Execute(a, c);
    assert Step(b) == Execute(b, c);
    ExecuteDependsOnRest(a, b, c);
  }

  /** Executing one decoded command on two machines that differ only in their front instruction. */
  lemma ExecuteDependsOnRest(a: Machine, b: Machine, c: Option<Command>)
    requires |a.instructions| > 0 && |b.instructions| > 0
    requires a.instructions[1..] == b.instructions[1..] && a.stack == b.stack && a.history == b.history
    requires !CommandOverflows(a.stack, c)
    ensures Execute(b, c).1 == Execute(a, c).1
    ensures Execute(a, c).1.Ok? ==> Execute(b, c).0 == Execute(a, c).0
  {
    match c
    case None =>
    case Some(Push(n)) =>
    case Some(Pop) =>
    case Some(Binary(op)) =>
  }

  /**
   * `POP` on an empty stack is a `StackUnderflow` that changes nothing;
   * otherwise it drops the top value, records it, and removes the instruction.
   */
  lemma PopStep(m: Machine)
    requires |m.instructions| > 0 && Decode(m.instructions[0]) == Some(Pop)
    ensures Step(m).1 == Err(StackUnderflow) <==> |m.stack| == 0
    ensures |m.stack| == 0 ==> Step(m).0 == m
    ensures |m.stack| > 0 ==>
      Step(m) == (Machine(m.instructions[1..], m.stack[..|m.stack| - 1],
                          m.history + [Entry("POP", [m.stack[|m.stack| - 1]])]), Ok)
  {
    assert Step(m) == Execute(m, Some(Pop));
  }

  /** Stepping again after `back` replays exactly the step that was undone. */
  lemma StepAfterUndo(m: Machine)
    requires !Overflows(m) && Step(m).1.Ok?
    ensures CanUndo(Step(m).0)
    ensures !Overflows(Undo(Step(m).0).0)
    ensures Step(Undo(Step(m).0).0) == Step(m)
  {
    UndoAfterStep(m);
    var c := Decode(m.instructions[0]).value;
    DecodeRender(c);
    var m2 := Undo(Step(m).0).0;
    assert m2 == Machine([Render(c)] + m.instructions[1..], m.stack, m.history);
    assert m2.instructions[1..] == m.instructions[1..];
    StepDependsOnDecoded(m, m2);
  }

  /** Every value on the stack and in the undo records fits in `i32`, as the source's `Vec<i32>` fields do. */
  predicate ValuesInI32(stack: seq<int>, history: seq<Entry>) {
    && (forall k :: 0 <= k < |stack| ==> InI32(stack[k]))
    && (forall k, j :: 0 <= k < |history| && 0 <= j < |history[k].args| ==> InI32(history[k].args[j]))
  }

  /** A binary operation stores its two operands and an in-range result, all `i32`. */
  lemma OperateInI32(stack: seq<int>, history: seq<Entry>, op: BinOp)
    requires !OperationOverflows(stack, op) && ValuesInI32(stack, history)
    ensures var r := Operate(stack, history, op); ValuesInI32(r.0, r.1)
  {
    var r := Operate(stack, history, op);
    if r.2.Ok? {
      var n := |stack|;
      assert forall k :: 0 <= k < n - 2 ==> r.0[k] == r.0[..n - 2][k];
    }
  }

  /** A decoded command whose operand, if any, is an `i32` stores only `i32` values. */
  lemma ExecuteInI32(m: Machine, c: Option<Command>)
    requires |m.instructions| > 0 && !CommandOverflows(m.stack, c) && ValuesInI32(m.stack, m.history)
    requires c.Some? && c.value.Push? ==> InI32(c.value.value)
    ensures ValuesInI32(Execute(m, c).0.stack, Execute(m, c).0.history)
  {
    match c
    case Some(Binary(op)) => OperateInI32(m.stack, m.history, op);
    case _ =>
  }

  /** `forward` only ever stores `i32` values: parsed operands, popped values and in-range results. */
  lemma StepInI32(m: Machine)
    requires !Overflows(m) && ValuesInI32(m.stack, m.history)
    ensures ValuesInI32(Step(m).0.stack, Step(m).0.history)
  {
    if |m.instructions| > 0 {
      var c := Decode(m.instructions[0]);
      assert Step(m) == Execute(m, c);
      ExecuteInI32(m, c);
    }
  }

  /** `back` only ever stores values that were on the stack or in a record, so they stay `i32`. */
  lemma UndoInI32(m: Machine)
    requires CanUndo(m) && ValuesInI32(m.stack, m.history)
    ensures ValuesInI32(Undo(m).0.stack, Undo(m).0.history)
  {
    if |m.history| > 0 {
      var e := m.history[|m.history| - 1];
      assert forall j :: 0 <= j < |e.args| ==> InI32(e.args[j]);
    }
  }

  /** Every step taken by `run` is free of overflow. */
  predicate RunSafe(m: Machine)
    decreases |m.instructions|
  {
    !Overflows(m) && (Step(m).1.Ok? ==> RunSafe(Step(m).0))
  }

  /**
   * `run`: step until the queue is empty (`Ok`) or another error stops it,
   * leaving the failing instruction at the front.
   */
  function RunToEnd(m: Machine): (r: (Machine, Outcome))
    requires RunSafe(m)
    ensures r.1.Ok? ==> |r.0.instructions| == 0
    ensures r.1.Err? ==> r.1.error != NoInstructions && !Overflows(r.0) && Step(r.0) == (r.0, r.1)
    ensures |r.0.instructions| <= |m.instructions|
    ensures r.0.instructions == m.instructions[|m.instructions| - |r.0.instructions|..]
    ensures ValidHistory(m.history) ==> ValidHistory(r.0.history)
    decreases |m.instructions|
  {
    var (m', res) := Step(m);
    match res
    case Ok => RunToEnd(m')
    case Err(NoInstructions) => (m', Ok)
    case Err(e) => (m', Err(e))
  }

  class Interpreter {
    var instructions: seq<string>
    var stack: seq<int>
    var history: seq<Entry>

    /** The history only ever holds records that `forward` wrote, and every value is an `i32`. */
    ghost predicate Valid()
      reads this
    {
      ValidHistory(history) && ValuesInI32(stack, history)
    }

    function State(): Machine
      reads this
    {
      Machine(instructions, stack, history)
    }

    constructor ()
      ensures Valid() && State() == Machine([], [], [])
    {
      instructions, stack, history := [], [], [];
    }

    /** Appends the given instructions to the back of the queue, in order. */
    method AddInstructions(instrs: seq<string>)
      modifies this`instructions
      ensures instructions == old(instructions) + instrs
      ensures Valid() == old(Valid())
    {
      for k := 0 to |instrs|
        invariant instructions == old(instructions) + instrs[..k]
      {
        instructions := instructions + [instrs[k]];
      }
      assert instrs[..|instrs|] == instrs;
    }

    /** The front of the queue, if there is one. */
    function CurrentInstruction(): (r: Option<string>)
      reads this
      ensures r.None? <==> |instructions| == 0
      ensures r.Some? ==> r.value == instructions[0]
    {
      if |instructions| == 0 then None else Some(instructions[0])
    }

    method DoOperation(op: BinOp) returns (res: Outcome)
      requires !OperationOverflows(stack, op)
      modifies this`stack, this`history
      ensures (stack, history, res) == Operate(old(stack), old(history), op)
    {
      if |stack| < 2 {
        return Err(StackUnderflow);
      }
      ghost var n := |stack|;
      var num1 := stack[|stack| - 1];
      stack := stack[..|stack| - 1];
      var num2 := stack[|stack| - 1];
      stack := stack[..|stack| - 1];
      assert stack == old(stack)[..n - 2];
      if op == Div && num2 == 0 {
        stack := stack + [num2];
        stack := stack + [num1];
        assert stack == old(stack);
        return Err(DivideByZero);
      }
      stack := stack + [Apply(op, num1, num2)];
      history := history + [Entry(OpName(op), [num2, num1])];
      res := Ok;
    }

    method Forward() returns (res: Outcome)
      requires Valid() && !Overflows(State())
      modifies this
      ensures Valid()
      ensures (State(), res) == Step(old(State()))
    {
      ghost var m0 := State();
      var current := CurrentInstruction();
      if current.None? {
        return Err(NoInstructions);
      }
      assert Step(State()) == Execute(State(), Decode(current.value));
      match Decode(current.value) {
        case None =>
          res := Err(InvalidCommand);
        case Some(Push(num)) =>
          stack := stack + [num];
          history := history + [Entry("PUSH", [])];
          res := Ok;
        case Some(Pop) =>
          if |stack| == 0 {
            res := Err(StackUnderflow);
          } else {
            var num := stack[|stack| - 1];
            stack := stack[..|stack| - 1];
            history := history + [Entry("POP", [num])];
            res := Ok;
          }
        case Some(Binary(op)) =>
          res := DoOperation(op);
      }
      if res.Ok? {
        instructions := instructions[1..];
      }
      StepInI32(m0);
    }

    method Run() returns (res: Outcome)
      requires Valid() && RunSafe(State())
      modifies this
      ensures Valid()
      ensures (State(), res) == RunToEnd(old(State()))
    {
      while true
        invariant Valid() && RunSafe(State())
        invariant RunToEnd(State()) == RunToEnd(old(State()))
        decreases |instructions|
      {
        var r := Forward();
        match r {
          case Err(NoInstructions) =>
            return Ok;
          case Err(e) =>
            return Err(e);
          case Ok =>
        }
      }
    }

    method Back() returns (res: Outcome)
      requires Valid() && CanUndo(State())
      modifies this
      ensures Valid()
      ensures (State(), res) == Undo(old(State()))
    {
      if |history| == 0 {
        return Err(NoInstructions);
      }
      ghost var m := State();
      var entry := history[|history| - 1];
      history := history[..|history| - 1];
      if entry.name == "PUSH" {
        var top := stack[|stack| - 1];
        stack := stack[..|stack| - 1];
        instructions := [entry.name + " " + IntToString(top)] + instructions;
        res := Ok;
      } else if entry.name == "POP" {
        instructions := [entry.name] + instructions;
        stack := stack + [entry.args[0]];
        res := Ok;
      } else if IsOpName(entry.name) {
        instructions := [entry.name] + instructions;
        if |stack| > 0 {
          stack := stack[..|stack| - 1];
        }
        assert stack == DropLast(m.stack);
        stack := stack + [entry.args[0]];
        stack := stack + [entry.args[1]];
        assert stack == DropLast(m.stack) + [entry.args[0], entry.args[1]];
        res := Ok;
      } else {
        res := Err(InvalidCommand);
      }
      UndoInI32(m);
    }
  }
}
