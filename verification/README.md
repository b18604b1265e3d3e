# Verified models of the fmi-rust course solutions

This project models in Dafny the core of five small Rust programs from a
course repository, and proves what each of them computes.

- **Reversible stack machine** (`stack_machine.dfy`, module
  `ReversibleInterpreter`).
  - An `Interpreter` holds three things: a queue of textual instructions
    (`PUSH n`, `POP`, `ADD`, `SUB`, `MUL`, `DIV`), a stack of `i32` values
    and an undo history.
  - `Forward`, `Run` and `Back` update these fields in place. They are
    proved against the value-level functions `Step`, `RunToEnd` and `Undo`.
  - The lemmas about those functions state three things: an error changes
    nothing, `back` undoes a successful `forward`, and a `forward` after a
    `back` replays the undone step.
  - Instructions are taken apart with Rust's `trim` and `split(' ')`, which
    are modelled in `text.dfy` (module `Text`).
- **Sign-and-magnitude big integer** (`bigint.dfy`, module `SignedBigint`).
  - A `Bigint` is a sign and a little-endian vector of decimal digits.
  - `Value` reads a `Bigint` as the integer it stands for.
  - `FromStr`, `Cmp`, `Add` and `Sub` are loops over the digits. They are
    proved to agree with integer parsing, order, sum and difference.
  - They also keep values canonical. In a canonical value there is no
    most-significant zero, and zero has sign `+1`.
- **S-expression reader** of the Scheme interpreter.
  - `scheme_data.dfy` (module `SchemeData`) holds the `Data` value.
  - `scheme_reader.dfy` (module `SchemeReader`) holds the reader.
  - The `Parser` class reads by recursive descent over a token array with a
    mutable position. It is proved against the functions `Parse` and
    `Items`.
  - `ReadForm` proves that the reader returns a form's `Meaning` from the
    tokens that spell the form. `Meaning` is an independent account of how
    quoting and the `NULL_SYM` sentinel shape the value.
  - `ParsedForm` is the converse: every successful read has read some form.
    So a read fails exactly when no form is spelled from its position. This
    covers an error token or an unclosed `(` at any depth (`NoErrorInRead`,
    `UnbalancedRead`).
- **Digit-grouping formatter** (`digit_display.dfy`, module `DigitDisplay`).
  - It parses a digit string and renders it plainly, or with a comma between
    groups of three digits.
  - Proved properties:
    - the plain rendering gives back the parsed text;
    - taking the commas out of the delimited rendering gives the plain one;
    - an `n`-digit number gets `(n-1)/3` commas;
    - the delimited rendering has no comma at either end.
- **FizzBuzz**, in two forms:
  - `fizzbuzz.dfy` (module `FizzBuzz`): a list builder with two divisors and
    a three-slot label array that can be overwritten in place;
  - `fizzbuzz_iter.dfy` (module `FizzBuzzIter`): an endless iterator with a
    counter.
  - `ItemIsEntry` proves that both follow the same rule.

Shared helpers:
- `options.dfy` holds `Option`.
- `decimal.dfy` (module `Decimal`) holds digit characters, the values of
  digit strings and `to_string()` for integers.

## Model

| member | source | states |
|---|---|---|
| Decimal.DigitValue | tasks/02-bigint/solution/src/lib.rs:48 | the value of an ASCII digit character is below 10 |
| Decimal.NatToString | tasks/01-fizzbuzz/solution/src/lib.rs:50 | `to_string()` of an unsigned number is a non-empty digit string that starts with `0` only for 0 |
| Decimal.NatToStringRoundTrip | tasks/01-fizzbuzz/solution/src/lib.rs:50 | reading the rendered digits back gives the number |
| Decimal.DecimalValueLeadingZero | tasks/03-reversible-interpreter/solution/src/lib.rs:101 | a leading zero does not change the value of a digit string |
| Decimal.IntToString | tasks/03-reversible-interpreter/solution/src/lib.rs:165 | `to_string()` of an `i32` starts with `-` exactly for negatives, and is all digits otherwise |
| Text.TrimStart | tasks/03-reversible-interpreter/solution/src/lib.rs:88 | the result is a suffix, only white space was dropped, and it does not start with white space |
| Text.TrimEnd | tasks/03-reversible-interpreter/solution/src/lib.rs:88 | the result is a prefix, only white space was dropped, and it does not end with white space |
| Text.Trim | tasks/03-reversible-interpreter/solution/src/lib.rs:88 | `str::trim` is the slice that starts after the leading white space and is followed only by white space, with no white space at either end |
| Text.TrimUnchanged | tasks/03-reversible-interpreter/solution/src/lib.rs:88 | text with no white space at either end is its own trim |
| Text.Split | tasks/03-reversible-interpreter/solution/src/lib.rs:88 | `split(' ')` gives at least one piece, and no piece holds the separator |
| Text.SplitJoin | tasks/03-reversible-interpreter/solution/src/lib.rs:88 | joining the pieces with the separator gives the text back |
| Text.SplitNoSeparator | tasks/03-reversible-interpreter/solution/src/lib.rs:88 | text without the separator splits into itself alone |
| Text.SplitAfterWord | tasks/03-reversible-interpreter/solution/src/lib.rs:88 | a word, the separator and a rest split into the word followed by the pieces of the rest |
| ReversibleInterpreter.ParseI32 | tasks/03-reversible-interpreter/solution/src/lib.rs:101 | `parse::<i32>()` accepts exactly an optional `+` or `-` followed by at least one ASCII digit whose signed value fits in 32 bits, and returns that signed value |
| ReversibleInterpreter.ParseI32Plus | tasks/03-reversible-interpreter/solution/src/lib.rs:101 | an explicit `+` in front of an unsigned numeral does not change what is parsed |
| ReversibleInterpreter.ParseI32LeadingZero | tasks/03-reversible-interpreter/solution/src/lib.rs:101 | a leading zero, after a sign or without one, does not change what is parsed |
| ReversibleInterpreter.ParseI32RoundTrip | tasks/03-reversible-interpreter/solution/src/lib.rs:165 | every `i32` rendered by `to_string()` parses back to itself |
| ReversibleInterpreter.NamedOp | tasks/03-reversible-interpreter/solution/src/lib.rs:127 | the four opcodes name exactly the four operations |
| ReversibleInterpreter.OpNameIsOpName | tasks/03-reversible-interpreter/solution/src/lib.rs:127 | each operation's name maps back to it and is neither `PUSH` nor `POP` |
| ReversibleInterpreter.Decode | tasks/03-reversible-interpreter/solution/src/lib.rs:88-136 | a decoded `PUSH` carries an `i32` operand |
| ReversibleInterpreter.DecodeWords | tasks/03-reversible-interpreter/solution/src/lib.rs:95-135 | the decision on the split pieces yields only in-range `PUSH` operands |
| ReversibleInterpreter.Render | tasks/03-reversible-interpreter/solution/src/lib.rs:165-176 | the text `back` puts in the queue is non-empty with no white space at either end, so `trim` keeps it, and holds a space exactly for `PUSH` |
| ReversibleInterpreter.DecodeRender | tasks/03-reversible-interpreter/solution/src/lib.rs:164-181 | the text `back` puts in the queue for any command decodes to that command |
| ReversibleInterpreter.PushWithoutOperand | tasks/03-reversible-interpreter/solution/src/lib.rs:97-99 | `PUSH` with no operand is invalid |
| ReversibleInterpreter.OperandNotExpected | tasks/03-reversible-interpreter/solution/src/lib.rs:113-130 | `POP` and the four operations followed by an operand are invalid |
| ReversibleInterpreter.UnknownOpcode | tasks/03-reversible-interpreter/solution/src/lib.rs:135 | a first word that is none of the six opcodes is invalid, alone or with more words |
| ReversibleInterpreter.PushOperand | tasks/03-reversible-interpreter/solution/src/lib.rs:97-110 | `PUSH` with one operand is accepted exactly when `parse::<i32>` accepts the operand in any of its forms (`+5`, `007`, `-0`), and then pushes its value; otherwise it is invalid |
| ReversibleInterpreter.PushExtraOperand | tasks/03-reversible-interpreter/solution/src/lib.rs:97-99 | `PUSH` followed by two or more operands is invalid |
| ReversibleInterpreter.TruncDiv | tasks/03-reversible-interpreter/solution/src/lib.rs:68 | the quotient rounds toward zero: the remainder takes the dividend's sign and is smaller than the divisor |
| ReversibleInterpreter.Apply | tasks/03-reversible-interpreter/solution/src/lib.rs:59-68 | the division rounds toward zero: the quotient is no larger than the dividend, positive only for operands of one sign, and as large as the dividend only for a divisor of 1 or -1 |
| ReversibleInterpreter.DivOverflow | tasks/03-reversible-interpreter/solution/src/lib.rs:68 | of all `i32` divisions, only `i32::MIN / -1` leaves the `i32` range |
| ReversibleInterpreter.Operate | tasks/03-reversible-interpreter/solution/src/lib.rs:52-76 | underflow exactly below two values, and division by zero exactly for a zero second value; either error leaves stack and history as they were; success replaces the two top values by one and records the operands in the history |
| ReversibleInterpreter.Execute | tasks/03-reversible-interpreter/solution/src/lib.rs:93-143 | once the front is decoded: an error leaves the machine unchanged; `InvalidCommand` exactly for an undecodable front; success removes the front and appends one history record; the history stays well formed |
| ReversibleInterpreter.Step | tasks/03-reversible-interpreter/solution/src/lib.rs:79-144 | any error leaves the machine unchanged; `NoInstructions` exactly on an empty queue; `InvalidCommand` exactly for an undecodable front; success removes the front and appends one history record; the history stays well formed |
| ReversibleInterpreter.BinaryStepResult | tasks/03-reversible-interpreter/solution/src/lib.rs:56-68 | a successful binary step leaves `num1 op num2` on top of the rest of the stack |
| ReversibleInterpreter.Undo | tasks/03-reversible-interpreter/solution/src/lib.rs:158-191 | `NoInstructions` exactly on an empty history; otherwise the last record is dropped, and on success one instruction goes to the front of the queue |
| ReversibleInterpreter.UndoPushRecord | tasks/03-reversible-interpreter/solution/src/lib.rs:164-167 | `back` on a `PUSH` record takes the pushed value off and puts `PUSH <value>` in front |
| ReversibleInterpreter.UndoPopRecord | tasks/03-reversible-interpreter/solution/src/lib.rs:169-173 | `back` on a `POP` record puts the popped value back and `POP` in front |
| ReversibleInterpreter.UndoBinaryRecord | tasks/03-reversible-interpreter/solution/src/lib.rs:175-181 | `back` on an operation record replaces the result by both operands in their order and puts the opcode in front |
| ReversibleInterpreter.UndoAfterPush | tasks/03-reversible-interpreter/solution/src/lib.rs:164-167 | undoing a `PUSH` restores the machine, with `PUSH <value>` at the front |
| ReversibleInterpreter.UndoAfterPop | tasks/03-reversible-interpreter/solution/src/lib.rs:169-173 | undoing a `POP` restores the machine, with `POP` at the front |
| ReversibleInterpreter.PopStep | tasks/03-reversible-interpreter/solution/src/lib.rs:113-125 | `POP` on an empty stack is a `StackUnderflow` that changes nothing; otherwise it drops the top value, records it in the history and removes the instruction |
| ReversibleInterpreter.UndoAfterBinary | tasks/03-reversible-interpreter/solution/src/lib.rs:175-181 | undoing an operation restores both operands in their order, with the opcode at the front |
| ReversibleInterpreter.UndoAfterStep | tasks/03-reversible-interpreter/solution/src/lib.rs:158-181 | `back` after a successful `forward` restores stack and history and puts the rendered command back at the front |
| ReversibleInterpreter.StepDependsOnDecoded | tasks/03-reversible-interpreter/solution/src/lib.rs:88-136 | `forward` depends only on the decoded front, the rest of the queue, the stack and the history |
| ReversibleInterpreter.StepAfterUndo | tasks/03-reversible-interpreter/solution/src/lib.rs:158-181 | `forward` after `back` after `forward` replays exactly the first step |
| ReversibleInterpreter.OperateInI32 | tasks/03-reversible-interpreter/solution/src/lib.rs:52-76 | a binary operation stores only its two `i32` operands and an in-range result |
| ReversibleInterpreter.ExecuteInI32 | tasks/03-reversible-interpreter/solution/src/lib.rs:93-143 | a decoded command with an `i32` operand leaves every stored value within `i32` |
| ReversibleInterpreter.StepInI32 | tasks/03-reversible-interpreter/solution/src/lib.rs:97-133 | `forward` keeps every value on the stack and in the undo records within `i32` |
| ReversibleInterpreter.UndoInI32 | tasks/03-reversible-interpreter/solution/src/lib.rs:158-191 | `back` keeps every value on the stack and in the undo records within `i32` |
| ReversibleInterpreter.RunToEnd | tasks/03-reversible-interpreter/solution/src/lib.rs:147-155 | `Ok` only with an empty queue; an error is never `NoInstructions` and leaves its failing instruction at the front; the remaining queue is a suffix of the original one |
| ReversibleInterpreter.Interpreter.constructor | tasks/03-reversible-interpreter/solution/src/lib.rs:22-24 | empty queue, stack and history |
| ReversibleInterpreter.Interpreter.AddInstructions | tasks/03-reversible-interpreter/solution/src/lib.rs:27-31 | the instructions are appended in order; stack, history and the class invariant are not touched |
| ReversibleInterpreter.Interpreter.CurrentInstruction | tasks/03-reversible-interpreter/solution/src/lib.rs:34-49 | `None` exactly for an empty queue, otherwise its front |
| ReversibleInterpreter.Interpreter.DoOperation | tasks/03-reversible-interpreter/solution/src/lib.rs:52-76 | the in-place stack and history end as `Operate` says |
| ReversibleInterpreter.Interpreter.Forward | tasks/03-reversible-interpreter/solution/src/lib.rs:79-144 | the fields and the result are those of `Step` on the old fields |
| ReversibleInterpreter.Interpreter.Run | tasks/03-reversible-interpreter/solution/src/lib.rs:147-155 | the fields and the result are those of `RunToEnd` on the old fields |
| ReversibleInterpreter.Interpreter.Back | tasks/03-reversible-interpreter/solution/src/lib.rs:158-191 | the fields and the result are those of `Undo` on the old fields |
| SignedBigint.Flip | tasks/02-bigint/solution/src/lib.rs:91 | `reverse` swaps `Less` and `Greater` and keeps `Equal` |
| SignedBigint.New | tasks/02-bigint/solution/src/lib.rs:16-18 | `new()` is canonical and stands for 0 |
| SignedBigint.IsPositive | tasks/02-bigint/solution/src/lib.rs:20-22 | true exactly when the value is above 0, so false for both zeros |
| SignedBigint.IsNegative | tasks/02-bigint/solution/src/lib.rs:24-26 | true exactly when the value is below 0, so false for both zeros |
| SignedBigint.Neg | tasks/02-bigint/solution/src/lib.rs:192-194 | the value is negated; a canonical non-zero stays canonical |
| SignedBigint.NegativeZero | tasks/02-bigint/solution/src/lib.rs:192-194 | negating `new()` gives a zero with sign −1 that is not `==` to `new()` |
| SignedBigint.CanonicalIsZero | tasks/02-bigint/solution/src/lib.rs:20-26 | a well-formed value is 0 exactly when its digits are `[0]`, whatever its sign |
| SignedBigint.CanonicalUnique | tasks/02-bigint/solution/src/lib.rs:8 | canonical values are `==` exactly when they stand for the same integer |
| SignedBigint.Reverse | tasks/02-bigint/solution/src/lib.rs:58 | `reverse` keeps the length; `ReverseIndex` says where each entry goes |
| SignedBigint.MagInjective | tasks/02-bigint/solution/src/lib.rs:11 | digit vectors without a most-significant zero spell different numbers |
| SignedBigint.ReverseIndex | tasks/02-bigint/solution/src/lib.rs:58 | `reverse` puts entry `i` at position `len-1-i` |
| SignedBigint.ReverseTextValue | tasks/02-bigint/solution/src/lib.rs:58 | digits read in text order have, once reversed, the little-endian magnitude of the same number |
| SignedBigint.PrefixMagnitudeValue | tasks/02-bigint/solution/src/lib.rs:40-48 | the digits among the first `i` characters of a numeral spell the value of its unsigned first `i` characters |
| SignedBigint.ReadChar | tasks/02-bigint/solution/src/lib.rs:41-51 | a character is accepted exactly when it is a digit or a sign in front, and then the sign, the significant digits and their value are those of the longer prefix |
| SignedBigint.ParsedDigits | tasks/02-bigint/solution/src/lib.rs:55-60 | no significant digit means the numeral is 0; otherwise the reversed digits with the sign form a canonical value equal to the numeral's |
| SignedBigint.FromStr | tasks/02-bigint/solution/src/lib.rs:36-61 | success exactly for an optional leading sign followed by ASCII digits; the result is canonical and stands for the numeral's value |
| SignedBigint.ZeroNumerals | tasks/02-bigint/solution/src/lib.rs:55-56 | every canonical zero is `new()`, so `-0`, `+0`, `000` and the empty text all parse to it |
| SignedBigint.Order | tasks/02-bigint/solution/src/lib.rs:73-99 | equal values compare `Equal`, and `Equal` means the same sign and the same magnitude |
| SignedBigint.OrderFlip | tasks/02-bigint/solution/src/lib.rs:73-99 | swapping the operands reverses the order |
| SignedBigint.OrderIsIntegerOrder | tasks/02-bigint/solution/src/lib.rs:73-99 | on canonical values the order is the order of the integers |
| SignedBigint.OrderEqual | tasks/02-bigint/solution/src/lib.rs:73-99 | `Equal` exactly for `==` values |
| SignedBigint.NegativeZeroBelowZero | tasks/02-bigint/solution/src/lib.rs:75 | the negative zero sorts below `new()` although both stand for 0 |
| SignedBigint.Cmp | tasks/02-bigint/solution/src/lib.rs:73-99 | the sign, length and top-down digit scan computes the order |
| SignedBigint.CarryOver | tasks/02-bigint/solution/src/lib.rs:119-128 | the magnitude is kept; the position keeps its last digit and passes the carry on, or grows the vector by a top `1` |
| SignedBigint.AddPosition | tasks/02-bigint/solution/src/lib.rs:131-134 | one position of the loop keeps the loop's state: single digits below, untouched digits above, and the added digits counted in the magnitude |
| SignedBigint.AddedAll | tasks/02-bigint/solution/src/lib.rs:130-137 | after the last position the vector is well formed and its magnitude is the sum |
| SignedBigint.AddDigits | tasks/02-bigint/solution/src/lib.rs:110-137 | the digit-wise sum with carries is a well-formed vector whose magnitude is the sum |
| SignedBigint.Add | tasks/02-bigint/solution/src/lib.rs:106-138 | the value is the integer sum; canonical operands give a canonical result |
| SignedBigint.Borrow | tasks/02-bigint/solution/src/lib.rs:163-173 | the borrow loop turns every entry into a digit, keeps the magnitude and leaves the lower positions alone |
| SignedBigint.PopZeros | tasks/02-bigint/solution/src/lib.rs:176-178 | popping top zeros keeps the magnitude and leaves a prefix with no top zero |
| SignedBigint.SubtractDigits | tasks/02-bigint/solution/src/lib.rs:162-178 | the digits of the smaller magnitude taken from the larger give their difference, with no top zero |
| SignedBigint.Sub | tasks/02-bigint/solution/src/lib.rs:146-184 | the value is the integer difference; operands of one sign always give a canonical result, and canonical operands do too |
| SchemeData.FromStringQuoted | final-project/scheme-interpreter/src/interpreter.rs:58-60 | a childless value with the given kind, text and quote level |
| SchemeData.FromString | final-project/scheme-interpreter/src/interpreter.rs:54-56 | `from_string_quoted` at level 0 |
| SchemeData.New | final-project/scheme-interpreter/src/interpreter.rs:50-52 | an unquoted `Invalid` value with no text |
| SchemeData.NewList | final-project/scheme-interpreter/src/interpreter.rs:62-64 | an empty unquoted `List` |
| SchemeData.NullSym | final-project/scheme-interpreter/src/interpreter.rs:31 | `NULL_SYM` is what `from_string_quoted` builds for a textless `Symbol` at quote level 1 |
| SchemeReader.ListValue | final-project/scheme-interpreter/src/parser.rs:85-126 | the sentinel rule: `NULL_SYM` exactly for the empty list at level 1; a quoted list is a `Symbol` at its level and gets `NULL_SYM` appended when non-empty; an unquoted one is a `List` and never gets it |
| SchemeReader.Parse | final-project/scheme-interpreter/src/parser.rs:64-144 | the position never goes back and stays within the tokens; a success leaves it on a token |
| SchemeReader.ParseShape | final-project/scheme-interpreter/src/parser.rs:64-144 | at or past the end the result is `None` and the position stays; `)` and error tokens give `None`; a success ends on a leaf or a `)` and carries at least the current level; quoted values hold no `Variable` or `List` |
| SchemeReader.ListValueQuoted | final-project/scheme-interpreter/src/parser.rs:116-126 | a quoted list of quoted children is quoted, `NULL_SYM` included |
| SchemeReader.Items | final-project/scheme-interpreter/src/parser.rs:91-114 | the loop over the children never moves back and stays within the tokens |
| SchemeReader.ItemsShape | final-project/scheme-interpreter/src/parser.rs:91-114 | a success stops on a `)`, keeps the children read before, and keeps quoted children quoted |
| SchemeReader.ItemsAfterChild | final-project/scheme-interpreter/src/parser.rs:98-108 | after a child that reads as `d` and ends on token `k`, the loop goes on at `k + 1` with `d` appended |
| SchemeReader.ReadForm | final-project/scheme-interpreter/src/parser.rs:64-127 | the tokens of a well-bracketed form read as that form's meaning, and the reader stops on its last token |
| SchemeReader.ReadGroup | final-project/scheme-interpreter/src/parser.rs:91-109 | the members of a group, followed by `)`, read as their meanings, and the reader stops on the `)` |
| SchemeReader.ReadList | final-project/scheme-interpreter/src/parser.rs:83-127 | a `(`, the members of a group and a `)` read as the list value of their meanings, stopping on the `)` |
| SchemeReader.UnclosedItems | final-project/scheme-interpreter/src/parser.rs:93-113 | members that run to the end with no `)` make the list fail |
| SchemeReader.UnclosedBracket | final-project/scheme-interpreter/src/parser.rs:93-113 | a `(` followed by complete forms that run to the end of the tokens reads as nothing |
| SchemeReader.ReadWholeForm | final-project/scheme-interpreter/src/parser.rs:64-144 | the tokens of a form alone read as its meaning and leave the reader on their last token |
| SchemeReader.ParsedForm | final-project/scheme-interpreter/src/parser.rs:64-144 | a successful read has read a form: the tokens from the read position spell it, the value is its meaning, and the reader stops on its last token |
| SchemeReader.ItemsForms | final-project/scheme-interpreter/src/parser.rs:93-109 | a successful members' loop has read a run of forms, appends their meanings and stops right after them |
| SchemeReader.ReadSucceedsIffForm | final-project/scheme-interpreter/src/parser.rs:64-144 | a read succeeds exactly when the tokens from the read position spell a form |
| SchemeReader.NoErrorInRead | final-project/scheme-interpreter/src/parser.rs:64-144 | an error token anywhere in the stretch a read covers, at any depth, makes the read fail |
| SchemeReader.ReadBalanced | final-project/scheme-interpreter/src/parser.rs:93-114 | a successful read consumes as many `(` as `)` |
| SchemeReader.UnbalancedRead | final-project/scheme-interpreter/src/parser.rs:104-113 | a `(` never closed at any depth makes the read fail: when no stretch from the read position holds as many `)` as `(`, the result is nothing |
| SchemeReader.Parser.constructor | final-project/scheme-interpreter/src/parser.rs:46-48 | no tokens, and the position at 0 |
| SchemeReader.Parser.Load | final-project/scheme-interpreter/src/parser.rs:50-61 | the tokens are replaced and the position goes back to 0 |
| SchemeReader.Parser.ParseNext | final-project/scheme-interpreter/src/parser.rs:64-144 | the value and the new position are those `Parse` gives, and the tokens stay |
| SchemeReader.Parser.ParseList | final-project/scheme-interpreter/src/parser.rs:85-126 | the list branch, entered past the `(`, returns the value and leaves the position that `Parse` gives from the `(` |
| SchemeReader.Parser.Next | final-project/scheme-interpreter/src/parser.rs:153-157 | one form read at level 0, after which the position moves on by one whatever the result |
| DigitDisplay.FromStr | challenges/03-bigint-display/solution/src/lib.rs:16-28 | success exactly when every character is a decimal digit; one digit per character, in text order |
| DigitDisplay.Format | challenges/03-bigint-display/solution/src/lib.rs:33-42 | writes the plain rendering |
| DigitDisplay.FormatDelimited | challenges/03-bigint-display/solution/src/lib.rs:59-76 | writes the delimited rendering |
| DigitDisplay.FormatParsed | challenges/03-bigint-display/solution/src/lib.rs:34-39 | the plain rendering of a parsed text is that text |
| DigitDisplay.DelimitedWithoutCommas | challenges/03-bigint-display/solution/src/lib.rs:60-73 | taking the commas out of the delimited rendering gives the plain one |
| DigitDisplay.MarksBeforeCount | challenges/03-bigint-display/solution/src/lib.rs:62-63 | among the first `k` digits, one in three counted from the right is followed by a comma |
| DigitDisplay.DelimitedCommaCount | challenges/03-bigint-display/solution/src/lib.rs:62-69 | `n >= 1` digits get `(n-1)/3` commas, and up to three digits print unchanged |
| DigitDisplay.DelimitedEnds | challenges/03-bigint-display/solution/src/lib.rs:62-69 | the delimited rendering neither starts nor ends with a comma |
| FizzBuzz.EntryIsDecimalText | tasks/01-fizzbuzz/solution/src/lib.rs:37-51 | with non-numeric labels an entry is a numeral exactly when neither divisor divides its position, and it then spells the position |
| FizzBuzz.Entry | tasks/01-fizzbuzz/solution/src/lib.rs:37-51 | the third label when both divisors divide the position, the second when only `k2` does, the first when only `k1` does, and the decimal text of the position otherwise |
| FizzBuzz.DefaultLabelsAreWords | tasks/01-fizzbuzz/solution/src/lib.rs:10-14 | the default labels are three non-numerals |
| FizzBuzz.FizzBuzzer.constructor | tasks/01-fizzbuzz/solution/src/lib.rs:7-15 | the divisors and the three labels are stored as given |
| FizzBuzz.FizzBuzzer.Take | tasks/01-fizzbuzz/solution/src/lib.rs:28-56 | exactly `n` entries, entry `i` classified by the divisors; nothing is modified |
| FizzBuzz.FizzBuzzer.ChangeLabel | tasks/01-fizzbuzz/solution/src/lib.rs:59-64 | only the indexed label is replaced |
| FizzBuzz.CustomBuzz | tasks/01-fizzbuzz/solution/src/lib.rs:6-16 | the first `n` entries for the given divisors and the default labels |
| FizzBuzz.FizzBuzz | tasks/01-fizzbuzz/solution/src/lib.rs:1-3 | the first `n` entries for divisors 3 and 5 and the default labels |
| FizzBuzz.DivisibleByFifteen | challenges/02-fizzbuzz/solution/src/lib.rs:31-34 | divisible by both 3 and 5 exactly when divisible by 15 |
| FizzBuzz.ClassicRule | tasks/01-fizzbuzz/solution/src/lib.rs:1-3 | with divisors 3 and 5: multiples of 15 get the third label, other multiples of 5 the second, other multiples of 3 the first |
| FizzBuzzIter.ItemIsEntry | challenges/02-fizzbuzz/solution/src/lib.rs:31-42 | the iterator's item for count `k` is the list builder's entry `k` for divisors 3 and 5, and follows the classic rule |
| FizzBuzzIter.Item | challenges/02-fizzbuzz/solution/src/lib.rs:31-42 | the iterator's item for count `k` is the list builder's entry `k` for divisors 3 and 5 |
| FizzBuzzIter.FizzBuzzerIter.constructor | challenges/02-fizzbuzz/solution/src/lib.rs:13-15 | the iterator refers to the given labels and starts its count at 0 |
| FizzBuzzIter.FizzBuzzerIter.Next | challenges/02-fizzbuzz/solution/src/lib.rs:28-43 | the count moves on by exactly one and its item is always produced, never `None` |

## Left out

- Console I/O is not modelled: the REPL in `final-project/scheme-interpreter/src/main.rs`, `print_error` and its `println!` diagnostics. The reader keeps only the `None` result.
- The evaluator and the environment are not part of this model. `Environment` is an empty struct in `interpreter.rs`, and `Environment::new` and `eval`, which `main.rs` calls, are not defined in that file.
- The logos lexer (the token regexes of `parser.rs`) is a foreign macro library. The reader takes the token sequence as input, which is why `Load` takes tokens rather than text. The `Skip` token is never produced, so the `Token` datatype has no such variant.
- The `procedure` function-pointer field of `Data` and the `Debug` formatting are left out. They are opaque closures and debug output.
- `SchemeData.Data.quoteLevel` is a `nat`. The `u16` overflow after 65535 nested quotes is not modelled.
- SchemeReader.Parser.ParseList: the source checks, after each child, whether the position ran past the end (parser.rs:104-106). That check is left out: `Parse` proves that a successful child leaves the position on one of its own tokens, so it cannot fire.
- ReversibleInterpreter.Interpreter.Forward: `i32` overflow of `+`, `-` and `*` panics in debug builds and wraps in release builds; `i32::MIN / -1` panics in both (`DivOverflow`). Here overflow is excluded either way by a precondition (`Overflows`), and `Run` requires that no step of the run overflows (`RunSafe`).
- ReversibleInterpreter.Interpreter.Back: the source panics when the stack is empty while undoing a `PUSH`. Here that is excluded by the precondition `CanUndo`.
- The `instr_vec.is_empty()` branch of `forward` (lib.rs:90-91) is not modelled: `split` never yields an empty vector.
- The `_` arm of `do_operation` (lib.rs:71) is not modelled: `DoOperation` takes one of the four operations.
- `current_instruction` hands out a mutable reference to the front instruction. Aliasing is not modelled, so both accessors are one function.
- SignedBigint digits and signs are unbounded integers rather than `i8`. No entry ever leaves `-10..19`, so no wrap-around is possible.
- DigitDisplay digits are `nat` rather than `u8`. The renderings are stated for any entries; the comma count and round trip are stated for single digits.
- The `fmt::Formatter` error propagation in both `Display` impls is left out. The output is modelled as a string.
- The `Cow` borrowed/owned distinction of the FizzBuzz iterator is left out.
- FizzBuzzIter.FizzBuzzerIter.Next: the `usize` counter is unbounded here. Overflow after 2^64 calls is not modelled.
- FizzBuzz.FizzBuzzer.Take and FizzBuzz.FizzBuzzer.ChangeLabel: the panics for divisors 0 and 1 and for a label index above 2 are preconditions.
