# A verified model of the FALSE interpreter

FALSE is a tiny stack language. This project models the C interpreter of
the language:

- the scanner and dispatcher of `src/false.c`;
- the token stack of `src/stack.c`;
- the 26 variable cells of `src/storage.c`;
- tokens and their printing, in `src/token.c`;
- slices, in `src/slice.c`;
- the host helpers in `interpreter.c`: `position_of`, `skip_magic`, `drop`, and the `--input` buffer behind `input`/`flush`.

The interpreter works on these pieces of state:

- **The program text.** A C string, read as UTF-8.
- **Slices of the text.** `process` walks one slice, one decoded character at a time. Its `state` variable tracks number, comment, character, string and lambda-capture modes. It otherwise dispatches the character as an operator.
- **Tokens.** A token is a number, a variable or a lambda (a slice of the text).
- **Variables.** `a`..`z` are cells holding tokens.
- **The host.** Host callbacks receive output, and `^` reads input from the host.

A fatal error `longjmp`s back to `interpret`, which then returns 1.

## How the model is built

The model has two layers.

**Specification functions.** These are pure functions over an explicit machine state:

- `StackSpec`;
- `StorageSpec`;
- `FalseSpec`: `Dispatch`, `DispatchExtended`, `Step`, `Scan`, `Process` and `Interpret`.

A fatal error is an `Outcome` value. It carries the error kind and the cursor position handed to the host, and every caller passes it straight up.

**Imperative classes.** These keep the source's form:

- `Stacks.Stack`, whose methods reassign the token sequence;
- `Storages.Storage`, which holds the 26 cells in an array;
- `Host.HostInput`, the `buffered_input` pointer;
- `FalseImpl.Machine`, whose `Process` loop carries `width` and the mode as `process` does.

Each of their methods is proved to produce exactly what the matching specification function does. `FalseImpl.Interpret` runs the argument-binding loop and is proved equal to `FalseSpec.Interpret`.

**Properties.** The meaning of the operators and of the scanner is proved as lemmas:

- `FalseSpec`, for the arithmetic;
- `StackSpec`, for the stack diagrams;
- `FalseProperties`, for scanning, control flow and argument binding;
- `OperatorProperties`, for the one-operand, input, flush, depth and assertion operators and the literal modes;
- `ProgramRuns`, for one-character scan steps and the whole run of `1a:a;.`;
- `Locale` and `CLib`, for the library services.

**Modelling choices.**

- **C `int`.** It is the subset type `MachineInt.Int32`. Every place the C code can overflow wraps modulo 2^32 explicitly: `+ - * _`, number literals, `(int)strtol`, `(int)stack_size()`, `<<` and `INT_MIN / -1`.
- **Locale.** `mbrtowc`, `iswspace`, `iswdigit`, `iswlower` and `islower` are modelled for a UTF-8 locale, as used by the interpreter's tests. The decoder follows section 3 of RFC 3629.
- **Non-termination.** A FALSE program need not terminate. So running a lambda, and each round of `#`, spends one unit of a `fuel` argument. Running out is the `OutOfFuel` outcome, which the C program never produces.

## Model

| member | source | states |
|---|---|---|
| MachineInt.Wrap | src/false.c:120-128 | the 32-bit result of an overflowing `+`, `-` or `*` is congruent to the exact result modulo 2^32 and equals it when it fits |
| MachineInt.Truth | src/false.c:49-56 | the language's truth values: -1 for true and 0 for false, nonzero exactly for true |
| MachineInt.TruncDivision | src/false.c:262-269 | `div()` and `/` truncate toward zero: x = q*y + r, with the remainder smaller than the divisor and of the dividend's sign |
| MachineInt.TruncDiv | src/false.c:133 | `/` and the quotient of `div()` (src/false.c:266-268) round toward zero: a nonzero quotient is negative exactly when the operands' signs differ, and a dividend smaller than the divisor in magnitude gives 0 |
| MachineInt.TruncRem | src/false.c:266-268 | the remainder of `div()` differs from the dividend by a multiple of the divisor, and is the dividend itself when that is smaller than the divisor in magnitude |
| MachineInt.BitNot | src/false.c:152-154 | `~x` is -x-1 in two's complement |
| MachineInt.BitAnd | src/false.c:138-140 | `x & y`: each of the 32 bits of the result is set exactly when that bit is set in both operands |
| MachineInt.BitOr | src/false.c:141-143 | bitwise or of x and y: each of the 32 bits of the result is set exactly when that bit is set in either operand |
| MachineInt.BitXor | src/false.c:277-278 | `⊻` (`x ^ y`): each of the 32 bits of the result is set exactly when the operands' bits at that position differ |
| MachineInt.BitIdentities | src/false.c:138-143 | on 32-bit patterns, and with -1 is the identity, or with 0 is the identity, and exclusive or of a value with itself is 0 (the ⊻ operator, src/false.c:277-278) |
| MachineInt.ShiftRight | src/false.c:258-261 | `x >> n` for the operands check_shift_operands admits is between 0 and x |
| MachineInt.ShiftLeft | src/false.c:254-257 | `x << n` for the operands check_shift_operands admits: congruent to x*2^n modulo 2^32, and equal to it when that fits an int |
| MachineInt.TruncDivMagnitude | src/false.c:129-134 | the magnitude of C's truncated quotient is the quotient of the magnitudes |
| Slices.Make | src/slice.c:3-11 | slice_make: a null buffer gives the null slice, otherwise the slice spans exactly len bytes from buf |
| Slices.Length | src/slice.c:13-16 | slice_length: the distance from buf to end |
| Slices.LengthOfMake | src/slice.c:3-16 | the length of a made slice is the length it was made with |
| Tokens.MakeNumber | src/token.c:8-14 | token_make_number yields a number token holding the value |
| Tokens.MakeVariable | src/token.c:16-22 | token_make_variable yields a variable token holding the character |
| Tokens.MakeLambda | src/token.c:24-30 | token_make_lambda yields a lambda token holding the slice |
| Tokens.Digits | src/token.c:36-38 | the decimal digits of a number: only digits, no leading zero, "0" for zero |
| Tokens.Decimal | src/token.c:36-38 | `%d`: a minus sign exactly for negative numbers, then the digits of the magnitude |
| Tokens.Print | src/token.c:32-47 | token_print: a number in decimal, a variable as its low eight bits, a lambda as its text between `[` and `]` |
| CLib.StrToL | src/false.c:522-529 | strtol with base 0: consumes no more than the argument, returns a `long`, and 0 when nothing is consumed |
| CLib.IsSpaceByte | src/false.c:525 | the white space strtol skips (isspace in the C locale) agrees on every byte with the interpreter's iswspace |
| CLib.Accumulate | src/false.c:525 | the value of the digit run strtol reads, most significant first; one digit denotes its own value |
| CLib.AccumulateBelowPower | src/false.c:525 | n digits, each below the base, denote less than base^n |
| CLib.Unsigned | src/false.c:525-528 | after the sign, something is consumed exactly when a decimal digit follows (the `0x` and leading-`0` prefixes only choose the base); nothing consumed means the value 0 |
| CLib.SkipSpaces | src/false.c:525 | strtol's leading white space is skipped up to the first non-space byte |
| CLib.Span | src/false.c:525 | the maximal run of digits of the base |
| CLib.Clamp | src/false.c:525 | strtol's overflow rule: clamp to LONG_MIN..LONG_MAX, identity inside |
| CLib.DigitValue | src/false.c:525 | a byte's digit value is at most 36 |
| CLib.StrToLDecimal | src/token.c:36-38 | strtol reads back what `%d` prints, consuming all of it (token_print and argument parsing round-trip) |
| CLib.AccumulateDigits | src/token.c:36-38 | the printed digits of n denote n |
| CLib.SpanToEnd | src/false.c:525 | a string made only of digits is consumed to its end |
| CLib.UnsignedDigits | src/false.c:525 | strtol of a sign and a digit string returns its clamped value and consumes it all |
| CLib.NoDigitsConsumeNothing | src/false.c:525-528 | an argument with no digit at all consumes nothing, so is non-numeric |
| Locale.Decode | src/false.c:335-338 | mbrtowc in UTF-8: at most four bytes, within the slice, width 0 exactly for NUL, only scalar values, ASCII as itself |
| Locale.Encode | src/test_false.c:321 | wcrtomb in UTF-8 writes one to four bytes |
| Locale.DecodeEncoded | src/false.c:335 | decoding the encoding of any scalar value gives the value and its width |
| Locale.EncodeDecoded | src/false.c:335-338 | every accepted sequence is the encoding of the value decoded: only well-formed UTF-8 is accepted |
| Locale.IsDigit | src/false.c:342 | iswdigit (also src/false.c:351): only ASCII digits, never NUL, each with a digit value 0..9 |
| Locale.IsSpace | src/false.c:412 | iswspace: no digit and never NUL is a space, and on ASCII it is exactly space and \t \n \v \f \r |
| Locale.IsWLower | src/false.c:467 | iswlower: a lower-case letter is neither a digit nor a space and lies between `a` and U+00FF |
| Locale.IsLower | src/storage.c:18 | islower in storage_get and storage_set (src/storage.c:26): every such letter is also iswlower, and exactly these letters index one of the 26 cells by c - 'a' |
| StackSpec.Pop | src/stack.c:88-93 | pop: underflow exactly on an empty stack, otherwise the top token and the stack without it |
| StackSpec.Require | src/stack.c:74-79 | require(n): when it holds and n > 0, the n-th token from the top is inside the stack; a requirement of nothing always holds |
| StackSpec.Dup | src/stack.c:81-86 | dup: `( x -- x x )`, underflow on an empty stack |
| StackSpec.Drop | src/stack.c:127-131 | drop: `( x -- )`, underflow on an empty stack |
| StackSpec.Swap | src/stack.c:106-113 | swap: `( x y -- y x )`, underflow exactly below two tokens, and then the stack is left empty because what was popped is gone |
| StackSpec.Rot | src/stack.c:95-104 | rot: `( x y z -- y z x )`, underflow exactly below three tokens, and then the stack is left empty |
| StackSpec.Over | src/stack.c:145-150 | over: `( x y -- x y x )`, underflow below two tokens, stack unchanged |
| StackSpec.Nip | src/stack.c:152-157 | nip: `( x y -- y )` as swap then pop |
| StackSpec.Tuck | src/stack.c:159-165 | tuck: `( x y -- y x y )` as dup, rot, rot |
| StackSpec.TwoDup | src/stack.c:167-173 | 2dup: `( x y -- x y x y )` |
| StackSpec.Pick | src/stack.c:175-180 | pick, corrected: succeeds exactly when 0 <= n < depth and pushes the token n below the top; every other n underflows |
| StackSpec.PopNumber | src/stack.c:189-202 | pop_number: underflow iff empty, type mismatch iff the top is not a number (which is popped anyway), otherwise its value |
| StackSpec.PopVariable | src/stack.c:204-207 | pop_variable, with the same two errors |
| StackSpec.PopLambda | src/stack.c:209-212 | pop_lambda, with the same two errors |
| StackSpec.PickMinusOneReadsPastTop | src/stack.c:175-180 | as written, pick with n = -1 passes `require(n + 1)` on any stack and reads index depth, one past the top |
| StackSpec.PickMinusOneCopiesCount | src/stack.c:175-180 | the slot one past the top still holds the count -1 that was just popped (pop only lowers the depth, src/stack.c:89-93), so as written pick pushes Number(-1) |
| StackSpec.PickGuardAgreesElsewhere | src/stack.c:175-180 | for every other 32-bit n, the C guard passes exactly when the corrected Pick succeeds, and reads the same token |
| StackSpec.SwapTwice | src/stack.c:133-137 | swap is its own inverse |
| StackSpec.RotThrice | src/stack.c:139-143 | three rots restore the stack |
| StackSpec.TuckIsSwapOver | src/stack.c:159-165 | tuck equals swap followed by over |
| StackSpec.TwoDupIsOverOver | src/stack.c:167-173 | 2dup equals over twice |
| StackSpec.PickIsDupAndOver | src/stack.c:175-180 | pick 0 is dup and pick 1 is over |
| Stacks.Stack.constructor | src/stack.c:15-22 | a new stack is empty |
| Stacks.Stack.Init | src/stack.c:15-22 | stack_init empties the stack |
| Stacks.Stack.Empty | src/stack.c:24-27 | stack_empty holds exactly when there are no tokens |
| Stacks.Stack.Size | src/stack.c:29-32 | stack_size is the number of tokens |
| Stacks.Stack.Push | src/stack.c:115-119 | stack_push appends the token on top |
| Stacks.Stack.Pop | src/stack.c:182-187 | stack_pop result and new stack are those of StackSpec.Pop |
| Stacks.Stack.Dup | src/stack.c:121-125 | as StackSpec.Dup |
| Stacks.Stack.Drop | src/stack.c:127-131 | as StackSpec.Drop |
| Stacks.Stack.Swap | src/stack.c:133-137 | as StackSpec.Swap |
| Stacks.Stack.Rot | src/stack.c:139-143 | as StackSpec.Rot |
| Stacks.Stack.Over | src/stack.c:145-150 | as StackSpec.Over |
| Stacks.Stack.Nip | src/stack.c:152-157 | as StackSpec.Nip |
| Stacks.Stack.Tuck | src/stack.c:159-165 | as StackSpec.Tuck |
| Stacks.Stack.TwoDup | src/stack.c:167-173 | as StackSpec.TwoDup |
| Stacks.Stack.Pick | src/stack.c:175-180 | as the corrected StackSpec.Pick |
| Stacks.Stack.PopNumber | src/stack.c:199-202 | as StackSpec.PopNumber |
| Stacks.Stack.PopVariable | src/stack.c:204-207 | as StackSpec.PopVariable |
| Stacks.Stack.PopLambda | src/stack.c:209-212 | as StackSpec.PopLambda |
| StorageSpec.Cleared | src/storage.c:9-14 | storage_clear: 26 cells, each the number 0 |
| StorageSpec.Get | src/storage.c:16-22 | storage_get: 0 through a non-lower-case character, otherwise a stored token |
| StorageSpec.Set | src/storage.c:24-30 | storage_set: ignored through a non-lower-case character, otherwise stores only the given token |
| StorageSpec.GetAfterSet | src/storage.c:16-30 | reading a letter gives what was last written to it; other cells are unaffected |
| Storages.Storage.constructor | src/storage.c:9-14 | the 26 cells start cleared |
| Storages.Storage.Clear | src/storage.c:9-14 | the clearing loop leaves every cell 0 |
| Storages.Storage.Get | src/storage.c:16-22 | as StorageSpec.Get on the array's contents |
| Storages.Storage.Set | src/storage.c:24-30 | the array afterwards is StorageSpec.Set of the array before |
| Host.Newlines | interpreter.c:40-50 | the line count never exceeds the bytes scanned |
| Host.LineStart | interpreter.c:40-50 | the beginning of the line holding pos: at the start or just after a newline, with no newline between it and pos |
| Host.LineEnd | interpreter.c:52-54 | the end of the line holding pos: the next newline or the end of the text |
| Host.PositionOf | interpreter.c:20-57 | position_of: the zero position for a null pointer; otherwise the 1-based line and column and the bounds of the line |
| Host.Find | interpreter.c:142 | strchr: the first occurrence at or after i, if any |
| Host.SkipMagic | interpreter.c:139-148 | skip_magic: skips to the first newline exactly when the text starts with `#!` and has a newline |
| Host.Drop | interpreter.c:176-181 | drop: removes argv[i] from the first argc entries, shifting the rest down |
| Host.SignedChar | interpreter.c:120 | a `char` from the `--input` string as a signed byte |
| Host.Read | interpreter.c:116-127 | input: the `--input` bytes, one newline at their end, then standard input, then EOF |
| Host.Flushed | interpreter.c:129-136 | flush forgets the rest of the `--input` string and keeps standard input |
| Host.ReadMany | interpreter.c:116-127 | k reads give k values |
| Host.SignedChars | interpreter.c:120 | the bytes as signed chars, element by element |
| Host.BufferedThenNewline | interpreter.c:116-127 | reading an `--input` string gives its bytes then exactly one newline, then standard input |
| Host.StdinThenEof | interpreter.c:116-127 | without `--input`, standard input is read in order and then EOF |
| Host.HostInput.constructor | interpreter.c:114 | the buffered input starts as given |
| Host.HostInput.Input | interpreter.c:116-127 | the method's value and new state are those of Host.Read |
| Host.HostInput.Flush | interpreter.c:129-136 | the new state is that of Host.Flushed |
| FalseSpec.Apply | src/false.c:84-103 | a stack operation as an operator: handled exactly when it succeeds, and it creates no lambda |
| FalseSpec.Compare | src/false.c:59-75 | compare: underflow below two tokens, type mismatch for different kinds; equal exactly for equal numbers or variables, never for lambdas; both operands popped |
| FalseSpec.CheckShiftOperands | src/false.c:191-200 | the first undefined shift that applies (negative value, negative count, count of 32 or more), and none exactly when 0 <= x and 0 <= y < 32 |
| FalseSpec.BinaryOp | src/false.c:109-146 | a binary operator fails exactly on a zero divisor or a refused shift, with that error; `÷` pushes two numbers, the others one |
| FalseSpec.BinaryArithmetic | src/false.c:120-128 | `+`, `-`, `*` agree with the exact result modulo 2^32 |
| FalseSpec.BinaryComparison | src/false.c:135-137 | `>`, `<`, `≤`, `≥` push -1 exactly when the relation holds, 0 otherwise (also src/false.c:251-276) |
| FalseSpec.BinaryShift | src/false.c:254-261 | `«` multiplies by 2^y modulo 2^32, `»` divides by 2^y |
| FalseSpec.BinaryDivision | src/false.c:262-270 | `/` and `÷` truncate toward zero: q*y + r = x, the remainder is smaller than the divisor with the dividend's sign; INT_MIN / -1 wraps to INT_MIN |
| FalseSpec.MagnitudeQuotient | src/false.c:129-134 | a quotient of magnitudes fits an int unless the divisor is 1 |
| FalseSpec.QuotientBounds | src/false.c:129-134 | the truncated quotient is at most the dividend in magnitude and the remainder fits |
| FalseSpec.QuotientInRange | src/false.c:262-269 | the quotient fits an int except for INT_MIN / -1; the remainder always fits |
| FalseSpec.Binary | src/false.c:109-146 | a binary operator is never left unhandled and creates no lambda; its stack effect is stated by BinaryPushesResult, BinaryErrorPopsBoth, BinaryNeedsNumberOnTop and BinaryNeedsNumberBelow |
| FalseSpec.Numbers | src/false.c:267-268 | numbers become number tokens in order |
| FalseSpec.Equal | src/false.c:105-107 | `=` and `≠` create no lambda and never leave a character unhandled |
| FalseSpec.Shuffle | src/false.c:84-103 | swap, dup, drop, rot and pick (after popping its count) create no lambda |
| FalseSpec.Unary | src/false.c:148-166 | `_`, `~`, `.`, `,` create no lambda; what each computes is stated through Dispatch by the OperatorProperties lemmas NegateOperator, ComplementOperator, PrintNumberOperator, PrintCharOperator and OneOperandNeedsNumber |
| FalseSpec.Store | src/false.c:173-178 | `:` creates no lambda |
| FalseSpec.Fetch | src/false.c:180-182 | `;` creates no lambda |
| FalseSpec.Dispatch | src/false.c:78-189 | dispatch: a character it does not know comes back unhandled with the state unchanged; each operator's effect is stated by its own lemma (the OperatorProperties rows below, and EqualPushesTruth, StoreThenFetch, DivideByZeroIsFatal, BinaryArithmetic and the stack diagrams) |
| FalseSpec.ExtendedTable | src/false.c:205-289 | the rest of dispatch_extended: an unknown character comes back unhandled with the state unchanged; `§` and `∫` are stated by DepthOperator, AssertOperator and AssertNeedsNumber, `≠` by NotEqualIsComplement |
| FalseSpec.DispatchExtended | src/false.c:290-306 | `¿` and the table keep the state well formed; unknown characters come back unchanged |
| FalseSpec.Call | src/false.c:432-434 | running a lambda keeps the state well formed |
| FalseSpec.While | src/false.c:446-458 | the `#` loop keeps the state well formed |
| FalseSpec.WhileAdvances | src/false.c:450-456 | a condition leaving a nonzero number and a body that completes send the loop round again |
| FalseSpec.CaptureStep | src/false.c:380-409 | one character of a lambda capture: a lambda is completed exactly at the matching `]`, from the first character after `[` to that `]` |
| FalseSpec.Control | src/false.c:432-458 | `!`, `?`, `#` always end in Normal mode and never leave the character unhandled |
| FalseSpec.Operate | src/false.c:412-474 | an operator character is handled or fatal, never passed on |
| FalseSpec.Step | src/false.c:340-410 | one decoded character in any mode is handled or fatal, and a capture in progress started before the cursor; the literal modes are stated by CharLiteral, StringCharacter and CommentCharacter, the number mode by DigitsFrom and NumberEnds |
| FalseSpec.Finish | src/false.c:477-487 | the end of a slice: completes exactly in the normal and number modes, pushing a pending number; otherwise unterminated statement at the last character |
| FalseSpec.Scan | src/false.c:326-475 | the loop of process keeps the state well formed |
| FalseSpec.ScanAdvances | src/false.c:326-340 | a character that decodes and a step that does not halt leave the rest of the slice to scan from the new mode and state |
| FalseSpec.Process | src/false.c:310-490 | process keeps every lambda inside the text |
| FalseSpec.Strlen | src/false.c:531 | strlen: the bytes before the first NUL, none of them NUL |
| FalseSpec.Bind | src/false.c:519-529 | the argument loop keeps 26 cells and adds only numbers |
| FalseSpec.Initial | src/false.c:515-517 | the empty stack and cleared cells are well formed |
| FalseSpec.Interpret | src/false.c:492-541 | interpret: status 1 exactly when the run does not complete (a fatal error, or running out of fuel), 0 otherwise; too few arguments when argc is 0; too many when more than 25 remain; success only with an empty final stack |
| FalseImpl.Machine.constructor | src/false.c:515-517 | the machine starts with an empty stack, cleared cells, no output and the given input |
| FalseImpl.Machine.Shuffle | src/false.c:84-103 | the new stack, cells, output and input are those of FalseSpec.Shuffle |
| FalseImpl.Machine.Compare | src/false.c:59-75 | result and stack are those of FalseSpec.Compare |
| FalseImpl.Machine.Equal | src/false.c:105-107 | as FalseSpec.Equal |
| FalseImpl.Machine.Binary | src/false.c:109-146 | as FalseSpec.Binary |
| FalseImpl.Machine.Unary | src/false.c:148-166 | as FalseSpec.Unary, so `_` pushes Wrap(-x), `~` pushes -x-1, `.` emits the number and `,` its low byte (OperatorProperties) |
| FalseImpl.Machine.Store | src/false.c:173-178 | as FalseSpec.Store |
| FalseImpl.Machine.Fetch | src/false.c:180-182 | as FalseSpec.Fetch |
| FalseImpl.Machine.Dispatch | src/false.c:78-189 | as FalseSpec.Dispatch, so `^` pushes the next input value and `ß`/`B` flush it (ReadOperator, FlushOperator) |
| FalseImpl.Machine.ExtendedTable | src/false.c:205-289 | as FalseSpec.ExtendedTable, so `§` pushes the wrapped depth and `∫` fails exactly on 0 (DepthOperator, AssertOperator) |
| FalseImpl.Machine.DispatchExtended | src/false.c:205-307 | as FalseSpec.DispatchExtended |
| FalseImpl.Machine.Call | src/false.c:432-434 | as FalseSpec.Call |
| FalseImpl.Machine.While | src/false.c:446-458 | the loop's outcome and state are those of FalseSpec.While |
| FalseImpl.Machine.Control | src/false.c:431-458 | as FalseSpec.Control |
| FalseImpl.Machine.Operate | src/false.c:412-474 | as FalseSpec.Operate |
| FalseImpl.Machine.Step | src/false.c:340-410 | as FalseSpec.Step, so a character literal pushes its code point, a string emits its characters and a comment is skipped (CharLiteral, StringCharacter, CommentCharacter) |
| FalseImpl.Machine.Process | src/false.c:310-490 | the scanning loop's outcome and state are those of FalseSpec.Process |
| FalseImpl.Interpret | src/false.c:492-541 | status, fatal error and final state are those of FalseSpec.Interpret |
| FalseProperties.Unknown | src/false.c:460-472 | a character in neither dispatch table reaches the variable-or-unknown test unchanged |
| FalseProperties.LetterIsVariable | src/false.c:467-468 | a lower-case letter (by iswlower) that no table claims is pushed as a variable |
| FalseProperties.UnknownSymbolIsFatal | src/false.c:470-471 | any other unclaimed character is an unknown symbol at the cursor |
| FalseProperties.InjectionIsFatal | src/false.c:81-82 | `` ` `` is always fatal |
| FalseProperties.ScanAscii | src/false.c:333-338 | an ASCII byte other than NUL is decoded as itself and stepped |
| FalseProperties.BadCharacterIsFatal | src/false.c:335-338 | a NUL or malformed byte ends the scan with a bad multi-byte error at that byte |
| FalseProperties.BareCloserIsFatal | src/false.c:424-426 | `]` or `}` in normal mode is an unbalanced symbol |
| FalseProperties.EndOfSlice | src/false.c:329-331 | at the end of the slice the scan finishes the mode |
| FalseProperties.FoldIsDecimal | src/false.c:350-356 | folding digits with wrap-around is the decimal value modulo 2^32 |
| FalseProperties.StepDigit | src/false.c:341-356 | a digit starts or extends the pending number |
| FalseProperties.ScanDigit | src/false.c:341-356 | scanning a digit extends the pending number |
| FalseProperties.DigitRun | src/false.c:341-356 | a run of digits folds into the pending number |
| FalseProperties.DigitSteps | src/false.c:350-356 | inside a number, each digit of a run moves the scan one byte on with that digit appended |
| FalseProperties.DigitsFrom | src/false.c:341-356 | a run of digits met in normal mode is read as one number, the fold of all its digits from 0 |
| FalseProperties.DigitsAlone | src/false.c:341-356 | a slice of digits pushes exactly one number, its decimal value modulo 2^32 (the literal `1` of src/test_false.c:124) |
| FalseProperties.DigitsThenOther | src/false.c:341-359 | a digit run followed by any decodable character that is not a digit, ASCII or wider, pushes the number and then operates on that character, going on after its full width |
| FalseProperties.NumberEnds | src/false.c:350-359 | with a number pending, a character that is not a digit is scanned as in normal mode with the number pushed first |
| FalseProperties.CaptureNesting | src/false.c:399-405 | `[` deepens and `]` ends or undoes one level of capture |
| FalseProperties.CaptureQuoting | src/false.c:387-398 | inside a captured comment, string or character literal, brackets do not count |
| FalseProperties.ScanPlainCaptured | src/false.c:380-409 | a plain byte inside a capture leaves the capture going |
| FalseProperties.ScanClosing | src/false.c:401-405 | the outermost `]` pushes the lambda and returns to normal mode |
| FalseProperties.CaptureRun | src/false.c:380-409 | a run of plain bytes keeps the capture going |
| FalseProperties.PlainLambda | src/false.c:380-409 | `[` plain text `]` pushes a lambda spanning exactly the text between the brackets |
| FalseProperties.NotEqualDispatch | src/false.c:236-238 | the extended table sends `≠` to the negated comparison |
| FalseProperties.NotEqualIsComplement | src/false.c:236-238 | `≠` fails as `=` does and otherwise pushes the bitwise complement of what `=` pushes |
| FalseProperties.EqualPushesTruth | src/false.c:105-107 | `=` pushes -1 exactly for two equal numbers or variables and 0 otherwise, replacing both operands |
| FalseProperties.StoreThenFetch | src/false.c:173-182 | `:` then `;` through a letter a..z gives back the stored token |
| FalseProperties.NonAsciiVariableHasNoCell | src/storage.c:16-30 | a letter iswlower accepts but islower rejects: storing is ignored and fetching gives 0 |
| FalseProperties.DivideByZeroIsFatal | src/false.c:129-132 | `/` and `÷` by zero are fatal (the `1 0/` and `1 0÷` cases of src/test_false.c:108-120) |
| FalseProperties.DivModPushesBoth | src/false.c:262-269 | `÷` pushes remainder and quotient that recompose the dividend |
| FalseProperties.BinaryPushesResult | src/false.c:109-146 | a binary operator that succeeds replaces x y by its results (`÷` two, the others one) and leaves the stack below unchanged |
| FalseProperties.BinaryErrorPopsBoth | src/false.c:109-146 | a binary operator that refuses its operands (zero divisor, refused shift) fails with that error at the cursor, x and y both popped |
| FalseProperties.ArithmeticReplacesOperands | src/false.c:120-128 | `+`, `-`, `*` replace x y by the exact result wrapped to 32 bits |
| FalseProperties.BinaryNeedsNumberOnTop | src/false.c:117 | the pop of y (also src/false.c:248): an empty stack is an underflow, and a non-number on top is a type mismatch with that token popped |
| FalseProperties.BinaryNeedsNumberBelow | src/false.c:118 | the pop of x (also src/false.c:249): with only y on the stack it is an underflow, and a non-number below y is a type mismatch with both popped |
| FalseProperties.BadShiftIsFatal | src/false.c:254-261 | a shift with refused operands fails with check_shift_operands' error |
| FalseProperties.IfRunsIffNonzero | src/false.c:436-444 | `?` runs its lambda exactly when the number beneath is nonzero, otherwise drops both |
| FalseProperties.ChooseRunsOneBranch | src/false.c:290-300 | `¿` runs the true branch on a nonzero condition and the false branch on 0, exactly one of them |
| FalseProperties.LoopRunsWhile | src/false.c:446-449 | `#` pops body then condition and runs the loop |
| FalseProperties.LoopStopsOnZero | src/false.c:450-454 | the loop ends successfully as soon as the condition leaves 0, without running the body |
| FalseProperties.LoopContinuesOnNonzero | src/false.c:450-456 | a nonzero condition runs the body and goes round again |
| FalseProperties.LoopConditionMustLeaveNumber | src/false.c:452 | a condition that leaves no number ends the loop with pop_number's error |
| FalseProperties.BindBindsEach | src/false.c:519-529 | argument j goes to `b`+j as the low 32 bits of strtol, up to the first non-numeric one; success exactly when all are numeric; no other cell changes |
| FalseProperties.NonNumericArgumentIsFatal | src/false.c:525-528 | a non-numeric argument is fatal before the program runs |
| FalseProperties.EmptyProgramCompletes | src/false.c:517-537 | with numeric arguments, an empty program completes with the bound cells, an empty stack and no output |
| FalseProperties.EmptyProgramBindsArguments | src/false.c:517-537 | an empty program succeeds with `a` = the count, `b`.. = the values, the rest 0 (src/test_false.c:94-99) |
| FalseProperties.LoneNonAsciiByteIsFatal | src/false.c:335-338 | a program of one byte above 0x7F is a bad multi-byte error at offset 0 (src/test_false.c:101-106) |
| OperatorProperties.ByDispatch | src/false.c:412-474 | a character that is not white space, an opener, a closer or a control operator and that dispatch handles ends the step in normal mode with dispatch's status and state |
| OperatorProperties.ByExtendedTable | src/false.c:460-466 | with extensions, a character dispatch returns and the extended table handles ends the step with the table's status and state |
| OperatorProperties.NegateOperator | src/false.c:148-150 | `_` replaces the top number x by -x in 32 bits: exactly -x, except that INT_MIN stays INT_MIN |
| OperatorProperties.ComplementOperator | src/false.c:152-154 | `~` replaces the top number x by -x-1 |
| OperatorProperties.PrintNumberOperator | src/false.c:160-162 | `.` pops the number and emits exactly it |
| OperatorProperties.PrintCharOperator | src/false.c:164-166 | `,` pops the number and emits its low eight bits, the number itself when it is 0..255 |
| OperatorProperties.OneOperandNeedsNumber | src/false.c:148-166 | `_`, `~`, `.`, `,` underflow on an empty stack and fail with a type mismatch (the token popped) on a non-number |
| OperatorProperties.StoreOperator | src/false.c:173-178 | `:` pops a letter and a token and stores the token in that letter's cell, nothing else changing |
| OperatorProperties.FetchOperator | src/false.c:180-182 | `;` replaces the variable on top by the content of its cell |
| OperatorProperties.ReadOperator | src/false.c:156-158 | `^` pushes the next input value: the next `--input` byte as a signed char, one newline at its end, then the next standard input byte, then EOF = -1 (interpreter.c:116-127) |
| OperatorProperties.FlushOperator | src/false.c:168-171 | `ß` and `B` drop the rest of the `--input` string and change nothing else |
| OperatorProperties.DepthOperator | src/false.c:224-226 | `§` pushes the stack depth, wrapped to 32 bits, which is the depth itself when it fits |
| OperatorProperties.AssertOperator | src/false.c:284-288 | `∫` pops a number and fails with an assertion failure exactly when it is 0, and is handled exactly when it is not |
| OperatorProperties.AssertNeedsNumber | src/false.c:284-288 | `∫` underflows on an empty stack and fails with a type mismatch on a non-number |
| OperatorProperties.CharLiteral | src/false.c:367-370 | `'` followed by any decodable character, of any width, pushes that character's code point and resumes in normal mode after it |
| OperatorProperties.StringCharacter | src/false.c:372-378 | inside a string every character but `"` is emitted as a wide character and the string goes on; `"` ends it without output |
| OperatorProperties.CommentCharacter | src/false.c:361-365 | inside a comment every character is skipped with the state unchanged, and `}` ends the comment |
| ProgramRuns.ScanVariable | src/false.c:467-468 | scanning an ASCII letter pushes that variable and goes on after it |
| ProgramRuns.ScanStore | src/false.c:173-178 | scanning `:` stores the token under the variable and goes on after it |
| ProgramRuns.ScanFetch | src/false.c:180-182 | scanning `;` replaces the variable by its cell's token and goes on after it |
| ProgramRuns.ScanPrintNumber | src/false.c:160-162 | scanning `.` emits the top number, pops it and goes on after it |
| ProgramRuns.StoreOne | src/test_false.c:124 | processing `1a:` stores 1 in `a` and leaves the stack as it was |
| ProgramRuns.FetchPrint | src/test_false.c:124 | then `a;.` emits what `a` holds and the slice completes |
| ProgramRuns.ProcessStoreFetchPrint | src/test_false.c:124 | processing `1a:a;.` from any state sets `a` to 1, emits 1 and leaves the stack unchanged |
| ProgramRuns.InterpretStoreFetchPrint | src/test_false.c:122-129 | interpret of `1a:a;.` with no arguments returns 0 with exactly one output event, the number 1, and an empty stack |

## Left out

- Output and input devices: `emit_number`, `emit_char`, `emit_wchar` and `getchar` are not performed. What is written becomes a list of events. Standard input is a byte sequence parameter.
- `main` and `usage`, the option filtering, `file_read_fully`, `setlocale`, the printing done by `fatal`, and tracing: `log_trace`, `log_stack` and `slog`. They only print or read files. utils/file.c is not part of this model.
- `fatal`'s `longjmp` is modelled as an `Outcome` returned up the call chain. The stack left by a failing operation is modelled exactly: tokens already popped stay popped.
- reverse (`®`) and roll (`™`): `stack_reverse` and `stack_roll` are not defined in src/stack.c, and the two code points are not defined in src/code-point.h. Those characters are therefore unknown symbols here.
- FalseSpec.Call, FalseSpec.While, FalseSpec.Process: they take a fuel bound. A run that needs more lambda calls or `#` rounds than the fuel ends in `OutOfFuel`, which C never reports, so the non-terminating programs are not modelled.
- Locale.Decode: only the UTF-8 locale is modelled. The `mbstate_t` shift state is always initial, as it is for UTF-8.
- Locale.Decode and the character classes: `iswlower` is modelled only below U+0100, the Latin-1 letters. A lower-case letter above U+00FF is an unknown symbol in the model.
- FalseProperties.LetterIsVariable: this lemma excludes `ß` and `ø`, which iswlower accepts but dispatch claims first as flush and pick.
- Pointer arithmetic is modelled with offsets into the text. `Ptr` is `Null` or `At(offset)`.
- FalseSpec.Dispatch, ExtendedTable, Binary and the other operator functions in `FalseSpec`: their own contracts state only well-formedness. What each operator computes is stated by the lemmas of `FalseSpec`, `FalseProperties` and `OperatorProperties` listed above.
- `INT_MIN / -1` and `(int)` conversions are undefined or implementation-defined in C. They wrap modulo 2^32 here.
- Of the whole-program scenarios in src/test_false.c only `1a:a;.` is restated, as InterpretStoreFetchPrint. `[3+]b: 4 b;! …`, `1[$100\>][1+]#.` and the `??` cases would each need a chain of one lemma per character. Their operators have lemmas of their own: PlainLambda, StoreThenFetch, LoopRunsWhile and the other loop lemmas, and ChooseRunsOneBranch.
- src/test_false.c:175-206 spell the if-then-else operator as two ASCII `?`. The expected outputs only make sense with `¿` (U+00BF), so ChooseRunsOneBranch is stated for `¿`.

## Findings

| source | as written | input that shows it | evidently intended | confidence | as-written member | corrected member |
|---|---|---|---|---|---|---|
| src/false.c:100-103, src/stack.c:175-180 | `stack_pick((size_t)stack_pop_number())` then `require(n + 1)`: for n = -1 the size_t sum wraps to 0, so the guard passes on any stack, and index `depth - 1 - n` is `depth`, one past the top. That slot still holds the count just popped, so pick pushes -1, and `1_ø` then ends with "stack not empty" instead of an underflow at `ø` | the program `1_ø` (or `1_O`) on an empty stack | a negative count is a stack underflow like any count beyond the depth | not executed | StackSpec.PickMinusOneCopiesCount | StackSpec.Pick |
