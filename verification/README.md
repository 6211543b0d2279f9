# funlisp core, modelled in Dafny

funlisp is a small Lisp interpreter written in C, with a Python conformance
runner (`test.py`). This project models the interpreter's core and proves
properties of the model:

- **the reader** (`src/parse.c`): blanks and comments, strings with escapes,
  symbols, integers, lists with dotted tails, quote prefixes, line numbers
  in errors, and whole programs wrapped in `progn`;
- **values and their helpers** (`src/util.c`): list length and properness,
  the `lisp_get_args` format matcher, scope binding and lookup, `lisp_map`
  over `lisp_eval`, `progn`, errors and the errno table, truthiness;
- **the builtins** (`src/builtins.c`): 32-bit `+ - * /`, the comparisons,
  `car cdr cons quote null?`, `lambda`/`macro`, `define`, `if`, `print` and
  `reduce`;
- **the evaluator** (`src/types.c`): `lisp_eval`, `lisp_call` with its stack
  frame, `builtin_call`, `lambda_call`, and structural equality
  (`lisp_compare`);
- **the containers**: the quadratic-probing hash table with gravestones and
  prime growth, the ring buffer, the character buffer and the iterators;
- **the garbage collector** (`src/gc.c`): breadth-first marking through the
  ring buffer and the sweep of the allocation list;
- **text interning** (`src/textcache.c`);
- **the test runner** (`test.py`): the `; OUTPUT(N)` scanner, the
  classification of one run, and the fail-fast driver.

There is one Dafny module per component. Each lives in a file named after the
module in lower case, and each draws on these sources:

- `Values` (`values.dfy`): the value datatype and the list helpers,
  `lisp_get_args` and the errno table of `src/util.c`.
- `Scopes` (`scopes.dfy`): scope binding and lookup from `src/util.c`, and
  `lisp_new_scope` from `src/types.c`.
- `Reader` (`reader.dfy`): `src/parse.c`.
- `Unparse` (`unparse.dfy`): no source file. It is a printer, written only to
  state the reader's round trip.
- `Builtins` (`builtins.dfy`): the builtins of `src/builtins.c` that compute
  from their argument values.
- `Equality` (`equality.dfy`): `lisp_compare` and `scope_compare` of
  `src/types.c`.
- `Eval` (`eval.dfy`): evaluation and calls from `src/types.c`; the
  evaluating builtins and the default scope from `src/builtins.c`; and, from
  `src/util.c`, `lisp_eval_list`, `lisp_map`, `lisp_progn`,
  `lisp_new_default_scope`, and the helpers that raise and clear errors.
- `HashTable`, `Iter`, `RingBuf`, `CharBuf`, `Gc` and `TextCache`
  (`hashtable.dfy`, `iter.dfy`, `ringbuf.dfy`, `charbuf.dfy`, `gc.dfy`,
  `textcache.dfy`): the C file of the same name. `Gc` also models
  `lisp_new` of `src/types.c`, and takes the `expand` iterators there as an
  object's children.
- `TestRunner` (`testrunner.dfy`): `test.py`.

Objects that the C code addresses by pointer are ids in the model. A scope
is an id in a map of scopes, and a garbage-collected object is an id in a
heap map. Values are an immutable datatype. The evaluator is a
fuel-bounded, mutually recursive set of functions over a `Runtime` record.
That record holds the scopes, the call stack and its depth, the error
state, and what `print` wrote. C `int` arithmetic is written out as
explicit 32-bit wrap-around (`Wrap32`), and C division truncates toward
zero (`CDiv`).

Some details of the code that the model keeps as they are:

- test.py reads a script in text mode, so `\r\n` and a lone `\r` arrive
  as `\n` before the lines are scanned (test.py:20).
- The `; OUTPUT(N)` marker line contributes no text of its own. Only the
  lines after it do (test.py:22-26).
- A collected line without `; ` raises `ValueError`. It does not contribute
  an empty string (test.py:23).
- A script with no marker fails with `code` unbound. It is modelled as the
  fault `NoMarker`, not as a precondition.
- parse.c reads `\r` in a string literal as a backspace, the same as `\b`
  (src/parse.c:78-79).
- The evaluator runs the builtins as builtins.c writes them: `cdr` of nil
  returns NULL with no error, `-` and `/` of a non-integer first argument
  are undefined, and the comparisons test the sign of the wrapped
  difference. The corrected builtins are stated and proved beside them
  (see "## Findings").

## Model

| member | source | states |
|---|---|---|
| TestRunner.Universal | test.py:20 | Reading in text mode leaves no carriage return in the text and never lengthens it. |
| TestRunner.UniversalKeeps | test.py:20 | The newline translation changes a text exactly when the text holds a carriage return. |
| TestRunner.UniversalIdempotent | test.py:20 | Translating newlines twice gives the same text as translating once. |
| TestRunner.UniversalEndings | test.py:20 | `\r\n`, a lone `\r` and `\n` each end one line and become a single `\n`. |
| TestRunner.UniversalAfter | test.py:20 | A stretch of text without carriage returns is read unchanged, whatever follows it. |
| TestRunner.ReadLinesNoReturn | test.py:20-21 | No line read from a script holds a carriage return, whatever line endings the file uses. |
| TestRunner.SplitLinesLack | test.py:20-21 | Cutting a text into lines puts no character into a line that the text lacks. |
| TestRunner.SplitLinesJoin | test.py:20-21 | The lines of the newline-translated text, joined again, give back that whole text. |
| TestRunner.SplitLinesShape | test.py:20-21 | No line is empty, and every line but the last ends in its newline. |
| TestRunner.MatchMarkerShape | test.py:19 | A line matches the marker pattern when it is `; OUTPUT(`, a non-empty run of digits, `)` and anything; the declared code is the digits' value. |
| TestRunner.MatchMarkerSound | test.py:19 | Every line that matches has exactly that shape, so the pattern accepts nothing else. |
| TestRunner.FindDelim | test.py:23 | Finds the first `; ` of a line, and reports its absence only when the line has none. |
| TestRunner.PayloadAfterDelim | test.py:23 | A line that starts with `; ` contributes everything after it. |
| TestRunner.LineEnd | test.py:20-21 | A line of the translated text runs to its first newline, inclusive, or to the end of the text. |
| TestRunner.FirstMarker | test.py:21-26 | The first marker line at or after a position: it matches, and no line before it does. |
| TestRunner.ReadingCollects | test.py:22-23 | Once collecting, the scanner appends the text after the first `; ` of every later line, in order, markers included, or raises the first `ValueError`. |
| TestRunner.SeekingSkips | test.py:24-26 | Before collecting, the scanner skips to the first marker line and starts collecting after it with that line's code. |
| TestRunner.ScannerMatchesReference | test.py:16-28 | The two-state scanner computes the reference expectation (first marker's code; payloads of all later lines) on every script. |
| TestRunner.PrefixIgnored | test.py:21-26 | Lines before the first marker never change the expectation. |
| TestRunner.ScenarioA | test.py:16-28 | A setup comment, `; OUTPUT(0)`, `; hello`, `; world` give exit code 0 and output `hello\nworld\n`. |
| TestRunner.StripClean | test.py:70 | `strip()` leaves no leading or trailing whitespace. |
| TestRunner.StripIgnoresPadding | test.py:70 | Whitespace added around a text never changes its `strip()`. |
| TestRunner.ClassifyMemError | test.py:55-61 | The outcome is MEM ERROR exactly when the actual exit code is 211, whatever was expected. |
| TestRunner.ClassifyPass | test.py:55-79 | For a declared code other than 211, a case passes exactly when the codes agree and the stripped outputs agree. |
| TestRunner.ClassifyIgnoresPadding | test.py:70-76 | Leading or trailing whitespace in the captured output never changes the outcome. |
| TestRunner.InnerSpaceStillDiffers | test.py:70-76 | Stripping is applied to the whole text only, so a space before an inner newline is a wrong output. |
| TestRunner.TestCaseRefusesSentinel | test.py:49-51 | A case raises before running exactly when its declared code is the sentinel 211. |
| TestRunner.RunTestsCompleted | test.py:82-85 | The suite completes exactly when every case passes; the empty suite completes. |
| TestRunner.RunTestsFailFast | test.py:82-85 | The first case that does not pass decides the suite's status (exit 1, or its exception), and later cases are never looked at. |
| Reader.Skip | src/parse.c:51-65 | Skipping blanks never moves backwards, stops at a character that is neither whitespace nor `;`, and does not move at such a character. |
| Reader.SkipPassesBlanks | src/parse.c:51-65 | Every character skipped is whitespace or lies in a comment that started at a `;` with no newline since. |
| Reader.SkipComment | src/parse.c:51-65 | A comment is skipped to the next newline or the end of input. |
| Reader.SkipCommentPasses | src/parse.c:51-65 | No character a comment skip passes over is a newline or the NUL. |
| Reader.SkipSpaces | src/parse.c:51-65 | Skipping whitespace stops at the first character that is not whitespace, within the input. |
| Reader.SkipSpacesPasses | src/parse.c:51-65 | Every character the whitespace skip passes over is whitespace. |
| Reader.EscapedChar | src/parse.c:67-87 | A backslash and a character read as one character: `a` gives code 7, `b` 8, `f` 12, `n` 10, `r` 8 (the backspace, as `\b`), `t` 9 and `v` 11; any other character stands for itself. |
| Reader.StringBody | src/parse.c:89-115 | The body of a string literal ends one past its closing quote, or fails at the terminating NUL. |
| Reader.ParseString | src/parse.c:89-115 | A string literal reads as a string value and ends past where it began; a missing closing quote is `LE_SYNTAX`. |
| Reader.StringLoopAsWritten | src/parse.c:96-104 | The C scanning loop, stepping two characters after every backslash, as written. |
| Reader.BackslashAtEndOverruns | src/parse.c:96-104 | On the input `"\` the C loop steps over the terminating NUL and reads past the buffer. |
| Reader.StringBodyAgrees | src/parse.c:96-104 | Wherever the C loop stays inside the buffer, the corrected scanner stops at the same index. |
| Reader.ParseSymbol | src/parse.c:168-187 | A symbol's name is exactly the run of characters from the start up to the first whitespace, `)`, `.`, `'`, `;` or NUL; the read fails, with `LE_EOF` at the start, exactly at the end of input. |
| Reader.SymbolRun | src/parse.c:168-187 | A symbol runs up to, and not including, the first whitespace, `)`, `.`, `'`, `;` or NUL, within the input. |
| Reader.ParseInteger | src/parse.c:38-49 | A digit run reads as a 32-bit integer and ends at the first non-digit. |
| Reader.DigitRun | src/parse.c:38-49 | The digit run ends at the first non-digit, within the input. |
| Reader.ScanInt | src/parse.c:38-49 | The conversion gives a 32-bit value, and the digits' value whenever it fits. |
| Reader.ParseValue | src/parse.c:212-236 | One value after blanks: none exactly at the end of input, and otherwise at least one character consumed unless the blanks end at a `.`. |
| Reader.ParseAt | src/parse.c:212-236 | Dispatching on the first non-blank character: nothing exactly at the end of input, and at least one character consumed unless it is a `.`. |
| Reader.ParseList | src/parse.c:117-166 | A list reads as a list value and ends past its start. |
| Reader.ListRest | src/parse.c:117-166 | After an item, the rest of a list reads as a value and consumes at least one character. |
| Reader.ParseQuote | src/parse.c:189-210 | A quote prefix reads as the two-item list of the matching quote symbol and the value. |
| Reader.SetErrorLine | src/parse.c:238-245 | The error line is one more than the number of newlines before the failure. |
| Reader.ParseValueTop | src/parse.c:247-259 | The bytes consumed stay within the input, no expression is returned exactly at the end of input, and an error carries a line of at least 1. |
| Reader.StrayDotStalls | src/parse.c:261-284 | At a `.` outside any list, a read consumes nothing and returns the empty symbol, so the C program loop repeats for ever. |
| Reader.StrayDotReadsNothing | src/parse.c:212-236 | However a dotted tail treats its `)`, a top-level `.` reads as the empty symbol from no input. |
| Reader.NestedDotMisread | src/parse.c:144-151 | In `((a . b) c)` the inner dotted tail leaves its `)` unread, so the outer list ends early as `((a . b))`. |
| Reader.NestedDotRead | src/parse.c:117-166 | When the dotted tail consumes its `)`, `((a . b) c)` reads as the two-item list. |
| Reader.ExpressionsFrom | src/parse.c:261-284 | In the corrected reader, the expressions of a program read one after another always form a proper list. |
| Reader.ParseProgn | src/parse.c:261-284 | In the corrected reader, a program reads as a proper list headed by the symbol `progn`. |
| Reader.ExpressionsAsWritten | src/parse.c:261-284 | The program loop as written, which never ends at a read of no input; when it ends with a program, its expressions form a proper list. |
| Reader.ParsePrognAsWritten | src/parse.c:261-284 | As written, a program that is read is a proper list headed by `progn`. |
| Reader.ValueDotFree | src/parse.c:117-166 | On a text without a `.`, a value reads the same whether a dotted tail consumes its `)` or not. |
| Reader.ExpressionsDotFree | src/parse.c:261-284 | On a text without a `.`, the program loop as written ends and reads what the corrected loop reads. |
| Reader.ParsePrognDotFree | src/parse.c:261-284 | On a text without a `.`, `lisp_parse_progn` as written gives what the corrected reader gives. |
| Reader.StrayDotLoops | src/parse.c:268-283 | As written, reading the program `.` never finishes. |
| Reader.StrayDotRejected | src/parse.c:261-284 | The corrected program reader rejects a stray `.` with `LE_SYNTAX` on line 1 instead of looping. |
| Unparse.ReadBack | src/parse.c:247-259 | Reading the printout of any printable value gives that value back and consumes all of it; with the dotted-tail reading as written, this holds for values without a dotted tail. |
| Unparse.ReadPrinted | src/parse.c:212-236 | A printed value is read back from wherever it sits in a text when a delimiter follows it. |
| Unparse.ReadCons | src/parse.c:117-166 | A printed non-empty list is read back as the same cell, up to the end of its printout. |
| Unparse.ReadPrintedTail | src/parse.c:117-166 | The printed rest of a list, up to and including `)`, reads back as that rest. |
| Unparse.ReadTailDotted | src/parse.c:144-151 | A printed dotted tail ` . v)` reads back as `v` once the `)` is consumed. |
| Unparse.ReadInteger | src/parse.c:38-49 | The decimal digits of a 32-bit non-negative number read back as that number. |
| Unparse.ReadSymbol | src/parse.c:168-187 | A printable symbol's name reads back as that symbol. |
| Unparse.ReadString | src/parse.c:89-115 | A string printed with `"` and `\` escaped reads back as the same string. |
| Unparse.StringBodyEscaped | src/parse.c:96-104 | The escaped body of a string reads back as the original text, ending past the closing quote. |
| Unparse.ExpressionsOfJoined | src/parse.c:261-284 | Printed expressions separated by spaces read as exactly those expressions, in order. |
| Unparse.ParseProgramBack | src/parse.c:261-284 | A program made of printed expressions reads as `progn` over exactly those expressions. |
| Values.ListLength | src/util.c:114-121 | The length counted is the number of cells on the list's spine. |
| Values.IsBadListIffImproper | src/util.c:417-422 | A value is a bad list exactly when it is not a proper list. |
| Values.GetArgs | src/util.c:162-201 | Without `R`, a match binds exactly the list's items; no more values are bound than format characters; the errors are `LE_TYPE`, `LE_2FEW` or `LE_2MANY`. |
| Values.GetArgsExact | src/util.c:162-201 | Without `R`, a list is accepted exactly when it has one item per format character and each item has the type its character demands. |
| Values.GetArgsCount | src/util.c:191-199 | Leftover format characters give `LE_2FEW`, and leftover items give `LE_2MANY`. |
| Values.GetArgsTypeError | src/util.c:181-186 | The first item whose type the format rejects gives `LE_TYPE`. |
| Values.GetArgsRest | src/util.c:172-180 | `R` after accepted items binds those items and then the rest of the list, which is non-empty, and the match succeeds at once. |
| Values.QuoteWith | src/util.c:123-135 | The result is the proper two-item list of the symbol and the value. |
| Values.SymToErrno | src/util.c:408-415 | The index of the first entry of the error-name table equal to the name, or `LE_MAX_ERR` when there is none. |
| Values.ErrnoNameRoundTrip | src/util.c:21-36 | Looking up an errno's own name in the table gives back that errno. |
| Scopes.Lookup | src/util.c:52-65 | A symbol bound in the scope itself is found there. |
| Scopes.LookupFirstOnChain | src/util.c:52-65 | Lookup gives the binding of the first scope on the parent chain that binds the symbol, and fails (`LE_NOTFOUND`) exactly when none does. |
| Scopes.LookupNoneOnChain | src/util.c:52-65 | Lookup fails exactly when no scope on the chain binds the symbol. |
| Scopes.LookupFirstBinder | src/util.c:52-65 | Lookup finds the innermost binder's value. |
| Scopes.Bind | src/util.c:38-50 | Binding sets or overwrites the symbol in that scope only, keeps every other symbol and scope, and records the name in a lambda only when it has none. |
| Scopes.Recorded | src/util.c:43-49 | A stored lambda with no recorded name records the name it is bound to; it keeps an earlier name, and every other value is stored unchanged. |
| Scopes.LookupOtherName | src/util.c:38-50 | A binding never changes the lookup of a different symbol, from any scope. |
| Scopes.LookupBelowBind | src/util.c:38-50 | A binding in a later scope is invisible from an earlier one. |
| Scopes.NewScope | src/types.c:131-137 | A new scope is empty, has the given parent, and leaves every other scope unchanged. |
| Scopes.LookupThroughNewScope | src/util.c:52-65 | An empty child scope looks every symbol up in its parent. |
| Scopes.LookupBelowNew | src/types.c:131-137 | Adding a new scope never changes a lookup from an older scope. |
| Builtins.PlusIsSum | src/builtins.c:151-171 | `+` is the 32-bit sum of its arguments (0 for none), or `LE_TYPE` if any argument is not an integer. |
| Builtins.AddFrom | src/builtins.c:160-166 | From a 32-bit running sum, the addition loop gives the 32-bit sum of the running sum and every argument, or `LE_TYPE` when an argument is not an integer. |
| Builtins.MultiplyIsProduct | src/builtins.c:208-228 | `*` is the 32-bit product of its arguments (1 for none), or `LE_TYPE` if any argument is not an integer. |
| Builtins.MultiplyFrom | src/builtins.c:217-223 | From a 32-bit running product, the multiplication loop gives the 32-bit product of the running product and every argument, or `LE_TYPE` when an argument is not an integer. |
| Builtins.MinusIsDifference | src/builtins.c:173-206 | `-` without arguments is `LE_2FEW`; one argument is negated; several are subtracted from the first left to right; a non-integer gives `LE_TYPE`. |
| Builtins.SubtractFrom | src/builtins.c:194-200 | From a 32-bit running difference, the subtraction loop subtracts the sum of every argument, wrapping to 32 bits, or gives `LE_TYPE` when an argument is not an integer. |
| Builtins.MinusOfStringUndefined | src/builtins.c:187-192 | As written, `-` of a string is not an error but an unspecified number; the checked `-` gives `LE_TYPE`. |
| Builtins.MinusAgrees | src/builtins.c:173-206 | When the first argument is an integer, the checked `-` and the code as written agree. |
| Builtins.DivideOne | src/builtins.c:241-245 | `/` without arguments is `LE_2FEW`, and a single integer is returned as it is. |
| Builtins.DivideTwo | src/builtins.c:247-256 | Two integers divide with truncation toward zero. |
| Builtins.DivideBadDivisor | src/builtins.c:247-256 | The first bad divisor decides the error whenever the divisions before it succeed: zero gives `LE_ERROR`, a non-integer `LE_TYPE`. Only an earlier `INT_MIN / -1` is excluded. |
| Builtins.DivideFromBadDivisor | src/builtins.c:247-256 | In the division loop, the first zero or non-integer divisor gives `LE_ERROR` or `LE_TYPE` whenever the steps before it succeed. |
| Builtins.DivideByMinusOneThenZero | src/builtins.c:247-256 | `(/ 6 -1 0)` is `LE_ERROR`: a division by -1 that does not overflow still reaches the zero divisor. |
| Builtins.DivideAgrees | src/builtins.c:230-261 | The checked `/` gives `LE_TYPE` for a non-integer first argument, where the code as written is undefined, and otherwise the two agree. |
| Builtins.DivideFrom | src/builtins.c:247-256 | The division loop ends with a number, `LE_TYPE`, `LE_ERROR`, or C's undefined `INT_MIN / -1`. |
| Builtins.DivideOfStringUndefined | src/builtins.c:244-245 | As written, `/` with a string first gives an unspecified number; the checked `/` gives `LE_TYPE`. |
| Builtins.CDivTruncates | src/builtins.c:255 | C division leaves a remainder smaller than the divisor with the dividend's sign, and a quotient no larger than the dividend. |
| Builtins.WrapAdd | src/builtins.c:151-171 | Wrapping after each addition is the same as wrapping once at the end. |
| Builtins.WrapMul | src/builtins.c:208-228 | Wrapping after each multiplication is the same as wrapping once at the end. |
| Builtins.CompareDecides | src/builtins.c:280-339 | The corrected comparison of two integers answers 0 or 1; `==` answers 1 exactly when they are equal, `>` when the first is greater, `>=` when it is not smaller, `<` when it is smaller, `<=` when it is not greater. |
| Builtins.Compare | src/builtins.c:263-339 | The corrected comparison answers a number or an argument error. |
| Builtins.CompareAsWritten | src/builtins.c:263-278 | The comparison as written answers a number or an argument error. |
| Builtins.CompareAsWrittenOfTwo | src/builtins.c:263-300 | As written, comparing two integers answers whether the wrapped difference `first - second` has the sign the relation asks for. |
| Builtins.TwoInts | src/builtins.c:271-273 | A successful `"dd"` match binds exactly two integers. |
| Builtins.CompareAgrees | src/builtins.c:263-278 | While the difference fits in 32 bits, deciding by the sign of `first - second` as written gives the same answer. |
| Builtins.LessOverflows | src/builtins.c:276 | As written, `(< -2147483647 2)` answers 0 because the difference wraps; the corrected comparison answers 1. |
| Builtins.CompareArgErrors | src/builtins.c:271-273 | Fewer than two integers give `LE_2FEW`, and more than two give `LE_2MANY`. |
| Builtins.Car | src/builtins.c:19-33 | `car` succeeds exactly on one non-empty list and returns its first item; `car` of nil is `LE_ERROR`. |
| Builtins.CdrAsWritten | src/builtins.c:35-47 | `cdr` as written returns the rest exactly for one non-empty list, NULL with no error recorded exactly for nil, and an argument error otherwise. |
| Builtins.CdrOfNilSilent | src/builtins.c:35-47 | As written, `(cdr '())` returns NULL without an error; the corrected `cdr` reports `LE_ERROR`. |
| Builtins.Cdr | src/builtins.c:35-47 | The corrected `cdr` succeeds exactly on one non-empty list and returns its rest; nil is `LE_ERROR`. |
| Builtins.ConsOf | src/builtins.c:61-76 | `cons` succeeds exactly with two arguments and builds the cell with them as its halves. |
| Builtins.CarCdrOfCons | src/builtins.c:19-76 | `car` and `cdr`, corrected or as written, take apart what `cons` builds. |
| Builtins.Quote | src/builtins.c:49-59 | `quote` succeeds exactly with one argument and returns it unevaluated. |
| Builtins.NullP | src/builtins.c:360-378 | `null?` takes one argument and answers 1 exactly for nil. |
| Builtins.MakeLambda | src/builtins.c:78-132 | A made lambda or macro has the given kind, closes over the current scope, has only symbols as parameters and a non-empty body. |
| Builtins.MakeLambdaAccepts | src/builtins.c:78-132 | A lambda is made exactly when every parameter is a symbol, and it is then the parameters and body as given. |
| Builtins.ReduceSetup | src/builtins.c:474-503 | `reduce` with other than two or three arguments is `LE_2MANY`; a fold always has at least one item. |
| Builtins.ReduceSeeded | src/builtins.c:494-500 | With a seed, `reduce` folds the whole list from the seed, and needs at least one item. |
| Builtins.ReduceUnseeded | src/builtins.c:485-493 | Without a seed, `reduce` folds the list's tail from its head, and needs at least two items. |
| Builtins.ReduceNotList | src/builtins.c:485-497 | A non-list where the list belongs gives `LE_TYPE`. |
| Equality.Equal | src/types.c:752-755 | Integers, symbols, strings, builtins and types compare equal exactly when identical; nil equals only nil; equal values have the same type, so a symbol never equals a string. |
| Equality.PlainEqualIff | src/types.c:346-361 | On values built from lists, numbers, text, builtins and types, the comparison is exactly equality. |
| Equality.EqualReflexive | src/types.c:752-755 | Every value equals itself. |
| Equality.FirstBindingIgnored | src/types.c:682-698 | The name a lambda was first bound to never affects a comparison. |
| Equality.ScopesEqual | src/types.c:179-230 | A scope always equals itself. |
| Equality.EqualSymmetric | src/types.c:179-230 | With both table sizes checked, the comparison is symmetric. |
| Equality.ScopesEqualSymmetric | src/types.c:179-230 | With both table sizes checked, scope comparison is symmetric. |
| Equality.BindingsSymmetric | src/types.c:179-230 | With both sizes checked, the table check holds one way exactly when it holds the other. |
| Equality.EmptyScopeEqualsAnyAsWritten | src/types.c:207 | As written, an empty scope equals a scope with a binding, but not the other way round. |
| Equality.EqualMonotone | src/types.c:179-230 | A comparison found equal stays equal with more depth to spend, so the answer changes at most once as the depth grows. |
| Equality.ScopesEqualMonotone | src/types.c:179-230 | Two scopes found equal stay equal with more depth to spend. |
| Equality.DepthDecides | src/types.c:179-230 | Two distinct scopes with equal bindings are unequal at depth 0 and equal at depth 1. |
| Equality.EmptyScopeDiffers | src/types.c:179-230 | With both sizes checked, the empty scope and a scope with a binding differ in either order. |
| Eval.Raise | src/util.c:366-372 | An error records its errno and the stack at that moment and changes nothing else. |
| Eval.ArgFail | src/util.c:162-201 | A failed argument match records its errno but not the stack. |
| Eval.ClearError | src/util.c:384-390 | Clearing leaves no error, no errno and no error stack, and keeps the scopes and stack. |
| Eval.ClearForgets | src/util.c:384-390 | Clearing forgets any error raised before it. |
| Eval.Pop | src/types.c:730-733 | Removing the frame drops the stack's head and decrements the depth, keeping the result. |
| Eval.Eval | src/types.c:714-717 | Integers and strings evaluate to themselves; a symbol to its binding or `LE_NOTFOUND`; nil is `LE_NOCALL`; an improper call form is `LE_SYNTAX`; builtins, lambdas, scopes and types are `LE_NOEVAL`; every evaluation keeps the runtime well formed. |
| Eval.Call | src/types.c:719-734 | A call (or a stop for want of fuel) keeps the runtime well formed, restores the stack and its depth, never removes a scope and only extends the printed output. |
| Eval.Compute | src/builtins.c:35-339 | The evaluated-argument builtins are run as written: only `cdr` of nil returns NULL without an error, and only `-` and `/` can do what C leaves undefined. |
| Eval.CdrOfNilReturnsNull | src/builtins.c:35-47 | In the evaluator, `cdr` of an argument that evaluates to nil returns NULL and records no error. |
| Eval.ComparisonInEval | src/builtins.c:263-300 | In the evaluator, a comparison of two integers answers by the sign of their wrapped difference. |
| Eval.CallStep | src/types.c:719-734 | Around a call that leaves the runtime as it found it, the frame pushed is popped and the runtime is exactly as before. |
| Eval.Apply | src/types.c:39-46 | Calling anything but a builtin or a lambda is `LE_NOCALL`. |
| Eval.BuiltinCall | src/types.c:529-542 | A builtin not flagged `evald` rejects an improper argument list with `LE_SYNTAX`. |
| Eval.RunBuiltin | src/builtins.c:598-627 | Running any builtin keeps the runtime well formed, restores the stack and depth, removes no scope and only extends the output. |
| Eval.EvalList | src/util.c:435-462 | Evaluating a list: nil gives nil, a result has as many items as the input, and a non-list is `LE_SYNTAX`. |
| Eval.EvalListLiterals | src/util.c:91-95 | A list of literals evaluates to itself with nothing else changed. |
| Eval.Progn | src/util.c:96-112 | An empty body evaluates to nil. |
| Eval.PrognLiterals | src/util.c:96-112 | A body of literals evaluates to its last expression. |
| Eval.Define | src/builtins.c:134-149 | After a successful `define`, looking the symbol up in the current scope gives the value returned. |
| Eval.BindDefined | src/builtins.c:144-148 | `define` binds the name in the current scope and returns the stored value, which lookup then finds there. |
| Eval.If | src/builtins.c:341-358 | `if` with other than three arguments fails in argument matching. |
| Eval.IfChooses | src/builtins.c:341-358 | `if` evaluates its condition, then the second argument when it is a non-zero integer and the third otherwise. |
| Eval.Print | src/builtins.c:513-529 | A successful `print` returns nil and adds output. |
| Eval.Printed | src/builtins.c:513-529 | `print` writes the value out as the last item of the output, keeps the scopes, and returns nil. |
| Eval.FoldCalls | src/builtins.c:505-510 | Folding over no items returns the accumulator unchanged. |
| Eval.Reduce | src/builtins.c:474-511 | `reduce` keeps the runtime well formed, restores the stack and depth, removes no scope and only extends the output. |
| Eval.LambdaCall | src/types.c:607-649 | A lambda call keeps the runtime well formed, restores the stack and depth, removes no scope and only extends the output. |
| Eval.ApplyLambda | src/types.c:719-734 | Calling a lambda runs the lambda call with one unit of fuel less. |
| Eval.LambdaCallEntered | src/types.c:615-640 | Once the arguments are evaluated and the new scope entered, a lambda call is its body run in that scope. |
| Eval.ApplyEntered | src/types.c:607-649 | Calling a lambda whose arguments evaluated and whose new scope was entered is running its body in that scope, two fuel units later. |
| Eval.BodyVariable | src/types.c:641-646 | A lambda whose whole body is one symbol returns that symbol's value as seen from the new scope, and changes nothing. |
| Eval.RunBody | src/types.c:640-648 | Running a body keeps the runtime well formed, restores the stack and depth, removes no scope and only extends the output. |
| Eval.Enter | src/types.c:622-638 | The new scope gets the next id and the closure as its parent. |
| Eval.BindParams | src/types.c:625-631 | Binding touches only the new scope, keeps its parent, and keeps the scopes well formed. |
| Eval.BindParamsCounts | src/types.c:627-638 | Binding ends in `LE_2FEW` exactly when there are more parameters than values, in `LE_2MANY` exactly when fewer, and succeeds otherwise. |
| Eval.BindParamsBinds | src/types.c:627-631 | The k-th parameter is bound to the k-th value unless a later pair binds the same name. |
| Eval.BindFirstParam | src/types.c:625-631 | The first parameter is bound to the first value unless a later pair binds the same name. |
| Eval.BindParamsKeeps | src/types.c:627-631 | A name no pair binds keeps its binding. |
| Eval.IdentityCall | src/types.c:607-649 | `((lambda (x) x) v)` returns `v` through a new scope under the closure that binds just `x`. |
| Eval.IdentityEnter | src/types.c:622-631 | Entering `(lambda (x) x)` with one literal makes a new scope under the closure that binds exactly `x` to it. |
| Eval.MacroResultInCallerScope | src/types.c:643-647 | A macro's result is evaluated again in the caller's scope, not the macro's own. |
| Eval.AddCall | src/types.c:255-270 | `(+ a b)` with `+` bound to the builtin gives the 32-bit sum and leaves the runtime exactly as it was. |
| Eval.AddApply | src/types.c:529-542 | The `+` builtin applied to two integers gives their 32-bit sum and changes nothing. |
| Eval.DefaultBindings | src/builtins.c:598-627 | The default scope binds each builtin's name to that builtin; only `eval` and `car` get evaluated arguments. |
| Eval.Initial | src/util.c:269-274 | A fresh runtime is well formed with the default scope, an empty stack at depth 0 and no error. |
| Eval.InitialAdd | src/util.c:269-274 | In the default scope `(+ a b)` gives the 32-bit sum and leaves the runtime untouched. |
| HashTable.BinarySearch | src/hashtable.c:65-77 | The index found lies between an entry below the value and one at least the value; on a sorted array it is the lower bound. |
| HashTable.LowerBoundUnique | src/hashtable.c:65-77 | On a sorted array only the lower bound lies between an entry below the value and one at least the value. |
| HashTable.NextSize | src/hashtable.c:85-89 | The next size is a larger prime from the table, and the next entry when the current size is one. |
| HashTable.ProbeStep | src/hashtable.c:116-124 | Adding the odd increment `2k+1` moves from probe `k` to probe `k+1` of `(h + k^2) mod n`. |
| HashTable.ProbePeriodic | src/hashtable.c:116-124 | The probe sequence repeats with period `n`. |
| HashTable.Probe | src/hashtable.c:116-124 | Every probe lands on a slot of the table. |
| HashTable.Search | src/hashtable.c:106-155 | A probe that ends, ends at a slot where the search may stop: the key, or an empty slot. |
| HashTable.SearchFirst | src/hashtable.c:106-155 | A search finds nothing exactly when no probe from the start ends. |
| HashTable.SearchNeverEnds | src/hashtable.c:134-155 | When no probe in the first `n` ends, no probe of the endless C loop ends either. |
| HashTable.FindIndex | src/hashtable.c:106-127 | The odd-increment probing loop finds the first slot where the probe ends. |
| HashTable.Init | src/hashtable.c:202-215 | A new table has 31 empty slots and length 0. |
| HashTable.InitValid | src/hashtable.c:202-215 | A new table satisfies the invariant and holds nothing. |
| HashTable.KeysDiffer | src/hashtable.c:242-267 | No key is stored in two full slots of a valid table. |
| HashTable.Get | src/hashtable.c:295-307 | A value found is stored in a full slot under the key. |
| HashTable.GetIffStored | src/hashtable.c:295-307 | On a valid table, lookup finds a value exactly when a full slot holds the key with that value. |
| HashTable.GetOther | src/hashtable.c:251-266 | Rewriting one key's slot never changes the lookup of another key. |
| HashTable.GetAsWritten | src/hashtable.c:134-155 | As written, lookup hangs exactly when no probe ends, and otherwise agrees with `Get`. |
| HashTable.Contains | src/hashtable.c:318-321 | `ht_contains` never returns exactly when `ht_get`'s probe never ends, and is true exactly when `ht_get` finds a value. |
| HashTable.ContainsIffStored | src/hashtable.c:318-321 | On a valid table, a `ht_contains` that returns is true exactly when some full slot holds the key. |
| HashTable.PutSpec | src/hashtable.c:249-266 | When storing returns, it keeps the table valid, maps the key to the value, leaves every other key alone, and grows the length only for a new key. |
| HashTable.Put | src/hashtable.c:249-266 | Storing never changes the number of slots, and never returns exactly when the retrieval probe it starts with never ends. |
| HashTable.RetrievalEndsInsertion | src/hashtable.c:106-155 | When a retrieval probe ends at a slot that is not full, the insertion probe for the same key ends too. |
| HashTable.InsertThenFound | src/hashtable.c:106-155 | Filling the slot an insertion probe ends at makes a lookup of that key end there. |
| HashTable.RemoveSpec | src/hashtable.c:274-288 | When removing returns, it keeps the table valid, reports -1 exactly when the key was absent, decrements the length otherwise, forgets the key and leaves others alone. |
| HashTable.Remove | src/hashtable.c:274-288 | Removing never returns exactly when the retrieval probe never ends; otherwise it answers 0 or -1 and keeps the number of slots. |
| HashTable.ResizeSpec | src/hashtable.c:162-185 | Growing keeps the table valid, keeps its length and keeps every key's value. |
| HashTable.Reinsert | src/hashtable.c:175-181 | Re-inserting the old full slots never changes the number of slots. |
| HashTable.ReinsertSpec | src/hashtable.c:162-185 | Re-inserting the remaining old entries keeps the table valid and leaves it holding every old entry. |
| HashTable.Resize | src/hashtable.c:162-185 | The grown table has the next prime size. |
| HashTable.Insert | src/hashtable.c:242-267 | The table grows first exactly when more than half of its slots are full. |
| HashTable.InsertSpec | src/hashtable.c:242-267 | When inserting returns, it keeps the table valid, maps the key to the value, leaves other keys alone, and grows the length only for a new key. |
| HashTable.NextFull | src/hashtable.c:375-394 | The iterator's next slot is the first full slot at or after its position. |
| HashTable.IterationYieldsEntries | src/hashtable.c:375-408 | Iterating yields each full slot once, in slot order, `length` items in all. |
| HashTable.EntriesAreFullSlots | src/hashtable.c:375-408 | An entry is yielded exactly when a full slot holds it. |
| HashTable.StringHash | src/hashtable.c:328-339 | The hash is `h*31 + c` over the characters up to the NUL, modulo 2^32; a NULL string hashes to 0. |
| HashTable.SignedChar | src/hashtable.c:333-336 | A byte read as a C `char` lies in -128..127 and keeps its value below 128. |
| HashTable.GravesHangLookup | src/hashtable.c:134-155 | Inserting and removing 31 keys fills every slot with a grave while the length stays 0, and `ht_get`, `ht_contains`, `ht_insert` and `ht_remove` of another key then never return. |
| Iter.LeafNext | src/iter.c:18-27 | A component with a next result yields its first item and keeps the rest. |
| Iter.HasNextIffItems | src/iter.c:18-21 | A component has a next result exactly when it has items left. |
| Iter.Advance | src/iter.c:40-57 | `has_next` moves past and closes each exhausted component, stops at one with a result, and changes no result to come. |
| Iter.HasNext | src/iter.c:40-57 | `has_next` is true exactly when results remain, and changes none of them. |
| Iter.Next | src/iter.c:59-67 | `next` takes the current component's result and counts it in `index` only when it is not NULL. |
| Iter.NextConsumes | src/iter.c:59-67 | A `next` after a successful `has_next` returns exactly the first remaining item. |
| Iter.RunYieldsItems | src/iter.c:40-67 | Running an iterator to the end yields exactly its items, NULLs included. |
| Iter.RunConcat | src/iter.c:40-67 | A concatenation yields its components' items in component order. |
| Iter.RunConcatCloses | src/iter.c:40-57 | Every component is closed once, in order, by the end of the run. |
| Iter.RunConcatIndex | src/iter.c:62-66 | By the end of the run, `index` has grown by the number of non-NULL results. |
| Iter.ConcatOf | src/iter.c:74-86 | A new concatenation's items are its components' items, one after another. |
| Iter.FlatThree | src/iter.c:96-104 | Three components yield their items one after another. |
| Iter.EmptyYieldsNothing | src/iter.c:106-126 | The empty iterator never reports a next result. |
| Iter.SingleYieldsValue | src/iter.c:18-38 | The single-value iterator yields its value exactly once. |
| RingBuf.Init | src/ringbuf.c:6-13 | A new ring buffer has the requested slots and no items. |
| RingBuf.Grow | src/ringbuf.c:20-38 | Growing doubles the slots and keeps the same items in the same order. |
| RingBuf.PushFront | src/ringbuf.c:40-53 | Pushing at the front prepends the item, doubling the slots first when full. |
| RingBuf.PopFront | src/ringbuf.c:55-63 | Popping at the front returns the first item and leaves the rest. |
| RingBuf.PushBack | src/ringbuf.c:65-75 | Pushing at the back appends the item, doubling the slots first when full. |
| RingBuf.PopBack | src/ringbuf.c:77-84 | Popping at the back returns the last item and leaves the rest. |
| RingBuf.MoveWrites | src/ringbuf.c:26-37 | Every copy of the move loop is as long as asked. |
| RingBuf.GrowOverrunsAsWritten | src/ringbuf.c:35 | As written, growing the collector's 16-slot queue copies 32 bytes where 8 are meant and writes past the end of the grown block. |
| RingBuf.MovesStayInside | src/ringbuf.c:20-38 | With one element's size per copy, every write stays inside the grown block. |
| CharBuf.Init | src/charbuf.c:19-26 | A new buffer holds the empty text, NUL-terminated, in the requested capacity. |
| CharBuf.ExpandToFit | src/charbuf.c:55-65 | The capacity becomes at least the size asked, by doubling, is unchanged when already large enough, never reaches twice the size asked, and the text is kept. |
| CharBuf.Append | src/charbuf.c:75-81 | Appending adds the character to the text and keeps the terminator. |
| CharBuf.Concat | src/charbuf.c:67-73 | Concatenating adds the string to the text and keeps the terminator. |
| CharBuf.Trim | src/charbuf.c:83-87 | Trimming keeps the text and shrinks the capacity to the text and its terminator. |
| CharBuf.Clear | src/charbuf.c:89-93 | Clearing empties the text and keeps the capacity. |
| Gc.MarkFrom | src/gc.c:46-66 | Marking from a root marks the root, keeps earlier marks, and changes only reachable objects, each to marked. |
| Gc.ReachableMarked | src/gc.c:46-66 | In a heap where marking has finished, every object on a path from a marked object is marked, except that the path may end at nil with its initial 0 mark. |
| Gc.MarkDone | src/gc.c:51-65 | When the queue is empty the heap is ready again, and every mark that changed is marked and reachable from the root. |
| Gc.QueueChildren | src/gc.c:57-63 | Queueing the children keeps the marking invariants, leaves every marked or queued object as it was, never shrinks the queue, and never grows unmarked objects plus queue length. |
| Gc.MarkNext | src/gc.c:51-65 | Each round keeps the marking invariants, marks the root once it leaves the queue, and strictly decreases (unmarked objects, queue length), so marking ends. |
| Gc.MarkRoot | src/gc.c:46-66 | Marking on the runtime notes that marking happened and marks only reachable objects. |
| Gc.MarkBasics | src/gc.c:73-78 | Every object reachable from the error stack or the call stack is settled, and nothing else changes mark. |
| Gc.Init | src/gc.c:10-31 | The allocation list starts with nil alone, mark 0, with an empty stack and no error. |
| Gc.New | src/types.c:736-750 | A new object is appended at the tail of the allocation list, unmarked, with the heap otherwise unchanged. |
| Gc.NewValid | src/types.c:736-750 | Appending an unmarked object whose children exist keeps the collector state valid. |
| Gc.SweepList | src/gc.c:103-112 | The walk keeps the head and exactly the marked objects in their order, and resets each survivor's mark. |
| Gc.MarkedOnlyMembers | src/gc.c:103-112 | An entry survives exactly when it is marked. |
| Gc.Sweep | src/gc.c:80-117 | After marking, every object marked before the sweep survives, roots survive, and every survivor was marked or rooted. Without marking, the error and stack are reset and only nil and marked objects survive. Survivors are unmarked, and the list is nil followed by the survivors in their old order. |
| Gc.MarkedOnlyInKeys | src/gc.c:103-112 | Keeping the marked entries equals keeping the entries of any key set that holds exactly the marked ones, in the same order. |
| Gc.SweptInOrder | src/gc.c:103-115 | The list the walk leaves is nil and then the survivors, in their old order. |
| Gc.MarkThenSweep | src/gc.c:46-117 | `lisp_mark` of a value and then `lisp_sweep` keep exactly nil, the objects already marked, everything reachable from the value, and everything reachable from the call stack or the error stack, in list order. |
| Gc.SweptReady | src/gc.c:103-116 | Resetting every survivor's mark leaves a heap ready for the next marking pass. |
| Gc.Destroy | src/gc.c:33-44 | Destroying keeps only nil and already-marked objects, so only nil when nothing is marked. |
| TextCache.TextNew | src/textcache.c:53-92 | The result is either an existing object, with nothing allocated, or a new object holding the text; the caller's text is freed only when owned and not copied. |
| TextCache.CachedHolds | src/textcache.c:12-18 | A cache entry for a text names an object that holds that text with the cache's kind. |
| TextCache.SavePreserves | src/textcache.c:20-23 | Saving a new object keeps the cache consistent, maps its text to it, and leaves every other text alone. |
| TextCache.HitAllocatesNothing | src/textcache.c:58-76 | With a cache entry for the text, the cached object is returned and nothing changes. |
| TextCache.MissCreates | src/textcache.c:78-91 | On a miss a new object holds the text and the caller's text is not freed; with a cache, the cache then maps the text to the new object and stays consistent. |
| TextCache.TextNewHolds | src/textcache.c:53-92 | The object returned always holds the text asked for, and the cache stays consistent. |
| TextCache.InternTwice | src/textcache.c:53-92 | Asking a cache twice for the same text gives the same object, the second time with nothing allocated. |
| TextCache.NoCacheAlwaysNew | src/textcache.c:78-83 | Without a cache every request makes a new object, even for equal text. |
| TextCache.CacheRemoveSpec | src/textcache.c:25-37 | Removing an object forgets its text exactly when the cache named that object, and keeps every other entry. |
| TextCache.CacheRemove | src/textcache.c:25-37 | Removing never changes the number of slots. |
| TextCache.StringNew | src/textcache.c:94-97 | Strings are interned through the string cache only; the symbol cache is untouched. |
| TextCache.SymbolNew | src/textcache.c:99-102 | Symbols are interned through the symbol cache only; the string cache is untouched. |
| TextCache.EnableCache | src/textcache.c:104-112 | An enabled cache starts empty and consistent with any objects. |

## Left out

- Input and output: file reading (`read_file`, `lisp_parse_progn_f`, `lisp_load_file`), every `*_print` function, `lisp_dump_stack`, `lisp_print_error` and `ht_print`. `print` is modelled as appending the value to a list of printed values.
- `tools/*.c`, the command-line front ends, are not part of this model.
- `cb_printf` and `cb_vprintf`: these use C formatting through `vsnprintf`.
- `run_test_script` in test.py, and UTF-8 decoding, `difflib` output and argument parsing there. The run is a parameter `run: string -> Actual`.
- Python's `\d` also matches non-ASCII digits. The model accepts ASCII digits only.
- Memory layout: `malloc`, `realloc`, `free`, byte offsets and `memcpy`. Slots, objects and scopes are abstract, and buffer bytes are characters.
- The value offset `ht_resize` computes from `value_size` (src/hashtable.c:179) is not modelled. Keys and values are stored as pairs.
- `ht_load_factor` is floating point. The resize test is stated as `2 * length > allocated`.
- Termination of `ht_find_insert` is not proved, since it would need primality of the sizes. `FindIndex` gives up after `n` probes, and `SearchNeverEnds` shows that the C loop never ends when those probes find nothing.
- HashTable.Insert and HashTable.Resize require a size of at most 2147483647, from which `ht_next_size` still has a next prime. Larger tables read past `ht_primes`.
- C signed overflow is undefined. The arithmetic builtins are modelled with two's-complement wrap-around (`Wrap32`).
- Builtins.MinusIsDifference requires every integer argument to fit in 32 bits, as any `lisp_integer` does.
- `ht_string_hash` reads characters through a signed `char`. `SignedChar` models that, and `StringHash` is stated for bytes.
- `quasiquote` (src/builtins.c:561-596) and `map` with its list-quoting helpers need the full rewriting evaluator. In the model they stop with `Stuck(Unmodelled)`. `unquote` is modelled: it evaluates its one argument.
- `eval` evaluates its first argument. `dump-stack` writes the stack out, which is I/O, so the model returns nil without the output. A builtin not in the default scope stops with `Stuck(Unmodelled)`.
- TestRunner.SplitLines, TestRunner.SplitLinesJoin, TestRunner.SplitLinesShape and TestRunner.LineEnd cut at `\n` only. They are applied to the text after `Universal` has turned `\r\n` and `\r` into `\n`, as `ReadLines` does.
- Reader.ExpressionsFrom and Reader.ParseProgn are the corrected program reader: a dotted tail consumes its `)`, and a read of no input is `LE_SYNTAX` instead of a loop. The loop as written is `ExpressionsAsWritten` and `ParsePrognAsWritten`; `ParsePrognDotFree` shows the two agree on every text without a `.`.
- Scopes.Recorded and Scopes.Bind record a lambda's first name only in the copy they store in the scope. The same goes for Eval.BindDefined and Eval.BindParams, which bind through them. `lisp_scope_bind` sets `first_binding` on the shared C lambda object (src/util.c:43-48). Every other reference to that object then shows the name as well, for instance when `lambda_print` prints it. Values here are immutable and have no identity, so other references keep no name. For example, after `(define p (cons (lambda (x) x) '())) (define k (car p))`, C prints `p` as `(<lambda k>)`, while in the model the lambda inside `p` is still unnamed. Equality does not read the name (`Equality.FirstBindingIgnored`), so only printing and `expand` see the difference.
- Equality.Equal and Equality.ScopesEqual spend one unit of depth per scope entered and answer false for distinct scopes at depth 0, where the C code recurses without a bound and can loop for ever. `EqualMonotone` shows a true answer stays true at every greater depth, so a comparison the C code finishes with true is found true once the depth covers its recursion.
- HashTable.PutSpec, HashTable.RemoveSpec and HashTable.InsertSpec describe calls that return. On a table with no empty slot left, `Put`, `Remove`, `Insert` and `Contains` of an absent key are `None`, the C loop that never ends.
- Evaluation carries a fuel bound and ends in `Stuck(OutOfFuel)` when the bound runs out, so non-terminating Lisp programs are not modelled.
- Eval.Call and Eval.Apply state the invariant every call keeps, but not the value of an arbitrary call. Specific calls are stated by `AddCall`, `IdentityCall`, `IfChooses` and `MacroResultInCallerScope`.
- Eval.LambdaCall, Eval.RunBuiltin and Eval.Progn state the evaluation invariant plus the simple cases. Their results for arbitrary programs are given by the step lemmas.
- Reader.ParseList does not state the contents of an arbitrary list. `Unparse.ReadBack` gives them for every printed value.
- CharBuf.ExpandToFit requires a non-zero capacity. A zero capacity doubles for ever in the C code.
- CharBuf.Init and CharBuf.Clear require a non-zero capacity. `cb_init` writes the terminating NUL into the first byte, which a zero capacity does not have.
- RingBuf.Init requires a non-zero size. With zero slots `rb_grow` doubles zero and the index arithmetic divides by zero.
- RingBuf.PopFront and RingBuf.PopBack require at least one item. src/ringbuf.h:48-62 leaves a pop from an empty buffer undefined.
- `scope_expand` passes `&scope->up` where the scope pointer is meant (src/types.c:167). An object's children in the collector are given directly, so this is not modelled.
- `list_expand` and `lambda_expand` become an object's list of children in the collector heap. `lisp_new` takes those children at creation.
- `lisp_init`'s module table and the `os` module are not modelled, and `has_marked` is left as `malloc` gave it.
- `LS_OWN` and `LS_CPY` are modelled as two booleans. `lisp_disable_strcache` and `lisp_disable_symcache` are a cache set to `None`.
- Destroy keeps objects that were already marked. `lisp_destroy` then frees nil and the caches, which is memory management only.
- `lisp_nil_p` is the datatype constructor `Nil`. The C nil is a list cell with both halves NULL.
- The headers (`src/lisp.h`, `src/funlisp_internal.h`, `inc/funlisp.h`) are used for declarations only. `src/public_util.c` and `src/module.c` are not part of this model.

## Findings

| source | as written | input that shows it | evidently intended | confidence | as-written member | corrected member |
|---|---|---|---|---|---|---|
| src/parse.c:96-104 | After a backslash the string loop always steps two characters. | `"\` : the step jumps over the terminating NUL and reads past the buffer. | Stop at the NUL and report `LE_SYNTAX`. | not executed | Reader.BackslashAtEndOverruns | Reader.StringBodyAgrees |
| src/parse.c:261-284 | At a top-level `.`, the value read is an empty symbol that consumes no bytes. | `.` : the program loop repeats the same step for ever. | Report a syntax error for a read that consumes nothing. | not executed | Reader.StrayDotLoops | Reader.StrayDotRejected |
| src/parse.c:144-151 | A dotted tail returns right after its value and leaves the `)` unread. | `((a . b) c)` reads as `((a . b))`. | Consume the `)` that closes the dotted list. | not executed | Reader.NestedDotMisread | Reader.NestedDotRead |
| src/types.c:207 | `scope_compare` compares the left table's length with itself. | An empty scope against a scope binding `x`: equal one way, unequal the other. | Compare the lengths of both tables. | not executed | Equality.EmptyScopeEqualsAnyAsWritten | Equality.EmptyScopeDiffers |
| src/builtins.c:263-278 | The comparisons test the sign of the 32-bit difference `first - second`. | `(< -2147483647 2)` answers 0. | Compare the two integers directly. | not executed | Builtins.LessOverflows | Builtins.CompareDecides |
| src/builtins.c:35-47 | `cdr` of nil returns its NULL `right` with no error recorded. | `(cdr '())` returns NULL with no error to report. | Report `LE_ERROR`, as `car` does. | not executed | Builtins.CdrOfNilSilent | Builtins.Cdr |
| src/builtins.c:173-206 | `-` reads its first argument as an integer without a type check. | `(- "a")` gives an unspecified number. | `LE_TYPE`, as for every other argument. | not executed | Builtins.MinusOfStringUndefined | Builtins.MinusIsDifference |
| src/builtins.c:230-261 | `/` reads its first argument as an integer without a type check. | `(/ "a" 1)` gives an unspecified number. | `LE_TYPE`, as for every divisor. | not executed | Builtins.DivideOfStringUndefined | Builtins.DivideAgrees |
| src/ringbuf.c:35 | The move loop of `rb_grow` copies `nalloc` bytes for each element. | The collector's queue of 16 pointers with `start` 15 writes up to byte 272 of a 256-byte block. | Copy `dsize` bytes per element. | not executed | RingBuf.GrowOverrunsAsWritten | RingBuf.MovesStayInside |
| src/hashtable.c:134-155 | Gravestones never count against the load, and retrieval probes only stop at an empty slot or the key. | Insert then remove each of the keys 0 to 30 in a new table, then look up 31: the lookup never ends. | A bounded probe, or graves counted in the load. | not executed | HashTable.GravesHangLookup | HashTable.GetIffStored |
