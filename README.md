# Hack assembler, first pass and address encoding — a Dafny model

This project models `assembler.py`, a small assembler for the Hack
assembly language. It covers the two list transformations that make up the
whole of its logic:

- `sanitize` cleans the source lines. For each raw line it cuts off
  everything from the first `//`, strips leading and trailing whitespace,
  and drops the line if nothing is left.
- `convert_to_machine_code` maps each sanitized line to one output line. An
  address instruction `@n` becomes `format(int(n), '016b')`: the value of
  `n` in binary, zero-padded to 16 digits, or unpadded and longer than 16
  digits from 65536 up. Every other line is copied through unchanged.

The model has three modules:

- `PyStr` (`pystr.dfy`) models the Python string builtins the assembler
  calls: `str.find`, with its "lowest index, else -1" contract, and
  `str.strip()`, which returns the slice left once the edge whitespace is
  gone.
- `Numerals` (`numerals.dfy`) models `int()` on an unsigned decimal literal
  and `format(n, '016b')`. It proves both round trips: the value of the word
  equals `n`, and every 16-digit word is the format of its own value. It
  also proves the length and leading-digit facts.
- `Assembler` (`assembler.dfy`) holds the two passes. Each is an imperative
  `method` with a loop, as in the source. `Sanitize` is proved equal to the
  specification function `SanitizeSpec`. The lemmas about `SanitizeSpec`
  prove what the source promises:
  - every emitted line is clean;
  - the pass never grows the list;
  - it works line by line and keeps the order;
  - it is idempotent.

  `ConvertToMachineCode` is proved against the per-line function
  `EncodeLine`. The lemmas about `EncodeLine` cover pass-through, address
  encoding and failure.

`assembler.py` does not encode compute instructions. It copies every line
that does not start with `@` to the output verbatim (assembler.py:57-58),
and the model does the same. Where `int()` raises `ValueError`, the
exception becomes an `Err(MalformedAddress(line))` result carrying the first
offending line.

## Model

| member | source | states |
|---|---|---|
| PyStr.Find | assembler.py:29 | `line.find('//')`: -1 exactly when the marker does not occur; otherwise an index where it occurs, with no occurrence before it |
| PyStr.Strip | assembler.py:34 | `line.strip()` returns a string no longer than its input, with no whitespace at either end |
| PyStr.StripSlice | assembler.py:34 | the stripped line is a contiguous slice of the input, and everything dropped on either side is whitespace |
| PyStr.StripTrimmed | assembler.py:34 | stripping a string that has no edge whitespace returns it unchanged |
| Numerals.ParseInt | assembler.py:56 | `int(line[1:])` succeeds exactly when the operand is a non-empty string of decimal digits |
| Numerals.ParseDecimalString | assembler.py:56 | parsing the decimal rendering of any `n` yields `n` |
| Numerals.ParseLeadingZero | assembler.py:56 | any number of leading zeros in the operand leaves the parsed value unchanged |
| Numerals.BitsCorrect | assembler.py:56 | `format(n, 'b')` is a binary numeral whose value is `n`, with a leading `1` unless `n` is 0 |
| Numerals.BitsLength | assembler.py:56 | `n` needs at most `k` binary digits exactly when `n < 2^k` |
| Numerals.Format016b | assembler.py:56 | `format(n, '016b')` is at least 16 characters long |
| Numerals.Format016bCorrect | assembler.py:56 | `format(n, '016b')` is all binary digits with value `n`; it is exactly 16 long iff `n < 65536`; when longer it is the unpadded numeral; its first digit is `0` iff `n < 32768` |
| Numerals.Format016bOfWord | assembler.py:56 | every 16-digit binary word is `format(v, '016b')` of its own value `v` (the inverse round trip) |
| Assembler.Sanitize | assembler.py:16-39 | the loop returns exactly the non-empty cleaned lines in input order; the list is never longer than the input, and every line in it is clean |
| Assembler.CleanLineIsClean | assembler.py:29-34 | cutting at the first `//` and then stripping leaves either nothing or a non-empty line with no `//` and no edge whitespace |
| Assembler.CleanLineFixesClean | assembler.py:28-37 | a non-empty line with no `//` and no edge whitespace passes through the per-line cleaning unchanged |
| Assembler.SanitizeShrinks | assembler.py:26-39 | the sanitized list is never longer than the raw list |
| Assembler.SanitizeEmitsCleanLines | assembler.py:29-37 | no sanitized line is empty, contains `//`, or has whitespace at either end |
| Assembler.SanitizeConcat | assembler.py:26-39 | sanitizing a concatenation is concatenating the sanitized parts, so the pass is line-by-line and keeps the order |
| Assembler.SanitizeSingle | assembler.py:28-37 | one raw line contributes its cleaned form, or nothing when that is empty |
| Assembler.SanitizeFixesCleanLines | assembler.py:28-39 | a list of clean lines is its own sanitization |
| Assembler.SanitizeIdempotent | assembler.py:26-39 | sanitizing twice is sanitizing once |
| Assembler.ConvertToMachineCode | assembler.py:42-60 | succeeds iff every line encodes; then the output has the input's length and line `i` is the encoding of input line `i` alone; otherwise the error is that of the first failing line |
| Assembler.EncodePassesThrough | assembler.py:57-58 | a line that does not start with `@` is copied to the output unchanged |
| Assembler.EncodeAddress | assembler.py:55-56 | `@d` with `d` a digit string of value below 65536 becomes exactly 16 binary digits whose value is that of `d`, and the first digit is `0` iff the value is at most 32767 |
| Assembler.EncodeAddressOf | assembler.py:55-56 | `@` followed by the decimal rendering of any `n` encodes to binary digits of value `n`, exactly 16 of them iff `n < 65536` |
| Assembler.EncodeFails | assembler.py:55-56 | encoding fails exactly on `@` lines whose operand is not a decimal literal (`@foo`, `@`), and the error names that line |
| Assembler.CommentOnlyLineExample | assembler.py:29-37 | a line holding only a comment and its newline cleans to nothing |
| Assembler.InlineCommentLineExample | assembler.py:29-34 | `@7 // load seven` plus its newline is cut at the comment and then trimmed to `@7` |
| Assembler.EncodeSevenExample | assembler.py:55-56 | `@7` encodes to `0000000000000111` |

## Left out

- `main` (assembler.py:63-85) is not modelled. It reads `sys.argv`, derives the output file name, opens, reads and writes files, prints messages and catches `IndexError` and `FileNotFoundError`. All of that is command-line and file I/O with no domain logic.
- The output formatting `'\n'.join(machine_code) + '\n'` (assembler.py:77) is part of the I/O routine and is not modelled. The lines `readlines()` produces are modelled as strings that may end in `\n`, which `strip` removes.
- Numerals.ParseInt: it accepts only non-empty ASCII digit strings. Python's `int()` also accepts surrounding whitespace (`@ 5`), a sign (`@-3`, `@+3`), `_` between digits and non-ASCII decimal digits. The model reports `MalformedAddress` for these lines, while Python would parse them. For a negative value, `format` would then write a `-` sign that the model does not produce. The model also has no digit limit on `int()`. Python 3.11 (and 3.10.7, 3.9.14 and 3.8.14) raises `ValueError` for a decimal string longer than `sys.int_info.default_max_str_digits` (4300) digits. The model accepts such an operand, so `EncodeAddressOf` promises `Ok` for every `n`, where Python fails on an operand of more than 4300 digits.
- PyStr.IsSpace: whitespace is the ASCII part of Python's `str.isspace()`. Unicode whitespace (U+0085, U+00A0, U+2028 and the rest) is not treated as whitespace.
- Python raises `ValueError` and unwinds when `int()` fails. The model returns an `Err` result naming the first offending line instead. No partial output is returned in either case.
- Compute-instruction encoding (`dest=comp;jump`, the comp/dest/jump tables, the `111` prefix) does not exist in assembler.py and is not modelled. Such lines are copied through, as the code does.
