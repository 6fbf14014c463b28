/** The Hack assembler's two passes over a program held as a list of lines:
    `sanitize`, which strips comments, edge whitespace and blank lines, and
    `convert_to_machine_code`, which turns each address instruction `@n`
    into its binary numeral, zero-padded to 16 digits (unpadded and longer
    from 65536 up), and copies every other line through. */
module Assembler {
  import opened PyStr
  import opened Numerals

  datatype Result<+T, +E> = Ok(value: T) | Err(error: E)

  /** `int()` rejected the operand of an address instruction; carries the
      offending line. */
  datatype EncodeError = MalformedAddress(line: string)

  const CommentMarker: string := "//"

  // ---------------------------------------------------------------- sanitize

  /** What `sanitize` makes of one raw line: cut at the first `//`, then
      stripped of edge whitespace (possibly leaving nothing). */
  function CleanLine(line: string): string {
    var commentStart := Find(line, CommentMarker);
    var code := if commentStart != -1 then line[..commentStart] else line;
    Strip(code)
  }

  /** A line as `sanitize` emits it: non-empty, free of `//`, and without
      whitespace at either end. */
  predicate IsClean(line: string) {
    |line| > 0 && !Contains(line, CommentMarker) && IsTrimmed(line)
  }

  /** `f` applied to each line, one for one. */
  function MapLines(f: string -> string, lines: seq<string>): (r: seq<string>)
    ensures |r| == |lines| && forall i :: 0 <= i < |lines| ==> r[i] == f(lines[i])
  {
    if lines == [] then [] else MapLines(f, lines[..|lines| - 1]) + [f(lines[|lines| - 1])]
  }

  lemma MapLinesConcat(f: string -> string, xs: seq<string>, ys: seq<string>)
    ensures MapLines(f, xs + ys) == MapLines(f, xs) + MapLines(f, ys)
  {
  }

  /** Each raw line cleaned, one for one. */
  function CleanAll(rawLines: seq<string>): seq<string> {
    MapLines(CleanLine, rawLines)
  }

  /** The non-empty lines of `lines`, in order. */
  function DropEmpty(lines: seq<string>): seq<string> {
    if lines == [] then []
    else DropEmpty(lines[..|lines| - 1]) + (if |lines[|lines| - 1]| > 0 then [lines[|lines| - 1]] else [])
  }

  /** The lines `sanitize` returns: the non-empty cleaned lines, in input
      order. */
  function SanitizeSpec(rawLines: seq<string>): seq<string> {
    DropEmpty(CleanAll(rawLines))
  }

  /** `sanitize(raw_lines)` */
  method Sanitize(rawLines: seq<string>) returns (cleanedLines: seq<string>)
    ensures cleanedLines == SanitizeSpec(rawLines)
    ensures |cleanedLines| <= |rawLines|
    ensures forall k :: 0 <= k < |cleanedLines| ==> IsClean(cleanedLines[k])
  {
    cleanedLines := [];
    for i := 0 to |rawLines|
      invariant cleanedLines == DropEmpty(CleanAll(rawLines[..i]))
    {
      var line := rawLines[i];
      var commentStart := Find(line, CommentMarker);
      if commentStart != -1 {
        line := line[..commentStart];
      }
      var processedLine := Strip(line);
      if |processedLine| > 0 {
        cleanedLines := cleanedLines + [processedLine];
      }
      assert processedLine == CleanLine(rawLines[i]);
      CleanAllSnoc(rawLines, i);
      DropEmptySnoc(CleanAll(rawLines[..i]), processedLine);
    }
    assert rawLines[..|rawLines|] == rawLines;
    SanitizeShrinks(rawLines);
    SanitizeEmitsCleanLines(rawLines);
  }

  lemma DropEmptySnoc(lines: seq<string>, line: string)
    ensures DropEmpty(lines + [line]) == DropEmpty(lines) + (if |line| > 0 then [line] else [])
  {
  }

  lemma CleanAllSnoc(rawLines: seq<string>, i: nat)
    requires i < |rawLines|
    ensures CleanAll(rawLines[..i + 1]) == CleanAll(rawLines[..i]) + [CleanLine(rawLines[i])]
  {
  }

  /** Every cleaned line is either empty or clean. */
  lemma CleanLineIsClean(line: string)
    ensures CleanLine(line) == [] || IsClean(CleanLine(line))
  {
    var commentStart := Find(line, CommentMarker);
    var code := if commentStart != -1 then line[..commentStart] else line;
    if commentStart != -1 {
      assert !Contains(code, CommentMarker) by {
        forall j | 0 <= j <= |code|
          ensures !OccursAt(code, CommentMarker, j)
        {
          OccursInSlice(line, CommentMarker, 0, commentStart, j);
        }
      }
    }
    StripSlice(code);
    var i, j :| 0 <= i <= j <= |code| && Strip(code) == code[i..j];
    NotContainsSlice(code, CommentMarker, i, j);
  }

  /** A line that is already clean comes out of `CleanLine` unchanged. */
  lemma CleanLineFixesClean(line: string)
    requires IsClean(line)
    ensures CleanLine(line) == line
  {
  }

  lemma {:induction false} DropEmptyShrinks(lines: seq<string>)
    ensures |DropEmpty(lines)| <= |lines|
  {
    if lines != [] {
      DropEmptyShrinks(lines[..|lines| - 1]);
    }
  }

  /** `sanitize` never grows the list. */
  lemma SanitizeShrinks(rawLines: seq<string>)
    ensures |SanitizeSpec(rawLines)| <= |rawLines|
  {
    DropEmptyShrinks(CleanAll(rawLines));
  }

  /** `DropEmpty` keeps only lines of `lines`, and only non-empty ones. */
  lemma {:induction false} DropEmptyKeeps(lines: seq<string>, k: nat)
    requires k < |DropEmpty(lines)|
    ensures |DropEmpty(lines)[k]| > 0
    ensures exists i :: 0 <= i < |lines| && DropEmpty(lines)[k] == lines[i]
  {
    var init := lines[..|lines| - 1];
    if k < |DropEmpty(init)| {
      DropEmptyKeeps(init, k);
      var i :| 0 <= i < |init| && DropEmpty(init)[k] == init[i];
      assert lines[i] == init[i];
    } else {
      assert DropEmpty(lines)[k] == lines[|lines| - 1];
    }
  }

  /** No line `sanitize` emits is empty, contains `//`, or has whitespace at
      either end. */
  lemma SanitizeEmitsCleanLines(rawLines: seq<string>)
    ensures forall k :: 0 <= k < |SanitizeSpec(rawLines)| ==> IsClean(SanitizeSpec(rawLines)[k])
  {
    var cleaned := CleanAll(rawLines);
    forall k | 0 <= k < |DropEmpty(cleaned)|
      ensures IsClean(DropEmpty(cleaned)[k])
    {
      DropEmptyKeeps(cleaned, k);
      var i :| 0 <= i < |cleaned| && DropEmpty(cleaned)[k] == cleaned[i];
      CleanLineIsClean(rawLines[i]);
    }
  }

  lemma {:induction false} DropEmptyConcat(xs: seq<string>, ys: seq<string>)
    ensures DropEmpty(xs + ys) == DropEmpty(xs) + DropEmpty(ys)
  {
    if ys == [] {
      assert xs + ys == xs;
    } else {
      assert (xs + ys)[..|xs + ys| - 1] == xs + ys[..|ys| - 1];
      DropEmptyConcat(xs, ys[..|ys| - 1]);
    }
  }

  /** `sanitize` works line by line and keeps the order: sanitizing two
      lists one after the other is sanitizing their concatenation. */
  lemma SanitizeConcat(xs: seq<string>, ys: seq<string>)
    ensures SanitizeSpec(xs + ys) == SanitizeSpec(xs) + SanitizeSpec(ys)
  {
    MapLinesConcat(CleanLine, xs, ys);
    DropEmptyConcat(CleanAll(xs), CleanAll(ys));
  }

  /** One raw line contributes its cleaned form, or nothing if that is empty. */
  lemma SanitizeSingle(line: string)
    ensures SanitizeSpec([line]) == if |CleanLine(line)| > 0 then [CleanLine(line)] else []
  {
    var c := CleanLine(line);
    assert CleanAll([line]) == [c];
    assert [c][..0] == [];
    assert DropEmpty([c]) == DropEmpty([]) + (if |c| > 0 then [c] else []);
  }

  /** Dropping the empty lines of a list that has none gives it back. */
  lemma {:induction false} DropEmptyFixesNonEmpty(lines: seq<string>)
    requires forall k :: 0 <= k < |lines| ==> |lines[k]| > 0
    ensures DropEmpty(lines) == lines
  {
    if lines != [] {
      DropEmptyFixesNonEmpty(lines[..|lines| - 1]);
    }
  }

  /** A list of clean lines passes through `sanitize` unchanged. */
  lemma SanitizeFixesCleanLines(lines: seq<string>)
    requires forall k :: 0 <= k < |lines| ==> IsClean(lines[k])
    ensures SanitizeSpec(lines) == lines
  {
    forall k | 0 <= k < |lines|
      ensures CleanAll(lines)[k] == lines[k]
    {
      CleanLineFixesClean(lines[k]);
    }
    assert CleanAll(lines) == lines;
    DropEmptyFixesNonEmpty(lines);
  }

  /** `sanitize` is idempotent. */
  lemma SanitizeIdempotent(rawLines: seq<string>)
    ensures SanitizeSpec(SanitizeSpec(rawLines)) == SanitizeSpec(rawLines)
  {
    SanitizeEmitsCleanLines(rawLines);
    SanitizeFixesCleanLines(SanitizeSpec(rawLines));
  }

  // ------------------------------------------------- convert_to_machine_code

  /** What `convert_to_machine_code` makes of one line: an `@` line becomes
      `format(int(line[1:]), '016b')`, any other line is copied. */
  function EncodeLine(line: string): Result<string, EncodeError> {
    if |line| > 0 && line[0] == '@' then
      match ParseInt(line[1..])
      case Some(n) => Ok(Format016b(n))
      case None => Err(MalformedAddress(line))
    else Ok(line)
  }

  /** `convert_to_machine_code(assembler_code)`: one output line per input
      line, line `i` encoding input line `i`; if some `@` operand is not a
      decimal literal the conversion stops with the error of the first such
      line. */
  method ConvertToMachineCode(assemblerCode: seq<string>) returns (r: Result<seq<string>, EncodeError>)
    ensures r.Ok? <==> forall i :: 0 <= i < |assemblerCode| ==> EncodeLine(assemblerCode[i]).Ok?
    ensures r.Ok? ==> (|r.value| == |assemblerCode|
                       && forall i :: 0 <= i < |assemblerCode| ==> r.value[i] == EncodeLine(assemblerCode[i]).value)
    ensures r.Err? ==> (exists k :: 0 <= k < |assemblerCode|
                          && (forall j :: 0 <= j < k ==> EncodeLine(assemblerCode[j]).Ok?)
                          && EncodeLine(assemblerCode[k]) == Err(r.error))
  {
    var machineCode: seq<string> := [];
    for i := 0 to |assemblerCode|
      invariant |machineCode| == i
      invariant forall j :: 0 <= j < i ==> EncodeLine(assemblerCode[j]).Ok?
      invariant forall j :: 0 <= j < i ==> machineCode[j] == EncodeLine(assemblerCode[j]).value
    {
      var line := assemblerCode[i];
      if |line| > 0 && line[0] == '@' {
        var n := ParseInt(line[1..]);
        if n.None? {
          return Err(MalformedAddress(line));
        }
        machineCode := machineCode + [Format016b(n.value)];
      } else {
        machineCode := machineCode + [line];
      }
    }
    return Ok(machineCode);
  }

  /** A line that does not start with `@` is copied unchanged. */
  lemma EncodePassesThrough(line: string)
    requires line == [] || line[0] != '@'
    ensures EncodeLine(line) == Ok(line)
  {
  }

  /** An address instruction `@d` with `d` a decimal literal of value below
      65536 becomes exactly 16 binary digits whose value is that of `d`; the
      leading digit is `0` exactly when the value fits in 15 bits. */
  lemma EncodeAddress(digits: string)
    requires IsDecimalLiteral(digits) && DecimalValue(digits) < 65536
    ensures EncodeLine("@" + digits).Ok?
    ensures var w := EncodeLine("@" + digits).value;
      |w| == 16 && IsBinaryString(w) && BinaryValue(w) == DecimalValue(digits)
      && (w[0] == '0' <==> DecimalValue(digits) <= 32767)
  {
    assert ("@" + digits)[1..] == digits;
    Format016bCorrect(DecimalValue(digits));
  }

  /** `@n` for `n` written in decimal encodes `n`: the word is the binary
      numeral of `n`, padded to 16 digits when it is shorter. The model puts
      no limit on the number of digits `int()` accepts. */
  lemma EncodeAddressOf(n: nat)
    ensures EncodeLine("@" + DecimalString(n)).Ok?
    ensures var w := EncodeLine("@" + DecimalString(n)).value;
      IsBinaryString(w) && BinaryValue(w) == n && (|w| == 16 <==> n < 65536)
  {
    var line := "@" + DecimalString(n);
    assert line[1..] == DecimalString(n);
    ParseDecimalString(n);
    Format016bCorrect(n);
  }

  /** Encoding fails exactly on `@` lines whose operand is not a decimal
      literal (`@foo`, `@`), and reports that line. */
  lemma EncodeFails(line: string)
    ensures EncodeLine(line).Err? <==> |line| > 0 && line[0] == '@' && !IsDecimalLiteral(line[1..])
    ensures EncodeLine(line).Err? ==> EncodeLine(line).error == MalformedAddress(line)
  {
  }

  /** A comment-only line read from a file leaves nothing. */
  lemma CommentOnlyLineExample()
    ensures CleanLine("// comment only\n") == []
  {
  }

  /** A line with an inline comment is cut before the comment and only then
      trimmed, so the whitespace before `//` goes too. */
  lemma InlineCommentLineExample()
    ensures CleanLine("@7 // load seven\n") == "@7"
  {
    var b := "@7 // load seven\n";
    assert Find(b, CommentMarker) == 3 by {
      assert OccursAt(b, CommentMarker, 3);
      assert b[0..2][0] == '@' && b[1..3][0] == '7' && b[2..4][0] == ' ';
    }
    assert b[..3] == "@7 ";
    assert SkipSpaces("@7 ", 0) == 0;
    assert SkipSpacesBack("@7 ", 0, 3) == 2;
  }

  /** The address instruction `@7` encodes as the 16-bit word for seven. */
  lemma EncodeSevenExample()
    ensures EncodeLine("@7") == Ok("0000000000000111")
  {
    assert "@7"[1..] == "7";
    assert ParseInt("7") == Some(7);
    assert Bits(7) == "111";
    assert Zeros(13) + "111" == "0000000000000111";
  }
}
