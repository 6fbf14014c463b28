/** Decimal and binary numerals: the part of Python's `int(s)` the assembler
    needs (an unsigned base-10 literal) and `format(n, '016b')`. */
module Numerals {

  datatype Option<+T> = None | Some(value: T)

  predicate IsDigit(c: char) {
    '0' <= c <= '9'
  }

  function DigitValue(c: char): nat
    requires IsDigit(c)
  {
    c as int - '0' as int
  }

  /** A non-empty string of ASCII decimal digits (leading zeros allowed). */
  predicate IsDecimalLiteral(s: string) {
    |s| > 0 && forall k :: 0 <= k < |s| ==> IsDigit(s[k])
  }

  /** The value of a string of decimal digits, most significant first. */
  function DecimalValue(s: string): nat
    requires forall k :: 0 <= k < |s| ==> IsDigit(s[k])
  {
    if s == [] then 0
    else DecimalValue(s[..|s| - 1]) * 10 + DigitValue(s[|s| - 1])
  }

  /** `int(s)` on a string that is nothing but an unsigned decimal literal;
      every other string is a parse failure (`ValueError`). */
  function ParseInt(s: string): (r: Option<nat>)
    ensures r.Some? <==> IsDecimalLiteral(s)
  {
    if IsDecimalLiteral(s) then Some(DecimalValue(s)) else None
  }

  /** `str(n)`: the canonical decimal rendering of `n`. */
  function DecimalString(n: nat): (s: string)
    ensures |s| > 0 && forall k :: 0 <= k < |s| ==> IsDigit(s[k])
  {
    if n < 10 then [('0' as int + n) as char]
    else DecimalString(n / 10) + [('0' as int + n % 10) as char]
  }

  /** Parsing the decimal rendering of `n` gives `n` back. */
  lemma {:induction false} ParseDecimalString(n: nat)
    ensures ParseInt(DecimalString(n)) == Some(n)
  {
    DecimalStringValue(n);
  }

  lemma {:induction false} DecimalStringValue(n: nat)
    ensures DecimalValue(DecimalString(n)) == n
  {
    var s := DecimalString(n);
    if n >= 10 {
      assert s[..|s| - 1] == DecimalString(n / 10);
      DecimalStringValue(n / 10);
    }
  }

  /** Leading zeros, any number of them, do not change the value `int`
      reads. */
  lemma {:induction false} ParseLeadingZero(k: nat, s: string)
    requires IsDecimalLiteral(s)
    ensures ParseInt(Zeros(k) + s) == ParseInt(s)
  {
    if k > 0 {
      assert Zeros(k) + s == Zeros(k - 1) + ("0" + s);
      LeadingZeroValue(s);
      ParseLeadingZero(k - 1, "0" + s);
    } else {
      assert Zeros(k) + s == s;
    }
  }

  lemma {:induction false} LeadingZeroValue(s: string)
    requires forall k :: 0 <= k < |s| ==> IsDigit(s[k])
    ensures DecimalValue("0" + s) == DecimalValue(s)
  {
    if s != [] {
      assert ("0" + s)[..|"0" + s| - 1] == "0" + s[..|s| - 1];
      LeadingZeroValue(s[..|s| - 1]);
    }
  }

  predicate IsBit(c: char) {
    c == '0' || c == '1'
  }

  predicate IsBinaryString(s: string) {
    forall k :: 0 <= k < |s| ==> IsBit(s[k])
  }

  /** The unsigned value of a string of binary digits, most significant first. */
  function BinaryValue(s: string): nat
    requires IsBinaryString(s)
  {
    if s == [] then 0
    else BinaryValue(s[..|s| - 1]) * 2 + (if s[|s| - 1] == '1' then 1 else 0)
  }

  function Pow2(k: nat): (p: nat)
    ensures p >= 1
  {
    if k == 0 then 1 else 2 * Pow2(k - 1)
  }

  /** `format(n, 'b')`: the binary digits of `n` without leading zeros
      ("0" for zero). */
  function Bits(n: nat): (s: string)
    ensures |s| > 0
  {
    if n < 2 then [if n == 0 then '0' else '1']
    else Bits(n / 2) + [if n % 2 == 0 then '0' else '1']
  }

  /** `Bits` is the canonical binary numeral of `n`: only binary digits,
      value `n`, and a leading `1` unless `n` is zero. */
  lemma {:induction false} BitsCorrect(n: nat)
    ensures IsBinaryString(Bits(n))
    ensures BinaryValue(Bits(n)) == n
    ensures n > 0 ==> Bits(n)[0] == '1'
  {
    var s := Bits(n);
    if n >= 2 {
      BitsCorrect(n / 2);
      assert s[..|s| - 1] == Bits(n / 2);
    }
  }

  /** `n` needs at most `k` binary digits exactly when it is below 2^k. */
  lemma {:induction false} BitsLength(n: nat, k: nat)
    requires k >= 1
    ensures |Bits(n)| <= k <==> n < Pow2(k)
  {
    if n >= 2 && k >= 2 {
      BitsLength(n / 2, k - 1);
    } else if n >= 2 {
      assert |Bits(n)| == |Bits(n / 2)| + 1;
    }
  }

  /** A string of `k` zero characters. */
  function Zeros(k: nat): (z: string)
    ensures |z| == k && forall i :: 0 <= i < k ==> z[i] == '0'
  {
    if k == 0 then [] else Zeros(k - 1) + "0"
  }

  /** A numeral made only of zeros has value zero. */
  lemma {:induction false} ZerosValue(k: nat)
    ensures IsBinaryString(Zeros(k)) && BinaryValue(Zeros(k)) == 0
  {
    if k > 0 {
      ZerosValue(k - 1);
    }
  }

  /** Leading zeros do not change the value of a binary numeral. */
  lemma {:induction false} ZerosPrefixValue(k: nat, s: string)
    requires IsBinaryString(s)
    ensures IsBinaryString(Zeros(k) + s)
    ensures BinaryValue(Zeros(k) + s) == BinaryValue(s)
  {
    if s == [] {
      ZerosValue(k);
      assert Zeros(k) + s == Zeros(k);
    } else {
      var t := Zeros(k) + s;
      assert t[..|t| - 1] == Zeros(k) + s[..|s| - 1];
      ZerosPrefixValue(k, s[..|s| - 1]);
    }
  }

  lemma Pow2Word()
    ensures Pow2(15) == 32768 && Pow2(16) == 65536
  {
    assert Pow2(5) == 32;
    assert Pow2(10) == 1024;
  }

  /** `format(n, '016b')`: `Bits(n)` zero-padded on the left to 16 characters;
      a numeral already 16 or more characters long is left as it is. */
  function Format016b(n: nat): (w: string)
    ensures |w| >= 16
  {
    var b := Bits(n);
    if |b| < 16 then Zeros(16 - |b|) + b else b
  }

  /** What `format(n, '016b')` promises: only binary digits whose unsigned
      value is `n`; exactly 16 of them when `n` fits in 16 bits (more, and
      no padding, otherwise); the leading digit is `0` exactly when `n` fits
      in 15 bits. */
  lemma {:induction false} Format016bCorrect(n: nat)
    ensures IsBinaryString(Format016b(n))
    ensures BinaryValue(Format016b(n)) == n
    ensures |Format016b(n)| == 16 <==> n < 65536
    ensures |Format016b(n)| > 16 ==> Format016b(n) == Bits(n)
    ensures Format016b(n)[0] == '0' <==> n < 32768
  {
    var b := Bits(n);
    BitsCorrect(n);
    BitsLength(n, 16);
    BitsLength(n, 15);
    Pow2Word();
    if |b| < 16 {
      ZerosPrefixValue(16 - |b|, b);
    }
  }

  /** A numeral of `k` binary digits is below 2^k. */
  lemma {:induction false} BinaryValueBound(s: string)
    requires IsBinaryString(s)
    ensures BinaryValue(s) < Pow2(|s|)
  {
    if s != [] {
      BinaryValueBound(s[..|s| - 1]);
    }
  }

  /** Two binary numerals of the same length and the same value are the
      same string. */
  lemma {:induction false} BinaryValueInjective(a: string, b: string)
    requires IsBinaryString(a) && IsBinaryString(b) && |a| == |b|
    requires BinaryValue(a) == BinaryValue(b)
    ensures a == b
  {
    if a != [] {
      var pa, pb := a[..|a| - 1], b[..|b| - 1];
      assert BinaryValue(pa) == BinaryValue(pb) && a[|a| - 1] == b[|b| - 1] by {
        var u, v := BinaryValue(pa), BinaryValue(pb);
        assert BinaryValue(a) == u * 2 + (if a[|a| - 1] == '1' then 1 else 0);
        assert BinaryValue(b) == v * 2 + (if b[|b| - 1] == '1' then 1 else 0);
      }
      BinaryValueInjective(pa, pb);
      assert a == pa + [a[|a| - 1]] && b == pb + [b[|b| - 1]];
    }
  }

  /** The other round trip: every 16-digit binary word is the
      `format(n, '016b')` of its own value. */
  lemma Format016bOfWord(w: string)
    requires |w| == 16 && IsBinaryString(w)
    ensures Format016b(BinaryValue(w)) == w
  {
    var v := BinaryValue(w);
    BinaryValueBound(w);
    Pow2Word();
    Format016bCorrect(v);
    BinaryValueInjective(Format016b(v), w);
  }
}
