/**
 * `strconv.ParseUint(s, 16, 64)`, which reads the stack pointer out of the
 * register list, together with a reference definition of the value of a
 * hexadecimal string and the round trip with `%X`.
 */
module Strconv {
  import opened Fmt

  /** strconv.ErrSyntax and strconv.ErrRange. */
  datatype ParseError = Syntax | Range

  datatype ParseResult = Ok(value: u64) | Err(error: ParseError)

  /** Largest accumulated value that can take one more digit: maxUint64/16 + 1. */
  const CUTOFF: int := 0x1000_0000_0000_0000

  /** A digit in base 16, letters in either case. */
  predicate IsHexDigit(c: char)
  {
    '0' <= c <= '9' || 'a' <= c <= 'f' || 'A' <= c <= 'F'
  }

  function DigitValue(c: char): (d: nat)
    requires IsHexDigit(c)
    ensures d < 16
  {
    if '0' <= c <= '9' then c as int - '0' as int
    else if 'a' <= c <= 'f' then c as int - 'a' as int + 10
    else c as int - 'A' as int + 10
  }

  predicate AllHexDigits(s: string)
  {
    forall k :: 0 <= k < |s| ==> IsHexDigit(s[k])
  }

  /** Reference definition: the number a string of hexadecimal digits denotes. */
  function HexValue(s: string): nat
    requires AllHexDigits(s)
    decreases |s|
  {
    if s == [] then 0 else HexValue(s[..|s| - 1]) * 16 + DigitValue(s[|s| - 1])
  }

  /**
   * The digit loop of ParseUint from index `i` on, with `n` the value of the
   * digits before `i`. As in strconv, the first offending character decides:
   * a non-digit is a syntax error, a digit that would overflow a range error.
   */
  function Accumulate(s: string, i: nat, n: u64): ParseResult
    requires i <= |s|
    decreases |s| - i
  {
    if i == |s| then Ok(n)
    else if !IsHexDigit(s[i]) then Err(Syntax)
    else if n >= CUTOFF then Err(Range)
    else
      var n1 := n * 16 + DigitValue(s[i]);
      if n1 >= U64_MODULUS then Err(Range) else Accumulate(s, i + 1, n1)
  }

  /**
   * strconv.ParseUint(s, 16, 64): no sign, no prefix, no underscores. It
   * accepts exactly the non-empty digit strings whose value fits in 64 bits
   * and returns that value; the empty string and a stray character are
   * syntax errors, an overflow is a range error, whichever comes first.
   */
  function ParseHexU64(s: string): (r: ParseResult)
    ensures r.Ok? <==> s != [] && AllHexDigits(s) && HexValue(s) < U64_MODULUS
    ensures r.Ok? ==> r.value == HexValue(s)
    ensures s != [] && AllHexDigits(s) && HexValue(s) >= U64_MODULUS ==> r == Err(Range)
    ensures FirstNonDigit(s) < |s| ==>
      r == if HexValue(s[..FirstNonDigit(s)]) < U64_MODULUS then Err(Syntax) else Err(Range)
  {
    if s == [] then Err(Syntax)
    else
      AccumulateFromStart(s);
      Accumulate(s, 0, 0)
  }

  /** Appending digits never lowers the value. */
  lemma {:induction false} HexValuePrefix(s: string, j: nat, k: nat)
    requires j <= k <= |s| && AllHexDigits(s[..k])
    ensures AllHexDigits(s[..j]) && HexValue(s[..j]) <= HexValue(s[..k])
    decreases k - j
  {
    assert s[..k][..j] == s[..j];
    if j < k {
      HexValuePrefix(s, j, k - 1);
      assert s[..k][..k - 1] == s[..k - 1];
    }
  }

  /**
   * The digit loop returns the value of the longest digit prefix s[..k], or
   * the error the character at k (or an overflow before it) calls for.
   */
  lemma {:induction false} AccumulateMeaning(s: string, i: nat, n: u64, k: nat)
    requires i <= k <= |s|
    requires AllHexDigits(s[..k])
    requires k == |s| || !IsHexDigit(s[k])
    requires AllHexDigits(s[..i]) && n == HexValue(s[..i])
    ensures Accumulate(s, i, n) ==
      if HexValue(s[..k]) >= U64_MODULUS then Err(Range)
      else if k == |s| then Ok(HexValue(s[..k]))
      else Err(Syntax)
    decreases |s| - i
  {
    if i < k {
      assert s[..k][i] == s[i];
      var d := DigitValue(s[i]);
      assert s[..i + 1][..i] == s[..i];
      assert HexValue(s[..i + 1]) == n * 16 + d;
      HexValuePrefix(s, i + 1, k);
      if n < CUTOFF && n * 16 + d < U64_MODULUS {
        AccumulateMeaning(s, i + 1, n * 16 + d, k);
      }
    }
  }

  /** The index of the first character that is not a hexadecimal digit, or |s|. */
  function FirstNonDigit(s: string): (k: nat)
    ensures k <= |s| && AllHexDigits(s[..k]) && (k == |s| || !IsHexDigit(s[k]))
    decreases |s|
  {
    if s == [] then 0
    else if !IsHexDigit(s[0]) then 0
    else
      var k := 1 + FirstNonDigit(s[1..]);
      assert forall j :: 1 <= j < k ==> s[..k][j] == s[1..][..k - 1][j - 1];
      k
  }

  /** The digit loop run from the start on a non-empty string, by the first non-digit in it. */
  lemma AccumulateFromStart(s: string)
    requires s != []
    ensures Accumulate(s, 0, 0).Ok? <==> AllHexDigits(s) && HexValue(s) < U64_MODULUS
    ensures Accumulate(s, 0, 0).Ok? ==> Accumulate(s, 0, 0).value == HexValue(s)
    ensures AllHexDigits(s) && HexValue(s) >= U64_MODULUS ==> Accumulate(s, 0, 0) == Err(Range)
    ensures FirstNonDigit(s) < |s| ==>
      Accumulate(s, 0, 0) == if HexValue(s[..FirstNonDigit(s)]) < U64_MODULUS then Err(Syntax) else Err(Range)
  {
    var k := FirstNonDigit(s);
    assert s[..0] == [];
    AccumulateMeaning(s, 0, 0, k);
    assert k == |s| ==> s[..k] == s;
    if k < |s| {
      assert !AllHexDigits(s);
    }
  }

  lemma DigitValueOfHexDigit(d: nat)
    requires d < 16
    ensures IsHexDigit(HexDigit(d)) && DigitValue(HexDigit(d)) == d
  {
  }

  /** A `%02X` group is two digits that denote the byte printed. */
  lemma Hex2Value(b: byte)
    ensures AllHexDigits(Hex2(b)) && HexValue(Hex2(b)) == b
  {
    DigitValueOfHexDigit(b / 16);
    DigitValueOfHexDigit(b % 16);
    var t := Hex2(b);
    assert t[..1] == [HexDigit(b / 16)] && t[..1][..0] == [];
    assert HexValue(t[..1]) == b / 16;
    assert HexValue(t) == (b / 16) * 16 + b % 16;
  }

  /** `%X` output denotes the number printed. */
  lemma {:induction false} HexValueOfHex(n: nat)
    ensures AllHexDigits(Hex(n)) && HexValue(Hex(n)) == n
    decreases n
  {
    DigitValueOfHexDigit(n % 16);
    if n >= 16 {
      HexValueOfHex(n / 16);
      var s := Hex(n);
      assert s[..|s| - 1] == Hex(n / 16);
    }
  }

  /** Round trip: ParseUint(Sprintf("%X", n), 16, 64) == n for every uint64. */
  lemma HexRoundTrip(n: u64)
    ensures ParseHexU64(Hex(n)) == Ok(n)
  {
    HexValueOfHex(n);
  }

  /** Base-16 parsing ignores letter case. */
  lemma {:induction false} AccumulateUpper(s: string, i: nat, n: u64)
    requires i <= |s|
    ensures Accumulate(ToUpper(s), i, n) == Accumulate(s, i, n)
    decreases |s| - i
  {
    if i < |s| {
      var c := s[i];
      assert ToUpper(s)[i] == UpperChar(c);
      assert IsHexDigit(UpperChar(c)) == IsHexDigit(c);
      if IsHexDigit(c) {
        assert DigitValue(UpperChar(c)) == DigitValue(c);
        if n < CUTOFF && n * 16 + DigitValue(c) < U64_MODULUS {
          AccumulateUpper(s, i + 1, n * 16 + DigitValue(c));
        }
      }
    }
  }

  lemma ParseHexU64Upper(s: string)
    ensures ParseHexU64(ToUpper(s)) == ParseHexU64(s)
  {
    if s != [] {
      AccumulateUpper(s, 0, 0);
    }
  }
}
