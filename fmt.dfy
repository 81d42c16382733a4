/**
 * The text primitives the three panes are built from: the `fmt` verbs the
 * program uses (%X, %02X, %-Ns, %Ns), `strings.ToUpper` and
 * `strings.HasPrefix`, and the rendered line with its emphasis flag.
 */
module Fmt {

  /** Go's `byte`. */
  type byte = x: int | 0 <= x < 0x100

  const U64_MODULUS: int := 0x1_0000_0000_0000_0000

  /** Go's `uint64`; arithmetic on it is written out modulo U64_MODULUS. */
  type u64 = x: int | 0 <= x < U64_MODULUS

  /** Reduction of an integer to uint64, as Go's conversions and overflowing arithmetic do. */
  function Wrap(x: int): u64
  {
    x % U64_MODULUS
  }

  /** Wrapping leaves values in range alone and moves values one period off back into range. */
  lemma WrapNear(x: int)
    ensures 0 <= x < U64_MODULUS ==> Wrap(x) == x
    ensures -U64_MODULUS <= x < 0 ==> Wrap(x) == x + U64_MODULUS
    ensures U64_MODULUS <= x < 2 * U64_MODULUS ==> Wrap(x) == x - U64_MODULUS
  {
  }

  datatype Option<T> = None | Some(value: T)

  /**
   * One row of a pane. `emphasized` stands for the bold, coloured style the
   * program renders changed values, headings and the instruction at the PC in.
   */
  datatype Line = Line(text: string, emphasized: bool)

  /** A styled heading row ("Stack", "Registers", a function name). */
  function Title(s: string): Line
  {
    Line(s, true)
  }

  const Blank: Line := Line("", false)

  function Max(a: int, b: int): int
  {
    if a < b then b else a
  }

  function Min(a: int, b: int): int
  {
    if a < b then a else b
  }

  function Spaces(n: nat): (r: string)
    ensures |r| == n
    ensures forall k :: 0 <= k < n ==> r[k] == ' '
  {
    seq(n, _ => ' ')
  }

  /** `%-Ns`: the text, then spaces up to width `w`; a longer text is kept whole. */
  function PadRight(s: string, w: nat): (r: string)
    ensures |r| == Max(|s|, w)
    ensures r[..|s|] == s
    ensures forall k :: |s| <= k < |r| ==> r[k] == ' '
  {
    if |s| < w then s + Spaces(w - |s|) else s
  }

  /** `%Ns`: spaces up to width `w`, then the text; a longer text is kept whole. */
  function PadLeft(s: string, w: nat): (r: string)
    ensures |r| == Max(|s|, w)
    ensures r[|r| - |s|..] == s
    ensures forall k :: 0 <= k < |r| - |s| ==> r[k] == ' '
  {
    if |s| < w then Spaces(w - |s|) + s else s
  }

  predicate IsUpperHexDigit(c: char)
  {
    '0' <= c <= '9' || 'A' <= c <= 'F'
  }

  /** The upper-case hexadecimal digit of `d`. */
  function HexDigit(d: nat): (c: char)
    requires d < 16
    ensures IsUpperHexDigit(c)
    ensures c == '0' <==> d == 0
  {
    if d < 10 then (d + '0' as int) as char else (d - 10 + 'A' as int) as char
  }

  /** `%X` of an unsigned integer: upper-case hexadecimal without leading zeros. */
  function Hex(n: nat): (r: string)
    ensures 1 <= |r|
  {
    if n < 16 then [HexDigit(n)] else Hex(n / 16) + [HexDigit(n % 16)]
  }

  /** `%X` prints upper-case digits only, and a leading zero only for zero itself. */
  lemma {:induction false} HexDigits(n: nat)
    ensures forall k :: 0 <= k < |Hex(n)| ==> IsUpperHexDigit(Hex(n)[k])
    ensures Hex(n)[0] == '0' <==> n == 0
    ensures n == 0 ==> Hex(n) == "0"
    decreases n
  {
    if n >= 16 {
      HexDigits(n / 16);
      assert Hex(n)[0] == Hex(n / 16)[0];
    }
  }

  function Pow16(k: nat): (p: nat)
    ensures 1 <= p
  {
    if k == 0 then 1 else 16 * Pow16(k - 1)
  }

  /** A value below 16^k prints in at most k digits. */
  lemma {:induction false} HexLengthBelow(n: nat, k: nat)
    requires 1 <= k && n < Pow16(k)
    ensures |Hex(n)| <= k
    decreases k
  {
    if n >= 16 {
      assert k >= 2;
      assert n / 16 < Pow16(k - 1);
      HexLengthBelow(n / 16, k - 1);
    }
  }

  /** Every uint64 prints in at most 16 digits, so `%-16X` never overflows its column. */
  lemma HexLengthU64(n: u64)
    ensures |Hex(n)| <= 16
  {
    Pow16Of16();
    HexLengthBelow(n, 16);
  }

  /** Sixteen hexadecimal digits hold exactly the uint64 range. */
  lemma Pow16Of16()
    ensures Pow16(16) == U64_MODULUS
  {
    assert Pow16(4) == 0x1_0000;
    assert Pow16(8) == 0x1_0000_0000;
    assert Pow16(12) == 0x1_0000_0000_0000;
  }

  /** `%02X` of one byte: always exactly two digits, high nibble first. */
  function Hex2(b: byte): (r: string)
    ensures |r| == 2 && IsUpperHexDigit(r[0]) && IsUpperHexDigit(r[1])
    ensures r[0] == HexDigit(b / 16) && r[1] == HexDigit(b % 16)
  {
    [HexDigit(b / 16), HexDigit(b % 16)]
  }

  /** `%X` (or `%02X`) of a byte array: the two-digit codes back to back, no separator. */
  function HexBytes(bs: seq<byte>): (r: string)
    ensures |r| == 2 * |bs|
  {
    if bs == [] then "" else Hex2(bs[0]) + HexBytes(bs[1..])
  }

  /** Byte `j` of the array is printed at columns 2j and 2j+1. */
  lemma {:induction false} HexBytesAt(bs: seq<byte>, j: nat)
    requires j < |bs|
    ensures HexBytes(bs)[2 * j..2 * j + 2] == Hex2(bs[j])
    decreases j
  {
    if j > 0 {
      HexBytesAt(bs[1..], j - 1);
      assert HexBytes(bs) == Hex2(bs[0]) + HexBytes(bs[1..]);
    }
  }

  /** `unicode.ToUpper` restricted to ASCII letters. */
  function UpperChar(c: char): char
  {
    if 'a' <= c <= 'z' then (c as int - 32) as char else c
  }

  /** `strings.ToUpper` on text whose letters are ASCII. */
  function ToUpper(s: string): (r: string)
    ensures |r| == |s|
    ensures forall k :: 0 <= k < |r| ==> !('a' <= r[k] <= 'z')
    ensures forall k :: 0 <= k < |r| && !('a' <= s[k] <= 'z') ==> r[k] == s[k]
    ensures forall k :: 0 <= k < |r| && 'a' <= s[k] <= 'z' ==> r[k] as int == s[k] as int - 32
  {
    seq(|s|, k requires 0 <= k < |s| => UpperChar(s[k]))
  }

  /** Upper-casing commutes with dropping a prefix. */
  lemma ToUpperDrop(s: string, n: nat)
    requires n <= |s|
    ensures ToUpper(s)[n..] == ToUpper(s[n..])
  {
  }

  /** `strings.HasPrefix`. */
  predicate HasPrefix(s: string, p: string)
  {
    |p| <= |s| && s[..|p|] == p
  }
}
