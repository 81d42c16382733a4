/**
 * The stack pane: the 256-byte window read at the stack pointer, printed as
 * 8-byte words with their addresses, each word emphasized when it differs
 * from the word at the same offset in the previous window.
 */
module StackPane {
  import opened Fmt
  import opened Strconv

  function Reversed(s: seq<byte>): (r: seq<byte>)
    ensures |r| == |s|
  {
    seq(|s|, k requires 0 <= k < |s| => s[|s| - 1 - k])
  }

  /** Reversal loses nothing: equal reversals come from equal words. */
  lemma ReversedInjective(a: seq<byte>, b: seq<byte>)
    requires |a| == |b| && Reversed(a) == Reversed(b)
    ensures a == b
  {
    forall k | 0 <= k < |a|
      ensures a[k] == b[k]
    {
      assert Reversed(a)[|a| - 1 - k] == a[k];
    }
  }

  /** Word `g` of a window, in the order its bytes were read (lowest address first). */
  function Word(stack: seq<byte>, g: nat): (w: seq<byte>)
    requires 8 * g + 8 <= |stack|
    ensures |w| == 8
  {
    stack[8 * g..8 * g + 8]
  }

  /**
   * What word `g` is compared with: the same offset of the previous window,
   * or eight zero bytes when there is no previous window yet.
   */
  function Baseline(prevStack: seq<byte>, g: nat): (w: seq<byte>)
    requires |prevStack| == 0 || 8 * g + 8 <= |prevStack|
    ensures |w| == 8
    ensures |prevStack| == 0 ==> forall k :: 0 <= k < 8 ==> w[k] == 0
    ensures |prevStack| != 0 ==> w == Word(prevStack, g)
  {
    if |prevStack| == 0 then seq(8, _ => 0) else prevStack[8 * g..8 * g + 8]
  }

  predicate WordChanged(stack: seq<byte>, prevStack: seq<byte>, g: nat)
    requires 8 * g + 8 <= |stack|
    requires |prevStack| == 0 || 8 * g + 8 <= |prevStack|
  {
    Word(stack, g) != Baseline(prevStack, g)
  }

  /** On the first poll a word is emphasized exactly when one of its bytes is non-zero. */
  lemma FirstPollChanged(stack: seq<byte>, g: nat)
    requires 8 * g + 8 <= |stack|
    ensures WordChanged(stack, [], g) <==> exists k :: 8 * g <= k < 8 * g + 8 && stack[k] != 0
  {
    if exists k :: 8 * g <= k < 8 * g + 8 && stack[k] != 0 {
      var k :| 8 * g <= k < 8 * g + 8 && stack[k] != 0;
      assert Word(stack, g)[k - 8 * g] != Baseline([], g)[k - 8 * g];
    }
  }

  /** `%02X` of the reversed word: the last byte read comes first. */
  function WordText(w: seq<byte>): (r: string)
    ensures |r| == 2 * |w|
  {
    HexBytes(Reversed(w))
  }

  /** Byte `j` of a word is printed at columns 2(n-1-j) and 2(n-1-j)+1. */
  lemma WordTextAt(w: seq<byte>, j: nat)
    requires j < |w|
    ensures WordText(w)[2 * (|w| - 1 - j)..2 * (|w| - 1 - j) + 2] == Hex2(w[j])
  {
    HexBytesAt(Reversed(w), |w| - 1 - j);
  }

  /** The unsigned value of bytes stored least significant first. */
  function LittleEndian(w: seq<byte>): nat
  {
    if w == [] then 0 else w[0] + 256 * LittleEndian(w[1..])
  }

  /** The unsigned value of bytes stored most significant first. */
  function BigEndian(bs: seq<byte>): nat
    decreases |bs|
  {
    if bs == [] then 0 else BigEndian(bs[..|bs| - 1]) * 256 + bs[|bs| - 1]
  }

  lemma {:induction false} LittleEndianBound(w: seq<byte>)
    ensures LittleEndian(w) < Pow16(2 * |w|)
    decreases |w|
  {
    if w != [] {
      LittleEndianBound(w[1..]);
      assert Pow16(2 * |w|) == 256 * Pow16(2 * |w[1..]|);
    }
  }

  lemma {:induction false} HexBytesSnoc(bs: seq<byte>)
    requires bs != []
    ensures HexBytes(bs) == HexBytes(bs[..|bs| - 1]) + Hex2(bs[|bs| - 1])
    decreases |bs|
  {
    if |bs| > 1 {
      HexBytesSnoc(bs[1..]);
      assert bs[1..][..|bs| - 2] == bs[..|bs| - 1][1..];
    }
  }

  lemma {:induction false} HexValueOfHexBytes(bs: seq<byte>)
    ensures AllHexDigits(HexBytes(bs)) && HexValue(HexBytes(bs)) == BigEndian(bs)
    decreases |bs|
  {
    if bs != [] {
      var init := bs[..|bs| - 1];
      var b := bs[|bs| - 1];
      HexBytesSnoc(bs);
      HexValueOfHexBytes(init);
      var s := HexBytes(init);
      var t := HexBytes(bs);
      DigitValueOfHexDigit(b / 16);
      DigitValueOfHexDigit(b % 16);
      assert t == s + [HexDigit(b / 16), HexDigit(b % 16)];
      assert t[..|t| - 1] == s + [HexDigit(b / 16)];
      assert t[..|t| - 1][..|s|] == s;
    }
  }

  lemma {:induction false} BigEndianOfReversed(w: seq<byte>)
    ensures BigEndian(Reversed(w)) == LittleEndian(w)
    decreases |w|
  {
    if w != [] {
      BigEndianOfReversed(w[1..]);
      assert Reversed(w)[..|w| - 1] == Reversed(w[1..]);
    }
  }

  /**
   * A printed word reads back, as a base-16 uint64, as the little-endian
   * value of its eight bytes: the pane shows each word as the number the
   * machine stores there.
   */
  lemma WordTextValue(w: seq<byte>)
    requires |w| == 8
    ensures |WordText(w)| == 16
    ensures ParseHexU64(WordText(w)).Ok? && ParseHexU64(WordText(w)).value == LittleEndian(w)
  {
    HexValueOfHexBytes(Reversed(w));
    BigEndianOfReversed(w);
    LittleEndianBound(w);
    Pow16Of16();
  }

  /** `%X    ` of `stackaddr+uint64(offset)`: the address of a word, unpadded, then four spaces. */
  function AddressText(stackaddr: u64, offset: nat): string
  {
    Hex(Wrap(stackaddr + offset)) + "    "
  }

  /** The address column holds at most 16 digits that read back as the wrapped address. */
  lemma AddressTextValue(stackaddr: u64, offset: nat)
    ensures var r := AddressText(stackaddr, offset);
      && 4 < |r| <= 20 && r[|r| - 4..] == "    "
      && ParseHexU64(r[..|r| - 4]) == Ok(Wrap(stackaddr + offset))
  {
    var a := Wrap(stackaddr + offset);
    HexLengthU64(a);
    HexRoundTrip(a);
    assert (Hex(a) + "    ")[..|Hex(a)|] == Hex(a);
  }

  /** The row for word `g`: its address and its value, emphasized when changed. */
  function WordLine(stackaddr: u64, stack: seq<byte>, prevStack: seq<byte>, g: nat): Line
    requires 8 * g + 8 <= |stack|
    requires |prevStack| == 0 || 8 * g + 8 <= |prevStack|
  {
    Line(AddressText(stackaddr, 8 * g) + WordText(Word(stack, g)), WordChanged(stack, prevStack, g))
  }

  /**
   * `stack`: a heading, then one row per complete 8-byte word. A trailing
   * partial word prints its address and nothing else (`tail`). A non-empty
   * previous window must be at least as long as the current one.
   */
  method Stack(stackaddr: u64, stack: seq<byte>, prevStack: seq<byte>) returns (lines: seq<Line>, tail: string)
    requires |prevStack| == 0 || |stack| <= |prevStack|
    ensures |lines| == |stack| / 8 + 1
    ensures lines[0] == Title("Stack")
    ensures forall g :: 0 <= g < |stack| / 8 ==> lines[g + 1] == WordLine(stackaddr, stack, prevStack, g)
    ensures tail == if |stack| % 8 == 0 then "" else AddressText(stackaddr, |stack| - |stack| % 8)
  {
    lines := [Title("Stack")];
    var pending := "";
    var buf: seq<byte> := seq(8, _ => 0);
    var prevbuf: seq<byte> := seq(8, _ => 0);
    var i := 0;
    // i == 8 * g + r: word g, byte r of it
    ghost var g: nat := 0;
    ghost var r: nat := 0;
    while i < |stack|
      invariant i == 8 * g + r && r < 8 && i <= |stack| && |buf| == 8 && |prevbuf| == 8
      invariant |lines| == g + 1 && lines[0] == Title("Stack")
      invariant forall h :: 0 <= h < g ==> lines[h + 1] == WordLine(stackaddr, stack, prevStack, h)
      invariant pending == if r == 0 then "" else AddressText(stackaddr, 8 * g)
      invariant Filled(buf, stack, 8 * g, r)
      invariant |prevStack| == 0 ==> forall k :: 0 <= k < 8 ==> prevbuf[k] == 0
      invariant |prevStack| != 0 ==> Filled(prevbuf, prevStack, 8 * g, r)
    {
      WordPosition(i, g, r);
      if i % 8 == 0 {
        pending := AddressText(stackaddr, i);
      }
      FillStep(buf, stack, g, r, i);
      buf := buf[7 - i % 8 := stack[i]];
      if |prevStack| > 0 {
        FillStep(prevbuf, prevStack, g, r, i);
        prevbuf := prevbuf[7 - i % 8 := prevStack[i]];
      }
      if i % 8 == 7 {
        WordsInBuffers(stackaddr, stack, prevStack, g, buf, prevbuf);
        var changed := buf != prevbuf;
        var line := Line(pending + HexBytes(buf), changed);
        WordLinesSnoc(stackaddr, stack, prevStack, g, lines, line);
        lines := lines + [line];
        pending := "";
        g, r := g + 1, 0;
        FilledNone(buf, stack, 8 * g);
        if |prevStack| > 0 {
          FilledNone(prevbuf, prevStack, 8 * g);
        }
      } else {
        r := r + 1;
      }
      i := i + 1;
    }
    WordPosition(|stack|, g, r);
    tail := pending;
  }

  /** The last `r` cells of `buf` hold bytes base .. base+r-1 of `src`, the first of them in the last cell. */
  predicate Filled(buf: seq<byte>, src: seq<byte>, base: nat, r: nat)
  {
    |buf| == 8 && r <= 8 && base + r <= |src| &&
    forall k :: 8 - r <= k < 8 ==> buf[k] == src[base + 7 - k]
  }

  /** Storing byte base+r at cell 7-r fills one cell more. */
  lemma FillStep(buf: seq<byte>, src: seq<byte>, g: nat, r: nat, i: nat)
    requires Filled(buf, src, 8 * g, r) && i == 8 * g + r && r < 8 && i < |src|
    ensures Filled(buf[7 - i % 8 := src[i]], src, 8 * g, r + 1)
  {
    WordPosition(i, g, r);
  }

  /** A new word starts with no cell filled. */
  lemma FilledNone(buf: seq<byte>, src: seq<byte>, base: nat)
    requires |buf| == 8 && base <= |src|
    ensures Filled(buf, src, base, 0)
  {
  }

  /** Byte `r` of word `g` is at index 8g+r. */
  lemma WordPosition(i: nat, g: nat, r: nat)
    requires i == 8 * g + r && r < 8
    ensures i / 8 == g && i % 8 == r
  {
  }

  /** The two buffers of `stack` hold the current and the baseline word reversed. */
  lemma WordsInBuffers(stackaddr: u64, stack: seq<byte>, prevStack: seq<byte>, g: nat, buf: seq<byte>, prevbuf: seq<byte>)
    requires 8 * g + 8 <= |stack| && (|prevStack| == 0 || 8 * g + 8 <= |prevStack|)
    requires Filled(buf, stack, 8 * g, 8)
    requires |prevbuf| == 8
    requires |prevStack| == 0 ==> forall k :: 0 <= k < 8 ==> prevbuf[k] == 0
    requires |prevStack| != 0 ==> Filled(prevbuf, prevStack, 8 * g, 8)
    ensures buf == Reversed(Word(stack, g)) && prevbuf == Reversed(Baseline(prevStack, g))
    ensures buf != prevbuf <==> WordChanged(stack, prevStack, g)
    ensures Line(AddressText(stackaddr, 8 * g) + HexBytes(buf), buf != prevbuf) == WordLine(stackaddr, stack, prevStack, g)
  {
    assert buf == Reversed(Word(stack, g));
    assert prevbuf == Reversed(Baseline(prevStack, g));
    if buf == prevbuf {
      ReversedInjective(Word(stack, g), Baseline(prevStack, g));
    }
  }

  /** The rows of words 0 .. g-1, extended by the row of word g. */
  lemma WordLinesSnoc(stackaddr: u64, stack: seq<byte>, prevStack: seq<byte>, g: nat, lines: seq<Line>, line: Line)
    requires 8 * g + 8 <= |stack| && (|prevStack| == 0 || 8 * g + 8 <= |prevStack|)
    requires |lines| == g + 1
    requires forall h :: 0 <= h < g ==> lines[h + 1] == WordLine(stackaddr, stack, prevStack, h)
    requires line == WordLine(stackaddr, stack, prevStack, g)
    ensures forall h :: 0 <= h < g + 1 ==> (lines + [line])[h + 1] == WordLine(stackaddr, stack, prevStack, h)
  {
  }
}
