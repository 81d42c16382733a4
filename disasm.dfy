/**
 * The disassembly pane: the address range requested around the PC, the
 * mnemonic column alignment (`reformatasm`), the reversed opcode bytes, the
 * function-name headings, and the trimming and capping of the listing.
 */
module Disasm {
  import opened Fmt

  /**
   * One instruction as the debug server returns it: address, raw bytes in
   * memory order, Intel-syntax text, the enclosing function (absent when
   * the server has no symbol for it) and whether it is at the PC.
   */
  datatype Instruction = Instruction(pc: u64, bytes: seq<byte>, text: string, fn: Option<string>, atPc: bool)

  /** The address range [lo, hi] requested for a pane of `maxlines` rows. */
  datatype Range = Range(lo: u64, hi: u64)

  /**
   * `PC - 4*(uint64(maxlines)/2)` and `PC + 4*(uint64(maxlines)/2)` in
   * wrapping uint64 arithmetic. Away from the ends of the address space the
   * window is centred on the PC and spans two bytes per row on each side.
   */
  function RequestRange(pc: u64, maxlines: nat): (r: Range)
    ensures var half := 4 * (maxlines / 2);
      maxlines < U64_MODULUS / 2 ==>
        && half <= 2 * maxlines
        && r.lo == (if half <= pc then pc - half else pc - half + U64_MODULUS)
        && r.hi == (if pc + half < U64_MODULUS then pc + half else pc + half - U64_MODULUS)
  {
    var half := Wrap(4 * (Wrap(maxlines) / 2));
    WrapNear(maxlines);
    WrapNear(4 * (Wrap(maxlines) / 2));
    WrapNear(pc - half);
    WrapNear(pc + half);
    Range(Wrap(pc - half), Wrap(pc + half))
  }

  /** The index of the first space in `s`, or |s| when there is none. */
  function FirstSpace(s: string): (i: nat)
    ensures i <= |s|
    ensures i < |s| ==> s[i] == ' '
    ensures forall j :: 0 <= j < i ==> s[j] != ' '
    decreases |s|
  {
    if s == [] || s[0] == ' ' then 0 else 1 + FirstSpace(s[1..])
  }

  /**
   * `reformatasm`: split at the first space only; pad the first token to six
   * columns and keep the rest untouched. Text without a space is returned as
   * is; otherwise the operands start at column 7 whenever the mnemonic fits.
   */
  function ReformatAsm(s: string): (r: string)
    ensures FirstSpace(s) == |s| ==> r == s
    ensures FirstSpace(s) < |s| ==>
      var i := FirstSpace(s);
      var w := Max(i, 6);
      && |r| == w + 1 + |s| - i - 1
      && r[..i] == s[..i]
      && (forall k :: i <= k <= w ==> r[k] == ' ')
      && r[w + 1..] == s[i + 1..]
  {
    var i := FirstSpace(s);
    if i == |s| then s else PadRight(s[..i], 6) + " " + s[i + 1..]
  }

  /** Undo the padding: the first token, one space, the rest after the pad. */
  function UnformatAsm(r: string): string
  {
    var i := FirstSpace(r);
    var w := Max(i, 6);
    if i == |r| || |r| <= w then r else r[..i] + " " + r[w + 1..]
  }

  /** `reformatasm` loses nothing: the padding can always be taken out again. */
  lemma ReformatAsmRoundTrip(s: string)
    ensures UnformatAsm(ReformatAsm(s)) == s
  {
    var i := FirstSpace(s);
    if i < |s| {
      var r := ReformatAsm(s);
      var w := Max(i, 6);
      assert r[i] == ' ' && |r| > w;
      assert forall j :: 0 <= j < i ==> r[j] == r[..i][j] == s[j];
      FirstSpaceAt(r, i);
      assert UnformatAsm(r) == r[..i] + " " + r[w + 1..];
      assert s == s[..i] + [s[i]] + s[i + 1..];
    }
  }

  /** A space at `i` with none before it is the first space. */
  lemma {:induction false} FirstSpaceAt(s: string, i: nat)
    requires i < |s| && s[i] == ' '
    requires forall j :: 0 <= j < i ==> s[j] != ' '
    ensures FirstSpace(s) == i
  {
  }

  /** The opcode column: each byte as `%02X ` , last byte first. */
  function Opcodes(bs: seq<byte>): (r: string)
    ensures |r| == 3 * |bs|
  {
    if bs == [] then "" else Opcodes(bs[1..]) + Hex2(bs[0]) + " "
  }

  /** The k-th group of the opcode column shows byte |bs|-1-k: the bytes are printed reversed. */
  lemma {:induction false} OpcodesAt(bs: seq<byte>, k: nat)
    requires k < |bs|
    ensures Opcodes(bs)[3 * k..3 * k + 3] == Hex2(bs[|bs| - 1 - k]) + " "
    decreases |bs|
  {
    var rest := Opcodes(bs[1..]);
    assert Opcodes(bs) == rest + (Hex2(bs[0]) + " ");
    if k < |bs| - 1 {
      OpcodesAt(bs[1..], k);
      assert Opcodes(bs)[3 * k..3 * k + 3] == rest[3 * k..3 * k + 3];
    } else {
      assert Opcodes(bs)[3 * k..3 * k + 3] == Opcodes(bs)[|rest|..];
    }
  }

  /** The opcode loop of `disassembly`, counting down from the last byte. */
  method FormatOpcodes(bs: seq<byte>) returns (s: string)
    ensures s == Opcodes(bs)
  {
    s := "";
    var i := |bs| - 1;
    while i >= 0
      invariant -1 <= i < |bs|
      invariant s == Opcodes(bs[i + 1..])
    {
      assert bs[i..][1..] == bs[i + 1..];
      s := s + Hex2(bs[i]) + " ";
      i := i - 1;
    }
    assert bs[0..] == bs;
  }

  /** A mnemonic the server could not decode ("?") is shown as empty text. */
  function Mnemonic(text: string): string
  {
    if text == "?" then "" else text
  }

  /**
   * `%-16X %-18s %-30s` of address, opcodes and aligned mnemonic; emphasized
   * exactly at the PC. The three padded columns make every line at least 66
   * characters long, so an instruction line is never blank.
   */
  function InstructionLine(a: Instruction): (r: Line)
    ensures |r.text| >= 66 && r.emphasized == a.atPc
  {
    Line(PadRight(Hex(a.pc), 16) + " " + PadRight(Opcodes(a.bytes), 18) + " "
         + PadRight(ReformatAsm(Mnemonic(a.text)), 30), a.atPc)
  }

  /**
   * The columns of an instruction line: the address fills columns 0-15, the
   * opcodes of an instruction of up to six bytes columns 17-34, the
   * mnemonic starts at column 36.
   */
  lemma InstructionLineColumns(a: Instruction)
    ensures var t := InstructionLine(a).text;
      && t[..16] == PadRight(Hex(a.pc), 16) && t[16] == ' '
      && (|a.bytes| <= 6 ==>
            t[17..35] == PadRight(Opcodes(a.bytes), 18) && t[35] == ' '
            && t[36..] == PadRight(ReformatAsm(Mnemonic(a.text)), 30))
  {
    HexLengthU64(a.pc);
  }

  /** An instruction opens a new heading when it has a function that differs from the last heading. */
  predicate NeedsHeading(a: Instruction, prevFunctionName: string)
  {
    a.fn.Some? && (prevFunctionName == "" || a.fn.value != prevFunctionName)
  }

  /** `prevFunctionName` after the loop has seen `asms`. */
  function LastFunction(asms: seq<Instruction>): string
    decreases |asms|
  {
    if asms == [] then ""
    else
      var init, a := asms[..|asms| - 1], asms[|asms| - 1];
      if NeedsHeading(a, LastFunction(init)) then a.fn.value else LastFunction(init)
  }

  /** How many headings the loop inserts for `asms`. */
  function HeadingCount(asms: seq<Instruction>): nat
    decreases |asms|
  {
    if asms == [] then 0
    else
      var init := asms[..|asms| - 1];
      HeadingCount(init) + if NeedsHeading(asms[|asms| - 1], LastFunction(init)) then 1 else 0
  }

  /** What a listing row is, before it is rendered as text. */
  datatype Entry = Gap | Heading(name: string) | Instr(a: Instruction)

  /** How each kind of row is rendered. */
  function Render(e: Entry): Line
  {
    match e
    case Gap => Blank
    case Heading(name) => Title(name)
    case Instr(a) => InstructionLine(a)
  }

  /** The rows one loop iteration appends: an optional blank line and heading, then the instruction. */
  function Chunk(a: Instruction, prevFunctionName: string): (r: seq<Entry>)
    ensures |r| == if NeedsHeading(a, prevFunctionName) then 3 else 1
    ensures NeedsHeading(a, prevFunctionName) ==> r[0] == Gap && r[1] == Heading(a.fn.value)
    ensures r[|r| - 1] == Instr(a)
  {
    (if NeedsHeading(a, prevFunctionName) then [Gap, Heading(a.fn.value)] else []) + [Instr(a)]
  }

  /** The rows the loop of `disassembly` builds, before trimming and capping. */
  function Listing(asms: seq<Instruction>): (r: seq<Entry>)
    ensures |r| == |asms| + 2 * HeadingCount(asms)
    decreases |asms|
  {
    if asms == [] then []
    else
      var init := asms[..|asms| - 1];
      Listing(init) + Chunk(asms[|asms| - 1], LastFunction(init))
  }

  /** One more instruction extends the listing by its chunk. */
  lemma ListingSnoc(asms: seq<Instruction>, i: nat, prev: string)
    requires i < |asms| && prev == LastFunction(asms[..i])
    ensures Listing(asms[..i + 1]) == Listing(asms[..i]) + Chunk(asms[i], prev)
  {
    assert asms[..i + 1][..i] == asms[..i];
  }

  /** One more instruction moves the heading state to its function when it opens a heading. */
  lemma LastFunctionSnoc(asms: seq<Instruction>, i: nat, prev: string)
    requires i < |asms| && prev == LastFunction(asms[..i])
    ensures LastFunction(asms[..i + 1]) == if NeedsHeading(asms[i], prev) then asms[i].fn.value else prev
  {
    assert asms[..i + 1][..i] == asms[..i];
  }

  /**
   * The heading state is the name of the latest instruction that has a
   * function: a heading is inserted exactly where the function name changes
   * from the nearest earlier named instruction (or where none came before).
   */
  lemma {:induction false} LastFunctionIsLatestName(asms: seq<Instruction>)
    ensures (forall j :: 0 <= j < |asms| ==> asms[j].fn.None?) ==> LastFunction(asms) == ""
    ensures forall j :: 0 <= j < |asms| && asms[j].fn.Some? && (forall k :: j < k < |asms| ==> asms[k].fn.None?) ==>
      LastFunction(asms) == asms[j].fn.value
    decreases |asms|
  {
    if asms != [] {
      var init := asms[..|asms| - 1];
      LastFunctionIsLatestName(init);
      assert forall j :: 0 <= j < |init| ==> init[j] == asms[j];
    }
  }

  /**
   * Where instruction k lands in the listing: after k earlier instruction
   * rows and two rows per heading up to and including its own; when it
   * opens a heading, a gap and the function name come right before it.
   */
  predicate PlacedAt(asms: seq<Instruction>, k: nat)
    requires k < |asms|
  {
    var off := k + 2 * HeadingCount(asms[..k + 1]);
    && off < |Listing(asms)|
    && Listing(asms)[off] == Instr(asms[k])
    && (NeedsHeading(asms[k], LastFunction(asms[..k])) ==>
          Listing(asms)[off - 2] == Gap && Listing(asms)[off - 1] == Heading(asms[k].fn.value))
  }

  lemma {:induction false} ListingAt(asms: seq<Instruction>, k: nat)
    requires k < |asms|
    ensures PlacedAt(asms, k)
    decreases |asms|
  {
    if k < |asms| - 1 {
      ListingAt(asms[..|asms| - 1], k);
      PlacedAtExtend(asms, k);
    } else {
      PlacedAtLast(asms);
    }
  }

  /** Appending an instruction keeps the rows of the earlier ones where they were. */
  lemma PlacedAtExtend(asms: seq<Instruction>, k: nat)
    requires k < |asms| - 1 && PlacedAt(asms[..|asms| - 1], k)
    ensures PlacedAt(asms, k)
  {
    var n := |asms| - 1;
    var init := asms[..n];
    var all, prefix := Listing(asms), Listing(init);
    assert all == prefix + Chunk(asms[n], LastFunction(init));
    assert init[..k + 1] == asms[..k + 1];
    assert init[..k] == asms[..k];
    var off := k + 2 * HeadingCount(asms[..k + 1]);
    assert all[off] == prefix[off];
    if NeedsHeading(asms[k], LastFunction(asms[..k])) {
      assert all[off - 2] == prefix[off - 2] && all[off - 1] == prefix[off - 1];
    }
  }

  /** The last instruction closes the listing, right after its heading if it opens one. */
  lemma PlacedAtLast(asms: seq<Instruction>)
    requires asms != []
    ensures PlacedAt(asms, |asms| - 1)
  {
    var n := |asms| - 1;
    var init := asms[..n];
    var c := Chunk(asms[n], LastFunction(init));
    var all, prefix := Listing(asms), Listing(init);
    assert all == prefix + c;
    assert asms[..n + 1] == asms;
    assert all[|prefix|..] == c;
  }

  /** The listing opens with a gap and a heading when the first instruction has a function, else with it. */
  lemma ListingStart(asms: seq<Instruction>)
    requires asms != []
    ensures asms[0].fn.Some? ==> Listing(asms)[0] == Gap && Listing(asms)[1] == Heading(asms[0].fn.value)
    ensures asms[0].fn.None? ==> Listing(asms)[0] == Instr(asms[0])
  {
    ListingAt(asms, 0);
    assert asms[..0] == [];
    assert asms[..1][..0] == [];
  }

  /**
   * The first row is blank exactly when it is the gap before a heading, and
   * then the heading of the first instruction's function follows it.
   */
  lemma FirstRow(asms: seq<Instruction>)
    requires asms != []
    ensures var all := Listing(asms);
      && (Render(all[0]).text == "" <==> all[0] == Gap)
      && (all[0] == Gap ==> |all| >= 2 && asms[0].fn.Some? && all[1] == Heading(asms[0].fn.value))
      && (all[0] != Gap ==> Render(all[0]).text != "")
  {
    ListingStart(asms);
  }

  /** The body of the `disassembly` loop that formats one instruction. */
  method FormatInstruction(asm: Instruction) returns (line: Line)
    ensures line == InstructionLine(asm)
  {
    var opcodes := FormatOpcodes(asm.bytes);
    var text := asm.text;
    if text == "?" {
      text := "";
    }
    line := Line(PadRight(Hex(asm.pc), 16) + " " + PadRight(opcodes, 18) + " "
                 + PadRight(ReformatAsm(text), 30), asm.atPc);
  }

  /** `lines` is `entries` rendered one to one. */
  predicate Renders(lines: seq<Line>, entries: seq<Entry>)
  {
    |lines| == |entries| && forall j :: 0 <= j < |lines| ==> lines[j] == Render(entries[j])
  }

  lemma RendersAppend(l1: seq<Line>, e1: seq<Entry>, l2: seq<Line>, e2: seq<Entry>)
    requires Renders(l1, e1) && Renders(l2, e2)
    ensures Renders(l1 + l2, e1 + e2)
  {
    forall j | 0 <= j < |l1| + |l2|
      ensures (l1 + l2)[j] == Render((e1 + e2)[j])
    {
      if j >= |l1| {
        assert (l1 + l2)[j] == l2[j - |l1|] && (e1 + e2)[j] == e2[j - |l1|];
      }
    }
  }

  /** `lines` is the rendering of the entries of `entries` from position `d` on, one to one, possibly stopping early. */
  predicate RendersFrom(lines: seq<Line>, entries: seq<Entry>, d: nat)
  {
    d + |lines| <= |entries| && forall j :: 0 <= j < |lines| ==> lines[j] == Render(entries[d + j])
  }

  lemma RendersFromStart(lines: seq<Line>, entries: seq<Entry>)
    requires Renders(lines, entries)
    ensures RendersFrom(lines, entries, 0)
  {
  }

  lemma RendersFromDrop(lines: seq<Line>, entries: seq<Entry>, d: nat)
    requires RendersFrom(lines, entries, d) && lines != []
    ensures RendersFrom(lines[1..], entries, d + 1)
  {
    forall j | 0 <= j < |lines| - 1
      ensures lines[1..][j] == Render(entries[d + 1 + j])
    {
      assert lines[1..][j] == lines[j + 1];
    }
  }

  lemma RendersFromTake(lines: seq<Line>, entries: seq<Entry>, d: nat, n: nat)
    requires RendersFrom(lines, entries, d) && n <= |lines|
    ensures RendersFrom(lines[..n], entries, d)
  {
  }

  /** One iteration of the loop of `disassembly`: a heading when the function changes, then the instruction. */
  method FormatChunk(asm: Instruction, prevFunctionName: string) returns (lines: seq<Line>)
    ensures Renders(lines, Chunk(asm, prevFunctionName))
  {
    lines := [];
    if asm.fn.Some? && (prevFunctionName == "" || asm.fn.value != prevFunctionName) {
      lines := lines + [Blank];
      lines := lines + [Title(asm.fn.value)];
    }
    var line := FormatInstruction(asm);
    lines := lines + [line];
  }

  /** The loop of `disassembly`: headings on function changes, one line per instruction. */
  method ListingLines(asms: seq<Instruction>) returns (lines: seq<Line>)
    ensures Renders(lines, Listing(asms))
  {
    lines := [];
    var prevFunctionName := "";
    var i := 0;
    while i < |asms|
      invariant 0 <= i <= |asms|
      invariant prevFunctionName == LastFunction(asms[..i])
      invariant Renders(lines, Listing(asms[..i]))
    {
      var asm := asms[i];
      ListingSnoc(asms, i, prevFunctionName);
      LastFunctionSnoc(asms, i, prevFunctionName);
      var chunkLines := FormatChunk(asm, prevFunctionName);
      RendersAppend(lines, Listing(asms[..i]), chunkLines, Chunk(asm, prevFunctionName));
      lines := lines + chunkLines;
      if asm.fn.Some? && (prevFunctionName == "" || asm.fn.value != prevFunctionName) {
        prevFunctionName := asm.fn.value;
      }
      i := i + 1;
    }
    assert asms[..|asms|] == asms;
  }

  /** The rows `disassembly` keeps of a rendered listing: one leading blank row dropped, then at most `maxlines`. */
  function Trimmed(listed: seq<Line>, maxlines: nat): (r: seq<Line>)
    ensures var d := if |listed| > 0 && listed[0].text == "" then 1 else 0;
      |r| == Min(maxlines, |listed| - d) && forall j :: 0 <= j < |r| ==> r[j] == listed[d + j]
  {
    var rest := if |listed| > 0 && listed[0].text == "" then listed[1..] else listed;
    if |rest| > maxlines then rest[..maxlines] else rest
  }

  /**
   * Trimming rendered entries whose first row is blank exactly when it is a
   * gap skips that gap and keeps the next `maxlines` entries; when a gap is
   * followed by a row with text, the result does not open with a blank row.
   */
  lemma TrimmedRendering(all: seq<Entry>, listed: seq<Line>, maxlines: nat)
    requires Renders(listed, all)
    requires all != [] ==> (Render(all[0]).text == "" <==> all[0] == Gap)
    ensures var d := if |all| > 0 && all[0] == Gap then 1 else 0;
      var lines := Trimmed(listed, maxlines);
      |lines| == Min(maxlines, |all| - d) && RendersFrom(lines, all, d)
    ensures (all != [] && all[0] == Gap ==> |all| >= 2 && Render(all[1]).text != "") ==>
      (Trimmed(listed, maxlines) != [] ==> Trimmed(listed, maxlines)[0].text != "")
  {
    var d := if |all| > 0 && all[0] == Gap then 1 else 0;
    RendersFromStart(listed, all);
    var rest := listed;
    if |listed| > 0 && listed[0].text == "" {
      RendersFromDrop(listed, all, 0);
      rest := listed[1..];
    }
    if |rest| > maxlines {
      RendersFromTake(rest, all, d, maxlines);
    }
  }

  /**
   * Trimming the rendered listing skips its leading gap, when there is one,
   * and keeps the next `maxlines` entries; with no empty function name the
   * pane does not open with a blank row.
   */
  lemma TrimmedListing(asms: seq<Instruction>, listed: seq<Line>, maxlines: nat)
    requires Renders(listed, Listing(asms))
    ensures var all := Listing(asms);
      var d := if |all| > 0 && all[0] == Gap then 1 else 0;
      var lines := Trimmed(listed, maxlines);
      |lines| == Min(maxlines, |all| - d) && RendersFrom(lines, all, d)
    ensures (forall j :: 0 <= j < |asms| && asms[j].fn.Some? ==> asms[j].fn.value != "") && Trimmed(listed, maxlines) != [] ==>
      Trimmed(listed, maxlines)[0].text != ""
  {
    if asms != [] {
      FirstRow(asms);
    }
    TrimmedRendering(Listing(asms), listed, maxlines);
  }

  /**
   * `disassembly` after the server call: build the listing, drop one
   * leading blank line, keep at most `maxlines` lines. A short reply is
   * not padded; the pane opens with a blank line only if a function name
   * is empty.
   */
  method Disassembly(asms: seq<Instruction>, maxlines: nat) returns (lines: seq<Line>)
    ensures var all := Listing(asms);
      var d := if |all| > 0 && all[0] == Gap then 1 else 0;
      |lines| == Min(maxlines, |all| - d) && RendersFrom(lines, all, d)
    ensures |lines| <= maxlines
    ensures (forall j :: 0 <= j < |asms| && asms[j].fn.Some? ==> asms[j].fn.value != "") && lines != [] ==>
      lines[0].text != ""
  {
    var listed := ListingLines(asms);
    lines := listed;
    if |lines| > 0 && lines[0].text == "" {
      lines := lines[1..];
    }
    if |lines| > maxlines {
      lines := lines[..maxlines];
    }
    TrimmedListing(asms, listed, maxlines);
  }
}
