/**
 * The register pane: one row per register, the name right-aligned in three
 * columns and the value upper-cased without its "0x", emphasized when the
 * register at the same position had the same name and another value in the
 * previous poll.
 */
module RegisterPane {
  import opened Fmt
  import opened Strconv

  /** One entry of the register list: a name and its value as "0x…" text. */
  datatype Register = Register(name: string, value: string)

  /** `strings.ToUpper(value)[2:]`: upper-casing and dropping the "0x" commute. */
  function ShownValue(value: string): (r: string)
    requires |value| >= 2
    ensures r == ToUpper(value[2..])
  {
    ToUpperDrop(value, 2);
    ToUpper(value)[2..]
  }

  /** `fmt.Sprintf("%3s %s", name, value)` with the shown value. */
  function RegisterText(reg: Register): string
    requires |reg.value| >= 2
  {
    PadLeft(reg.name, 3) + " " + ShownValue(reg.value)
  }

  /**
   * The row layout: spaces, then the whole name ending at column w (at least
   * three, never truncating the name), one space, then the value digits,
   * leading zeros kept.
   */
  lemma RegisterTextLayout(reg: Register)
    requires |reg.value| >= 2
    ensures var t := RegisterText(reg);
      var w := Max(|reg.name|, 3);
      && |t| == w + |reg.value| - 1
      && (forall k :: 0 <= k < w - |reg.name| ==> t[k] == ' ')
      && t[w - |reg.name|..w] == reg.name
      && t[w] == ' '
      && t[w + 1..] == ToUpper(reg.value[2..])
  {
    var p := PadLeft(reg.name, 3);
    var t := RegisterText(reg);
    var w := Max(|reg.name|, 3);
    assert t[..|p|] == p;
    assert t[w - |reg.name|..w] == p[|p| - |reg.name|..];
  }

  /** The shown digits parse to the same number as the value after its "0x". */
  lemma ShownValueParses(value: string)
    requires |value| >= 2
    ensures ParseHexU64(ShownValue(value)) == ParseHexU64(value[2..])
  {
    ParseHexU64Upper(value[2..]);
  }

  /** Register `i` is emphasized: a previous poll exists and has the same name but another value there. */
  predicate Changed(regs: seq<Register>, prev: seq<Register>, i: nat)
    requires i < |regs| && (|prev| == 0 || |regs| <= |prev|)
  {
    |prev| != 0 && prev[i].name == regs[i].name && prev[i].value != regs[i].value
  }

  /**
   * `registers`: a heading, then one row per register in list order. The
   * previous list, when there is one, is read at the same positions, so it
   * must be at least as long; each value must have its two-character prefix.
   */
  method Registers(regs: seq<Register>, prev: seq<Register>) returns (lines: seq<Line>)
    requires |prev| == 0 || |regs| <= |prev|
    requires forall i :: 0 <= i < |regs| ==> |regs[i].value| >= 2
    ensures |lines| == |regs| + 1 && lines[0] == Title("Registers")
    ensures forall i :: 0 <= i < |regs| ==> lines[i + 1] == Line(RegisterText(regs[i]), Changed(regs, prev, i))
  {
    lines := [Title("Registers")];
    var i := 0;
    while i < |regs|
      invariant 0 <= i <= |regs|
      invariant |lines| == i + 1 && lines[0] == Title("Registers")
      invariant forall j :: 0 <= j < i ==> lines[j + 1] == Line(RegisterText(regs[j]), Changed(regs, prev, j))
    {
      var reg := regs[i];
      var emphasized := false;
      if |prev| != 0 && prev[i].name == reg.name && prev[i].value != reg.value {
        emphasized := true;
      }
      var s := PadLeft(reg.name, 3) + " " + ToUpper(reg.value)[2..];
      lines := lines + [Line(s, emphasized)];
      i := i + 1;
    }
  }

  /** A register row as the pane prints it: prefix dropped, digits upper-cased, leading zeros kept. */
  lemma RegisterTextExample()
    ensures ShownValue("0x00c0") == "00C0"
    ensures RegisterText(Register("SP", "0x00c0")) == " SP 00C0"
  {
    var v := "0x00c0";
    assert ToUpper(v[2..]) == "00C0" by {
      assert forall k :: 0 <= k < 4 ==> UpperChar(v[2..][k]) == "00C0"[k];
    }
    assert PadLeft("SP", 3) == " SP";
  }
}
