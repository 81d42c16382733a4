/**
 * `stepInstruction`: step one instruction, and when the instruction at the
 * PC is a call, step out of the callee again, so that a call is stepped over.
 */
module Stepper {
  import opened Fmt
  import opened Disasm

  /** The debugger requests the step key issues. */
  datatype Command = StepInstruction | StepOut

  /**
   * The first instruction marked as being at the PC is a call: its text
   * starts with "CALL ". Later instructions at the PC play no part.
   */
  predicate CallAtPc(asms: seq<Instruction>)
  {
    exists i :: 0 <= i < |asms| && asms[i].atPc && HasPrefix(asms[i].text, "CALL ") &&
      forall j :: 0 <= j < i ==> !asms[j].atPc
  }

  /** The scan of the disassembly around the PC, then the step requests. */
  method StepOver(asms: seq<Instruction>) returns (cmds: seq<Command>)
    ensures cmds == if CallAtPc(asms) then [StepInstruction, StepOut] else [StepInstruction]
  {
    var isCall := false;
    var i := 0;
    while i < |asms|
      invariant 0 <= i <= |asms|
      invariant forall j :: 0 <= j < i ==> !asms[j].atPc
      invariant !isCall
    {
      if asms[i].atPc {
        if HasPrefix(asms[i].text, "CALL ") {
          isCall := true;
        }
        break;
      }
      i := i + 1;
    }
    if i < |asms| {
      FirstAtPcDecides(asms, i);
    } else {
      NoPcNoStepOut(asms);
    }
    cmds := [StepInstruction];
    if isCall {
      cmds := cmds + [StepOut];
    }
  }

  /** Only the first instruction at the PC is looked at. */
  lemma FirstAtPcDecides(asms: seq<Instruction>, i: nat)
    requires i < |asms| && asms[i].atPc
    requires forall j :: 0 <= j < i ==> !asms[j].atPc
    ensures CallAtPc(asms) <==> HasPrefix(asms[i].text, "CALL ")
  {
    if CallAtPc(asms) {
      var c :| 0 <= c < |asms| && asms[c].atPc && HasPrefix(asms[c].text, "CALL ") &&
        forall j :: 0 <= j < c ==> !asms[j].atPc;
      assert c == i;
    }
  }

  /** With no instruction at the PC nothing is stepped out of. */
  lemma NoPcNoStepOut(asms: seq<Instruction>)
    requires forall j :: 0 <= j < |asms| ==> !asms[j].atPc
    ensures !CallAtPc(asms)
  {
  }

  /** "CALL" needs its trailing space: a bare "CALL" text is not a call. */
  lemma CallPrefixExamples(pc: u64)
    ensures CallAtPc([Instruction(pc, [0xe8], "CALL main.f(SB)", None, true)])
    ensures !CallAtPc([Instruction(pc, [0xc3], "CALL", None, true)])
    ensures !CallAtPc([Instruction(pc, [0x90], "NOP", None, true),
                       Instruction(pc, [0xe8], "CALL main.f(SB)", None, true)])
  {
    var a := [Instruction(pc, [0xe8], "CALL main.f(SB)", None, true)];
    assert HasPrefix(a[0].text, "CALL ");
    FirstAtPcDecides([Instruction(pc, [0x90], "NOP", None, true),
                      Instruction(pc, [0xe8], "CALL main.f(SB)", None, true)], 0);
  }
}
