/**
 * The application model and its `Update`: a key either quits or issues a
 * step request, a window-size message records the new size, and every
 * message except quit then polls the debugger, rotating the current
 * registers and stack window into the previous ones that the panes diff
 * against.
 */
module Ui {
  import opened Fmt
  import opened Strconv
  import opened Disasm
  import opened RegisterPane
  import opened Stepper

  /** The bytes read at the stack pointer on every poll. */
  const STACK_WINDOW: nat := 256

  /** The messages `Update` distinguishes; a key is named as bubbletea spells it ("ctrl+c", "q", …). */
  datatype Msg = KeyMsg(key: string) | WindowSizeMsg(width: int, height: int) | OtherMsg

  /** Why a poll panics: an out-of-range index or slice, or an error handed to `must`. */
  datatype Failure = NoStackPointer | ShortStackPointer | BadStackPointer(error: ParseError) | UnreadableStack

  datatype Outcome = Quit | Polled | Panic(failure: Failure)

  datatype StackPointerResult = StackPointerAt(addr: u64) | StackPointerFailure(failure: Failure)

  /**
   * The step requests a key issues before the poll: "s" steps one
   * instruction and then steps out when a call was at the PC, "i" only
   * steps, "o" only steps out, and every other message issues nothing.
   */
  function KeyCommands(msg: Msg, pcListing: seq<Instruction>): (r: seq<Command>)
    ensures StepInstruction in r <==> msg.KeyMsg? && (msg.key == "s" || msg.key == "i")
    ensures StepOut in r <==> msg.KeyMsg? && (msg.key == "o" || (msg.key == "s" && CallAtPc(pcListing)))
    ensures |r| <= 2 && (|r| == 2 ==> r == [StepInstruction, StepOut])
  {
    if msg.KeyMsg? && msg.key == "s" then
      if CallAtPc(pcListing) then [StepInstruction, StepOut] else [StepInstruction]
    else if msg.KeyMsg? && msg.key == "i" then [StepInstruction]
    else if msg.KeyMsg? && msg.key == "o" then [StepOut]
    else []
  }

  predicate IsQuit(msg: Msg)
  {
    msg.KeyMsg? && (msg.key == "ctrl+c" || msg.key == "q")
  }

  /**
   * `strconv.ParseUint(registers[1].Value[2:], 16, 64)`: the second register
   * is the stack pointer; a list too short for it, a value too short to drop
   * its prefix from, or digits ParseUint rejects all end the program. The
   * stack pointer is read exactly when the value after its two-character
   * prefix is a non-empty string of hexadecimal digits whose value fits in
   * 64 bits, and it is that value; the register pane shows those same digits.
   */
  function StackPointer(regs: seq<Register>): (r: StackPointerResult)
    ensures r.StackPointerAt? <==>
      |regs| >= 2 && |regs[1].value| > 2 && AllHexDigits(regs[1].value[2..]) &&
      HexValue(regs[1].value[2..]) < U64_MODULUS
    ensures r.StackPointerAt? ==>
      r.addr == HexValue(regs[1].value[2..]) && ParseHexU64(ShownValue(regs[1].value)) == Ok(r.addr)
  {
    if |regs| < 2 then StackPointerFailure(NoStackPointer)
    else if |regs[1].value| < 2 then StackPointerFailure(ShortStackPointer)
    else
      ShownValueParses(regs[1].value);
      match ParseHexU64(regs[1].value[2..])
      case Ok(a) => StackPointerAt(a)
      case Err(e) => StackPointerFailure(BadStackPointer(e))
  }

  /** `ExamineMemory(addr, 256)` succeeds: every byte of the window is readable. */
  predicate Readable(memory: map<nat, byte>, addr: u64)
  {
    forall a :: addr <= a < addr + STACK_WINDOW ==> a in memory
  }

  function Window(memory: map<nat, byte>, addr: u64): (w: seq<byte>)
    requires Readable(memory, addr)
    ensures |w| == STACK_WINDOW
  {
    seq(STACK_WINDOW, k requires 0 <= k < STACK_WINDOW => memory[addr + k])
  }

  class Model {
    var width: int
    var height: int
    var registers: seq<Register>
    var prevRegisters: seq<Register>
    var prevStack: seq<byte>
    var stack: seq<byte>
    var stackaddr: u64

    /** Both stack windows are absent or full, so the stack pane can diff them. */
    predicate Valid()
      reads this
    {
      (|stack| == 0 || |stack| == STACK_WINDOW) && (|prevStack| == 0 || |prevStack| == STACK_WINDOW)
    }

    /** The zero model `main` starts the program with. */
    constructor ()
      ensures Valid()
      ensures width == 0 && height == 0 && stackaddr == 0
      ensures registers == [] && prevRegisters == [] && stack == [] && prevStack == []
    {
      width, height := 0, 0;
      registers, prevRegisters := [], [];
      prevStack, stack := [], [];
      stackaddr := 0;
    }

    /**
     * One message. `pcListing` is the disassembly at the PC the step key
     * consults, `polled` the register list of the poll, `memory` the bytes
     * of the target the stack window is read from. The returned commands
     * are the step requests issued before the poll.
     */
    method Update(msg: Msg, pcListing: seq<Instruction>, polled: seq<Register>, memory: map<nat, byte>)
      returns (cmds: seq<Command>, outcome: Outcome)
      requires Valid()
      modifies this
      ensures Valid()
      ensures IsQuit(msg) ==> outcome == Quit && cmds == [] && unchanged(this)
      ensures !IsQuit(msg) ==>
        && cmds == KeyCommands(msg, pcListing)
        && (if msg.WindowSizeMsg? then width == msg.width && height == msg.height
            else width == old(width) && height == old(height))
        && prevRegisters == old(registers) && registers == polled
      ensures !IsQuit(msg) && StackPointer(polled).StackPointerFailure? ==>
        && outcome == Panic(StackPointer(polled).failure)
        && stackaddr == old(stackaddr) && stack == old(stack) && prevStack == old(prevStack)
      ensures !IsQuit(msg) && StackPointer(polled).StackPointerAt? ==>
        var sp := StackPointer(polled).addr;
        && stackaddr == sp && prevStack == old(stack)
        && (if Readable(memory, sp) then outcome == Polled && stack == Window(memory, sp)
            else outcome == Panic(UnreadableStack) && stack == [])
    {
      cmds := [];
      match msg {
        case KeyMsg(key) =>
          if key == "ctrl+c" || key == "q" {
            outcome := Quit;
            return;
          } else if key == "s" {
            cmds := StepOver(pcListing);
          } else if key == "i" {
            cmds := [StepInstruction];
          } else if key == "o" {
            cmds := [StepOut];
          }
        case WindowSizeMsg(w, h) =>
          width, height := w, h;
        case OtherMsg =>
      }

      outcome := Poll(polled, memory);
    }

    /**
     * The poll that follows every message except quit: rotate the registers,
     * read the stack pointer out of the second register, rotate the stack
     * window and read the new one there.
     */
    method Poll(polled: seq<Register>, memory: map<nat, byte>) returns (outcome: Outcome)
      requires Valid()
      modifies this
      ensures Valid()
      ensures outcome != Quit
      ensures width == old(width) && height == old(height)
      ensures prevRegisters == old(registers) && registers == polled
      ensures StackPointer(polled).StackPointerFailure? ==>
        && outcome == Panic(StackPointer(polled).failure)
        && stackaddr == old(stackaddr) && stack == old(stack) && prevStack == old(prevStack)
      ensures StackPointer(polled).StackPointerAt? ==>
        var sp := StackPointer(polled).addr;
        && stackaddr == sp && prevStack == old(stack)
        && (if Readable(memory, sp) then outcome == Polled && stack == Window(memory, sp)
            else outcome == Panic(UnreadableStack) && stack == [])
      ensures outcome == Polled ==> |stack| == STACK_WINDOW && (|prevStack| == 0 || |stack| <= |prevStack|)
    {
      prevRegisters := registers;
      registers := polled;

      if |registers| < 2 {
        return Panic(NoStackPointer);
      }
      if |registers[1].value| < 2 {
        return Panic(ShortStackPointer);
      }
      var parsed := ParseHexU64(registers[1].value[2..]);
      if parsed.Err? {
        return Panic(BadStackPointer(parsed.error));
      }
      var sp := parsed.value;

      stackaddr := sp;
      prevStack := stack;
      if Readable(memory, sp) {
        stack := Window(memory, sp);
        outcome := Polled;
      } else {
        stack := [];
        outcome := Panic(UnreadableStack);
      }
    }
  }
}
