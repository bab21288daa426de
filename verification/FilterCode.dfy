/** Filter bytecode: its words, nesting of blocks, and what one instruction
    does (include/isolario/filterintrin.h, src/filterpacket.c). */
module FilterCode {

  type Word = w: int | 0 <= w < 0x1_0000

  const NOP := 0
  const BLK := 1
  const ENDBLK := 2
  const LOAD := 3
  const EXARG := 6
  const NOT := 9
  const CPASS := 10
  const CFAIL := 11
  const SETTLE := 12
  const HASATTR := 13
  const OPCODES_COUNT := 34

  // ---- Words -------------------------------------------------------------

  /** vm_makeop */
  function MakeOp(opcode: nat, arg: nat): Word {
    256 * (arg % 256) + opcode % 256
  }

  function GetOpcode(w: Word): nat {
    w % 256
  }

  function GetArg(w: Word): nat {
    w / 256
  }

  lemma MakeOpReadsBack(opcode: nat, arg: nat)
    requires opcode < 256 && arg < 256
    ensures GetOpcode(MakeOp(opcode, arg)) == opcode && GetArg(MakeOp(opcode, arg)) == arg
  {
  }

  /** vm_extendarg, for an argument of eight bits. */
  function ExtendArg(arg: nat, exarg: nat): nat
    requires arg < 256
  {
    (256 * exarg + arg) % 0x8000_0000
  }

  // ---- Nesting -----------------------------------------------------------

  /** What a word adds to the nesting depth. */
  function Nests(w: Word): int {
    if w == BLK then 1 else if w == ENDBLK then -1 else 0
  }

  function Depth(code: seq<Word>, pc: nat): int
    requires pc <= |code|
  {
    if pc == 0 then 0 else Depth(code, pc - 1) + Nests(code[pc - 1])
  }

  /** vm_exec_break: where its scan from pc ends when nblk blocks are open. */
  function BreakFrom(code: seq<Word>, pc: nat, nblk: int): (q: nat)
    requires pc <= |code|
    ensures pc <= q <= |code|
    decreases |code| - pc
  {
    if pc == |code| then pc
    else if nblk + Nests(code[pc]) == 0 then pc
    else BreakFrom(code, pc + 1, nblk + Nests(code[pc]))
  }

  /** q is the ENDBLK that closes the block pc is in. */
  ghost predicate Closes(code: seq<Word>, pc: nat, q: nat) {
    && pc <= q < |code| && code[q] == ENDBLK
    && Depth(code, q) == Depth(code, pc)
    && forall k :: pc <= k <= q ==> Depth(code, k) >= Depth(code, pc)
  }

  /** The scan stops at that ENDBLK, or at the end when there is none. */
  lemma {:induction false} BreakCloses(code: seq<Word>, from: nat, pc: nat, nblk: int)
    requires from <= pc <= |code| && nblk >= 1 && nblk == 1 + Depth(code, pc) - Depth(code, from)
    requires forall k :: from <= k <= pc ==> Depth(code, k) >= Depth(code, from)
    ensures var q := BreakFrom(code, pc, nblk);
            if q < |code| then Closes(code, from, q)
            else forall r :: pc <= r ==> !Closes(code, from, r)
    decreases |code| - pc
  {
    if pc < |code| {
      assert Depth(code, pc + 1) == Depth(code, pc) + Nests(code[pc]);
      if nblk + Nests(code[pc]) != 0 {
        BreakCloses(code, from, pc + 1, nblk + Nests(code[pc]));
      }
    }
  }

  /** Blocks are closed in order, and none is left open. */
  ghost predicate Nested(code: seq<Word>) {
    && (forall pc :: 0 <= pc <= |code| ==> Depth(code, pc) >= 0)
    && Depth(code, |code|) == 0
    && (forall pc :: 0 <= pc < |code| ==> GetOpcode(code[pc]) in {BLK, ENDBLK} ==> GetArg(code[pc]) == 0)
  }

  lemma {:induction false} SomethingCloses(code: seq<Word>, pc: nat, q: nat)
    requires Nested(code) && pc <= q <= |code| && Depth(code, pc) > 0
    requires forall k :: pc <= k <= q ==> Depth(code, k) >= Depth(code, pc)
    ensures exists r :: q <= r && Closes(code, pc, r)
    decreases |code| - q
  {
    assert q < |code| && Depth(code, q + 1) == Depth(code, q) + Nests(code[q]);
    if Depth(code, q + 1) >= Depth(code, pc) {
      SomethingCloses(code, pc, q + 1);
    } else {
      assert Closes(code, pc, q);
    }
  }

  // ---- One instruction ---------------------------------------------------

  datatype Error = STACK_UNDERFLOW | ILLEGAL_OPCODE | DANGLING_BLK | SPURIOUS_ENDBLK | OTHER(code: nat)

  datatype Vm = Vm(pc: nat, curblk: nat, stack: seq<int>, exarg: nat)

  datatype Outcome = Next(vm: Vm) | Done(vm: Vm) | Abort(error: Error)

  datatype Result = Pass(pass: bool) | Failed(error: Error)

  /** What an instruction other than those that deal with blocks and decisions
      does to the stack and the operand register. */
  datatype Effect = Gives(stack: seq<int>, exarg: nat) | Stops(code: nat)

  /** The packet: its attributes, and what the instructions that are not spelled
      out here do for it, by instruction word, operand register and stack. */
  datatype Packet = Packet(attrs: set<nat>, other: (Word, nat, seq<int>) -> Effect)

  /** The instructions that act on the block counter or decide. */
  predicate Controls(w: Word) {
    GetOpcode(w) in {BLK, ENDBLK, CPASS, CFAIL}
  }

  /** Every other instruction; vm_exec_hasattr and vm_exec_not are among them. */
  function Act(w: Word, packet: Packet, vm: Vm): (o: Outcome)
    ensures o.Next? ==> o.vm.pc == vm.pc && o.vm.curblk == vm.curblk
    ensures !o.Done? && o != Abort(SPURIOUS_ENDBLK) && o != Abort(DANGLING_BLK)
  {
    var op, arg, n := GetOpcode(w), GetArg(w), |vm.stack|;
    if op == NOP || op == SETTLE then
      Next(vm)
    else if op == LOAD then
      Next(vm.(stack := vm.stack + [ExtendArg(arg, vm.exarg)], exarg := 0))
    else if op == EXARG then
      Next(vm.(exarg := 256 * vm.exarg + arg))
    else if op == NOT then
      if n == 0 then Abort(STACK_UNDERFLOW)
      else Next(vm.(stack := vm.stack[n - 1 := if vm.stack[n - 1] == 0 then 1 else 0]))
    else if op == HASATTR then
      Next(vm.(stack := vm.stack + [if arg in packet.attrs then 1 else 0]))
    else if op >= OPCODES_COUNT then
      Abort(ILLEGAL_OPCODE)
    else
      var e := packet.other(w, vm.exarg, vm.stack);
      if e.Gives? then Next(vm.(stack := e.stack, exarg := e.exarg)) else Abort(OTHER(e.code))
  }

  /** CPASS and CFAIL, behind the instruction. */
  function Decide(code: seq<Word>, fail: bool, vm: Vm): (o: Outcome)
    requires vm.pc <= |code|
    ensures o.Next? ==> vm.pc <= o.vm.pc <= |code|
  {
    var n := |vm.stack|;
    if n == 0 then Abort(STACK_UNDERFLOW)
    else if vm.stack[n - 1] == 0 then Next(vm.(stack := vm.stack[..n - 1]))
    else
      var t := if fail then vm.(stack := vm.stack[n - 1 := 0]) else vm;
      if vm.curblk == 0 then Done(t) else Next(t.(pc := BreakFrom(code, t.pc, 1)))
  }

  /** The dispatch loop's switch. */
  function Step(code: seq<Word>, packet: Packet, vm: Vm): (o: Outcome)
    requires vm.pc < |code|
    ensures o.Next? ==> vm.pc < o.vm.pc <= |code|
  {
    var op := GetOpcode(code[vm.pc]);
    var s := vm.(pc := vm.pc + 1);
    if op == BLK then
      Next(s.(curblk := s.curblk + 1))
    else if op == ENDBLK then
      if s.curblk == 0 then Abort(SPURIOUS_ENDBLK) else Next(s.(curblk := s.curblk - 1))
    else if op == CPASS || op == CFAIL then
      Decide(code, op == CFAIL, s)
    else
      Act(code[vm.pc], packet, s)
  }

  /** From the label `done` on. */
  function Finish(vm: Vm): Result {
    if vm.curblk > 0 then Failed(DANGLING_BLK)
    else if vm.stack == [] then Failed(STACK_UNDERFLOW)
    else Pass(vm.stack[|vm.stack| - 1] != 0)
  }

  function Exec(code: seq<Word>, packet: Packet, vm: Vm): Result
    requires vm.pc <= |code|
    decreases |code| - vm.pc
  {
    if vm.pc == |code| then Finish(vm)
    else
      var o := Step(code, packet, vm);
      if o.Abort? then Failed(o.error)
      else if o.Done? then Finish(o.vm)
      else Exec(code, packet, o.vm)
  }

  // ---- Nested programs ---------------------------------------------------

  /** A break from a nested program lands on the ENDBLK of its own block. */
  lemma BreakLands(code: seq<Word>, pc: nat)
    requires Nested(code) && pc <= |code| && Depth(code, pc) > 0
    ensures Closes(code, pc, BreakFrom(code, pc, 1))
  {
    BreakCloses(code, pc, pc, 1);
    SomethingCloses(code, pc, pc);
  }

  lemma DecideKeepsDepth(code: seq<Word>, fail: bool, vm: Vm)
    requires Nested(code) && vm.pc <= |code| && vm.curblk == Depth(code, vm.pc)
    ensures var o := Decide(code, fail, vm);
            if o.Abort? then o.error == STACK_UNDERFLOW
            else if o.Done? then o.vm.curblk == 0
            else o.vm.curblk == Depth(code, o.vm.pc) && (o.vm.pc == vm.pc || Closes(code, vm.pc, o.vm.pc))
  {
    if vm.curblk > 0 {
      BreakLands(code, vm.pc);
    }
  }

  /** In a nested program the block counter is the nesting depth, after every
      instruction; blocks never end where none was begun, and a break lands on
      the ENDBLK of its own block. */
  lemma StepKeepsDepth(code: seq<Word>, packet: Packet, vm: Vm)
    requires Nested(code) && vm.pc < |code| && vm.curblk == Depth(code, vm.pc)
    ensures var o := Step(code, packet, vm);
            if o.Abort? then o.error != SPURIOUS_ENDBLK
            else if o.Done? then o.vm.curblk == 0
            else o.vm.curblk == Depth(code, o.vm.pc) && (o.vm.pc == vm.pc + 1 || Closes(code, vm.pc + 1, o.vm.pc))
  {
    hide Act, Decide;
    assert Depth(code, vm.pc + 1) == Depth(code, vm.pc) + Nests(code[vm.pc]);
    var op := GetOpcode(code[vm.pc]);
    if op == BLK || op == ENDBLK {
      assert code[vm.pc] == op;
    } else if op == CPASS || op == CFAIL {
      DecideKeepsDepth(code, op == CFAIL, vm.(pc := vm.pc + 1));
    }
  }

  /** So such a program never fails for its blocks. */
  lemma {:induction false} NestedNeverDangles(code: seq<Word>, packet: Packet, vm: Vm)
    requires Nested(code) && vm.pc <= |code| && vm.curblk == Depth(code, vm.pc)
    ensures Exec(code, packet, vm) !in {Failed(DANGLING_BLK), Failed(SPURIOUS_ENDBLK)}
    decreases |code| - vm.pc
  {
    if vm.pc < |code| {
      StepKeepsDepth(code, packet, vm);
      var o := Step(code, packet, vm);
      if o.Next? {
        NestedNeverDangles(code, packet, o.vm);
      }
    }
  }

  // ---- Extended operands -------------------------------------------------

  /** (idx >> msb) & 0xff, msb one of 0, 8, 16, 24; the shift is arithmetic. */
  function ByteOf(idx: int, msb: nat): (b: nat)
    ensures b < 256
  {
    (if msb == 0 then idx else if msb == 8 then idx / 0x100 else if msb == 16 then idx / 0x1_0000
     else idx / 0x100_0000) % 256
  }

  /** The most significant byte that is not zero. */
  function TopByte(idx: int, msb: nat): nat {
    if msb < 8 || ByteOf(idx, msb) != 0 then msb else TopByte(idx, msb - 8)
  }

  /** The bytes from msb down. */
  function BytesOf(idx: int, msb: nat): (s: seq<nat>)
    ensures s != [] && forall i :: 0 <= i < |s| ==> s[i] < 256
  {
    if msb < 8 then [ByteOf(idx, 0)] else [ByteOf(idx, msb)] + BytesOf(idx, msb - 8)
  }

  /** An instruction with its operand in bytes, all but the last in EXARGs. */
  function Extended(opcode: nat, bytes: seq<nat>): (ws: seq<Word>)
    requires bytes != []
    ensures |ws| == |bytes|
  {
    if |bytes| == 1 then [MakeOp(opcode, bytes[0])]
    else [MakeOp(EXARG, bytes[0])] + Extended(opcode, bytes[1..])
  }

  /** vm_emit_ex */
  method EmitEx(code: seq<Word>, opcode: nat, idx: int) returns (r: seq<Word>)
    ensures r == code + Extended(opcode, BytesOf(idx, TopByte(idx, 24)))
  {
    var msb := 24;
    while msb > 0
      invariant msb in {0, 8, 16, 24} && TopByte(idx, msb) == TopByte(idx, 24)
    {
      if ByteOf(idx, msb) != 0 {
        break;
      }
      msb := msb - 8;
    }
    r := code;
    ghost var all := code + Extended(opcode, BytesOf(idx, msb));
    while msb > 0
      invariant msb in {0, 8, 16, 24} && r + Extended(opcode, BytesOf(idx, msb)) == all
    {
      var w := MakeOp(EXARG, ByteOf(idx, msb));
      ghost var rest := BytesOf(idx, msb - 8);
      assert BytesOf(idx, msb)[1..] == rest;
      assert r + ([w] + Extended(opcode, rest)) == (r + [w]) + Extended(opcode, rest);
      r := r + [w];
      msb := msb - 8;
    }
    r := r + [MakeOp(opcode, ByteOf(idx, 0))];
  }

  /** The value the words up to msb have put into exarg. */
  function Above(idx: int, msb: nat): nat {
    (if msb == 0 then idx / 0x100 else if msb == 8 then idx / 0x1_0000 else if msb == 16 then idx / 0x100_0000
     else 0) % (if msb == 0 then 0x100_0000 else if msb == 8 then 0x1_0000 else 256)
  }

  lemma AboveNext(idx: int, msb: nat)
    requires msb in {8, 16, 24} && -0x8000_0000 <= idx < 0x8000_0000
    ensures 256 * Above(idx, msb) + ByteOf(idx, msb) == Above(idx, msb - 8)
  {
    if msb == 16 {
      TwoDigits(idx / 0x1_0000);
      assert (idx / 0x1_0000) / 256 == idx / 0x100_0000;
    } else if msb == 8 {
      ThreeDigits(idx / 0x100);
      assert (idx / 0x100) / 256 == idx / 0x1_0000;
    }
  }

  lemma TwoDigits(q: int)
    ensures 256 * (q / 256 % 256) + q % 256 == q % 0x1_0000
  {
  }

  lemma ThreeDigits(q: int)
    ensures 256 * (q / 256 % 0x1_0000) + q % 256 == q % 0x100_0000
  {
  }

  lemma AboveLast(idx: int)
    requires -0x8000_0000 <= idx < 0x8000_0000
    ensures ExtendArg(ByteOf(idx, 0), Above(idx, 0)) == idx % 0x8000_0000
  {
    var u := 256 * (idx / 0x100) + idx % 256;
    assert u == idx;
    var q := (idx / 0x100) / 0x100_0000;
    assert idx / 0x100 == 0x100_0000 * q + Above(idx, 0);
    assert 256 * Above(idx, 0) + ByteOf(idx, 0) == idx - 0x1_0000_0000 * q;
  }

  lemma AboveTop(idx: int, msb: nat)
    requires msb in {0, 8, 16, 24} && -0x8000_0000 <= idx < 0x8000_0000
    requires msb == 24
             || (ByteOf(idx, 24) == 0 && (msb == 16 || (ByteOf(idx, 16) == 0 && (msb == 8 || ByteOf(idx, 8) == 0))))
    ensures Above(idx, msb) == 0
  {
  }

  /** The operand a run of EXARGs and a last argument make up. */
  function Folded(exarg: nat, bytes: seq<nat>): nat
    requires bytes != [] && forall i :: 0 <= i < |bytes| ==> bytes[i] < 256
    decreases |bytes|
  {
    if |bytes| == 1 then ExtendArg(bytes[0], exarg) else Folded(256 * exarg + bytes[0], bytes[1..])
  }

  lemma {:induction false} FoldedBytes(idx: int, msb: nat)
    requires msb in {0, 8, 16, 24} && -0x8000_0000 <= idx < 0x8000_0000
    ensures Folded(Above(idx, msb), BytesOf(idx, msb)) == idx % 0x8000_0000
    decreases msb
  {
    if msb == 0 {
      AboveLast(idx);
    } else {
      AboveNext(idx, msb);
      assert BytesOf(idx, msb)[1..] == BytesOf(idx, msb - 8);
      FoldedBytes(idx, msb - 8);
    }
  }

  lemma ExecNext(code: seq<Word>, packet: Packet, vm: Vm, s: Vm)
    requires vm.pc < |code| && Step(code, packet, vm) == Next(s)
    ensures s.pc <= |code| && Exec(code, packet, vm) == Exec(code, packet, s)
  {
  }

  function Loaded(vm: Vm, bytes: seq<nat>): Vm
    requires bytes != [] && forall i :: 0 <= i < |bytes| ==> bytes[i] < 256
  {
    Vm(vm.pc + |bytes|, vm.curblk, vm.stack + [Folded(vm.exarg, bytes)], 0)
  }

  lemma LoadedNext(vm: Vm, bytes: seq<nat>)
    requires |bytes| > 1 && forall i :: 0 <= i < |bytes| ==> bytes[i] < 256
    ensures Loaded(vm, bytes) == Loaded(vm.(pc := vm.pc + 1, exarg := 256 * vm.exarg + bytes[0]), bytes[1..])
  {
  }

  /** The words of an extended LOAD push the operand they make up. */
  lemma {:induction false} LoadFolds(code: seq<Word>, packet: Packet, vm: Vm, bytes: seq<nat>)
    requires bytes != [] && forall i :: 0 <= i < |bytes| ==> bytes[i] < 256
    requires vm.pc + |bytes| <= |code| && code[vm.pc..vm.pc + |bytes|] == Extended(LOAD, bytes)
    ensures Exec(code, packet, vm) == Exec(code, packet, Loaded(vm, bytes))
    decreases |bytes|
  {
    var ws := Extended(LOAD, bytes);
    assert code[vm.pc] == code[vm.pc..vm.pc + |bytes|][0] == ws[0];
    if |bytes| == 1 {
      LoadWord(code, packet, vm, bytes[0]);
    } else {
      ExargWord(code, packet, vm, bytes[0]);
      var next := vm.(pc := vm.pc + 1, exarg := 256 * vm.exarg + bytes[0]);
      assert code[next.pc..vm.pc + |bytes|] == code[vm.pc..vm.pc + |bytes|][1..] == ws[1..];
      LoadFolds(code, packet, next, bytes[1..]);
      LoadedNext(vm, bytes);
    }
  }

  lemma LoadWord(code: seq<Word>, packet: Packet, vm: Vm, arg: nat)
    requires vm.pc < |code| && arg < 256 && code[vm.pc] == MakeOp(LOAD, arg)
    ensures Exec(code, packet, vm) ==
            Exec(code, packet, Vm(vm.pc + 1, vm.curblk, vm.stack + [ExtendArg(arg, vm.exarg)], 0))
  {
    MakeOpReadsBack(LOAD, arg);
    ExecNext(code, packet, vm, Vm(vm.pc + 1, vm.curblk, vm.stack + [ExtendArg(arg, vm.exarg)], 0));
  }

  lemma ExargWord(code: seq<Word>, packet: Packet, vm: Vm, arg: nat)
    requires vm.pc < |code| && arg < 256 && code[vm.pc] == MakeOp(EXARG, arg)
    ensures Exec(code, packet, vm) ==
            Exec(code, packet, vm.(pc := vm.pc + 1, exarg := 256 * vm.exarg + arg))
  {
    MakeOpReadsBack(EXARG, arg);
    ExecNext(code, packet, vm, vm.(pc := vm.pc + 1, exarg := 256 * vm.exarg + arg));
  }

  /** The words vm_emit_ex appends for a LOAD of idx. */
  function LoadWords(idx: int): seq<Word> {
    Extended(LOAD, BytesOf(idx, TopByte(idx, 24)))
  }

  /** idx & 0x7fffffff */
  function WithoutSign(idx: int): (v: nat)
    ensures -0x8000_0000 <= idx < 0x8000_0000 ==> (v == idx <==> idx >= 0)
  {
    idx % 0x8000_0000
  }

  lemma TopByteFolds(idx: int)
    requires -0x8000_0000 <= idx < 0x8000_0000
    ensures Folded(0, BytesOf(idx, TopByte(idx, 24))) == WithoutSign(idx)
  {
    assert TopByte(idx, 8) == if ByteOf(idx, 8) != 0 then 8 else 0;
    assert TopByte(idx, 16) == if ByteOf(idx, 16) != 0 then 16 else TopByte(idx, 8);
    assert TopByte(idx, 24) == if ByteOf(idx, 24) != 0 then 24 else TopByte(idx, 16);
    AboveTop(idx, TopByte(idx, 24));
    FoldedBytes(idx, TopByte(idx, 24));
  }

  /** A LOAD emitted for any 32-bit operand loads it back, without its sign bit:
      exactly itself if and only if it is not negative. */
  lemma LoadReadsBack(code: seq<Word>, packet: Packet, vm: Vm, idx: int)
    requires -0x8000_0000 <= idx < 0x8000_0000 && vm.exarg == 0
    requires vm.pc + |LoadWords(idx)| <= |code| && code[vm.pc..vm.pc + |LoadWords(idx)|] == LoadWords(idx)
    ensures Exec(code, packet, vm) ==
            Exec(code, packet, Vm(vm.pc + |LoadWords(idx)|, vm.curblk, vm.stack + [WithoutSign(idx)], 0))
    ensures WithoutSign(idx) == idx <==> idx >= 0
  {
    var bytes := BytesOf(idx, TopByte(idx, 24));
    TopByteFolds(idx);
    LoadFolds(code, packet, vm, bytes);
    LoadedIs(vm, bytes, WithoutSign(idx));
  }

  lemma LoadedIs(vm: Vm, bytes: seq<nat>, v: nat)
    requires bytes != [] && (forall i :: 0 <= i < |bytes| ==> bytes[i] < 256) && Folded(vm.exarg, bytes) == v
    ensures Loaded(vm, bytes) == Vm(vm.pc + |bytes|, vm.curblk, vm.stack + [v], 0)
  {
  }
}
