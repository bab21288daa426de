/** The instruction words of the filter machine as numbers: opcode in the low
    octet, operand in the high one (include/isolario/filterintrin.h). */
module FilterWords {
  import opened FilterCode
  import opened Wrappers

  lemma WordOctets(opcode: nat, arg: nat)
    requires opcode < 256 && arg < 256
    ensures MakeOp(opcode, arg) == 256 * arg + opcode
    ensures GetOpcode(256 * arg + opcode) == opcode && GetArg(256 * arg + opcode) == arg
  {
  }

  /** NOP 0, BLK 1, ENDBLK 2, LOAD 3, EXARG 6, NOT 9, SETTLE 12, HASATTR 13,
      nothing from 34 on, and the others those of the packet: what each does to
      the machine. */
  lemma WordsDo(code: seq<Word>, packet: Packet, vm: Vm)
    requires vm.pc < |code|
    ensures var op, arg, s := code[vm.pc] % 256, code[vm.pc] / 256, vm.stack;
            var o, n := Step(code, packet, vm), vm.(pc := vm.pc + 1);
            && (op in {0, 12} ==> o == Next(n))
            && (op == 1 ==> o == Next(n.(curblk := vm.curblk + 1)))
            && (op == 2 ==> o == if vm.curblk == 0 then Abort(SPURIOUS_ENDBLK) else Next(n.(curblk := vm.curblk - 1)))
            && (op == 3 ==> o == Next(n.(stack := s + [(256 * vm.exarg + arg) % 0x8000_0000], exarg := 0)))
            && (op == 6 ==> o == Next(n.(exarg := 256 * vm.exarg + arg)))
            && (op == 9 && s == [] ==> o == Abort(STACK_UNDERFLOW))
            && (op == 9 && s != [] ==> o == Next(n.(stack := s[..|s| - 1] + [if s[|s| - 1] == 0 then 1 else 0])))
            && (op == 13 ==> o == Next(n.(stack := s + [if arg in packet.attrs then 1 else 0])))
            && (op >= 34 ==> o == Abort(ILLEGAL_OPCODE))
            && (op in {4, 5, 7, 8} || 14 <= op < 34 ==>
                  var e := packet.other(code[vm.pc], vm.exarg, s);
                  o == if e.Gives? then Next(n.(stack := e.stack, exarg := e.exarg)) else Abort(OTHER(e.code)))
  {
    var s := vm.stack;
    if s != [] {
      var v := if s[|s| - 1] == 0 then 1 else 0;
      assert s[|s| - 1 := v] == s[..|s| - 1] + [v];
    }
  }

  /** CPASS 10 and CFAIL 11: a false top is dropped; a true one stays for CPASS
      and becomes 0 for CFAIL, and ends the program, or the block it is in. */
  lemma WordsDecide(code: seq<Word>, packet: Packet, vm: Vm)
    requires vm.pc < |code| && code[vm.pc] % 256 in {10, 11}
    ensures var s, n, o := vm.stack, vm.(pc := vm.pc + 1), Step(code, packet, vm);
            if s == [] then o == Abort(STACK_UNDERFLOW)
            else if s[|s| - 1] == 0 then o == Next(n.(stack := s[..|s| - 1]))
            else
              var t := if code[vm.pc] % 256 == 10 then s else s[..|s| - 1] + [0];
              if vm.curblk == 0 then o == Done(n.(stack := t))
              else o == Next(n.(stack := t, pc := BreakFrom(code, n.pc, 1)))
  {
    var s := vm.stack;
    if s != [] {
      assert s[|s| - 1 := 0] == s[..|s| - 1] + [0];
    }
  }

  /** A LOAD of a number that is not negative takes as few words as it has octets:
      EXARGs for all but the last, most significant first. */
  lemma WordsOfLoad(n: nat)
    requires n < 0x8000_0000
    ensures var a, b, c, d := n / 0x100_0000, n / 0x1_0000 % 256, n / 256 % 256, n % 256;
            LoadWords(n) ==
            if n < 256 then [256 * d + 3]
            else if n < 0x1_0000 then [256 * c + 6, 256 * d + 3]
            else if n < 0x100_0000 then [256 * b + 6, 256 * c + 6, 256 * d + 3]
            else [256 * a + 6, 256 * b + 6, 256 * c + 6, 256 * d + 3]
  {
    var a, b, c, d := n / 0x100_0000, n / 0x1_0000 % 256, n / 256 % 256, n % 256;
    assert ByteOf(n, 24) == a && ByteOf(n, 16) == b && ByteOf(n, 8) == c && ByteOf(n, 0) == d;
    assert TopByte(n, 8) == if c != 0 then 8 else 0;
    assert TopByte(n, 16) == if b != 0 then 16 else TopByte(n, 8);
    assert TopByte(n, 24) == if a != 0 then 24 else TopByte(n, 16);
    Octets(n);
    OneWord(d);
    TwoWords(c, [d]);
    TwoWords(b, [c, d]);
    TwoWords(a, [b, c, d]);
    assert BytesOf(n, 0) == [d];
    assert BytesOf(n, 8) == [c] + BytesOf(n, 0) == [c, d];
    assert BytesOf(n, 16) == [b] + BytesOf(n, 8) == [b, c, d];
    assert BytesOf(n, 24) == [a] + BytesOf(n, 16) == [a, b, c, d];
  }

  lemma Octets(n: nat)
    requires n < 0x8000_0000
    ensures n < 256 <==> n / 256 % 256 == n / 0x1_0000 % 256 == n / 0x100_0000 == 0
    ensures n < 0x1_0000 <==> n / 0x1_0000 % 256 == n / 0x100_0000 == 0
    ensures n < 0x100_0000 <==> n / 0x100_0000 == 0
  {
    assert n / 0x1_0000 == 256 * (n / 0x100_0000) + n / 0x1_0000 % 256;
    assert n / 256 == 256 * (n / 0x1_0000) + n / 256 % 256;
  }

  lemma OneWord(d: nat)
    requires d < 256
    ensures Extended(LOAD, [d]) == [256 * d + 3]
  {
  }

  lemma TwoWords(x: nat, bytes: seq<nat>)
    requires x < 256 && bytes != []
    ensures Extended(LOAD, [x] + bytes) == [256 * x + 6] + Extended(LOAD, bytes)
  {
    assert ([x] + bytes)[1..] == bytes;
  }

  /** A program that ends passes if and only if its top is true; it must have a
      top, and no block left open. */
  lemma EndDecides(code: seq<Word>, packet: Packet, vm: Vm)
    requires vm.pc == |code|
    ensures Exec(code, packet, vm) ==
            if vm.curblk > 0 then Failed(DANGLING_BLK)
            else if vm.stack == [] then Failed(STACK_UNDERFLOW)
            else Pass(vm.stack[|vm.stack| - 1] != 0)
  {
  }

  /** Words 1 and 2 alone open and close blocks for the scan of a break. */
  lemma ScanOf(code: seq<Word>, pc: nat, nblk: nat)
    requires pc < |code| && nblk > 0
    ensures var n := if code[pc] == 1 then nblk + 1 else if code[pc] == 2 then nblk - 1 else nblk;
            BreakFrom(code, pc, nblk) == if n == 0 then pc else BreakFrom(code, pc + 1, n)
  {
  }
}
