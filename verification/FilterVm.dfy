/** The filter virtual machine (src/filterpacket.c): its dispatch loop, and the
    meaning of programs made of nested decision lists. */
module FilterVm {
  import opened FilterCode
  import opened Wrappers
  import opened Slices

  // ---- The machine -------------------------------------------------------

  class FilterMachine {
    const code: seq<Word>
    var pc: nat
    var curblk: nat
    var stack: seq<int>
    var exarg: nat

    constructor (program: seq<Word>)
      ensures code == program
    {
      code := program;
      pc, curblk, stack, exarg := 0, 0, [], 0;
    }

    ghost function Now(): Vm
      reads this
    {
      Vm(pc, curblk, stack, exarg)
    }

    /** vm_exec_break */
    method Break()
      requires pc <= |code|
      modifies this`pc
      ensures pc == BreakFrom(code, old(pc), 1)
    {
      var nblk := 1;
      while pc < |code|
        invariant pc <= |code| && BreakFrom(code, pc, nblk) == BreakFrom(code, old(pc), 1)
      {
        if code[pc] == ENDBLK {
          nblk := nblk - 1;
        }
        if code[pc] == BLK {
          nblk := nblk + 1;
        }
        if nblk == 0 {
          break;
        }
        pc := pc + 1;
      }
    }

    /** CPASS and CFAIL; true when the program is done. */
    method Decide(fail: bool) returns (done: bool)
      requires stack != [] && pc <= |code|
      modifies this`pc, this`stack
      ensures FilterCode.Decide(code, fail, old(Now())) == if done then Done(Now()) else Next(Now())
    {
      var top := |stack| - 1;
      done := false;
      if stack[top] != 0 {
        if fail {
          stack := stack[top := 0];
        }
        if curblk == 0 {
          return true;
        }
        Break();
      } else {
        stack := stack[..top];
      }
    }

    /** The cases of the switch that leave the blocks alone. */
    method Perform(ip: Word, packet: Packet) returns (error: Option<Error>)
      modifies this`stack, this`exarg
      ensures Act(ip, packet, old(Now())) == if error.Some? then Abort(error.value) else Next(Now())
    {
      error := None;
      var op, arg := GetOpcode(ip), GetArg(ip);
      if op == NOP || op == SETTLE {
      } else if op == LOAD {
        stack := stack + [ExtendArg(arg, exarg)];
        exarg := 0;
      } else if op == EXARG {
        exarg := 256 * exarg + arg;
      } else if op == NOT {
        if stack == [] {
          return Some(STACK_UNDERFLOW);
        }
        var top := |stack| - 1;
        stack := stack[top := if stack[top] == 0 then 1 else 0];
      } else if op == HASATTR {
        stack := stack + [if arg in packet.attrs then 1 else 0];
      } else if op >= OPCODES_COUNT {
        return Some(ILLEGAL_OPCODE);
      } else {
        var e := packet.other(ip, exarg, stack);
        if e.Stops? {
          return Some(OTHER(e.code));
        }
        stack, exarg := e.stack, e.exarg;
      }
    }

    /** One pass over the switch: what the instruction at pc does. */
    method Execute(packet: Packet) returns (done: bool, error: Option<Error>)
      requires pc < |code|
      modifies this
      ensures pc <= |code|
      ensures error.Some? ==> Step(code, packet, old(Now())) == Abort(error.value)
      ensures error.None? ==> Step(code, packet, old(Now())) == if done then Done(Now()) else Next(Now())
    {
      var ip := code[pc];
      pc := pc + 1;
      done, error := false, None;
      var op := GetOpcode(ip);
      if op == BLK {
        curblk := curblk + 1;
      } else if op == ENDBLK {
        if curblk == 0 {
          return false, Some(SPURIOUS_ENDBLK);
        }
        curblk := curblk - 1;
      } else if op == CPASS || op == CFAIL {
        if stack == [] {
          return false, Some(STACK_UNDERFLOW);
        }
        done := Decide(op == CFAIL);
      } else {
        error := Perform(ip, packet);
      }
    }

    /** bgp_filter_r: the loop ends because pc only grows. */
    method Filter(packet: Packet) returns (r: Result)
      modifies this
      ensures r == Exec(code, packet, Vm(0, 0, [], 0))
    {
      pc, curblk, stack, exarg := 0, 0, [], 0;
      var done := false;
      while !done && pc < |code|
        invariant pc <= |code|
        invariant Exec(code, packet, Vm(0, 0, [], 0)) == if done then Finish(Now()) else Exec(code, packet, Now())
        decreases !done, |code| - pc
      {
        var error;
        done, error := Execute(packet);
        if error.Some? {
          return Failed(error.value);
        }
      }
      if curblk > 0 {
        return Failed(DANGLING_BLK);
      }
      if stack == [] {
        return Failed(STACK_UNDERFLOW);
      }
      return Pass(stack[|stack| - 1] != 0);
    }
  }

  // ---- Decision lists ----------------------------------------------------

  datatype Expr =
    | Value(value: nat)
    | HasAttr(code: nat)
    | Run(words: seq<Word>)
    | Negation(of: Expr)
    | Block(chain: Chain)

  /** Entries that may decide, and what counts when none does. */
  datatype Chain =
    | Last(last: Expr)
    | Entry(test: Expr, pass: bool, rest: Chain)

  /** A run of instructions without blocks and decisions, from a stack and an
      operand register; None when it stops. */
  ghost function Straight(words: seq<Word>, packet: Packet, vm: Vm): Option<Vm>
    decreases |words|
  {
    if words == [] then Some(vm)
    else
      var o := Act(words[0], packet, vm.(pc := vm.pc + 1));
      if o.Next? then Straight(words[1..], packet, o.vm) else None
  }

  /** What it does depends on the stack and the operand register alone. */
  lemma {:induction false} StraightAnywhere(words: seq<Word>, packet: Packet, v: Vm, w: Vm)
    requires v.stack == w.stack && v.exarg == w.exarg && Straight(words, packet, v).Some?
    ensures var r := Straight(words, packet, v).value;
            && r.pc == v.pc + |words|
            && Straight(words, packet, w) == Some(w.(pc := w.pc + |words|, stack := r.stack, exarg := r.exarg))
    decreases |words|
  {
    if words != [] {
      StraightAnywhere(words[1..], packet, Act(words[0], packet, v.(pc := v.pc + 1)).vm,
                       Act(words[0], packet, w.(pc := w.pc + 1)).vm);
    }
  }

  ghost predicate Flat(words: seq<Word>) {
    forall i :: 0 <= i < |words| ==> !Controls(words[i])
  }

  /** Started on this stack, the run leaves one value on it and nothing else,
      whatever it does with the stack in between. */
  ghost predicate Pushes(words: seq<Word>, packet: Packet, s: seq<int>) {
    Straight(words, packet, Vm(0, 0, s, 0)) == Some(Vm(|words|, 0, s + [RunWorth(words, packet, s)], 0))
  }

  /** The value on top after the run. */
  ghost function RunWorth(words: seq<Word>, packet: Packet, s: seq<int>): int {
    var r := Straight(words, packet, Vm(0, 0, s, 0));
    if r.Some? && r.value.stack != [] then r.value.stack[|r.value.stack| - 1] else 0
  }

  /** An expression whose runs each push one value where they are started, which
      is always on the stack that the whole expression is started on. */
  ghost predicate ValidExpr(e: Expr, packet: Packet, s: seq<int>) {
    match e
    case Value(v) => v < 0x8000_0000
    case HasAttr(code) => code < 256
    case Run(words) => Flat(words) && Pushes(words, packet, s)
    case Negation(x) => ValidExpr(x, packet, s)
    case Block(c) => ValidChain(c, packet, s)
  }

  ghost predicate ValidChain(c: Chain, packet: Packet, s: seq<int>) {
    match c
    case Last(e) => ValidExpr(e, packet, s)
    case Entry(e, _, rest) => ValidExpr(e, packet, s) && ValidChain(rest, packet, s)
  }

  /** What an expression is worth to a packet, on this stack. */
  ghost function Worth(e: Expr, packet: Packet, s: seq<int>): int {
    match e
    case Value(v) => v
    case HasAttr(code) => if code in packet.attrs then 1 else 0
    case Run(words) => RunWorth(words, packet, s)
    case Negation(x) => if Worth(x, packet, s) == 0 then 1 else 0
    case Block(c) => Decision(c, packet, s)
  }

  /** The first entry that is true decides: with its own value if it is to pass,
      with 0 if it is to fail. */
  ghost function Decision(c: Chain, packet: Packet, s: seq<int>): int {
    match c
    case Last(e) => Worth(e, packet, s)
    case Entry(e, pass, rest) =>
      if Worth(e, packet, s) == 0 then Decision(rest, packet, s) else if pass then Worth(e, packet, s) else 0
  }

  function Code(e: Expr): seq<Word> {
    match e
    case Value(v) => LoadWords(v)
    case HasAttr(code) => [MakeOp(HASATTR, code)]
    case Run(words) => words
    case Negation(x) => Code(x) + [NOT]
    case Block(c) => [BLK] + ChainCode(c) + [ENDBLK]
  }

  function ChainCode(c: Chain): seq<Word> {
    match c
    case Last(e) => Code(e)
    case Entry(e, pass, rest) => Code(e) + [if pass then CPASS else CFAIL] + ChainCode(rest)
  }

  // ---- Code in place -----------------------------------------------------

  lemma AtOne(code: seq<Word>, pc: nat, w: Word)
    requires At(code, pc, [w])
    ensures code[pc] == w
  {
    AtIndex(code, pc, [w], 0);
  }

  /** The three parts of an entry or a block. */
  lemma AtThree(code: seq<Word>, pc: nat, a: seq<Word>, w: Word, b: seq<Word>)
    requires At(code, pc, a + [w] + b)
    ensures At(code, pc, a) && pc + |a| < |code| && code[pc + |a|] == w && At(code, pc + |a| + 1, b)
  {
    AtBoth(code, pc, a + [w], b);
    AtBoth(code, pc, a, [w]);
    AtOne(code, pc + |a|, w);
  }

  // ---- Breaking over code ------------------------------------------------

  lemma {:induction false} SkipFlat(code: seq<Word>, pc: nat, ws: seq<Word>, nblk: int)
    requires At(code, pc, ws) && nblk >= 1 && forall i :: 0 <= i < |ws| ==> Nests(ws[i]) == 0
    ensures BreakFrom(code, pc, nblk) == BreakFrom(code, pc + |ws|, nblk)
    decreases |ws|
  {
    if ws != [] {
      assert ws == [ws[0]] + ws[1..];
      AtBoth(code, pc, [ws[0]], ws[1..]);
      AtOne(code, pc, ws[0]);
      SkipFlat(code, pc + 1, ws[1..], nblk);
    }
  }

  lemma {:induction false} ExtendedIsFlat(opcode: nat, bytes: seq<nat>)
    requires bytes != [] && opcode in {LOAD, HASATTR}
    ensures forall i :: 0 <= i < |bytes| ==> Nests(Extended(opcode, bytes)[i]) == 0
    decreases |bytes|
  {
    if |bytes| > 1 {
      ExtendedIsFlat(opcode, bytes[1..]);
    }
  }

  lemma SkipWord(code: seq<Word>, pc: nat, nblk: int)
    requires pc < |code| && nblk >= 1 && nblk + Nests(code[pc]) >= 1
    ensures BreakFrom(code, pc, nblk) == BreakFrom(code, pc + 1, nblk + Nests(code[pc]))
  {
  }

  lemma SkipBlock(code: seq<Word>, pc: nat, c: Chain, nblk: int)
    requires At(code, pc, Code(Block(c))) && nblk >= 1
    requires BreakFrom(code, pc + 1, nblk + 1) == BreakFrom(code, pc + 1 + |ChainCode(c)|, nblk + 1)
    ensures BreakFrom(code, pc, nblk) == BreakFrom(code, pc + |Code(Block(c))|, nblk)
  {
    hide BreakFrom, ChainCode;
    BlockAt(code, pc, c);
    SkipWord(code, pc, nblk);
    SkipWord(code, pc + 1 + |ChainCode(c)|, nblk + 1);
  }

  lemma BlockAt(code: seq<Word>, pc: nat, c: Chain)
    requires At(code, pc, Code(Block(c)))
    ensures pc + 1 + |ChainCode(c)| < |code| && |Code(Block(c))| == |ChainCode(c)| + 2
    ensures code[pc] == BLK && code[pc + 1 + |ChainCode(c)|] == ENDBLK && At(code, pc + 1, ChainCode(c))
  {
    hide ChainCode;
    AtBoth(code, pc, [BLK] + ChainCode(c), [ENDBLK]);
    AtBoth(code, pc, [BLK], ChainCode(c));
    AtOne(code, pc, BLK);
    AtOne(code, pc + 1 + |ChainCode(c)|, ENDBLK);
  }

  lemma NegationAt(code: seq<Word>, pc: nat, x: Expr)
    requires At(code, pc, Code(Negation(x)))
    ensures At(code, pc, Code(x)) && pc + |Code(x)| < |code| && code[pc + |Code(x)|] == NOT
    ensures |Code(Negation(x))| == |Code(x)| + 1
  {
    AtBoth(code, pc, Code(x), [NOT]);
    AtOne(code, pc + |Code(x)|, NOT);
  }

  lemma EntryAt(code: seq<Word>, pc: nat, e: Expr, pass: bool, rest: Chain)
    requires At(code, pc, ChainCode(Entry(e, pass, rest)))
    ensures At(code, pc, Code(e)) && pc + |Code(e)| < |code|
    ensures code[pc + |Code(e)|] == if pass then CPASS else CFAIL
    ensures At(code, pc + |Code(e)| + 1, ChainCode(rest))
    ensures |ChainCode(Entry(e, pass, rest))| == |Code(e)| + 1 + |ChainCode(rest)|
  {
    AtThree(code, pc, Code(e), if pass then CPASS else CFAIL, ChainCode(rest));
  }

  lemma RunIsFlat(words: seq<Word>)
    requires Flat(words)
    ensures forall i :: 0 <= i < |words| ==> Nests(words[i]) == 0
  {
    forall i | 0 <= i < |words| ensures Nests(words[i]) == 0 {
      assert !Controls(words[i]);
    }
  }

  predicate Leaf(e: Expr) {
    e.Value? || e.HasAttr? || e.Run?
  }

  lemma LeafIsFlat(packet: Packet, s: seq<int>, e: Expr)
    requires ValidExpr(e, packet, s) && Leaf(e)
    ensures forall i :: 0 <= i < |Code(e)| ==> Nests(Code(e)[i]) == 0
  {
    hide Pushes;
    if e.Value? {
      ExtendedIsFlat(LOAD, BytesOf(e.value, TopByte(e.value, 24)));
    } else if e.Run? {
      RunIsFlat(e.words);
    }
  }

  lemma LastCode(e: Expr)
    ensures ChainCode(Last(e)) == Code(e)
  {
  }

  /** The scan of vm_exec_break passes over whole expressions, blocks and all. */
  lemma {:induction false} SkipExpr(code: seq<Word>, packet: Packet, s: seq<int>, pc: nat, e: Expr, nblk: int)
    requires ValidExpr(e, packet, s) && At(code, pc, Code(e)) && nblk >= 1
    ensures BreakFrom(code, pc, nblk) == BreakFrom(code, pc + |Code(e)|, nblk)
    decreases e
  {
    hide BreakFrom, Code, ChainCode, Pushes, At;
    if e.Negation? {
      NegationAt(code, pc, e.of);
      SkipExpr(code, packet, s, pc, e.of, nblk);
      SkipWord(code, pc + |Code(e.of)|, nblk);
    } else if e.Block? {
      BlockAt(code, pc, e.chain);
      SkipChain(code, packet, s, pc + 1, e.chain, nblk + 1);
      SkipBlock(code, pc, e.chain, nblk);
    } else {
      LeafIsFlat(packet, s, e);
      SkipFlat(code, pc, Code(e), nblk);
    }
  }

  lemma {:induction false} SkipChain(code: seq<Word>, packet: Packet, s: seq<int>, pc: nat, c: Chain, nblk: int)
    requires ValidChain(c, packet, s) && At(code, pc, ChainCode(c)) && nblk >= 1
    ensures BreakFrom(code, pc, nblk) == BreakFrom(code, pc + |ChainCode(c)|, nblk)
    decreases c
  {
    hide BreakFrom, Code, ChainCode, ValidExpr;
    if c.Last? {
      LastCode(c.last);
      SkipExpr(code, packet, s, pc, c.last, nblk);
    } else {
      var e := c.test;
      EntryAt(code, pc, e, c.pass, c.rest);
      SkipExpr(code, packet, s, pc, e, nblk);
      SkipWord(code, pc + |Code(e)|, nblk);
      SkipChain(code, packet, s, pc + |Code(e)| + 1, c.rest, nblk);
    }
  }

  // ---- What programs do --------------------------------------------------

  /** From v the run goes on as from w. */
  ghost predicate Reaches(code: seq<Word>, packet: Packet, v: Vm, w: Vm) {
    v.pc <= |code| && w.pc <= |code| && Exec(code, packet, v) == Exec(code, packet, w)
  }

  lemma ReachesBoth(code: seq<Word>, packet: Packet, u: Vm, v: Vm, w: Vm)
    requires Reaches(code, packet, u, v) && Reaches(code, packet, v, w)
    ensures Reaches(code, packet, u, w)
  {
  }

  /** A run in the code does what it does on its own. */
  lemma {:induction false} RunReaches(code: seq<Word>, packet: Packet, vm: Vm, words: seq<Word>)
    requires At(code, vm.pc, words) && Flat(words) && Straight(words, packet, vm).Some?
    ensures Reaches(code, packet, vm, Straight(words, packet, vm).value)
    decreases |words|
  {
    if words != [] {
      assert words == [words[0]] + words[1..];
      AtBoth(code, vm.pc, [words[0]], words[1..]);
      AtOne(code, vm.pc, words[0]);
      var next := Act(words[0], packet, vm.(pc := vm.pc + 1)).vm;
      ExecNext(code, packet, vm, next);
      RunReaches(code, packet, next, words[1..]);
    }
  }

  /** A flat leaf pushes its worth. */
  lemma LeafPushes(code: seq<Word>, packet: Packet, vm: Vm, e: Expr)
    requires ValidExpr(e, packet, vm.stack) && Leaf(e)
    requires At(code, vm.pc, Code(e)) && vm.exarg == 0
    ensures Reaches(code, packet, vm, vm.(pc := vm.pc + |Code(e)|, stack := vm.stack + [Worth(e, packet, vm.stack)]))
  {
    hide Exec, Straight, RunWorth;
    if e.Value? {
      ValuePushes(code, packet, vm, e.value);
    } else if e.HasAttr? {
      HasAttrPushes(code, packet, vm, e.code);
    } else {
      assert Pushes(e.words, packet, vm.stack);
      StraightAnywhere(e.words, packet, Vm(0, 0, vm.stack, 0), vm);
      RunReaches(code, packet, vm, e.words);
    }
  }

  lemma ValuePushes(code: seq<Word>, packet: Packet, vm: Vm, v: nat)
    requires v < 0x8000_0000 && At(code, vm.pc, LoadWords(v)) && vm.exarg == 0
    ensures Reaches(code, packet, vm, vm.(pc := vm.pc + |LoadWords(v)|, stack := vm.stack + [v]))
  {
    hide Exec;
    LoadReadsBack(code, packet, vm, v);
  }

  /** An expression pushes its worth, and nothing else changes. */
  lemma {:induction false} ExprPushes(code: seq<Word>, packet: Packet, vm: Vm, e: Expr)
    requires ValidExpr(e, packet, vm.stack) && At(code, vm.pc, Code(e)) && vm.exarg == 0
    ensures Reaches(code, packet, vm, vm.(pc := vm.pc + |Code(e)|, stack := vm.stack + [Worth(e, packet, vm.stack)]))
    decreases e, 2
  {
    hide Reaches, Code, ChainCode;
    if e.Negation? {
      NegationPushes(code, packet, vm, e.of);
    } else if e.Block? {
      BlockPushes(code, packet, vm, e.chain);
    } else {
      LeafPushes(code, packet, vm, e);
    }
  }

  lemma {:induction false} NegationPushes(code: seq<Word>, packet: Packet, vm: Vm, x: Expr)
    requires ValidExpr(x, packet, vm.stack) && At(code, vm.pc, Code(Negation(x))) && vm.exarg == 0
    ensures Reaches(code, packet, vm,
                    vm.(pc := vm.pc + |Code(Negation(x))|, stack := vm.stack + [Worth(Negation(x), packet, vm.stack)]))
    decreases x, 3
  {
    hide Reaches, Code, ValidExpr;
    NegationAt(code, vm.pc, x);
    var v, at := Worth(x, packet, vm.stack), vm.(pc := vm.pc + |Code(x)|);
    ExprPushes(code, packet, vm, x);
    NotFlips(code, packet, at, v);
    ReachesBoth(code, packet, vm, at.(stack := vm.stack + [v]),
                at.(pc := at.pc + 1, stack := vm.stack + [if v == 0 then 1 else 0]));
  }

  lemma HasAttrPushes(code: seq<Word>, packet: Packet, vm: Vm, c: nat)
    requires c < 256 && At(code, vm.pc, [MakeOp(HASATTR, c)])
    ensures Reaches(code, packet, vm, vm.(pc := vm.pc + 1, stack := vm.stack + [if c in packet.attrs then 1 else 0]))
  {
    AtOne(code, vm.pc, MakeOp(HASATTR, c));
    MakeOpReadsBack(HASATTR, c);
    ExecNext(code, packet, vm, vm.(pc := vm.pc + 1, stack := vm.stack + [if c in packet.attrs then 1 else 0]));
  }

  lemma NotFlips(code: seq<Word>, packet: Packet, vm: Vm, v: int)
    requires vm.pc < |code| && code[vm.pc] == NOT
    ensures Reaches(code, packet, vm.(stack := vm.stack + [v]),
                    vm.(pc := vm.pc + 1, stack := vm.stack + [if v == 0 then 1 else 0]))
  {
    var s, t := vm.stack + [v], vm.stack + [if v == 0 then 1 else 0];
    assert s[|s| - 1 := if v == 0 then 1 else 0] == t;
    ExecNext(code, packet, vm.(stack := s), vm.(pc := vm.pc + 1, stack := t));
  }

  /** A false entry is popped. */
  lemma FalseEntry(code: seq<Word>, packet: Packet, vm: Vm)
    requires vm.pc < |code| && code[vm.pc] in {CPASS, CFAIL}
    ensures Reaches(code, packet, vm.(stack := vm.stack + [0]), vm.(pc := vm.pc + 1))
  {
    var s := vm.stack + [0];
    assert s[..|s| - 1] == vm.stack;
    ExecNext(code, packet, vm.(stack := s), vm.(pc := vm.pc + 1));
  }

  /** A true one, inside a block, leads to the end of the block. */
  lemma PassEntry(code: seq<Word>, packet: Packet, vm: Vm, v: int)
    requires vm.pc < |code| && code[vm.pc] == CPASS && vm.curblk > 0 && v != 0
    ensures Reaches(code, packet, vm.(stack := vm.stack + [v]),
                    vm.(pc := BreakFrom(code, vm.pc + 1, 1), stack := vm.stack + [v]))
  {
    ExecNext(code, packet, vm.(stack := vm.stack + [v]),
             vm.(pc := BreakFrom(code, vm.pc + 1, 1), stack := vm.stack + [v]));
  }

  lemma FailEntry(code: seq<Word>, packet: Packet, vm: Vm, v: int)
    requires vm.pc < |code| && code[vm.pc] == CFAIL && vm.curblk > 0 && v != 0
    ensures Reaches(code, packet, vm.(stack := vm.stack + [v]),
                    vm.(pc := BreakFrom(code, vm.pc + 1, 1), stack := vm.stack + [0]))
  {
    var s := vm.stack + [v];
    assert s[|s| - 1 := 0] == vm.stack + [0];
    ExecNext(code, packet, vm.(stack := s),
             vm.(pc := BreakFrom(code, vm.pc + 1, 1), stack := vm.stack + [0]));
  }

  lemma TrueEntry(code: seq<Word>, packet: Packet, vm: Vm, v: int, pass: bool, rest: Chain)
    requires vm.pc < |code| && code[vm.pc] == (if pass then CPASS else CFAIL) && vm.curblk > 0 && v != 0
    requires ValidChain(rest, packet, vm.stack) && At(code, vm.pc + 1, ChainCode(rest))
    requires vm.pc + 1 + |ChainCode(rest)| < |code| && code[vm.pc + 1 + |ChainCode(rest)|] == ENDBLK
    ensures Reaches(code, packet, vm.(stack := vm.stack + [v]),
                    vm.(pc := vm.pc + 1 + |ChainCode(rest)|, stack := vm.stack + [if pass then v else 0]))
  {
    hide Exec, ChainCode, ValidChain;
    SkipChain(code, packet, vm.stack, vm.pc + 1, rest, 1);
    if pass {
      PassEntry(code, packet, vm, v);
    } else {
      FailEntry(code, packet, vm, v);
    }
  }

  /** Inside a block a chain pushes its decision and goes to the ENDBLK, either
      step by step or by a break. */
  lemma {:induction false} ChainDecides(code: seq<Word>, packet: Packet, vm: Vm, c: Chain)
    requires ValidChain(c, packet, vm.stack) && At(code, vm.pc, ChainCode(c)) && vm.exarg == 0 && vm.curblk > 0
    requires vm.pc + |ChainCode(c)| < |code| && code[vm.pc + |ChainCode(c)|] == ENDBLK
    ensures Reaches(code, packet, vm,
                    vm.(pc := vm.pc + |ChainCode(c)|, stack := vm.stack + [Decision(c, packet, vm.stack)]))
    decreases c, 0
  {
    hide Exec, Code, ChainCode, ValidExpr;
    if c.Last? {
      LastCode(c.last);
      ExprPushes(code, packet, vm, c.last);
    } else {
      var e, at := c.test, vm.(pc := vm.pc + |Code(c.test)|);
      EntryAt(code, vm.pc, e, c.pass, c.rest);
      ExprPushes(code, packet, vm, e);
      if Worth(e, packet, vm.stack) == 0 {
        FalseEntry(code, packet, at);
        ChainDecides(code, packet, vm.(pc := at.pc + 1), c.rest);
      } else {
        TrueEntry(code, packet, at, Worth(e, packet, vm.stack), c.pass, c.rest);
      }
    }
  }

  lemma BlockWords(code: seq<Word>, packet: Packet, vm: Vm)
    requires vm.pc < |code|
    ensures code[vm.pc] == BLK ==> Reaches(code, packet, vm, vm.(pc := vm.pc + 1, curblk := vm.curblk + 1))
    ensures code[vm.pc] == ENDBLK && vm.curblk > 0 ==>
              Reaches(code, packet, vm, vm.(pc := vm.pc + 1, curblk := vm.curblk - 1))
  {
  }

  lemma {:induction false} BlockPushes(code: seq<Word>, packet: Packet, vm: Vm, c: Chain)
    requires ValidChain(c, packet, vm.stack) && At(code, vm.pc, Code(Block(c))) && vm.exarg == 0
    ensures Reaches(code, packet, vm,
                    vm.(pc := vm.pc + |Code(Block(c))|, stack := vm.stack + [Decision(c, packet, vm.stack)]))
    decreases c, 1
  {
    hide Exec, Code, ChainCode, Decision, ValidChain;
    var n := |ChainCode(c)|;
    BlockAt(code, vm.pc, c);
    var inside := vm.(pc := vm.pc + 1, curblk := vm.curblk + 1);
    BlockWords(code, packet, vm);
    ChainDecides(code, packet, inside, c);
    BlockWords(code, packet, inside.(pc := vm.pc + 1 + n, stack := vm.stack + [Decision(c, packet, vm.stack)]));
  }

  /** Outside of any block the deciding entry ends the run. */
  lemma {:induction false} TopChain(code: seq<Word>, packet: Packet, vm: Vm, c: Chain)
    requires ValidChain(c, packet, vm.stack) && At(code, vm.pc, ChainCode(c)) && vm.pc + |ChainCode(c)| == |code|
    requires vm.exarg == 0 && vm.curblk == 0
    ensures Exec(code, packet, vm) == Pass(Decision(c, packet, vm.stack) != 0)
    decreases c
  {
    hide Exec, Code, ChainCode, ValidExpr;
    if c.Last? {
      LastCode(c.last);
      ExprPushes(code, packet, vm, c.last);
      TopEnd(code, packet, vm.(pc := |code|), Worth(c.last, packet, vm.stack));
    } else {
      var e, at := c.test, vm.(pc := vm.pc + |Code(c.test)|);
      EntryAt(code, vm.pc, e, c.pass, c.rest);
      ExprPushes(code, packet, vm, e);
      if Worth(e, packet, vm.stack) == 0 {
        FalseEntry(code, packet, at);
        TopChain(code, packet, vm.(pc := at.pc + 1), c.rest);
      } else {
        TopEntry(code, packet, at, Worth(e, packet, vm.stack));
      }
    }
  }

  lemma TopEnd(code: seq<Word>, packet: Packet, vm: Vm, v: int)
    requires vm.pc == |code| && vm.curblk == 0
    ensures Exec(code, packet, vm.(stack := vm.stack + [v])) == Pass(v != 0)
  {
  }

  lemma TopEntry(code: seq<Word>, packet: Packet, vm: Vm, v: int)
    requires vm.pc < |code| && code[vm.pc] in {CPASS, CFAIL} && vm.curblk == 0 && v != 0
    ensures Exec(code, packet, vm.(stack := vm.stack + [v])) == Pass(code[vm.pc] == CPASS)
  {
    var s := vm.stack + [v];
    assert s[|s| - 1] == v && s[|s| - 1 := 0][|s| - 1] == 0;
    if code[vm.pc] == CPASS {
      assert Step(code, packet, vm.(stack := s)) == Done(vm.(pc := vm.pc + 1, stack := s));
    } else {
      assert Step(code, packet, vm.(stack := s)) == Done(vm.(pc := vm.pc + 1, stack := s[|s| - 1 := 0]));
    }
  }

  /** Every filter that is a decision list of nested decision lists passes
      exactly the packets its meaning says. */
  lemma ProgramMeansDecision(c: Chain, packet: Packet)
    requires ValidChain(c, packet, [])
    ensures Exec(ChainCode(c), packet, Vm(0, 0, [], 0)) == Pass(Decision(c, packet, []) != 0)
  {
    var code := ChainCode(c);
    assert code[0..0 + |code|] == code;
    TopChain(code, packet, Vm(0, 0, [], 0), c);
  }

  /** The machine itself, on such a filter. */
  method RunProgram(c: Chain, packet: Packet) returns (r: Result)
    requires ValidChain(c, packet, [])
    ensures r == Pass(Decision(c, packet, []) != 0)
  {
    ProgramMeansDecision(c, packet);
    var vm := new FilterMachine(ChainCode(c));
    r := vm.Filter(packet);
  }
}
