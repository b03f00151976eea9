/** Laws of the current instruction set, stated the way a program uses the
    commands: values pushed one after another and then combined, stored and
    read back, or tested by a conditional jump. */
module MachineLaws {
  import opened CLib
  import opened CInt
  import opened ProcCmd
  import opened Machine

  /** With `b` pushed and then `a`, an arithmetic command replaces the two
      by `a op b`: the top is the left operand. */
  lemma ArithOnPushed(op: Op, m: State, s: seq<int>, a: int, b: int)
    requires op in {ADD, SUB, MUL, DIV}
    requires Arith(op, a, b).Some?
    ensures ArithStep(op, m.(stack := s + [b, a])) == Next(m.(stack := s + [Arith(op, a, b).value]), 1)
  {
    var st := s + [b, a];
    assert st[|st| - 1] == a && st[|st| - 2] == b;
    assert Drop(st, 2) == s;
  }

  /** `SUB` takes the value below the top from the top, and `DIV` divides
      the top by it, rounding toward zero. */
  lemma SubAndDivOrder(m: State, s: seq<int>, a: int, b: int)
    requires IsInt64(a) && IsInt64(b) && IsInt64(a - b)
    ensures ArithStep(SUB, m.(stack := s + [b, a])).Next?
    ensures ArithStep(SUB, m.(stack := s + [b, a])).m.stack == s + [a - b]
    ensures b != 0 && IsInt64(CDiv(a, b)) ==>
      ArithStep(DIV, m.(stack := s + [b, a])).Next?
      && ArithStep(DIV, m.(stack := s + [b, a])).m.stack == s + [CDiv(a, b)]
  {
    ArithOnPushed(SUB, m, s, a, b);
    if b != 0 && IsInt64(CDiv(a, b)) {
      ArithOnPushed(DIV, m, s, a, b);
    }
  }

  /** With `b` pushed and then `a`, a conditional jump pops both and goes
      to its target when `a` compares to `b`, and to the next command
      otherwise; a zero displacement raises EFAULT either way. */
  lemma CondOnPushed(op: Op, arg: int, m: State, s: seq<int>, a: int, b: int)
    requires op in {JMPG, JMPL, JMPE, JMPGE, JMPLE}
    ensures var r := CondStep(op, arg, m.(stack := s + [b, a]));
      && r.Next? && r.m.stack == s
      && r.shift == (if Taken(op, a, b) then arg else Width(op))
      && r.m.errno == (if arg == 0 then EFAULT else m.errno)
  {
    var st := s + [b, a];
    assert st[|st| - 1] == a && st[|st| - 2] == b;
    assert Drop(st, 2) == s;
  }

  /** The conditions come in opposite pairs: exactly one of `JMPG` and
      `JMPLE` jumps, exactly one of `JMPL` and `JMPGE`, and `JMPE` jumps
      exactly when both `JMPGE` and `JMPLE` would. */
  lemma CondOpposites(a: int, b: int)
    ensures Taken(JMPG, a, b) != Taken(JMPLE, a, b)
    ensures Taken(JMPL, a, b) != Taken(JMPGE, a, b)
    ensures Taken(JMPE, a, b) <==> Taken(JMPGE, a, b) && Taken(JMPLE, a, b)
  {
  }

  /** `VSET` with key `k` on value `v`, then `PUSH k` and `VGET`: the value
      stored is read back, on top of the value `VSET` left in place. */
  lemma VsetPushVget(m: State, s: seq<int>, v: int, k: int)
    requires IsInt32(v) && IsInt32(k) && 0 <= k < |m.vmd|
    ensures var r1 := StackStep(VSET, m.(stack := s + [v, k]));
      && r1.Next? && r1.shift == 1
      && OperandStep(PUSH, 0, k, r1.m).Next?
      && StackStep(VGET, OperandStep(PUSH, 0, k, r1.m).m).Next?
      && StackStep(VGET, OperandStep(PUSH, 0, k, r1.m).m).m.stack == s + [v, v]
  {
    var st := s + [v, k];
    assert st[|st| - 1] == k && st[|st| - 2] == v;
    assert Drop(st, 1) == s + [v];
    var m1 := StackStep(VSET, m.(stack := st)).m;
    assert m1.vmd == m.vmd[k := v] && m1.stack == s + [v];
    var m2 := OperandStep(PUSH, 0, k, m1).m;
    assert m2.stack == s + [v, k];
    assert Drop(m2.stack, 1) == s + [v];
  }

  /** `DUP` then `POP` leaves the stack as it was. */
  lemma DupThenPop(m: State)
    requires |m.stack| > 0
    ensures StackStep(DUP, m).Next?
    ensures StackStep(POP, StackStep(DUP, m).m).Next?
    ensures StackStep(POP, StackStep(DUP, m).m).m.stack == m.stack
  {
    var d := StackStep(DUP, m).m;
    assert Drop(d.stack, 1) == m.stack;
  }

  /** A run that reaches `END` halts there with the machine as it was, so
      it succeeds exactly when no errno value was left behind; `ABORT`
      halts with EAGAIN, so the run fails. */
  lemma StopCommands(prog: seq<Byte>, ip: nat, m: State, fuel: nat)
    requires ip < |prog|
    ensures OpOfByte(prog[ip]) == Some(END) ==> Loop(prog, ip, m, fuel + 1) == Halted(m)
    ensures OpOfByte(prog[ip]) == Some(ABORT) ==> Loop(prog, ip, m, fuel + 1) == Halted(m.(errno := EAGAIN))
    ensures OpOfByte(prog[ip]) == Some(ABORT) ==> !Succeeded(Loop(prog, ip, m, fuel + 1))
  {
  }
}
