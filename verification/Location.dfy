/** Evaluation of DWARF location lists (sections 2.5 and 2.6 of DWARF 5). */
module Location {
  import opened Words

  /** Where a value lives; Unset is the content of a location that was never assigned. */
  datatype Location = LocAddr(addr: Word) | LocReg(reg: nat) | Unset

  const DW_OP_addr: Byte := 0x03
  const DW_OP_reg0: Byte := 0x50
  const DW_OP_reg31: Byte := 0x6f
  const DW_OP_fbreg: Byte := 0x91

  datatype Operation = Operation(opcode: Byte, operand1: Word)

  type Expression = seq<Operation>

  datatype LocRange = LocRange(meaningful: bool, lowpc: Word, highpc: Word)

  datatype Entry = Entry(expr: Expression, range: LocRange)

  type Loclist = seq<Entry>

  /** The program state and debug data that operations refer to. */
  datatype EvalCtx = EvalCtx(
    pc: Word,
    loadAddress: Word,
    registerOf: nat -> Option<nat>,
    registerValue: nat -> Option<Word>,
    frameBase: Option<Loclist>)

  // ----- the evaluation stack

  const LOC_EVAL_STACK_BLOCK: nat := 32

  class EvalStack {
    var buf: array<Location>
    var sp: nat

    ghost predicate Valid()
      reads this
    {
      sp < buf.Length
    }

    ghost function Contents(): seq<Location>
      requires Valid()
      reads this, buf
    {
      buf[..sp]
    }

    constructor ()
      ensures Valid() && fresh(buf) && Contents() == []
    {
      buf := new Location[LOC_EVAL_STACK_BLOCK](_ => Unset);
      sp := 0;
    }

    /** push_eval_stack: store, and grow the buffer as soon as it is full. */
    method Push(push: Location)
      requires Valid()
      modifies this, buf
      ensures Valid() && (buf == old(buf) || fresh(buf))
      ensures Contents() == old(Contents()) + [push]
    {
      buf[sp] := push;
      sp := sp + 1;
      if sp >= buf.Length {
        var grown := new Location[buf.Length + LOC_EVAL_STACK_BLOCK](_ => Unset);
        for i := 0 to buf.Length
          invariant forall k | 0 <= k < i :: grown[k] == buf[k]
          invariant buf[..] == old(buf[..])[old(sp) := push]
          modifies grown
        {
          grown[i] := buf[i];
        }
        buf := grown;
      }
    }

    /** pop_eval_stack: None when the stack is empty. */
    method Pop() returns (top: Option<Location>)
      requires Valid()
      modifies this`sp
      ensures Valid()
      ensures old(Contents()) == [] ==> top.None? && Contents() == []
      ensures old(Contents()) != [] ==> top.Some? && old(Contents()) == Contents() + [top.value]
    {
      if sp > 0 {
        sp := sp - 1;
        top := Some(buf[sp]);
      } else {
        top := None;
      }
    }
  }

  // ----- choosing an entry

  /** is_active_range: the upper bound is exclusive. */
  predicate IsActive(r: LocRange, pc: Word) {
    r.meaningful && r.lowpc <= pc < r.highpc
  }

  /** Entry i has bounds, and pc is in them. */
  ghost predicate InBounds(list: Loclist, pc: Word, i: nat)
    requires i < |list|
  {
    list[i].range.meaningful && list[i].range.lowpc <= pc && pc < list[i].range.highpc
  }

  /** Entry i is the one to evaluate: the first active one, or else the first without bounds. */
  ghost predicate Chosen(list: Loclist, pc: Word, i: nat) {
    && i < |list|
    && if InBounds(list, pc, i) then forall k | 0 <= k < i :: !InBounds(list, pc, k)
       else
         && !list[i].range.meaningful
         && (forall k | 0 <= k < |list| :: !InBounds(list, pc, k))
         && (forall k | 0 <= k < i :: list[k].range.meaningful)
  }

  ghost predicate NoneChosen(list: Loclist, pc: Word) {
    forall k | 0 <= k < |list| :: list[k].range.meaningful && !InBounds(list, pc, k)
  }

  /** The expression of the chosen entry. */
  function Choose(list: Loclist, pc: Word): (r: Option<Expression>)
    ensures r.None? <==> NoneChosen(list, pc)
    ensures r.Some? ==> exists i: nat :: Chosen(list, pc, i) && r.value == list[i].expr
  {
    var i := FirstActive(list, pc, 0);
    if i < |list| then assert Chosen(list, pc, i); Some(list[i].expr)
    else
      var j := FirstUnbounded(list, 0);
      if j < |list| then assert Chosen(list, pc, j); Some(list[j].expr) else None
  }

  function FirstActive(list: Loclist, pc: Word, i: nat): (r: nat)
    requires i <= |list|
    ensures i <= r <= |list| && (forall k | i <= k < r :: !IsActive(list[k].range, pc))
    ensures r < |list| ==> IsActive(list[r].range, pc)
    decreases |list| - i
  {
    if i < |list| && !IsActive(list[i].range, pc) then FirstActive(list, pc, i + 1) else i
  }

  function FirstUnbounded(list: Loclist, i: nat): (r: nat)
    requires i <= |list|
    ensures i <= r <= |list| && (forall k | i <= k < r :: list[k].range.meaningful)
    ensures r < |list| ==> !list[r].range.meaningful
    decreases |list| - i
  {
    if i < |list| && list[i].range.meaningful then FirstUnbounded(list, i + 1) else i
  }

  lemma ChosenUnique(list: Loclist, pc: Word, i: nat, j: nat)
    requires Chosen(list, pc, i) && Chosen(list, pc, j)
    ensures i == j
  {
  }

  // ----- evaluation with bounded recursion

  /** None: deeper recursion is needed. Some(None): the evaluation fails. */
  type Outcome = Option<Option<Location>>

  /** The location one operation pushes. */
  function EvalOp(ctx: EvalCtx, op: Operation, depth: nat): Outcome
    decreases depth, 0
  {
    if op.opcode == DW_OP_fbreg then
      if ctx.frameBase.None? then Some(None)
      else if depth == 0 then None
      else match EvalList(ctx, ctx.frameBase.value, depth - 1)
           case None => None
           case Some(base) => Some(FrameOffset(ctx, base, op.operand1))
    else Some(EvalPlain(ctx, op))
  }

  /** Operations that need no frame base. */
  function EvalPlain(ctx: EvalCtx, op: Operation): Option<Location> {
    if DW_OP_reg0 <= op.opcode <= DW_OP_reg31 then
      match ctx.registerOf(op.opcode - DW_OP_reg0)
      case Some(reg) => Some(LocReg(reg))
      case None => None
    else if op.opcode == DW_OP_addr then Some(LocAddr(DbgToReal(ctx.loadAddress, op.operand1)))
    else None
  }

  /** Addition as int64_t, cast back to uint64_t. */
  function SignedAdd(a: Word, b: Word): (r: Word)
    ensures r == Add(a, b)
  {
    var sum := ToSigned(a) + ToSigned(b);
    assert sum == a + b || sum == a + b - TWO64 || sum == a + b - 2 * TWO64;
    sum % TWO64
  }

  /** The frame-base register plus a signed offset, in 64-bit arithmetic. */
  function FrameOffset(ctx: EvalCtx, base: Option<Location>, offset: Word): Option<Location> {
    if base.Some? && base.value.LocReg? then
      match ctx.registerValue(base.value.reg)
      case Some(v) => Some(LocAddr(SignedAdd(v, offset)))
      case None => None
    else None
  }

  /** Evaluate an expression from operation i on; `top` is the last location pushed. */
  function EvalExpr(ctx: EvalCtx, expr: Expression, i: nat, top: Location, depth: nat): Outcome
    requires i <= |expr|
    decreases depth, 1, |expr| - i
  {
    if i == |expr| then Some(Some(top))
    else match EvalOp(ctx, expr[i], depth)
         case None => None
         case Some(None) => Some(None)
         case Some(Some(loc)) => EvalExpr(ctx, expr, i + 1, loc, depth)
  }

  function EvalList(ctx: EvalCtx, list: Loclist, depth: nat): Outcome
    decreases depth, 2
  {
    match Choose(list, ctx.pc)
    case Some(expr) => EvalExpr(ctx, expr, 0, Unset, depth)
    case None => Some(Some(LocAddr(0)))
  }

  /** sd_eval_loclist */
  method EvaluateLoclist(ctx: EvalCtx, list: Loclist, ghost depth: nat) returns (location: Option<Location>)
    requires EvalList(ctx, list, depth).Some?
    ensures Some(location) == EvalList(ctx, list, depth)
    ensures forall i: nat | Chosen(list, ctx.pc, i) && list[i].expr != [] ::
              ExprDenotes(ctx, list[i].expr, depth, location)
    ensures NoneChosen(list, ctx.pc) ==> location == Some(LocAddr(0))
    decreases depth, 3
  {
    var i := 0;
    while i < |list|
      invariant i <= |list| && (forall k | 0 <= k < i :: !InBounds(list, ctx.pc, k))
      invariant FirstActive(list, ctx.pc, 0) == FirstActive(list, ctx.pc, i)
    {
      if IsActive(list[i].range, ctx.pc) {
        location := EvaluateLocexpr(ctx, list[i].expr, depth);
        return;
      }
      i := i + 1;
    }
    i := 0;
    while i < |list|
      invariant i <= |list| && forall k | 0 <= k < i :: list[k].range.meaningful
      invariant FirstUnbounded(list, 0) == FirstUnbounded(list, i)
    {
      if !list[i].range.meaningful {
        location := EvaluateLocexpr(ctx, list[i].expr, depth);
        return;
      }
      i := i + 1;
    }
    location := Some(LocAddr(0));
  }

  /** sd_eval_locexpr */
  method EvaluateLocexpr(ctx: EvalCtx, expr: Expression, ghost depth: nat) returns (location: Option<Location>)
    requires EvalExpr(ctx, expr, 0, Unset, depth).Some?
    ensures Some(location) == EvalExpr(ctx, expr, 0, Unset, depth)
    ensures expr != [] ==> ExprDenotes(ctx, expr, depth, location)
    decreases depth, 2
  {
    var stack := new EvalStack();
    for i := 0 to |expr|
      invariant stack.Valid() && fresh(stack) && fresh(stack.buf) && |stack.Contents()| == i
      invariant EvalExpr(ctx, expr, 0, Unset, depth) ==
                EvalExpr(ctx, expr, i, if i == 0 then Unset else stack.Contents()[i - 1], depth)
      invariant i > 0 ==> Denotes(ctx, expr[i - 1], depth, stack.Contents()[i - 1])
    {
      var pushed := EvaluateLocop(ctx, expr[i], stack, depth);
      if !pushed {
        return None;
      }
    }
    var top := stack.Pop();
    location := Some(if top.Some? then top.value else Unset);
  }

  /** sd_eval_locop with its handlers */
  method EvaluateLocop(ctx: EvalCtx, op: Operation, stack: EvalStack, ghost depth: nat) returns (ok: bool)
    requires stack.Valid() && EvalOp(ctx, op, depth).Some?
    modifies stack, stack.buf
    ensures stack.Valid() && (stack.buf == old(stack.buf) || fresh(stack.buf))
    ensures match EvalOp(ctx, op, depth).value
            case Some(loc) => ok && stack.Contents() == old(stack.Contents()) + [loc]
            case None => !ok
    ensures !ok <==> Fails(ctx, op, depth)
    ensures ok ==> stack.Contents() != [] && Denotes(ctx, op, depth, stack.Contents()[|stack.Contents()| - 1])
    decreases depth, 1
  {
    OpDenotes(ctx, op, depth);
    if op.opcode == DW_OP_fbreg {
      if ctx.frameBase.None? {
        return false;
      }
      var base := EvaluateLoclist(ctx, ctx.frameBase.value, depth - 1);
      if base.None? || !base.value.LocReg? {
        return false;
      }
      var baseAddr := ctx.registerValue(base.value.reg);
      if baseAddr.None? {
        return false;
      }
      stack.Push(LocAddr(SignedAdd(baseAddr.value, op.operand1)));
      return true;
    } else if DW_OP_reg0 <= op.opcode <= DW_OP_reg31 {
      var reg := ctx.registerOf(op.opcode - DW_OP_reg0);
      if reg.None? {
        return false;
      }
      stack.Push(LocReg(reg.value));
      return true;
    } else if op.opcode == DW_OP_addr {
      stack.Push(LocAddr(DbgToReal(ctx.loadAddress, op.operand1)));
      return true;
    }
    return false;
  }

  // ----- when evaluation ends, and with what

  /** Evaluating the expression from i on gets as far as an fbreg operation. */
  predicate ReachesFbreg(ctx: EvalCtx, expr: Expression, i: nat)
    requires i <= |expr|
    decreases |expr| - i
  {
    && i < |expr|
    && if expr[i].opcode == DW_OP_fbreg then ctx.frameBase.Some?
       else EvalPlain(ctx, expr[i]).Some? && ReachesFbreg(ctx, expr, i + 1)
  }

  predicate NeedsFrameBase(ctx: EvalCtx, list: Loclist) {
    Choose(list, ctx.pc).Some? && ReachesFbreg(ctx, Choose(list, ctx.pc).value, 0)
  }

  /** The frame base is itself relative to the frame base. */
  predicate Circular(ctx: EvalCtx) {
    ctx.frameBase.Some? && NeedsFrameBase(ctx, ctx.frameBase.value)
  }

  /** One level of the recursion: fbreg evaluates the frame base with one level less. */
  lemma FrameBaseOp(ctx: EvalCtx, op: Operation, depth: nat)
    requires op.opcode == DW_OP_fbreg && ctx.frameBase.Some? && depth > 0
    ensures EvalOp(ctx, op, depth) ==
            match Choose(ctx.frameBase.value, ctx.pc)
            case None => Some(None)
            case Some(expr) =>
              match EvalExpr(ctx, expr, 0, Unset, depth - 1)
              case None => None
              case Some(base) => Some(FrameOffset(ctx, base, op.operand1))
  {
  }

  lemma {:induction false} CircularExpr(ctx: EvalCtx, expr: Expression, i: nat, top: Location, depth: nat)
    requires Circular(ctx) && i <= |expr| && ReachesFbreg(ctx, expr, i)
    ensures EvalExpr(ctx, expr, i, top, depth).None?
    decreases depth, |expr| - i
  {
    if expr[i].opcode == DW_OP_fbreg {
      if depth > 0 {
        CircularExpr(ctx, Choose(ctx.frameBase.value, ctx.pc).value, 0, Unset, depth - 1);
        FrameBaseOp(ctx, expr[i], depth);
      }
    } else {
      CircularExpr(ctx, expr, i + 1, EvalPlain(ctx, expr[i]).value, depth);
    }
  }

  lemma {:induction false} PlainExpr(ctx: EvalCtx, expr: Expression, i: nat, top: Location, depth: nat)
    requires i <= |expr|
    requires ReachesFbreg(ctx, expr, i) ==> depth > 0 && !Circular(ctx)
    ensures EvalExpr(ctx, expr, i, top, depth).Some?
    decreases depth, |expr| - i
  {
    if i < |expr| {
      if expr[i].opcode == DW_OP_fbreg && ctx.frameBase.Some? {
        var base := ctx.frameBase.value;
        if Choose(base, ctx.pc).Some? {
          PlainExpr(ctx, Choose(base, ctx.pc).value, 0, Unset, depth - 1);
        }
        FrameBaseOp(ctx, expr[i], depth);
      }
      var r := EvalOp(ctx, expr[i], depth);
      if r.value.Some? {
        PlainExpr(ctx, expr, i + 1, r.value.value, depth);
      }
    }
  }

  /**
   * Evaluation ends for some recursion depth exactly when it does not ask for a frame
   * base that is relative to itself; one level of recursion is then enough.
   */
  lemma EvaluationEnds(ctx: EvalCtx, list: Loclist)
    ensures (exists depth: nat :: EvalList(ctx, list, depth).Some?) <==> !(NeedsFrameBase(ctx, list) && Circular(ctx))
    ensures !(NeedsFrameBase(ctx, list) && Circular(ctx)) ==> EvalList(ctx, list, 1).Some?
  {
    if Choose(list, ctx.pc).Some? {
      var expr := Choose(list, ctx.pc).value;
      if NeedsFrameBase(ctx, list) && Circular(ctx) {
        forall depth: nat
          ensures EvalList(ctx, list, depth).None?
        {
          CircularExpr(ctx, expr, 0, Unset, depth);
        }
      } else {
        PlainExpr(ctx, expr, 0, Unset, 1);
      }
    }
    assert EvalList(ctx, list, 1).Some? ==> exists depth: nat :: EvalList(ctx, list, depth).Some?;
  }

  /** A frame base that is 16 bytes above the frame base. */
  function CircularExample(): EvalCtx {
    EvalCtx(0x100, 0, n => Some(n), n => Some(0), Some([Entry([Operation(DW_OP_fbreg, 16)], LocRange(false, 0, 0))]))
  }

  lemma CircularExampleNeverEnds(depth: nat)
    ensures EvalList(CircularExample(), CircularExample().frameBase.value, depth).None?
  {
    var ctx := CircularExample();
    EvaluationEnds(ctx, ctx.frameBase.value);
  }

  /** The result does not depend on the depth that was allowed. */
  lemma {:induction false} DepthIrrelevant(ctx: EvalCtx, expr: Expression, i: nat, top: Location, d: nat, d': nat)
    requires i <= |expr| && EvalExpr(ctx, expr, i, top, d).Some? && EvalExpr(ctx, expr, i, top, d').Some?
    ensures EvalExpr(ctx, expr, i, top, d) == EvalExpr(ctx, expr, i, top, d')
    decreases d, |expr| - i
  {
    if i < |expr| {
      if expr[i].opcode == DW_OP_fbreg && ctx.frameBase.Some? {
        assert d > 0 && d' > 0;
        FrameBaseOp(ctx, expr[i], d);
        FrameBaseOp(ctx, expr[i], d');
        if Choose(ctx.frameBase.value, ctx.pc).Some? {
          DepthIrrelevant(ctx, Choose(ctx.frameBase.value, ctx.pc).value, 0, Unset, d - 1, d' - 1);
        }
      }
      var r := EvalOp(ctx, expr[i], d);
      if r.value.Some? {
        DepthIrrelevant(ctx, expr, i + 1, r.value.value, d, d');
      }
    }
  }

  /**
   * An expression fails exactly when one of its operations fails, and otherwise denotes
   * the location of its last operation.
   */
  lemma {:induction false} ExprDenotesLast(ctx: EvalCtx, expr: Expression, i: nat, top: Location, depth: nat)
    requires i < |expr| && forall k | i <= k < |expr| :: EvalOp(ctx, expr[k], depth).Some?
    ensures EvalExpr(ctx, expr, i, top, depth) ==
            if exists k | i <= k < |expr| :: EvalOp(ctx, expr[k], depth) == Some(None) then Some(None)
            else EvalOp(ctx, expr[|expr| - 1], depth)
    decreases |expr| - i
  {
    var r := EvalOp(ctx, expr[i], depth);
    if r.value.Some? && i + 1 < |expr| {
      ExprDenotesLast(ctx, expr, i + 1, r.value.value, depth);
    }
  }

  /** Only an expression without operations gives a location that was never assigned. */
  lemma {:induction false} UnsetExactly(ctx: EvalCtx, expr: Expression, i: nat, top: Location, depth: nat)
    requires i <= |expr|
    ensures EvalExpr(ctx, expr, i, top, depth) == Some(Some(Unset)) <==> i == |expr| && top == Unset
    decreases |expr| - i
  {
    if i < |expr| {
      var r := EvalOp(ctx, expr[i], depth);
      if r.Some? && r.value.Some? {
        UnsetExactly(ctx, expr, i + 1, r.value.value, depth);
      }
    }
  }

  // ----- what the operations denote

  /** The frame base is in register r. */
  ghost predicate BaseIn(ctx: EvalCtx, depth: nat, r: nat) {
    ctx.frameBase.Some? && depth > 0 && EvalList(ctx, ctx.frameBase.value, depth - 1) == Some(Some(LocReg(r)))
  }

  /** An operation puts a location on the stack: of a register, of an address, or relative to the frame base. */
  ghost predicate Denotes(ctx: EvalCtx, op: Operation, depth: nat, loc: Location) {
    if op.opcode == 0x91 then
      exists r: nat, v: Word ::
        && BaseIn(ctx, depth, r) && ctx.registerValue(r) == Some(v)
        && loc == LocAddr((v + op.operand1) % 0x1_0000_0000_0000_0000)
    else if op.opcode == 0x03 then loc == LocAddr((op.operand1 + ctx.loadAddress) % 0x1_0000_0000_0000_0000)
    else 0x50 <= op.opcode <= 0x6f && exists r: nat :: ctx.registerOf(op.opcode - 0x50) == Some(r) && loc == LocReg(r)
  }

  /** An operation fails: it is of another kind, or its register or its frame base is not to be had. */
  ghost predicate Fails(ctx: EvalCtx, op: Operation, depth: nat) {
    if op.opcode == 0x91 then forall r: nat :: BaseIn(ctx, depth, r) ==> ctx.registerValue(r) == None
    else if op.opcode == 0x03 then false
    else 0x50 <= op.opcode <= 0x6f ==> ctx.registerOf(op.opcode - 0x50) == None
  }

  /** An expression denotes what its last operation does, and nothing exactly when one of them fails. */
  ghost predicate ExprDenotes(ctx: EvalCtx, expr: Expression, depth: nat, location: Option<Location>)
    requires expr != []
  {
    match location
    case Some(loc) => Denotes(ctx, expr[|expr| - 1], depth, loc)
    case None => exists k :: 0 <= k < |expr| && Fails(ctx, expr[k], depth)
  }

  /** No operation both denotes and fails, and none denotes two locations. */
  lemma DenotesOnce(ctx: EvalCtx, op: Operation, depth: nat, loc: Location, loc': Location)
    requires Denotes(ctx, op, depth, loc)
    ensures !Fails(ctx, op, depth) && (Denotes(ctx, op, depth, loc') ==> loc == loc')
  {
  }

  /** The offset is signed, the sum is modulo 2^64. */
  lemma SignedSum(a: Word, b: Word)
    ensures SignedAdd(a, b) == (a + b) % 0x1_0000_0000_0000_0000
  {
  }

  lemma OpDenotes(ctx: EvalCtx, op: Operation, depth: nat)
    requires EvalOp(ctx, op, depth).Some?
    ensures Fails(ctx, op, depth) <==> EvalOp(ctx, op, depth) == Some(None)
    ensures forall loc :: Denotes(ctx, op, depth, loc) <==> EvalOp(ctx, op, depth) == Some(Some(loc))
  {
    if op.opcode == 0x91 && ctx.frameBase.Some? {
      assert depth > 0;
      var base := EvalList(ctx, ctx.frameBase.value, depth - 1);
      if base.value.Some? && base.value.value.LocReg? {
        var r := base.value.value.reg;
        assert BaseIn(ctx, depth, r);
        if ctx.registerValue(r).Some? {
          SignedSum(ctx.registerValue(r).value, op.operand1);
        }
      }
    }
  }

  /**
   * The list denotes what the last operation of its chosen entry does, and nothing
   * exactly when one of the entry's operations fails. Without an entry it denotes
   * address 0.
   */
  lemma ListDenotes(ctx: EvalCtx, list: Loclist, i: nat, depth: nat)
    requires Chosen(list, ctx.pc, i) && list[i].expr != []
    requires ctx.frameBase.Some? && (exists op | op in list[i].expr :: op.opcode == 0x91) ==>
               depth > 0 && EvalList(ctx, ctx.frameBase.value, depth - 1).Some?
    ensures EvalList(ctx, list, depth).Some?
    ensures var expr, location := list[i].expr, EvalList(ctx, list, depth).value;
            && ExprDenotes(ctx, expr, depth, location)
            && (location.Some? ==> forall k | 0 <= k < |expr| :: !Fails(ctx, expr[k], depth))
  {
    var expr := list[i].expr;
    assert Choose(list, ctx.pc) == Some(expr) by {
      var j: nat :| Chosen(list, ctx.pc, j) && Choose(list, ctx.pc) == Some(list[j].expr);
      ChosenUnique(list, ctx.pc, i, j);
    }
    forall k | 0 <= k < |expr|
      ensures EvalOp(ctx, expr[k], depth).Some?
      ensures Fails(ctx, expr[k], depth) <==> EvalOp(ctx, expr[k], depth) == Some(None)
      ensures forall loc :: Denotes(ctx, expr[k], depth, loc) <==> EvalOp(ctx, expr[k], depth) == Some(Some(loc))
    {
      assert expr[k] in expr;
      OpDenotes(ctx, expr[k], depth);
    }
    ExprDenotesLast(ctx, expr, 0, Unset, depth);
  }

  lemma NoEntryDenotes(ctx: EvalCtx, list: Loclist, depth: nat)
    ensures NoneChosen(list, ctx.pc) ==> EvalList(ctx, list, depth) == Some(Some(LocAddr(0)))
  {
  }
}
