/** Stack-friendliness analysis: which temps can stay on the IL evaluation
    stack between their definition and their single use, and the optional
    reordering pass that moves constants next to their use and swaps the
    operands of commutative numeric operations. */
module Stackify {
  import opened JsValues
  import opened Lir

  /** `StackifyResult`: one flag per temp. */
  datatype StackifyResult = StackifyResult(canStackify: seq<bool>)

  /** `IsStackable`: false for indices outside the table. */
  function IsStackable(r: StackifyResult, t: Temp): (b: bool)
    ensures b ==> 0 <= t < |r.canStackify|
    ensures !(0 <= t < |r.canStackify|) ==> !b
  {
    0 <= t < |r.canStackify| && r.canStackify[t]
  }

  // ----- Def and use sites -----

  /** The definition site the analysis records: the last instruction
      before `n` that defines `t`. */
  function LastDefBefore(instrs: seq<Instr>, t: Temp, n: nat): (r: int)
    requires n <= |instrs|
    ensures -1 <= r < n
    ensures r >= 0 ==> Defines(instrs[r], t)
  {
    if n == 0 then -1
    else if Defines(instrs[n - 1], t) then n - 1
    else LastDefBefore(instrs, t, n - 1)
  }

  lemma {:induction false} LastDefIsLast(instrs: seq<Instr>, t: Temp, n: nat)
    requires n <= |instrs|
    ensures forall j :: LastDefBefore(instrs, t, n) < j < n ==> !Defines(instrs[j], t)
    ensures LastDefBefore(instrs, t, n) < 0 ==> forall j :: 0 <= j < n ==> !Defines(instrs[j], t)
  {
    if n > 0 {
      LastDefIsLast(instrs, t, n - 1);
    }
  }

  function Occurrences(ops: seq<Temp>, t: Temp): nat
  {
    if |ops| == 0 then 0 else Occurrences(ops[..|ops| - 1], t) + (if ops[|ops| - 1] == t then 1 else 0)
  }

  lemma {:induction false} OccurrencesPositive(ops: seq<Temp>, t: Temp)
    ensures Occurrences(ops, t) > 0 <==> t in ops
  {
    if |ops| > 0 {
      OccurrencesPositive(ops[..|ops| - 1], t);
      assert ops == ops[..|ops| - 1] + [ops[|ops| - 1]];
      assert t in ops <==> t in ops[..|ops| - 1] || ops[|ops| - 1] == t;
    }
  }

  function Repeat(i: nat, k: nat): (r: seq<nat>)
    ensures |r| == k && forall j :: 0 <= j < k ==> r[j] == i
  {
    if k == 0 then [] else Repeat(i, k - 1) + [i]
  }

  /** The use list of `t`: each reading instruction before `n`, once per
      operand occurrence. */
  function UseSitesBefore(instrs: seq<Instr>, t: Temp, n: nat): (r: seq<nat>)
    requires n <= |instrs|
    ensures forall k :: 0 <= k < |r| ==> r[k] < n && t in Uses(instrs[r[k]])
  {
    if n == 0 then []
    else
      OccurrencesPositive(Uses(instrs[n - 1]), t);
      var prev := UseSitesBefore(instrs, t, n - 1);
      var here := Repeat(n - 1, Occurrences(Uses(instrs[n - 1]), t));
      assert forall k :: |prev| <= k < |prev| + |here| ==> (prev + here)[k] == here[k - |prev|];
      prev + here
  }

  lemma {:induction false} UseSitesComplete(instrs: seq<Instr>, t: Temp, n: nat, j: nat)
    requires j < n <= |instrs| && t in Uses(instrs[j])
    ensures j in UseSitesBefore(instrs, t, n)
  {
    OccurrencesPositive(Uses(instrs[n - 1]), t);
    if j < n - 1 {
      UseSitesComplete(instrs, t, n - 1, j);
    } else {
      var here := Repeat(n - 1, Occurrences(Uses(instrs[n - 1]), t));
      assert here[0] == j;
    }
  }

  /** A single entry in the use list means a single reading instruction,
      which reads the temp once. */
  lemma {:induction false} SingleUseSite(instrs: seq<Instr>, t: Temp, n: nat)
    requires n <= |instrs| && |UseSitesBefore(instrs, t, n)| == 1
    ensures var u := UseSitesBefore(instrs, t, n)[0];
      && Occurrences(Uses(instrs[u]), t) == 1
      && forall j :: 0 <= j < n && j != u ==> t !in Uses(instrs[j])
  {
    var u := UseSitesBefore(instrs, t, n)[0];
    forall j | 0 <= j < n && j != u
      ensures t !in Uses(instrs[j])
    {
      if t in Uses(instrs[j]) {
        UseSitesComplete(instrs, t, n, j);
      }
    }
    SingleUseOnce(instrs, t, n);
  }

  lemma {:induction false} SingleUseOnce(instrs: seq<Instr>, t: Temp, n: nat)
    requires n <= |instrs| && |UseSitesBefore(instrs, t, n)| == 1
    ensures Occurrences(Uses(instrs[UseSitesBefore(instrs, t, n)[0]]), t) == 1
  {
    var k := Occurrences(Uses(instrs[n - 1]), t);
    var prev := UseSitesBefore(instrs, t, n - 1);
    if k == 0 {
      assert UseSitesBefore(instrs, t, n) == prev;
      SingleUseOnce(instrs, t, n - 1);
    } else {
      assert |prev| == 0 && k == 1;
      assert UseSitesBefore(instrs, t, n) == [n - 1];
    }
  }

  // ----- Inline emission and stack effects -----

  predicate IsControlFlow(instr: Instr)
  {
    instr.Label? || instr.Branch? || instr.BranchIfFalse? || instr.BranchIfTrue?
  }

  /** `CanEmitInline` of the analysis: constants, parameter loads, dynamic
      add and multiply, and a box whose source's recorded definition is
      itself inline.  `fuel` bounds the chain of definitions followed. */
  function CanEmitInline(instrs: seq<Instr>, tempCount: nat, instr: Instr, fuel: nat): bool
    decreases fuel
  {
    match instr
    case ConstNumber(_, _) => true
    case ConstString(_, _) => true
    case ConstBoolean(_, _) => true
    case ConstUndefined(_) => true
    case ConstNull(_) => true
    case LoadParameter(_, _) => true
    case Binary(op, _, _, _) => op == AddDynamic || op == MulDynamic
    case ConvertToObject(source, _, _) =>
      var d := LastDefBefore(instrs, source, |instrs|);
      0 <= source < tempCount && d >= 0 && fuel > 0 && CanEmitInline(instrs, tempCount, instrs[d], fuel - 1)
    case _ => false
  }

  /** The inline set: what an inline-emittable definition can be. */
  predicate InInlineSet(instr: Instr)
  {
    || instr.ConstNumber? || instr.ConstString? || instr.ConstBoolean?
    || instr.ConstUndefined? || instr.ConstNull? || instr.LoadParameter?
    || (instr.Binary? && (instr.binOp == AddDynamic || instr.binOp == MulDynamic))
    || instr.ConvertToObject?
  }

  lemma InlineIsInInlineSet(instrs: seq<Instr>, tempCount: nat, instr: Instr, fuel: nat)
    requires CanEmitInline(instrs, tempCount, instr, fuel)
    ensures InInlineSet(instr)
  {
  }

  /** `GetStackEffect`: the values an instruction pops and pushes. */
  function StackEffect(instr: Instr): (nat, nat)
  {
    match instr
    case ConstNumber(_, _) => (0, 1)
    case ConstString(_, _) => (0, 1)
    case ConstBoolean(_, _) => (0, 1)
    case ConstUndefined(_) => (0, 1)
    case ConstNull(_) => (0, 1)
    case GetIntrinsicGlobal(_, _) => (0, 1)
    case NewObjectArray(_, _) => (0, 1)
    case LoadParameter(_, _) => (0, 1)
    case CreateScopesArray(_) => (0, 1)
    case Binary(op, _, _, _) =>
      if op in {AddNumber, AddDynamic, SubNumber, MulNumber, MulDynamic, ConcatStrings,
                CompareNumberLessThan, CompareNumberGreaterThan, CompareNumberLessThanOrEqual,
                CompareNumberGreaterThanOrEqual, CompareNumberEqual, CompareNumberNotEqual,
                CompareBooleanEqual, CompareBooleanNotEqual}
      then (2, 1) else (0, 0)
    case ConvertToObject(_, _, _) => (1, 1)
    case Unary(op, _, _) => if op in {Typeof, NegateNumber, BitwiseNotNumber} then (1, 1) else (0, 0)
    case CallIntrinsic(_, _, _, _) => (2, 1)
    case CallFunction(_, args, _, _) => (1 + |args|, 1)
    case StoreElementRef(_, _, _) => (2, 0)
    case Return(_) => (1, 0)
    case StoreParameter(_) => (1, 0)
    case BranchIfFalse(_, _) => (1, 0)
    case BranchIfTrue(_, _) => (1, 0)
    case _ => (0, 0)
  }

  /** The stack simulation between a definition and its use: starting at
      instruction `i` with `depth` values on the stack and the target at
      `pos` from the top, the target's final position, or `None` when an
      instruction would pop it or it would fall off. */
  function StackWalk(instrs: seq<Instr>, i: nat, use: nat, depth: int, pos: int): Option<int>
    requires use <= |instrs|
    decreases use - i
  {
    if i >= use then Some(pos)
    else
      var (pops, pushes) := StackEffect(instrs[i]);
      if pops > depth - 1 then None
      else
        var d := depth - pops + pushes;
        var p := pos + pushes;
        if d < 1 || p >= d then None else StackWalk(instrs, i + 1, use, d, p)
  }

  /** The first operand position at which `t` is read, or -1. */
  function FirstIndexOf(ops: seq<Temp>, t: Temp): (r: int)
    ensures -1 <= r < |ops|
    ensures r >= 0 ==> ops[r] == t && forall j :: 0 <= j < r ==> ops[j] != t
    ensures r < 0 ==> t !in ops
  {
    if |ops| == 0 then -1
    else if ops[0] == t then 0
    else
      var rest := FirstIndexOf(ops[1..], t);
      assert forall j :: 1 <= j < |ops| ==> ops[j] == ops[1..][j - 1];
      if rest < 0 then -1 else rest + 1
  }

  predicate ControlFlowBetween(instrs: seq<Instr>, def: nat, use: nat)
    requires use <= |instrs|
  {
    exists i :: def < i < use && IsControlFlow(instrs[i])
  }

  /** `CanStackifyBetween`: the target may stay on the stack from `def`
      to `use`. */
  function StackableBetween(instrs: seq<Instr>, def: nat, use: nat, t: Temp): bool
    requires def < use < |instrs|
  {
    var ops := Uses(instrs[use]);
    if use == def + 1 && |ops| > 0 && ops[0] == t then true
    else if ControlFlowBetween(instrs, def, use) then false
    else
      match StackWalk(instrs, def + 1, use, 1, 0)
      case None => false
      case Some(pos) =>
        var k := FirstIndexOf(ops, t);
        k >= 0 && !(pos != 0 && k != 0)
  }

  /** What the analysis decides for temp `t`. */
  function Stackable(instrs: seq<Instr>, tempCount: nat, t: Temp): bool
  {
    && 0 <= t < tempCount
    && var d := LastDefBefore(instrs, t, |instrs|);
    && var uses := UseSitesBefore(instrs, t, |instrs|);
    && d >= 0
    && |uses| == 1
    && CanEmitInline(instrs, tempCount, instrs[d], |instrs|)
    && uses[0] > d
    && StackableBetween(instrs, d, uses[0], t)
  }

  // ----- What a stackable temp is -----

  /** A stackable temp has a definition, exactly one reading instruction
      (reading it once), and that use comes after the definition. */
  lemma StackableHasSingleUseAfterDef(instrs: seq<Instr>, tempCount: nat, t: Temp)
    requires Stackable(instrs, tempCount, t)
    ensures exists d, u ::
      && 0 <= d < u < |instrs| && Defines(instrs[d], t) && t in Uses(instrs[u])
      && Occurrences(Uses(instrs[u]), t) == 1
      && (forall j :: 0 <= j < |instrs| && j != u ==> t !in Uses(instrs[j]))
  {
    var d := LastDefBefore(instrs, t, |instrs|);
    var u := UseSitesBefore(instrs, t, |instrs|)[0];
    SingleUseSite(instrs, t, |instrs|);
    assert 0 <= d < u < |instrs| && Defines(instrs[d], t) && t in Uses(instrs[u]);
  }

  /** Only definitions in the inline set make a temp stackable. */
  lemma StackableDefinitionIsInline(instrs: seq<Instr>, tempCount: nat, t: Temp)
    requires Stackable(instrs, tempCount, t)
    ensures InInlineSet(instrs[LastDefBefore(instrs, t, |instrs|)])
  {
    var d := LastDefBefore(instrs, t, |instrs|);
    InlineIsInInlineSet(instrs, tempCount, instrs[d], |instrs|);
  }

  /** A use that does not directly follow its definition has no label or
      branch between the two. */
  lemma StackableHasNoControlFlowBetween(instrs: seq<Instr>, tempCount: nat, t: Temp)
    requires Stackable(instrs, tempCount, t)
    ensures var d := LastDefBefore(instrs, t, |instrs|);
      var u := UseSitesBefore(instrs, t, |instrs|)[0];
      u > d + 1 ==> forall i :: d < i < u ==> !IsControlFlow(instrs[i])
  {
  }

  /** A value pushed right before its use is stackable when it is the
      use's first operand. */
  lemma AdjacentFirstOperandStackable(instrs: seq<Instr>, def: nat, t: Temp)
    requires def + 1 < |instrs|
    requires |Uses(instrs[def + 1])| > 0 && Uses(instrs[def + 1])[0] == t
    ensures StackableBetween(instrs, def, def + 1, t)
  {
  }

  /** Without any instruction in between, the target is stackable exactly
      when the use reads it. */
  lemma AdjacentStackableIffRead(instrs: seq<Instr>, def: nat, t: Temp)
    requires def + 1 < |instrs|
    ensures StackableBetween(instrs, def, def + 1, t) <==> t in Uses(instrs[def + 1])
  {
    assert !ControlFlowBetween(instrs, def, def + 1);
  }

  // ----- Analyze -----

  /** `Analyze`: the stackable flag of every temp. */
  method Analyze(body: MethodBody) returns (r: StackifyResult)
    ensures |r.canStackify| == body.tempCount
    ensures forall t :: 0 <= t < body.tempCount ==> r.canStackify[t] == Stackable(body.instructions, body.tempCount, t)
  {
    var tempCount := body.tempCount;
    var instrs := body.instructions;
    if tempCount == 0 {
      return StackifyResult([]);
    }
    var defArray, useArray := GatherDefsAndUses(instrs, tempCount);
    var defIndex, useIndices := defArray[..], useArray[..];
    var canStackify := new bool[tempCount](_ => false);
    for tempIdx := 0 to tempCount
      invariant forall t :: 0 <= t < tempIdx ==> canStackify[t] == Stackable(instrs, tempCount, t)
    {
      var ok := DecideTemp(instrs, tempCount, tempIdx, defIndex[tempIdx], useIndices[tempIdx]);
      canStackify[tempIdx] := ok;
    }
    r := StackifyResult(canStackify[..]);
  }

  /** The second pass of `Analyze` for one temp. */
  method DecideTemp(instrs: seq<Instr>, tempCount: nat, t: Temp, def: int, uses: seq<nat>) returns (ok: bool)
    requires 0 <= t < tempCount
    requires def == LastDefBefore(instrs, t, |instrs|) && uses == UseSitesBefore(instrs, t, |instrs|)
    ensures ok == Stackable(instrs, tempCount, t)
  {
    if def < 0 || |uses| != 1 {
      return false;
    }
    if !CanEmitInline(instrs, tempCount, instrs[def], |instrs|) {
      return false;
    }
    var use := uses[0];
    if use <= def {
      return false;
    }
    ok := CanStackifyBetween(instrs, def, use, t);
  }

  /** The first pass of `Analyze`: each temp's last definition and its use
      list. */
  method GatherDefsAndUses(instrs: seq<Instr>, tempCount: nat)
    returns (defIndex: array<int>, useIndices: array<seq<nat>>)
    ensures fresh(defIndex) && fresh(useIndices)
    ensures defIndex.Length == tempCount && useIndices.Length == tempCount
    ensures forall t :: 0 <= t < tempCount ==> defIndex[t] == LastDefBefore(instrs, t, |instrs|)
    ensures forall t :: 0 <= t < tempCount ==> useIndices[t] == UseSitesBefore(instrs, t, |instrs|)
  {
    defIndex := new int[tempCount](_ => -1);
    useIndices := new seq<nat>[tempCount](_ => []);
    for i := 0 to |instrs|
      invariant forall t :: 0 <= t < tempCount ==> defIndex[t] == LastDefBefore(instrs, t, i)
      invariant forall t :: 0 <= t < tempCount ==> useIndices[t] == UseSitesBefore(instrs, t, i)
    {
      var instruction := instrs[i];
      var def := Defined(instruction);
      var ops := Uses(instruction);
      forall t | 0 <= t < tempCount
        ensures LastDefBefore(instrs, t, i + 1) == (if def == Some(t) then i else LastDefBefore(instrs, t, i))
        ensures UseSitesBefore(instrs, t, i + 1) == UseSitesBefore(instrs, t, i) + Repeat(i, Occurrences(ops, t))
      {
        GatherStep(instrs, i, t);
      }
      RecordDef(defIndex, def, i);
      RecordUses(useIndices, ops, i);
    }
  }

  /** Instruction `i` becomes the last definition of the temp it defines. */
  method RecordDef(defIndex: array<int>, def: Option<Temp>, i: nat)
    modifies defIndex
    ensures forall t :: 0 <= t < defIndex.Length ==> defIndex[t] == (if def == Some(t) then i else old(defIndex[t]))
  {
    if def.Some? && 0 <= def.value < defIndex.Length {
      defIndex[def.value] := i;
    }
  }

  /** The def and use lists grow by one instruction. */
  lemma GatherStep(instrs: seq<Instr>, i: nat, t: Temp)
    requires i < |instrs|
    ensures LastDefBefore(instrs, t, i + 1) == (if Defined(instrs[i]) == Some(t) then i else LastDefBefore(instrs, t, i))
    ensures UseSitesBefore(instrs, t, i + 1) == UseSitesBefore(instrs, t, i) + Repeat(i, Occurrences(Uses(instrs[i]), t))
  {
  }

  /** The inner loop of the first pass: instruction `i` is added to the use
      list of each temp it reads, once per operand. */
  method RecordUses(useIndices: array<seq<nat>>, ops: seq<Temp>, i: nat)
    modifies useIndices
    ensures forall t :: 0 <= t < useIndices.Length ==> useIndices[t] == old(useIndices[t]) + Repeat(i, Occurrences(ops, t))
  {
    for k := 0 to |ops|
      invariant forall t :: 0 <= t < useIndices.Length ==>
        useIndices[t] == old(useIndices[t]) + Repeat(i, Occurrences(ops[..k], t))
    {
      assert ops[..k + 1][..k] == ops[..k];
      var used := ops[k];
      if 0 <= used < useIndices.Length {
        useIndices[used] := useIndices[used] + [i];
      }
    }
    assert ops[..|ops|] == ops;
  }

  /** `CanStackifyBetween`, with its two scans of the instructions in
      between. */
  method CanStackifyBetween(instrs: seq<Instr>, def: nat, use: nat, t: Temp) returns (ok: bool)
    requires def < use < |instrs|
    ensures ok == StackableBetween(instrs, def, use, t)
  {
    var ops := Uses(instrs[use]);
    if use == def + 1 && |ops| > 0 && ops[0] == t {
      return true;
    }
    for i := def + 1 to use
      invariant forall j :: def < j < i ==> !IsControlFlow(instrs[j])
    {
      if IsControlFlow(instrs[i]) {
        return false;
      }
    }
    var stackDepth := 1;
    var targetStackPosition := 0;
    var i := def + 1;
    while i < use
      invariant def + 1 <= i <= use
      invariant StackWalk(instrs, def + 1, use, 1, 0) == StackWalk(instrs, i, use, stackDepth, targetStackPosition)
    {
      var (pops, pushes) := StackEffect(instrs[i]);
      if pops > stackDepth - 1 {
        return false;
      }
      stackDepth := stackDepth - pops + pushes;
      targetStackPosition := targetStackPosition + pushes;
      if stackDepth < 1 || targetStackPosition >= stackDepth {
        return false;
      }
      i := i + 1;
    }
    var targetOperandIndex := -1;
    for j := 0 to |ops|
      invariant targetOperandIndex == (if t in ops[..j] then FirstIndexOf(ops, t) else -1)
    {
      if targetOperandIndex < 0 && ops[j] == t {
        targetOperandIndex := j;
      }
    }
    assert ops[..|ops|] == ops;
    if targetOperandIndex < 0 {
      return false;
    }
    if targetStackPosition != 0 && targetOperandIndex != 0 {
      return false;
    }
    return true;
  }

  // ----- Operand swapping -----

  /** The operations whose operands may be swapped: numeric and boolean
      ones only, since dynamic addition and string concatenation depend on
      operand order. */
  predicate IsCommutative(op: BinaryOp)
  {
    op in {AddNumber, MulNumber, MulDynamic, CompareNumberEqual, CompareNumberNotEqual,
           CompareBooleanEqual, CompareBooleanNotEqual}
  }

  /** `SwapBinaryOperands`. */
  function SwapBinaryOperands(instr: Instr): (r: Option<Instr>)
    ensures r.Some? <==> instr.Binary? && IsCommutative(instr.binOp)
  {
    match instr
    case Binary(op, l, rt, res) => if IsCommutative(op) then Some(Binary(op, rt, l, res)) else None
    case _ => None
  }

  /** A swap keeps the operation and its result, and exchanges the two
      operands. */
  lemma SwapKeepsOperationAndResult(instr: Instr)
    requires SwapBinaryOperands(instr).Some?
    ensures var s := SwapBinaryOperands(instr).value;
      && s.Binary? && s.binOp == instr.binOp
      && Defined(s) == Defined(instr)
      && s.left == instr.right && s.right == instr.left
      && multiset(Uses(s)) == multiset(Uses(instr))
  {
  }

  /** Swapping twice restores the instruction. */
  lemma SwapInvolution(instr: Instr)
    requires SwapBinaryOperands(instr).Some?
    ensures SwapBinaryOperands(SwapBinaryOperands(instr).value) == Some(instr)
  {
  }

  /** Dynamic addition and string concatenation are never swapped. */
  lemma NeverSwapsOrderDependent(l: Temp, r: Temp, res: Temp)
    ensures SwapBinaryOperands(Binary(AddDynamic, l, r, res)).None?
    ensures SwapBinaryOperands(Binary(ConcatStrings, l, r, res)).None?
  {
  }

  /** The recorded definition site used by the operand-order pass (only
      in-range temps have one). */
  function DefSite(instrs: seq<Instr>, tempCount: nat, t: Temp): int
  {
    if 0 <= t < tempCount then LastDefBefore(instrs, t, |instrs|) else -1
  }

  /** The instruction the operand-order pass leaves at `i`: a commutative
      operation whose left operand is defined just before it and whose
      right operand is defined elsewhere is swapped. */
  function OperandOrderAt(instrs: seq<Instr>, tempCount: nat, i: nat): Instr
    requires i < |instrs|
  {
    var instr := instrs[i];
    if instr.Binary? && IsCommutative(instr.binOp) then
      var leftDef := DefSite(instrs, tempCount, instr.left);
      var rightDef := DefSite(instrs, tempCount, instr.right);
      if leftDef == i - 1 && rightDef != i - 1 && rightDef >= 0 then SwapBinaryOperands(instr).value else instr
    else instr
  }

  /** The operand-order pass changes instructions only by swapping, keeps
      every result, and keeps each instruction's operands. */
  lemma OperandOrderOnlySwaps(instrs: seq<Instr>, tempCount: nat, i: nat)
    requires i < |instrs|
    ensures var o := OperandOrderAt(instrs, tempCount, i);
      && (o == instrs[i] || SwapBinaryOperands(instrs[i]) == Some(o))
      && Defined(o) == Defined(instrs[i])
      && multiset(Uses(o)) == multiset(Uses(instrs[i]))
  {
  }

  /** `OptimizeBinaryOperandOrder`. */
  method OptimizeBinaryOperandOrder(body: MethodBody)
    modifies body
    ensures body.instructions == seq(|old(body.instructions)|, i requires 0 <= i < |old(body.instructions)| =>
      OperandOrderAt(old(body.instructions), old(body.tempCount), i))
    ensures body.tempCount == old(body.tempCount)
    ensures body.tempStorages == old(body.tempStorages) && body.tempVariableSlots == old(body.tempVariableSlots)
  {
    var tempCount := body.tempCount;
    if tempCount == 0 {
      assert forall i :: 0 <= i < |body.instructions| ==>
        OperandOrderAt(body.instructions, tempCount, i) == body.instructions[i];
      return;
    }
    var original := body.instructions;
    var defIndex, _ := GatherDefsAndUses(original, tempCount);
    var defs := defIndex[..];
    var instrs := original;
    for i := 0 to |instrs|
      invariant unchanged(body)
      invariant |instrs| == |original|
      invariant forall j :: 0 <= j < i ==> instrs[j] == OperandOrderAt(original, tempCount, j)
      invariant forall j :: i <= j < |instrs| ==> instrs[j] == original[j]
    {
      var ordered := OrderOperands(original, tempCount, defs, i);
      instrs := instrs[i := ordered];
    }
    body.instructions := instrs;
  }

  /** The body of the loop of `OptimizeBinaryOperandOrder` for instruction
      `i`, given the last definition site of every temp. */
  method OrderOperands(instrs: seq<Instr>, tempCount: nat, defIndex: seq<int>, i: nat) returns (r: Instr)
    requires i < |instrs| && |defIndex| == tempCount
    requires forall t :: 0 <= t < tempCount ==> defIndex[t] == LastDefBefore(instrs, t, |instrs|)
    ensures r == OperandOrderAt(instrs, tempCount, i)
  {
    var instr := instrs[i];
    r := instr;
    if !(instr.Binary? && IsCommutative(instr.binOp)) {
      return;
    }
    var leftDef := if 0 <= instr.left < tempCount then defIndex[instr.left] else -1;
    var rightDef := if 0 <= instr.right < tempCount then defIndex[instr.right] else -1;
    if leftDef == i - 1 && rightDef != i - 1 && rightDef >= 0 {
      var swapped := SwapBinaryOperands(instr);
      if swapped.Some? {
        r := swapped.value;
      }
    }
  }

  // ----- Moving constants to their use -----

  predicate IsConstant(instr: Instr)
  {
    instr.ConstNumber? || instr.ConstString? || instr.ConstBoolean? || instr.ConstUndefined? || instr.ConstNull?
  }

  /** A constant at `i` that the pass plans to move: its temp has exactly
      one use, more than one instruction later, with no label or branch in
      between. */
  predicate Movable(instrs: seq<Instr>, tempCount: nat, i: nat)
    requires i < |instrs|
  {
    && IsConstant(instrs[i])
    && var d := Defined(instrs[i]).value;
    && 0 <= d < tempCount
    && |UseSitesBefore(instrs, d, |instrs|)| == 1
    && var use := UseSitesBefore(instrs, d, |instrs|)[0];
    && use > i + 1
    && !ControlFlowBetween(instrs, i, use)
  }

  /** The single use of a movable constant. */
  function MoveTarget(instrs: seq<Instr>, tempCount: nat, i: nat): (to: nat)
    requires i < |instrs| && Movable(instrs, tempCount, i)
    ensures i + 1 < to < |instrs|
  {
    UseSitesBefore(instrs, Defined(instrs[i]).value, |instrs|)[0]
  }

  datatype Move = Move(from: nat, to: nat)

  /** The planned moves for indices below `n`, in ascending source order. */
  function PlannedMoves(instrs: seq<Instr>, tempCount: nat, n: nat): (r: seq<Move>)
    requires n <= |instrs|
    ensures forall k :: 0 <= k < |r| ==> r[k].from < n && r[k].from + 1 < r[k].to < |instrs|
    ensures forall j, k :: 0 <= j < k < |r| ==> r[j].from < r[k].from
  {
    if n == 0 then []
    else if Movable(instrs, tempCount, n - 1) then
      PlannedMoves(instrs, tempCount, n - 1) + [Move(n - 1, MoveTarget(instrs, tempCount, n - 1))]
    else PlannedMoves(instrs, tempCount, n - 1)
  }

  /** `RemoveAt(from)` followed by `Insert(to - 1)`. */
  function MoveOne<T>(s: seq<T>, m: Move): (r: seq<T>)
    requires m.from < |s| && 1 <= m.to <= |s|
    ensures |r| == |s|
  {
    var rest := s[..m.from] + s[m.from + 1..];
    rest[..m.to - 1] + [s[m.from]] + rest[m.to - 1..]
  }

  /** A move only relocates one element. */
  lemma MoveOnePermutes<T>(s: seq<T>, m: Move)
    requires m.from < |s| && 1 <= m.to <= |s|
    ensures multiset(MoveOne(s, m)) == multiset(s)
  {
    var rest := s[..m.from] + s[m.from + 1..];
    assert s == s[..m.from] + [s[m.from]] + s[m.from + 1..];
    assert multiset(s) == multiset(rest) + multiset{s[m.from]};
    assert rest == rest[..m.to - 1] + rest[m.to - 1..];
    assert multiset(rest) == multiset(rest[..m.to - 1]) + multiset(rest[m.to - 1..]);
  }

  predicate MovesFit(moves: seq<Move>, n: nat)
  {
    forall k :: 0 <= k < |moves| ==> moves[k].from < n && 1 <= moves[k].to <= n
  }

  /** The moves applied one after the other with their original indices,
      as the pass does. */
  function ApplyMoves<T>(s: seq<T>, moves: seq<Move>): (r: seq<T>)
    requires MovesFit(moves, |s|)
    ensures |r| == |s|
    decreases |moves|
  {
    if |moves| == 0 then s else ApplyMoves(MoveOne(s, moves[0]), moves[1..])
  }

  /** Applying moves permutes the sequence. */
  lemma {:induction false} ApplyMovesPermutes<T>(s: seq<T>, moves: seq<Move>)
    requires MovesFit(moves, |s|)
    ensures multiset(ApplyMoves(s, moves)) == multiset(s)
    decreases |moves|
  {
    if |moves| > 0 {
      MoveOnePermutes(s, moves[0]);
      ApplyMovesPermutes(MoveOne(s, moves[0]), moves[1..]);
    }
  }

  function Reversed(moves: seq<Move>): (r: seq<Move>)
    ensures |r| == |moves| && forall k :: 0 <= k < |r| ==> r[k] == moves[|moves| - 1 - k]
  {
    if |moves| == 0 then [] else [moves[|moves| - 1]] + Reversed(moves[..|moves| - 1])
  }

  /** `MoveConstantsToUse` as written: the planned moves applied in
      descending source order. */
  function MovedAsWritten(instrs: seq<Instr>, tempCount: nat): (r: seq<Instr>)
    ensures |r| == |instrs|
  {
    if tempCount == 0 then instrs
    else ApplyMoves(instrs, Reversed(PlannedMoves(instrs, tempCount, |instrs|)))
  }

  /** The pass keeps every instruction, as often as it occurs. */
  lemma MovedAsWrittenPermutes(instrs: seq<Instr>, tempCount: nat)
    ensures multiset(MovedAsWritten(instrs, tempCount)) == multiset(instrs)
  {
    if tempCount > 0 {
      ApplyMovesPermutes(instrs, Reversed(PlannedMoves(instrs, tempCount, |instrs|)));
    }
  }

  /** `MoveConstantsToUse`: plan the moves, then apply them. */
  method MoveConstantsToUse(body: MethodBody)
    modifies body
    ensures body.instructions == MovedAsWritten(old(body.instructions), old(body.tempCount))
    ensures multiset(body.instructions) == multiset(old(body.instructions))
    ensures body.tempCount == old(body.tempCount)
  {
    var tempCount := body.tempCount;
    if tempCount == 0 {
      return;
    }
    var instrs := body.instructions;
    var moves := PlanMoves(instrs, tempCount);
    var current := ApplyInOrder(instrs, Reversed(moves));
    body.instructions := current;
    MovedAsWrittenPermutes(instrs, tempCount);
  }

  /** The planning loop of `MoveConstantsToUse`. */
  method PlanMoves(instrs: seq<Instr>, tempCount: nat) returns (moves: seq<Move>)
    ensures moves == PlannedMoves(instrs, tempCount, |instrs|)
  {
    var _, useArray := GatherDefsAndUses(instrs, tempCount);
    var useIndices := useArray[..];
    moves := [];
    for i := 0 to |instrs|
      invariant moves == PlannedMoves(instrs, tempCount, i)
    {
      var m := PlanAt(instrs, tempCount, useIndices, i);
      if m.Some? {
        moves := moves + [m.value];
      }
    }
  }

  /** The body of the planning loop for the instruction at `i`: the move it
      plans, if any. */
  method PlanAt(instrs: seq<Instr>, tempCount: nat, useIndices: seq<seq<nat>>, i: nat) returns (m: Option<Move>)
    requires i < |instrs| && |useIndices| == tempCount
    requires forall t :: 0 <= t < tempCount ==> useIndices[t] == UseSitesBefore(instrs, t, |instrs|)
    ensures m.Some? <==> Movable(instrs, tempCount, i)
    ensures m.Some? ==> m.value == Move(i, MoveTarget(instrs, tempCount, i))
  {
    var instr := instrs[i];
    if !IsConstant(instr) {
      return None;
    }
    var def := Defined(instr).value;
    if def < 0 || def >= tempCount || |useIndices[def]| != 1 {
      return None;
    }
    var use := useIndices[def][0];
    if use <= i + 1 {
      return None;
    }
    var hasControlFlow := false;
    for j := i + 1 to use
      invariant hasControlFlow == exists k :: i < k < j && IsControlFlow(instrs[k])
    {
      if IsControlFlow(instrs[j]) {
        hasControlFlow := true;
      }
    }
    if hasControlFlow {
      return None;
    }
    return Some(Move(i, use));
  }

  /** The loop of `MoveConstantsToUse` that applies the moves. */
  method ApplyInOrder(instrs: seq<Instr>, ordered: seq<Move>) returns (current: seq<Instr>)
    requires MovesFit(ordered, |instrs|)
    ensures current == ApplyMoves(instrs, ordered)
  {
    current := instrs;
    for k := 0 to |ordered|
      invariant |current| == |instrs|
      invariant ApplyMoves(current, ordered[k..]) == ApplyMoves(instrs, ordered)
    {
      assert ordered[k..][1..] == ordered[k + 1..];
      current := MoveOne(current, ordered[k]);
    }
    assert ordered[|ordered|..] == [];
  }

  /** Two constants `c0`, `c1` used in the same order by two later
      instructions: moving `c1` first shifts `use(c0)` left, and `c0` is
      then inserted after it. */
  function MoveExample(): seq<Instr>
  {
    [ConstNumber(1, 0), ConstNumber(2, 1), Unary(NegateNumber, 0, 2), Unary(NegateNumber, 1, 3)]
  }

  lemma ExampleOccurrences(a: seq<Temp>, b: seq<Temp>)
    requires a == [0] && b == [1]
    ensures Occurrences(a, 0) == 1 && Occurrences(a, 1) == 0
    ensures Occurrences(b, 1) == 1 && Occurrences(b, 0) == 0
  {
    assert a[..0] == [] && b[..0] == [];
  }

  lemma ExampleUseSites(instrs: seq<Instr>, t: Temp, n: nat)
    requires instrs == MoveExample() && (t == 0 || t == 1) && n == 4
    ensures UseSitesBefore(instrs, t, n) == [t + 2]
  {
    assert Uses(instrs[0]) == [] && Uses(instrs[1]) == [];
    assert Uses(instrs[2]) == [0] && Uses(instrs[3]) == [1];
    ExampleOccurrences(Uses(instrs[2]), Uses(instrs[3]));
    var none: seq<nat> := [];
    assert UseSitesBefore(instrs, t, n - 4) == none;
    assert Repeat(0, 0) == none && Repeat(1, 0) == none && Repeat(2, 0) == none && Repeat(3, 0) == none;
    assert UseSitesBefore(instrs, t, n - 3) == none;
    assert UseSitesBefore(instrs, t, n - 2) == none;
    assert Repeat(2, 1) == [2] && Repeat(3, 1) == [3];
    assert none + [2] == [2] && [2] + none == [2] && none + [3] == [3];
    if t == 0 {
      assert UseSitesBefore(instrs, t, n - 1) == [2];
    } else {
      assert UseSitesBefore(instrs, t, n - 1) == none;
    }
  }

  lemma ExamplePlan(instrs: seq<Instr>, n: nat)
    requires instrs == MoveExample() && n == 4
    ensures PlannedMoves(instrs, n, n) == [Move(0, 2), Move(1, 3)]
  {
    ExampleUseSites(instrs, 0, n);
    ExampleUseSites(instrs, 1, n);
    assert Defined(instrs[0]) == Some(0) && Defined(instrs[1]) == Some(1);
    assert !ControlFlowBetween(instrs, 0, 2) && !ControlFlowBetween(instrs, 1, 3);
    assert Movable(instrs, n, 0) && Movable(instrs, n, 1);
    assert !Movable(instrs, n, 2) && !Movable(instrs, n, 3);
    var none: seq<Move> := [];
    assert PlannedMoves(instrs, n, 0) == none;
    assert PlannedMoves(instrs, n, 1) == [Move(0, 2)];
    assert PlannedMoves(instrs, n, 2) == [Move(0, 2), Move(1, 3)];
    assert PlannedMoves(instrs, n, 3) == [Move(0, 2), Move(1, 3)];
  }

  lemma ExampleFirstMove(instrs: seq<Instr>, m: Move)
    requires instrs == MoveExample() && m == Move(1, 3)
    ensures MoveOne(instrs, m) ==
      [ConstNumber(1, 0), Unary(NegateNumber, 0, 2), ConstNumber(2, 1), Unary(NegateNumber, 1, 3)]
  {
    MoveSecondToThird(ConstNumber(1, 0), ConstNumber(2, 1), Unary(NegateNumber, 0, 2), Unary(NegateNumber, 1, 3));
  }

  lemma ExampleSecondMove(instrs: seq<Instr>, m: Move)
    requires instrs == [ConstNumber(1, 0), Unary(NegateNumber, 0, 2), ConstNumber(2, 1), Unary(NegateNumber, 1, 3)]
    requires m == Move(0, 2)
    ensures MoveOne(instrs, m) ==
      [Unary(NegateNumber, 0, 2), ConstNumber(1, 0), ConstNumber(2, 1), Unary(NegateNumber, 1, 3)]
  {
    MoveFirstToSecond(ConstNumber(1, 0), Unary(NegateNumber, 0, 2), ConstNumber(2, 1), Unary(NegateNumber, 1, 3));
  }

  lemma MoveSecondToThird<T>(a: T, b: T, c: T, d: T)
    ensures MoveOne([a, b, c, d], Move(1, 3)) == [a, c, b, d]
  {
    var s := [a, b, c, d];
    MoveOneDef(s, Move(1, 3));
    var rest := s[..1] + s[2..];
    assert rest == [a, c, d];
    assert rest[..2] + [b] + rest[2..] == [a, c, b, d];
  }

  lemma MoveFirstToSecond<T>(a: T, b: T, c: T, d: T)
    ensures MoveOne([a, b, c, d], Move(0, 2)) == [b, a, c, d]
  {
    var s := [a, b, c, d];
    MoveOneDef(s, Move(0, 2));
    var rest := s[..0] + s[1..];
    assert rest == [b, c, d];
    assert rest[..1] + [a] + rest[1..] == [b, a, c, d];
  }

  lemma MoveOneDef<T>(s: seq<T>, m: Move)
    requires m.from < |s| && 1 <= m.to <= |s|
    ensures MoveOne(s, m) == (s[..m.from] + s[m.from + 1..])[..m.to - 1] + [s[m.from]] + (s[..m.from] + s[m.from + 1..])[m.to - 1..]
  {
  }

  lemma ApplyTwo<T>(s: seq<T>, m1: Move, m2: Move)
    requires m1.from < |s| && 1 <= m1.to <= |s| && m2.from < |s| && 1 <= m2.to <= |s|
    ensures MovesFit([m1, m2], |s|)
    ensures ApplyMoves(s, [m1, m2]) == MoveOne(MoveOne(s, m1), m2)
  {
    ApplyCons(MoveOne(s, m1), m2, []);
    assert [m2] + [] == [m2];
    ApplyCons(s, m1, [m2]);
    assert [m1] + [m2] == [m1, m2];
  }

  lemma ApplyCons<T>(s: seq<T>, m: Move, rest: seq<Move>)
    requires m.from < |s| && 1 <= m.to <= |s| && MovesFit(rest, |s|)
    ensures MovesFit([m] + rest, |s|)
    ensures ApplyMoves(s, [m] + rest) == ApplyMoves(MoveOne(s, m), rest)
  {
    assert ([m] + rest)[0] == m && ([m] + rest)[1..] == rest;
  }

  lemma ExampleAsWritten(instrs: seq<Instr>, tempCount: nat)
    requires instrs == MoveExample() && tempCount == 4
    ensures MovedAsWritten(instrs, tempCount) ==
      [Unary(NegateNumber, 0, 2), ConstNumber(1, 0), ConstNumber(2, 1), Unary(NegateNumber, 1, 3)]
  {
    var moves := Reversed(PlannedMoves(instrs, tempCount, |instrs|));
    assert moves == [Move(1, 3), Move(0, 2)] by {
      ExamplePlan(instrs, tempCount);
    }
    calc {
      MovedAsWritten(instrs, tempCount);
      ApplyMoves(instrs, [Move(1, 3), Move(0, 2)]);
      == { ApplyTwo(instrs, Move(1, 3), Move(0, 2)); }
      MoveOne(MoveOne(instrs, Move(1, 3)), Move(0, 2));
      == { ExampleFirstMove(instrs, Move(1, 3)); }
      MoveOne([ConstNumber(1, 0), Unary(NegateNumber, 0, 2), ConstNumber(2, 1), Unary(NegateNumber, 1, 3)], Move(0, 2));
      == { ExampleSecondMove([ConstNumber(1, 0), Unary(NegateNumber, 0, 2), ConstNumber(2, 1), Unary(NegateNumber, 1, 3)], Move(0, 2)); }
      [Unary(NegateNumber, 0, 2), ConstNumber(1, 0), ConstNumber(2, 1), Unary(NegateNumber, 1, 3)];
    }
  }

  /** As written, the constant defining temp 0 ends up after the
      instruction that reads it. */
  lemma ConstantMovedPastItsUse(instrs: seq<Instr>, tempCount: nat)
    requires instrs == MoveExample() && tempCount == 4
    ensures var r := MovedAsWritten(instrs, tempCount);
      && 0 in Uses(r[0])
      && FirstDef(r, 0) == Some(1)
  {
    ExampleAsWritten(instrs, tempCount);
    UseBeforeDefinition(MovedAsWritten(instrs, tempCount));
  }

  lemma UseBeforeDefinition(r: seq<Instr>)
    requires r == [Unary(NegateNumber, 0, 2), ConstNumber(1, 0), ConstNumber(2, 1), Unary(NegateNumber, 1, 3)]
    ensures 0 in Uses(r[0]) && FirstDef(r, 0) == Some(1)
  {
    assert Defines(r[1], 0) && !Defines(r[0], 0);
    assert Uses(r[0]) == [0];
  }

  /** `OptimizeInstructionOrder`: constants are moved to their use, then
      commutative operands are reordered.  The instructions keep their
      number; each is a relocated original or its operand-swapped form. */
  method OptimizeInstructionOrder(body: MethodBody)
    modifies body
    ensures |body.instructions| == |old(body.instructions)|
    ensures var moved := MovedAsWritten(old(body.instructions), old(body.tempCount));
      && multiset(moved) == multiset(old(body.instructions))
      && forall i :: 0 <= i < |body.instructions| ==>
           body.instructions[i] == OperandOrderAt(moved, old(body.tempCount), i)
    ensures body.tempCount == old(body.tempCount)
  {
    MovedAsWrittenPermutes(body.instructions, body.tempCount);
    MoveConstantsToUse(body);
    OptimizeBinaryOperandOrder(body);
  }

  // ----- Moving constants, corrected -----

  function MovedFrom(moves: seq<Move>, i: nat): bool
  {
    exists k :: 0 <= k < |moves| && moves[k].from == i
  }

  /** The constants moved in front of instruction `t`, in source order. */
  function Group(moves: seq<Move>, t: nat): (r: seq<nat>)
    ensures forall x :: x in r <==> exists k :: 0 <= k < |moves| && moves[k].to == t && moves[k].from == x
  {
    if |moves| == 0 then []
    else
      var p := Group(moves[..|moves| - 1], t);
      var m := moves[|moves| - 1];
      assert forall k :: 0 <= k < |moves| - 1 ==> moves[..|moves| - 1][k] == moves[k];
      if m.to == t then p + [m.from] else p
  }

  /** The corrected pass as an order of source indices: each instruction
      that stays is preceded by the constants moved to it. */
  function CorrectedOrder(moves: seq<Move>, n: nat): seq<nat>
  {
    if n == 0 then []
    else CorrectedOrder(moves, n - 1) + Group(moves, n - 1) + (if MovedFrom(moves, n - 1) then [] else [n - 1])
  }

  /** The moves a plan can contain: ascending sources, each moving forward
      to an instruction that itself stays. */
  predicate WellFormedPlan(moves: seq<Move>, n: nat)
  {
    && (forall k :: 0 <= k < |moves| ==> moves[k].from < moves[k].to < n)
    && (forall j, k :: 0 <= j < k < |moves| ==> moves[j].from < moves[k].from)
    && (forall k :: 0 <= k < |moves| ==> !MovedFrom(moves, moves[k].to))
  }

  /** A use never moves: constants read no temps. */
  lemma PlannedTargetsStay(instrs: seq<Instr>, tempCount: nat)
    ensures WellFormedPlan(PlannedMoves(instrs, tempCount, |instrs|), |instrs|)
  {
    var moves := PlannedMoves(instrs, tempCount, |instrs|);
    forall k | 0 <= k < |moves|
      ensures !MovedFrom(moves, moves[k].to)
    {
      PlannedMoveFacts(instrs, tempCount, |instrs|, k);
      if MovedFrom(moves, moves[k].to) {
        var j :| 0 <= j < |moves| && moves[j].from == moves[k].to;
        PlannedMoveFacts(instrs, tempCount, |instrs|, j);
      }
    }
  }

  lemma {:induction false} PlannedMoveFacts(instrs: seq<Instr>, tempCount: nat, n: nat, k: nat)
    requires n <= |instrs| && k < |PlannedMoves(instrs, tempCount, n)|
    ensures var m := PlannedMoves(instrs, tempCount, n)[k];
      IsConstant(instrs[m.from]) && !IsConstant(instrs[m.to])
  {
    var moves := PlannedMoves(instrs, tempCount, n);
    if k < |PlannedMoves(instrs, tempCount, n - 1)| {
      PlannedMoveFacts(instrs, tempCount, n - 1, k);
    } else {
      var m := moves[k];
      assert m == Move(n - 1, MoveTarget(instrs, tempCount, n - 1));
      var d := Defined(instrs[n - 1]).value;
      assert d in Uses(instrs[m.to]);
    }
  }

  lemma {:induction false} CorrectedOrderBelow(moves: seq<Move>, n: nat, N: nat)
    requires WellFormedPlan(moves, N) && n <= N
    ensures forall x :: x in CorrectedOrder(moves, n) ==> x < n
  {
    if n > 0 {
      CorrectedOrderBelow(moves, n - 1, N);
    }
  }

  /** Every index placed by the corrected order, and every index still
      waiting for its target, is placed exactly once. */
  lemma {:induction false} CorrectedOrderCovers(moves: seq<Move>, n: nat, N: nat, x: nat)
    requires WellFormedPlan(moves, N) && n <= N
    ensures x in CorrectedOrder(moves, n) <==>
      (x < n && !MovedFrom(moves, x)) ||
      (exists k :: 0 <= k < |moves| && moves[k].from == x && moves[k].to < n)
  {
    if n > 0 {
      CorrectedOrderCovers(moves, n - 1, N, x);
      if MovedFrom(moves, x) {
        var k :| 0 <= k < |moves| && moves[k].from == x;
        MoveUnique(moves, N, k);
      }
    }
  }

  lemma MoveUnique(moves: seq<Move>, N: nat, k: nat)
    requires WellFormedPlan(moves, N) && k < |moves|
    ensures forall j :: 0 <= j < |moves| && moves[j].from == moves[k].from ==> j == k
  {
  }

  predicate DistinctIndices(s: seq<nat>)
  {
    forall i, j :: 0 <= i < j < |s| ==> s[i] != s[j]
  }

  lemma {:induction false} GroupDistinct(moves: seq<Move>, N: nat, t: nat)
    requires WellFormedPlan(moves, N)
    ensures DistinctIndices(Group(moves, t))
  {
    if |moves| > 0 {
      var p := moves[..|moves| - 1];
      assert WellFormedPlan(p, N) by {
        forall k | 0 <= k < |p|
          ensures !MovedFrom(p, p[k].to)
        {
          assert p[k] == moves[k];
          assert !MovedFrom(moves, moves[k].to);
          forall j | 0 <= j < |p|
            ensures p[j].from != p[k].to
          {
            assert p[j] == moves[j];
          }
        }
      }
      GroupDistinct(p, N, t);
      var m := moves[|moves| - 1];
      var g := Group(p, t);
      forall x | x in g
        ensures x < m.from
      {
        var k :| 0 <= k < |p| && p[k].to == t && p[k].from == x;
        assert p[k] == moves[k];
      }
      if m.to == t {
        var r := g + [m.from];
        assert Group(moves, t) == r;
        forall i, j | 0 <= i < j < |r|
          ensures r[i] != r[j]
        {
          if j == |g| {
            assert r[i] in g;
          }
        }
      }
    }
  }

  lemma {:induction false} CorrectedOrderDistinct(moves: seq<Move>, n: nat, N: nat)
    requires WellFormedPlan(moves, N) && n <= N
    ensures DistinctIndices(CorrectedOrder(moves, n))
  {
    if n > 0 {
      CorrectedOrderDistinct(moves, n - 1, N);
      GroupDistinct(moves, N, n - 1);
      var prev := CorrectedOrder(moves, n - 1);
      var g := Group(moves, n - 1);
      var tail := if MovedFrom(moves, n - 1) then [] else [n - 1];
      CorrectedOrderBelow(moves, n - 1, N);
      forall x | x in g
        ensures x !in prev && x !in tail
      {
        var k :| 0 <= k < |moves| && moves[k].to == n - 1 && moves[k].from == x;
        CorrectedOrderCovers(moves, n - 1, N, x);
        MoveUnique(moves, N, k);
      }
      forall x | x in tail
        ensures x !in prev
      {
      }
      var r := prev + g + tail;
      assert r == CorrectedOrder(moves, n);
      forall i, j | 0 <= i < j < |r|
        ensures r[i] != r[j]
      {
        if j < |prev| {
        } else if j < |prev| + |g| {
          if i >= |prev| {
            assert r[i] == g[i - |prev|] && r[j] == g[j - |prev|];
          } else {
            assert r[j] in g && r[i] in prev;
          }
        } else {
          assert r[j] in tail;
          if i < |prev| {
            assert r[i] in prev;
          } else {
            assert r[i] in g;
          }
        }
      }
    }
  }

  function Iota(n: nat): (r: seq<nat>)
    ensures |r| == n && forall i :: 0 <= i < n ==> r[i] == i
  {
    if n == 0 then [] else Iota(n - 1) + [n - 1]
  }

  /** The corrected order is a permutation of the instruction indices. */
  lemma CorrectedOrderIsPermutation(moves: seq<Move>, N: nat)
    requires WellFormedPlan(moves, N)
    ensures DistinctIndices(CorrectedOrder(moves, N))
    ensures forall x: nat :: x in CorrectedOrder(moves, N) <==> x < N
    ensures forall k :: 0 <= k < |CorrectedOrder(moves, N)| ==> CorrectedOrder(moves, N)[k] < N
  {
    CorrectedOrderDistinct(moves, N, N);
    CorrectedOrderBelow(moves, N, N);
    forall k | 0 <= k < |CorrectedOrder(moves, N)|
      ensures CorrectedOrder(moves, N)[k] < N
    {
      assert CorrectedOrder(moves, N)[k] in CorrectedOrder(moves, N);
    }
    forall x: nat
      ensures x in CorrectedOrder(moves, N) <==> x < N
    {
      CorrectedOrderCovers(moves, N, N, x);
      if MovedFrom(moves, x) {
        var k :| 0 <= k < |moves| && moves[k].from == x;
        assert moves[k].to < N;
      }
    }
  }

  lemma {:induction false} CorrectedOrderPrefix(moves: seq<Move>, m: nat, n: nat)
    requires m <= n
    ensures CorrectedOrder(moves, m) <= CorrectedOrder(moves, n)
  {
    if m < n {
      CorrectedOrderPrefix(moves, m, n - 1);
    }
  }

  lemma GroupStep(moves: seq<Move>, t: nat)
    requires !MovedFrom(moves, t)
    ensures CorrectedOrder(moves, t + 1) == CorrectedOrder(moves, t) + Group(moves, t) + [t]
  {
  }

  lemma PrefixAt(a: seq<nat>, b: seq<nat>, i: nat)
    requires a <= b && i < |a|
    ensures i < |b| && b[i] == a[i]
  {
  }

  /** In the corrected order every moved constant comes before the
      instruction that reads it. */
  lemma CorrectedConstantPrecedesUse(moves: seq<Move>, N: nat, k: nat)
    requires WellFormedPlan(moves, N) && k < |moves|
    ensures var order := CorrectedOrder(moves, N);
      exists p, q :: 0 <= p < q < |order| && order[p] == moves[k].from && order[q] == moves[k].to
  {
    var m := moves[k];
    assert m.to < N && !MovedFrom(moves, m.to) by {
      assert m.from < m.to < N;
    }
    assert m.from in Group(moves, m.to) by {
      assert moves[k].to == m.to && moves[k].from == m.from;
    }
    var upto := CorrectedOrder(moves, m.to + 1);
    GroupBeforeTarget(moves, m.to, m.from);
    var p :| 0 <= p < |upto| - 1 && upto[p] == m.from;
    var q := |upto| - 1;
    var order := CorrectedOrder(moves, N);
    assert q < |order| && order[p] == m.from && order[q] == m.to by {
      CorrectedOrderPrefix(moves, m.to + 1, N);
      PrefixAt(upto, order, p);
      PrefixAt(upto, order, q);
    }
    assert 0 <= p < q < |order| && order[p] == moves[k].from && order[q] == moves[k].to;
  }

  /** A constant moved to an instruction that stays comes before it in the
      order up to that instruction, which comes last. */
  lemma GroupBeforeTarget(moves: seq<Move>, t: nat, x: nat)
    requires !MovedFrom(moves, t) && x in Group(moves, t)
    ensures var upto := CorrectedOrder(moves, t + 1);
      |upto| >= 1 && upto[|upto| - 1] == t && exists p :: 0 <= p < |upto| - 1 && upto[p] == x
  {
    GroupStep(moves, t);
    var before := CorrectedOrder(moves, t);
    var g := Group(moves, t);
    var upto := CorrectedOrder(moves, t + 1);
    var gi :| 0 <= gi < |g| && g[gi] == x;
    assert upto[|before| + gi] == x;
  }

  /** `MoveConstantsToUse`, corrected: the instructions in the corrected
      order. */
  function MovedCorrected(instrs: seq<Instr>, tempCount: nat): (r: seq<Instr>)
    ensures |r| == |instrs|
  {
    var moves := PlannedMoves(instrs, tempCount, |instrs|);
    PlannedTargetsStay(instrs, tempCount);
    CorrectedOrderIsPermutation(moves, |instrs|);
    var order := CorrectedOrder(moves, |instrs|);
    PermutationLength(order, |instrs|);
    seq(|order|, k requires 0 <= k < |order| => instrs[order[k]])
  }

  /** In the corrected pass each moved constant still comes before the
      instruction that reads it. */
  lemma CorrectedKeepsConstantBeforeUse(instrs: seq<Instr>, tempCount: nat, k: nat)
    requires k < |PlannedMoves(instrs, tempCount, |instrs|)|
    ensures var m := PlannedMoves(instrs, tempCount, |instrs|)[k];
      var r := MovedCorrected(instrs, tempCount);
      exists p, q :: 0 <= p < q < |r| && r[p] == instrs[m.from] && r[q] == instrs[m.to]
  {
    var moves := PlannedMoves(instrs, tempCount, |instrs|);
    PlannedTargetsStay(instrs, tempCount);
    CorrectedOrderIsPermutation(moves, |instrs|);
    CorrectedConstantPrecedesUse(moves, |instrs|, k);
    var order := CorrectedOrder(moves, |instrs|);
    var p, q :| 0 <= p < q < |order| && order[p] == moves[k].from && order[q] == moves[k].to;
    var r := MovedCorrected(instrs, tempCount);
    assert r[p] == instrs[moves[k].from] && r[q] == instrs[moves[k].to];
  }

  lemma PermutationLength(order: seq<nat>, n: nat)
    requires DistinctIndices(order) && forall x: nat :: x in order <==> x < n
    ensures |order| == n
  {
    ElementsOfDistinct(order);
    assert Elements(order) == Range(n);
  }

  function Elements(s: seq<nat>): (r: set<nat>)
    ensures forall x :: x in r <==> x in s
  {
    if |s| == 0 then {}
    else
      assert s == s[..|s| - 1] + [s[|s| - 1]];
      Elements(s[..|s| - 1]) + {s[|s| - 1]}
  }

  function Range(n: nat): (r: set<nat>)
    ensures |r| == n && forall x: nat :: x in r <==> x < n
  {
    if n == 0 then {}
    else
      var p := Range(n - 1);
      assert n - 1 !in p;
      p + {n - 1}
  }

  lemma {:induction false} ElementsOfDistinct(s: seq<nat>)
    requires DistinctIndices(s)
    ensures |Elements(s)| == |s|
  {
    if |s| > 0 {
      var p := s[..|s| - 1];
      ElementsOfDistinct(p);
      assert s[|s| - 1] !in p;
      assert s[|s| - 1] !in Elements(p);
      assert Elements(s) == Elements(p) + {s[|s| - 1]};
    }
  }
}
