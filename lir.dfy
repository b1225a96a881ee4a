/** The low-level IR that the back-end passes read and rewrite: a method
    body is a list of instructions over numbered temps, with per-temp
    storage types and an optional pinning of temps to variable slots.

    Every instruction kind that a modelled pass inspects has its own
    constructor; the remaining kinds the allocator's operand tables know
    about are `OtherDefining` (operands and a result) and `OtherEffect`
    (operands only), and kinds outside those tables are `Untracked`. */
module Lir {
  import opened JsValues

  /** A `TempVariable`, by index (negative indices occur as "no temp"). */
  type Temp = int

  datatype ClrType =
    | DoubleType | BooleanType | StringType | ObjectType | ObjectArrayType
    | JsArrayType | JsNullType | RequireDelegateType | ConsoleType
    | NamedType(name: string)

  datatype StorageKind = UnknownStorage | UnboxedValue | Reference

  /** `ValueStorage`: how a temp or variable is represented in IL. */
  datatype ValueStorage = ValueStorage(
    kind: StorageKind,
    clrType: Option<ClrType>,
    scopeName: string,
    typeHandle: Option<nat>)

  function UnknownValueStorage(): ValueStorage
  {
    ValueStorage(UnknownStorage, None, "", None)
  }

  function ObjectReference(): ValueStorage
  {
    ValueStorage(Reference, Some(ObjectType), "", None)
  }

  function UnboxedDouble(): ValueStorage
  {
    ValueStorage(UnboxedValue, Some(DoubleType), "", None)
  }

  datatype BinaryOp =
    | AddNumber | SubNumber | MulNumber | DivNumber | ModNumber | ExpNumber
    | AddDynamic | MulDynamic | ConcatStrings
    | CompareNumberLessThan | CompareNumberGreaterThan
    | CompareNumberLessThanOrEqual | CompareNumberGreaterThanOrEqual
    | CompareNumberEqual | CompareNumberNotEqual
    | CompareBooleanEqual | CompareBooleanNotEqual
    | BitwiseAnd | BitwiseOr | BitwiseXor | LeftShift | RightShift | UnsignedRightShift
    | InOperator | EqualDynamic | NotEqualDynamic | StrictEqualDynamic | StrictNotEqualDynamic

  datatype UnaryOp =
    | Typeof | NegateNumber | BitwiseNotNumber | LogicalNot | IsInstanceOf
    | CallIsTruthy | ConvertToBoolean | ConvertToString

  /** The instance method the class registry resolves uniquely for a
      member name and call-site arity: the receiver class, the method, its
      return type (and the user class it returns, if any), whether it takes
      the scopes array, and its declared parameter count. */
  datatype ResolvedMethod = ResolvedMethod(
    receiverType: nat,
    methodHandle: nat,
    returnClrType: ClrType,
    returnTypeHandle: Option<nat>,
    hasScopesParameter: bool,
    maxParamCount: nat)

  /** What the passes ask of the class registry: the type handle of each
      class (0 is the nil handle), the private fields of each class, the
      declared CLR type and user-class type handle of instance fields and
      private fields, and the uniquely resolvable instance methods keyed
      by member name and arity. */
  datatype ClassRegistry = ClassRegistry(
    typeHandles: map<string, nat>,
    privateFields: set<(string, string)>,
    fieldTypes: map<(string, string), ClrType>,
    privateFieldTypes: map<(string, string), ClrType>,
    fieldTypeHandles: map<(string, string), nat>,
    privateFieldTypeHandles: map<(string, string), nat>,
    uniqueInstanceMethods: map<(string, nat), ResolvedMethod>)

  /** The private field that marks a class whose constructor may return a
      value other than the new instance. */
  const CtorReturnField: string := "__js2il_ctorReturn"

  /** The facts about a declared callable that call normalisation reads. */
  datatype CallableId = CallableId(
    name: string,
    jsParamCount: nat,
    needsArgumentsObject: bool,
    hasRestParameters: bool)

  datatype Instr =
    | ConstNumber(number: int, result: Temp)
    | ConstString(text: string, result: Temp)
    | ConstBoolean(flag: bool, result: Temp)
    | ConstUndefined(result: Temp)
    | ConstNull(result: Temp)
    | LoadParameter(paramIndex: nat, result: Temp)
    | LoadThis(result: Temp)
    | LoadUserClassInstanceField(registryClassName: string, fieldName: string, isPrivateField: bool, result: Temp)
    | GetIntrinsicGlobal(name: string, result: Temp)
    | Binary(binOp: BinaryOp, left: Temp, right: Temp, result: Temp)
    | Unary(unOp: UnaryOp, value: Temp, result: Temp)
    | ConvertToObject(source: Temp, sourceType: Option<ClrType>, result: Temp)
    | ConvertToNumber(source: Temp, result: Temp)
    | CopyTemp(source: Temp, destination: Temp)
    | BuildArray(elements: seq<Temp>, result: Temp)
    | BuildScopesArray(result: Temp)
    | CallIntrinsic(name: string, intrinsicObject: Temp, argumentsArray: Temp, result: Temp)
    | CallInstanceMethod(receiver: Temp, receiverClrType: ClrType, methodName: string, arguments: seq<Temp>, result: Temp)
    | CallIntrinsicStatic(intrinsicName: string, methodName: string, arguments: seq<Temp>, result: Temp)
    | CallFunction(scopesArray: Temp, arguments: seq<Temp>, callable: Option<CallableId>, result: Temp)
    | CallDeclaredCallable(callableId: CallableId, arguments: seq<Temp>, result: Temp)
    | CallFunctionValue(functionValue: Temp, scopesArray: Temp, argumentsArray: Temp, result: Temp)
    | CallMember(receiver: Temp, methodName: string, argumentsArray: Temp, result: Temp)
    | GetItem(obj: Temp, index: Temp, result: Temp)
    | NewUserClass(className: string, operands: seq<Temp>, result: Temp)
    | StoreUserClassInstanceField(className: string, fieldName: string, isPrivateField: bool, value: Temp)
    | Return(value: Temp)
    | BranchIfFalse(condition: Temp, target: nat)
    | BranchIfTrue(condition: Temp, target: nat)
    | Label(labelId: nat)
    | Branch(target: nat)
    | OtherDefining(kindName: string, operands: seq<Temp>, result: Temp)
    | OtherEffect(kindName: string, operands: seq<Temp>)
    // Kinds outside the allocator's operand tables.
    | NewObjectArray(elementCount: int, result: Temp)
    | BeginInitArrayElement(array: Temp, elementIndex: int)
    | StoreElementRef(array: Temp, elementIndex: int, value: Temp)
    | CreateScopesArray(result: Temp)
    | StoreParameter(value: Temp)
    | CallFunctionValueN(functionValue: Temp, scopesArray: Temp, args: seq<Temp>, result: Temp)
    | CallMemberN(receiver: Temp, methodName: string, args: seq<Temp>, result: Temp)
    | CallRequire(requireValue: Temp, moduleId: Temp, result: Temp)
    | GetItemAsNumber(obj: Temp, index: Temp, result: Temp)
    | CallTypedMember(receiver: Temp, receiverType: nat, methodHandle: nat, hasScopesParameter: bool,
                      returnClrType: ClrType, maxParamCount: nat, arguments: seq<Temp>, result: Temp)
    | CallTypedMemberWithFallback(receiver: Temp, methodName: string, receiverType: nat, methodHandle: nat,
                                  hasScopesParameter: bool, returnClrType: ClrType, maxParamCount: nat,
                                  arguments: seq<Temp>, result: Temp)
    | Untracked(kindName: string, temps: seq<Temp>)

  /** `EnumerateUsedTemps`: the temps an instruction reads, in operand
      order, as the allocator's table lists them. */
  function Uses(i: Instr): seq<Temp>
  {
    match i
    case Binary(_, l, r, _) => [l, r]
    case Unary(_, v, _) => [v]
    case ConvertToObject(s, _, _) => [s]
    case ConvertToNumber(s, _) => [s]
    case CopyTemp(s, _) => [s]
    case BuildArray(elems, _) => elems
    case CallIntrinsic(_, o, a, _) => [o, a]
    case CallInstanceMethod(r, _, _, args, _) => [r] + args
    case CallIntrinsicStatic(_, _, args, _) => args
    case CallFunction(s, args, _, _) => [s] + args
    case CallDeclaredCallable(_, args, _) => args
    case CallFunctionValue(f, s, a, _) => [f, s, a]
    case CallMember(r, _, a, _) => [r, a]
    case GetItem(o, x, _) => [o, x]
    case NewUserClass(_, ops, _) => ops
    case StoreUserClassInstanceField(_, _, _, v) => [v]
    case Return(v) => [v]
    case BranchIfFalse(c, _) => [c]
    case BranchIfTrue(c, _) => [c]
    case OtherDefining(_, ops, _) => ops
    case OtherEffect(_, ops) => ops
    case _ => []
  }

  /** `TryGetDefinedTemp`: the temp an instruction writes, if any. */
  function Defined(i: Instr): Option<Temp>
  {
    match i
    case ConstNumber(_, r) => Some(r)
    case ConstString(_, r) => Some(r)
    case ConstBoolean(_, r) => Some(r)
    case ConstUndefined(r) => Some(r)
    case ConstNull(r) => Some(r)
    case LoadParameter(_, r) => Some(r)
    case LoadThis(r) => Some(r)
    case LoadUserClassInstanceField(_, _, _, r) => Some(r)
    case GetIntrinsicGlobal(_, r) => Some(r)
    case Binary(_, _, _, r) => Some(r)
    case Unary(_, _, r) => Some(r)
    case ConvertToObject(_, _, r) => Some(r)
    case ConvertToNumber(_, r) => Some(r)
    case CopyTemp(_, d) => Some(d)
    case BuildArray(_, r) => Some(r)
    case BuildScopesArray(r) => Some(r)
    case CallIntrinsic(_, _, _, r) => Some(r)
    case CallInstanceMethod(_, _, _, _, r) => Some(r)
    case CallIntrinsicStatic(_, _, _, r) => Some(r)
    case CallFunction(_, _, _, r) => Some(r)
    case CallDeclaredCallable(_, _, r) => Some(r)
    case CallFunctionValue(_, _, _, r) => Some(r)
    case CallMember(_, _, _, r) => Some(r)
    case GetItem(_, _, r) => Some(r)
    case NewUserClass(_, _, r) => Some(r)
    case OtherDefining(_, _, r) => Some(r)
    case _ => None
  }

  /** Every temp an instruction mentions, read or written (the
      reflection-based enumerator of the type-normalisation pass). */
  function AllTemps(i: Instr): seq<Temp>
  {
    match i
    case NewObjectArray(_, r) => [r]
    case BeginInitArrayElement(a, _) => [a]
    case StoreElementRef(a, _, v) => [a, v]
    case CreateScopesArray(r) => [r]
    case StoreParameter(v) => [v]
    case CallFunctionValueN(f, s, args, r) => [f, s] + args + [r]
    case CallMemberN(rc, _, args, r) => [rc] + args + [r]
    case CallRequire(f, m, r) => [f, m, r]
    case GetItemAsNumber(o, x, r) => [o, x, r]
    case CallTypedMember(rc, _, _, _, _, _, args, r) => [rc] + args + [r]
    case CallTypedMemberWithFallback(rc, _, _, _, _, _, _, args, r) => [rc] + args + [r]
    case Untracked(_, ts) => ts
    case _ => Uses(i) + (if Defined(i).Some? then [Defined(i).value] else [])
  }

  /** The instructions the reflection enumerator lists on their own: the
      allocator's tables give them no read and no written temp. */
  predicate EnumeratedOnItsOwn(i: Instr)
  {
    i.NewObjectArray? || i.BeginInitArrayElement? || i.StoreElementRef? || i.CreateScopesArray?
    || i.StoreParameter? || i.CallFunctionValueN? || i.CallMemberN? || i.CallRequire?
    || i.GetItemAsNumber? || i.CallTypedMember? || i.CallTypedMemberWithFallback? || i.Untracked?
  }

  lemma OwnEnumerationUntracked(i: Instr)
    requires EnumeratedOnItsOwn(i)
    ensures Uses(i) == [] && Defined(i) == None
  {
  }

  /** The reflection enumerator lists the temps the instruction reads
      first, in operand order, and ends with the one it writes. */
  lemma AllTempsCovers(i: Instr)
    ensures Uses(i) <= AllTemps(i)
    ensures Defined(i).Some? ==> |AllTemps(i)| > 0 && AllTemps(i)[|AllTemps(i)| - 1] == Defined(i).value
  {
    if EnumeratedOnItsOwn(i) {
      OwnEnumerationUntracked(i);
    } else {
      var d := if Defined(i).Some? then [Defined(i).value] else [];
      assert AllTemps(i) == Uses(i) + d;
    }
  }

  predicate Defines(i: Instr, t: Temp)
  {
    Defined(i) == Some(t)
  }

  /** `TryFindDefInstruction`: the first instruction that defines `t`. */
  function FirstDef(instrs: seq<Instr>, t: Temp): (r: Option<nat>)
    ensures r.Some? ==> r.value < |instrs| && Defines(instrs[r.value], t)
    ensures r.Some? ==> forall j :: 0 <= j < r.value ==> !Defines(instrs[j], t)
    ensures r.None? ==> forall j :: 0 <= j < |instrs| ==> !Defines(instrs[j], t)
  {
    if |instrs| == 0 then None
    else if Defines(instrs[0], t) then Some(0)
    else
      var rest := FirstDef(instrs[1..], t);
      if rest.None? then
        assert forall j :: 1 <= j < |instrs| ==> instrs[j] == instrs[1..][j - 1];
        None
      else
        assert forall j :: 1 <= j < rest.value + 1 ==> instrs[j] == instrs[1..][j - 1];
        Some(rest.value + 1)
  }

  /** `IsTempUsedOutside`: some instruction outside `ignore` reads `t`. */
  predicate UsedOutside(instrs: seq<Instr>, t: Temp, ignore: set<int>)
  {
    exists i :: 0 <= i < |instrs| && i !in ignore && t in Uses(instrs[i])
  }

  /** The number of indices below `n` that are not removed. */
  function KeptBefore(remove: set<int>, n: nat): (r: nat)
    ensures r <= n
  {
    if n == 0 then 0 else KeptBefore(remove, n - 1) + (if n - 1 in remove then 0 else 1)
  }

  lemma {:induction false} KeptBeforeMonotone(remove: set<int>, i: nat, j: nat)
    requires i <= j
    ensures KeptBefore(remove, i) <= KeptBefore(remove, j)
    ensures i < j && i !in remove ==> KeptBefore(remove, i) < KeptBefore(remove, j)
  {
    if i < j {
      KeptBeforeMonotone(remove, i, j - 1);
    }
  }

  /** The first `n` elements without the removed indices, in order. */
  function Kept<T>(s: seq<T>, remove: set<int>, n: nat): (r: seq<T>)
    requires n <= |s|
    ensures |r| == KeptBefore(remove, n)
  {
    if n == 0 then [] else Kept(s, remove, n - 1) + (if n - 1 in remove then [] else [s[n - 1]])
  }

  /** Each kept element lands at the position counting the kept elements
      before it. */
  lemma {:induction false} KeptPlacement<T>(s: seq<T>, remove: set<int>, n: nat, i: nat)
    requires n <= |s| && i < n && i !in remove
    ensures KeptBefore(remove, i) < |Kept(s, remove, n)|
    ensures Kept(s, remove, n)[KeptBefore(remove, i)] == s[i]
  {
    if i < n - 1 {
      KeptPlacement(s, remove, n - 1, i);
    }
  }

  /** The compaction loop of the normalisation passes: the list without
      the removed indices, in the original order. */
  method Compact<T>(instrs: seq<T>, remove: set<int>) returns (r: seq<T>)
    ensures |r| == KeptBefore(remove, |instrs|)
    ensures forall i :: 0 <= i < |instrs| && i !in remove ==>
      KeptBefore(remove, i) < |r| && r[KeptBefore(remove, i)] == instrs[i]
  {
    r := [];
    for i := 0 to |instrs|
      invariant r == Kept(instrs, remove, i)
    {
      if i !in remove {
        r := r + [instrs[i]];
      }
    }
    forall i | 0 <= i < |instrs| && i !in remove
      ensures KeptBefore(remove, i) < |r| && r[KeptBefore(remove, i)] == instrs[i]
    {
      KeptPlacement(instrs, remove, |instrs|, i);
    }
  }

  /** Every surviving element of a compaction comes from a kept index. */
  lemma {:induction false} CompactSurjective(remove: set<int>, n: nat, k: nat)
    requires k < KeptBefore(remove, n)
    ensures exists i :: 0 <= i < n && i !in remove && KeptBefore(remove, i) == k
  {
    if n - 1 in remove || k < KeptBefore(remove, n - 1) {
      CompactSurjective(remove, n - 1, k);
    } else {
      assert KeptBefore(remove, n - 1) == k;
    }
  }

  /** A method body: its instructions and the per-temp and per-variable
      tables the passes read and update. */
  class MethodBody {
    var instructions: seq<Instr>
    /** `Temps.Count`. */
    var tempCount: nat
    var tempStorages: seq<ValueStorage>
    /** The variable slot each temp is pinned to, or -1. */
    var tempVariableSlots: seq<int>
    var variableNames: seq<string>
    var variableStorages: seq<ValueStorage>
    var singleAssignmentSlots: set<int>

    constructor (instructions: seq<Instr>, tempCount: nat, tempStorages: seq<ValueStorage>,
                 tempVariableSlots: seq<int>, variableNames: seq<string>,
                 variableStorages: seq<ValueStorage>, singleAssignmentSlots: set<int>)
      ensures this.instructions == instructions && this.tempCount == tempCount
      ensures this.tempStorages == tempStorages && this.tempVariableSlots == tempVariableSlots
      ensures this.variableNames == variableNames && this.variableStorages == variableStorages
      ensures this.singleAssignmentSlots == singleAssignmentSlots
    {
      this.instructions := instructions;
      this.tempCount := tempCount;
      this.tempStorages := tempStorages;
      this.tempVariableSlots := tempVariableSlots;
      this.variableNames := variableNames;
      this.variableStorages := variableStorages;
      this.singleAssignmentSlots := singleAssignmentSlots;
    }
  }

  /** `GetTempStorage`: the temp's storage, or unknown when out of range. */
  function StorageOf(tempStorages: seq<ValueStorage>, t: Temp): ValueStorage
  {
    if 0 <= t < |tempStorages| then tempStorages[t] else UnknownValueStorage()
  }

  /** `GetTempVariableSlot`: the variable slot a temp is pinned to, or -1. */
  function VariableSlotOf(tempVariableSlots: seq<int>, t: Temp): int
  {
    if 0 <= t < |tempVariableSlots| then tempVariableSlots[t] else -1
  }

  /** `SetTempStorage`: a range-checked update. */
  function SetStorage(ts: seq<ValueStorage>, t: Temp, st: ValueStorage): (r: seq<ValueStorage>)
    ensures |r| == |ts|
    ensures forall u :: 0 <= u < |ts| ==> r[u] == (if u == t then st else ts[u])
  {
    if 0 <= t < |ts| then ts[t := st] else ts
  }
}
