/** The console.log peephole: a `console.log(...)` call whose arguments
    can all be produced directly on the evaluation stack is emitted
    without locals, so the temps inside such a sequence need no IL local
    unless something outside the sequence reads them. */
module ConsoleLog {
  import opened JsValues
  import opened Lir
  import Text

  predicate IsConsoleGlobal(instr: Instr)
  {
    instr.GetIntrinsicGlobal? && Text.EqualsIgnoreCase(instr.name, "console")
  }

  predicate IsLogCall(instr: Instr, console: Temp, args: Temp)
  {
    && instr.CallIntrinsic?
    && instr.intrinsicObject == console
    && instr.argumentsArray == args
    && Text.EqualsIgnoreCase(instr.name, "log")
  }

  // ----- The BuildArray sequence -----

  datatype BuildArrayMatch = BuildArrayMatch(buildArrayIndex: nat, elements: seq<Temp>)

  /** `TryMatchConsoleLogBuildArraySequence`. */
  function MatchBuildArraySequence(instrs: seq<Instr>, start: nat): Option<BuildArrayMatch>
  {
    if start + 2 >= |instrs| then None
    else if !IsConsoleGlobal(instrs[start]) then None
    else if !(instrs[start + 1].BuildArray? && |instrs[start + 1].elements| >= 1) then None
    else if !IsLogCall(instrs[start + 2], instrs[start].result, instrs[start + 1].result) then None
    else Some(BuildArrayMatch(start + 1, instrs[start + 1].elements))
  }

  /** The match is exactly three consecutive instructions: the console
      global, a non-empty array of the arguments, and a `log` call on
      those two. */
  lemma BuildArrayMatchIsExact(instrs: seq<Instr>, start: nat)
    ensures MatchBuildArraySequence(instrs, start).Some? <==>
      && start + 2 < |instrs|
      && IsConsoleGlobal(instrs[start])
      && instrs[start + 1].BuildArray? && |instrs[start + 1].elements| >= 1
      && IsLogCall(instrs[start + 2], instrs[start].result, instrs[start + 1].result)
    ensures MatchBuildArraySequence(instrs, start).Some? ==>
      MatchBuildArraySequence(instrs, start).value == BuildArrayMatch(start + 1, instrs[start + 1].elements)
  {
  }

  /** The name checks ignore case. */
  lemma BuildArrayMatchIgnoresCase(g: Temp, a: Temp, r: Temp, elements: seq<Temp>)
    requires |elements| >= 1
    ensures MatchBuildArraySequence(
      [GetIntrinsicGlobal("Console", g), BuildArray(elements, a), CallIntrinsic("LOG", g, a, r)], 0).Some?
  {
  }

  // ----- The NewObjectArray sequence -----

  predicate IsStoreOf(instr: Instr, arr: Temp, argIdx: int)
  {
    match instr
    case StoreElementRef(a, idx, _) => a == arr && idx == argIdx
    case _ => false
  }

  /** An instruction that ends the search for a store. */
  predicate IsBarrier(instr: Instr)
  {
    instr.GetIntrinsicGlobal? || instr.NewObjectArray?
  }

  /** The first store of element `argIdx` at or after `j`, unless a
      barrier comes first. */
  function FindStore(instrs: seq<Instr>, arr: Temp, argIdx: int, j: nat): (r: Option<nat>)
    ensures r.Some? ==> j <= r.value < |instrs| && IsStoreOf(instrs[r.value], arr, argIdx)
    decreases |instrs| - j
  {
    if j >= |instrs| then None
    else if IsStoreOf(instrs[j], arr, argIdx) then Some(j)
    else if IsBarrier(instrs[j]) then None
    else FindStore(instrs, arr, argIdx, j + 1)
  }

  /** The optional `BeginInitArrayElement` before element `argIdx`. */
  function SkipBegin(instrs: seq<Instr>, arr: Temp, argIdx: int, s: nat): (r: nat)
    ensures r == s || r == s + 1
  {
    if s < |instrs| && instrs[s] == BeginInitArrayElement(arr, argIdx) then s + 1 else s
  }

  datatype StoreInfo = StoreInfo(storeIndex: nat, storedValue: Temp)

  /** The stores of elements `argIdx`, ..., `argCount - 1`, in order. */
  function FindStores(instrs: seq<Instr>, arr: Temp, argIdx: nat, argCount: nat, searchIdx: nat)
    : (r: Option<seq<StoreInfo>>)
    ensures r.Some? ==> |r.value| == argCount - argIdx || (argIdx >= argCount && r.value == [])
    decreases argCount - argIdx
  {
    if argIdx >= argCount then Some([])
    else
      var s := SkipBegin(instrs, arr, argIdx, searchIdx);
      match FindStore(instrs, arr, argIdx, s)
      case None => None
      case Some(j) =>
        match FindStores(instrs, arr, argIdx + 1, argCount, j + 1)
        case None => None
        case Some(rest) => Some([StoreInfo(j, instrs[j].value)] + rest)
  }

  /** The stores found are those of consecutive element indices, at
      increasing positions from `searchIdx` on. */
  lemma {:induction false} FindStoresShape(instrs: seq<Instr>, arr: Temp, argIdx: nat, argCount: nat, searchIdx: nat)
    requires FindStores(instrs, arr, argIdx, argCount, searchIdx).Some?
    ensures var r := FindStores(instrs, arr, argIdx, argCount, searchIdx).value;
      && (forall k :: 0 <= k < |r| ==>
            && searchIdx <= r[k].storeIndex < |instrs|
            && IsStoreOf(instrs[r[k].storeIndex], arr, argIdx + k)
            && r[k].storedValue == instrs[r[k].storeIndex].value)
      && (forall k, m :: 0 <= k < m < |r| ==> r[k].storeIndex < r[m].storeIndex)
    decreases argCount - argIdx
  {
    if argIdx < argCount {
      var s := SkipBegin(instrs, arr, argIdx, searchIdx);
      var j := FindStore(instrs, arr, argIdx, s).value;
      FindStoresShape(instrs, arr, argIdx + 1, argCount, j + 1);
    }
  }

  /** `TryMatchConsoleLogMultiArgSequence`: the console global, a new
      object array of at least one element, a store of each element in
      index order, and a `log` call right after the last store. */
  function MatchMultiArgSequence(instrs: seq<Instr>, start: nat): (r: Option<seq<StoreInfo>>)
    ensures r.Some? ==> |r.value| >= 1 && r.value[|r.value| - 1].storeIndex + 1 < |instrs|
  {
    if start + 3 >= |instrs| then None
    else if !IsConsoleGlobal(instrs[start]) then None
    else if !(instrs[start + 1].NewObjectArray? && instrs[start + 1].elementCount >= 1) then None
    else
      var a := instrs[start + 1];
      match FindStores(instrs, a.result, 0, a.elementCount as nat, start + 2)
      case None => None
      case Some(infos) =>
        var last := infos[|infos| - 1].storeIndex;
        if last + 1 >= |instrs| then None
        else if !IsLogCall(instrs[last + 1], instrs[start].result, a.result) then None
        else Some(infos)
  }

  /** A multi-argument match stores every element and ends with the
      `log` call on the console global and the array. */
  lemma MultiArgMatchShape(instrs: seq<Instr>, start: nat)
    requires MatchMultiArgSequence(instrs, start).Some?
    ensures var infos := MatchMultiArgSequence(instrs, start).value;
      && var last := infos[|infos| - 1].storeIndex;
      && IsConsoleGlobal(instrs[start])
      && instrs[start + 1].NewObjectArray?
      && |infos| == instrs[start + 1].elementCount
      && (forall k :: 0 <= k < |infos| ==>
            start + 2 <= infos[k].storeIndex < |instrs| && IsStoreOf(instrs[infos[k].storeIndex], instrs[start + 1].result, k))
      && IsLogCall(instrs[last + 1], instrs[start].result, instrs[start + 1].result)
  {
    FindStoresShape(instrs, instrs[start + 1].result, 0, instrs[start + 1].elementCount as nat, start + 2);
  }

  /** The ends of a multi-argument match: the console global, the new
      array, and the `log` call right after the last store. */
  lemma MultiArgEnds(instrs: seq<Instr>, start: nat)
    requires MatchMultiArgSequence(instrs, start).Some?
    ensures var infos := MatchMultiArgSequence(instrs, start).value;
      && var last := infos[|infos| - 1].storeIndex;
      && start + 2 <= last && last + 1 < |instrs|
      && IsConsoleGlobal(instrs[start])
      && instrs[start + 1].NewObjectArray?
      && IsLogCall(instrs[last + 1], instrs[start].result, instrs[start + 1].result)
  {
    MultiArgMatchShape(instrs, start);
  }

  method FindStoreLoop(instrs: seq<Instr>, arr: Temp, argIdx: int, searchIdx: nat) returns (r: Option<nat>)
    ensures r == FindStore(instrs, arr, argIdx, searchIdx)
  {
    var j := searchIdx;
    while j < |instrs|
      invariant searchIdx <= j
      invariant FindStore(instrs, arr, argIdx, searchIdx) == FindStore(instrs, arr, argIdx, j)
      decreases |instrs| - j
    {
      if IsStoreOf(instrs[j], arr, argIdx) {
        return Some(j);
      }
      if IsBarrier(instrs[j]) {
        return None;
      }
      j := j + 1;
    }
    return None;
  }

  /** The store search of `TryMatchConsoleLogMultiArgSequence`. */
  /** The stores found so far in front of those still to be found. */
  function Prefixed(found: seq<StoreInfo>, rest: Option<seq<StoreInfo>>): Option<seq<StoreInfo>>
  {
    if rest.Some? then Some(found + rest.value) else None
  }

  lemma PrefixedAppend(found: seq<StoreInfo>, info: StoreInfo, rest: Option<seq<StoreInfo>>)
    ensures Prefixed(found, Prefixed([info], rest)) == Prefixed(found + [info], rest)
  {
    if rest.Some? {
      assert found + ([info] + rest.value) == (found + [info]) + rest.value;
    }
  }

  method TryMatchConsoleLogMultiArgSequence(instrs: seq<Instr>, start: nat) returns (r: Option<seq<StoreInfo>>)
    ensures r == MatchMultiArgSequence(instrs, start)
  {
    if start + 3 >= |instrs| {
      return None;
    }
    if !IsConsoleGlobal(instrs[start]) {
      return None;
    }
    if !(instrs[start + 1].NewObjectArray? && instrs[start + 1].elementCount >= 1) {
      return None;
    }
    var a := instrs[start + 1];
    var found := CollectStores(instrs, a.result, a.elementCount as nat, start + 2);
    if found.None? {
      return None;
    }
    var storeInfos := found.value;
    var last := storeInfos[|storeInfos| - 1].storeIndex;
    if last + 1 >= |instrs| {
      return None;
    }
    if !IsLogCall(instrs[last + 1], instrs[start].result, a.result) {
      return None;
    }
    return Some(storeInfos);
  }

  /** The store-collecting loop of `TryMatchConsoleLogMultiArgSequence`. */
  method CollectStores(instrs: seq<Instr>, arr: Temp, argCount: nat, searchStart: nat) returns (r: Option<seq<StoreInfo>>)
    ensures r == FindStores(instrs, arr, 0, argCount, searchStart)
  {
    var storeInfos: seq<StoreInfo> := [];
    var searchIdx: nat := searchStart;
    ghost var all := FindStores(instrs, arr, 0, argCount, searchStart);
    assert all.Some? ==> [] + all.value == all.value;
    for argIdx := 0 to argCount
      invariant |storeInfos| == argIdx
      invariant all == Prefixed(storeInfos, FindStores(instrs, arr, argIdx, argCount, searchIdx))
    {
      var s := SkipBegin(instrs, arr, argIdx, searchIdx);
      var storeIndex := FindStoreLoop(instrs, arr, argIdx, s);
      if storeIndex.None? {
        return None;
      }
      var info := StoreInfo(storeIndex.value, instrs[storeIndex.value].value);
      PrefixedAppend(storeInfos, info, FindStores(instrs, arr, argIdx + 1, argCount, storeIndex.value + 1));
      storeInfos := storeInfos + [info];
      searchIdx := storeIndex.value + 1;
    }
    assert storeInfos + [] == storeInfos;
    return Some(storeInfos);
  }

  // ----- The update-expression argument -----

  datatype UpdateMatch = UpdateMatch(updatedVarSlot: nat, isDecrement: bool, isPrefix: bool)

  predicate IsUpdateStep(instr: Instr)
  {
    instr.Binary? && (instr.binOp == AddNumber || instr.binOp == SubNumber)
  }

  /** The first numeric add or subtract in `[i, end)`. */
  function FirstUpdate(instrs: seq<Instr>, i: nat, end: nat): (r: Option<nat>)
    ensures r.Some? ==> i <= r.value < end && r.value < |instrs| && IsUpdateStep(instrs[r.value])
    ensures r.Some? ==> forall k :: i <= k < r.value ==> !IsUpdateStep(instrs[k])
    decreases end - i
  {
    if i >= end || i >= |instrs| then None
    else if IsUpdateStep(instrs[i]) then Some(i)
    else FirstUpdate(instrs, i + 1, end)
  }

  /** `TryMatchUpdateExpressionForConsoleArg`: the argument boxes the
      value of `x++`, `++x`, `x--` or `--x` on a variable-mapped `x`. */
  function MatchUpdateExpression(instrs: seq<Instr>, tvs: seq<int>, start: nat, storeIndex: nat, storedValue: Temp)
    : Option<UpdateMatch>
  {
    match FirstDef(instrs, storedValue)
    case None => None
    case Some(d) =>
      if !instrs[d].ConvertToObject? then None
      else
        var source := instrs[d].source;
        match FirstUpdate(instrs, start, storeIndex)
        case None => None
        case Some(k) =>
          var u := instrs[k];
          var slot := if 0 <= u.result < |tvs| then tvs[u.result] else -1;
          if slot < 0 then None
          else
            match FirstDef(instrs, u.right)
            case None => None
            case Some(rd) =>
              if !(instrs[rd].ConstNumber? && instrs[rd].number == 1) then None
              else if source != u.result && source != u.left then None
              else Some(UpdateMatch(slot, u.binOp == SubNumber, source == u.result))
  }

  /** A matched update adds or subtracts the constant one on a
      variable-mapped temp, and the argument is its new value (prefix) or
      its old value (postfix). */
  lemma UpdateMatchShape(instrs: seq<Instr>, tvs: seq<int>, start: nat, storeIndex: nat, storedValue: Temp)
    requires MatchUpdateExpression(instrs, tvs, start, storeIndex, storedValue).Some?
    ensures var m := MatchUpdateExpression(instrs, tvs, start, storeIndex, storedValue).value;
      var k := FirstUpdate(instrs, start, storeIndex).value;
      var d := FirstDef(instrs, storedValue).value;
      && instrs[d].ConvertToObject?
      && 0 <= instrs[k].result < |tvs| && tvs[instrs[k].result] == m.updatedVarSlot
      && instrs[FirstDef(instrs, instrs[k].right).value] == ConstNumber(1, instrs[k].right)
      && (m.isDecrement <==> instrs[k].binOp == SubNumber)
      && (m.isPrefix ==> instrs[d].source == instrs[k].result)
      && (!m.isPrefix ==> instrs[d].source == instrs[k].left)
  {
  }

  /** Starting the search one instruction later, past a
      `BeginInitArrayElement`, changes nothing. */
  lemma UpdateMatchSkipsBegin(instrs: seq<Instr>, tvs: seq<int>, start: nat, storeIndex: nat, storedValue: Temp)
    requires start < |instrs| && instrs[start].BeginInitArrayElement?
    ensures MatchUpdateExpression(instrs, tvs, start, storeIndex, storedValue) ==
            MatchUpdateExpression(instrs, tvs, start + 1, storeIndex, storedValue)
  {
    assert FirstUpdate(instrs, start, storeIndex) == FirstUpdate(instrs, start + 1, storeIndex);
  }

  method TryMatchUpdateExpressionForConsoleArg(instrs: seq<Instr>, tvs: seq<int>, start: nat, storeIndex: nat,
                                               storedValue: Temp) returns (r: Option<UpdateMatch>)
    ensures r == MatchUpdateExpression(instrs, tvs, start, storeIndex, storedValue)
  {
    var valueDef := FirstDef(instrs, storedValue);
    if valueDef.None? || !instrs[valueDef.value].ConvertToObject? {
      return None;
    }
    var valueConv := instrs[valueDef.value];
    var found: Option<nat> := None;
    var i := start;
    while i < storeIndex && i < |instrs|
      invariant start <= i
      invariant FirstUpdate(instrs, start, storeIndex) == FirstUpdate(instrs, i, storeIndex)
      decreases storeIndex - i
    {
      if IsUpdateStep(instrs[i]) {
        found := Some(i);
        break;
      }
      i := i + 1;
    }
    if found.None? {
      return None;
    }
    var u := instrs[found.value];
    var updatedVarSlot := -1;
    if 0 <= u.result < |tvs| {
      updatedVarSlot := tvs[u.result];
    }
    if updatedVarSlot < 0 {
      return None;
    }
    var rightDef := FirstDef(instrs, u.right);
    if rightDef.None? || !(instrs[rightDef.value].ConstNumber? && instrs[rightDef.value].number == 1) {
      return None;
    }
    var prefix := valueConv.source == u.result;
    var postfix := valueConv.source == u.left;
    if !prefix && !postfix {
      return None;
    }
    return Some(UpdateMatch(updatedVarSlot, u.binOp == SubNumber, prefix));
  }

  // ----- Stack-only arguments -----

  predicate IsStackOnlyUnary(op: UnaryOp)
  {
    op == Typeof || op == NegateNumber || op == BitwiseNotNumber
  }

  predicate IsStackOnlyBinary(op: BinaryOp)
  {
    op in {CompareNumberLessThan, CompareNumberGreaterThan, CompareNumberLessThanOrEqual,
           CompareNumberGreaterThanOrEqual, CompareNumberEqual, CompareNumberNotEqual,
           CompareBooleanEqual, CompareBooleanNotEqual, AddDynamic, MulDynamic}
  }

  function PinnedSlot(tvs: seq<int>, t: Temp): int
  {
    if 0 <= t < |tvs| then tvs[t] else -1
  }

  /** `CanEmitTempStackOnly`: the temp can be produced on the stack
      without any local.  `fuel` bounds the chain of definitions
      followed. */
  function CanEmitTempStackOnly(instrs: seq<Instr>, tvs: seq<int>, t: Temp, defined: set<Temp>, fuel: nat): bool
    decreases fuel
  {
    if PinnedSlot(tvs, t) >= 0 then true
    else
      match FirstDef(instrs, t)
      case None => false
      case Some(d) =>
        match instrs[d]
        case ConstNumber(_, _) => true
        case ConstString(_, _) => true
        case ConstBoolean(_, _) => true
        case ConstUndefined(_) => true
        case ConstNull(_) => true
        case LoadParameter(_, _) => true
        case ConvertToObject(source, _, _) =>
          fuel > 0 && CanEmitTempStackOnly(instrs, tvs, source, defined, fuel - 1)
        case Unary(op, v, _) =>
          IsStackOnlyUnary(op) && fuel > 0 && CanEmitTempStackOnly(instrs, tvs, v, defined, fuel - 1)
        case Binary(op, l, r, _) =>
          IsStackOnlyBinary(op) && fuel > 0 &&
          CanEmitTempStackOnly(instrs, tvs, l, defined, fuel - 1) &&
          CanEmitTempStackOnly(instrs, tvs, r, defined, fuel - 1)
        case GetIntrinsicGlobal(_, res) => res in defined
        case NewObjectArray(_, res) => res in defined
        case _ => false
  }

  /** Variable-mapped temps, constants and parameter loads are always
      stack-only; a temp that is neither mapped nor defined never is. */
  lemma StackOnlyBaseCases(instrs: seq<Instr>, tvs: seq<int>, t: Temp, defined: set<Temp>, fuel: nat)
    ensures PinnedSlot(tvs, t) >= 0 ==> CanEmitTempStackOnly(instrs, tvs, t, defined, fuel)
    ensures PinnedSlot(tvs, t) < 0 && FirstDef(instrs, t).None? ==> !CanEmitTempStackOnly(instrs, tvs, t, defined, fuel)
    ensures PinnedSlot(tvs, t) < 0 && FirstDef(instrs, t).Some? ==>
      var def := instrs[FirstDef(instrs, t).value];
      (def.ConstNumber? || def.ConstString? || def.ConstBoolean? || def.ConstUndefined? || def.ConstNull? ||
       def.LoadParameter?) ==> CanEmitTempStackOnly(instrs, tvs, t, defined, fuel)
  {
  }

  /** Allowing more of the sequence's own temps keeps a stack-only temp
      stack-only. */
  lemma {:induction false} StackOnlyMonotone(instrs: seq<Instr>, tvs: seq<int>, t: Temp, defined: set<Temp>,
                                             more: set<Temp>, fuel: nat)
    requires defined <= more && CanEmitTempStackOnly(instrs, tvs, t, defined, fuel)
    ensures CanEmitTempStackOnly(instrs, tvs, t, more, fuel)
    decreases fuel
  {
    if PinnedSlot(tvs, t) < 0 {
      var d := FirstDef(instrs, t).value;
      match instrs[d]
      case ConvertToObject(source, _, _) => StackOnlyMonotone(instrs, tvs, source, defined, more, fuel - 1);
      case Unary(op, v, _) => StackOnlyMonotone(instrs, tvs, v, defined, more, fuel - 1);
      case Binary(op, l, r, _) =>
        StackOnlyMonotone(instrs, tvs, l, defined, more, fuel - 1);
        StackOnlyMonotone(instrs, tvs, r, defined, more, fuel - 1);
      case _ =>
    }
  }

  predicate AllStackOnly(instrs: seq<Instr>, tvs: seq<int>, temps: seq<Temp>, defined: set<Temp>)
  {
    forall k :: 0 <= k < |temps| ==> CanEmitTempStackOnly(instrs, tvs, temps[k], defined, |instrs|)
  }

  function StoredValues(infos: seq<StoreInfo>): (r: seq<Temp>)
    ensures |r| == |infos| && forall k :: 0 <= k < |infos| ==> r[k] == infos[k].storedValue
  {
    if |infos| == 0 then [] else [infos[0].storedValue] + StoredValues(infos[1..])
  }

  /** The temps defined by instructions `lo` through `hi`. */
  function DefinedBetween(instrs: seq<Instr>, lo: nat, hi: nat): set<Temp>
    requires hi < |instrs|
  {
    DefinedBefore(instrs, lo, hi + 1)
  }

  /** The temps defined by instructions `lo` up to, not including, `end`. */
  function DefinedBefore(instrs: seq<Instr>, lo: nat, end: nat): set<Temp>
    requires end <= |instrs|
    decreases end
  {
    if end <= lo then {}
    else
      var rest := DefinedBefore(instrs, lo, end - 1);
      match Defined(instrs[end - 1])
      case Some(t) => rest + {t}
      case None => rest
  }

  /** A temp is in the set iff one of those instructions defines it. */
  lemma {:induction false} DefinedBeforeMembers(instrs: seq<Instr>, lo: nat, end: nat, t: Temp)
    requires end <= |instrs|
    ensures t in DefinedBefore(instrs, lo, end) <==> exists j :: lo <= j < end && Defined(instrs[j]) == Some(t)
    decreases end
  {
    if end > lo {
      DefinedBeforeMembers(instrs, lo, end - 1, t);
      if Defined(instrs[end - 1]) == Some(t) {
        assert lo <= end - 1 < end && Defined(instrs[end - 1]) == Some(t);
      }
    }
  }

  method DefinedInSequence(instrs: seq<Instr>, lo: nat, hi: nat) returns (r: set<Temp>)
    requires hi < |instrs|
    ensures r == DefinedBetween(instrs, lo, hi)
  {
    r := {};
    if lo > hi {
      return;
    }
    var j := lo;
    while j <= hi
      invariant lo <= j <= hi + 1
      invariant r == DefinedBefore(instrs, lo, j)
      decreases hi + 1 - j
    {
      var def := Defined(instrs[j]);
      if def.Some? {
        r := r + {def.value};
      }
      j := j + 1;
    }
  }

  method AllArgsStackOnly(instrs: seq<Instr>, tvs: seq<int>, temps: seq<Temp>, defined: set<Temp>) returns (ok: bool)
    ensures ok == AllStackOnly(instrs, tvs, temps, defined)
  {
    for k := 0 to |temps|
      invariant forall m :: 0 <= m < k ==> CanEmitTempStackOnly(instrs, tvs, temps[m], defined, |instrs|)
    {
      if !CanEmitTempStackOnly(instrs, tvs, temps[k], defined, |instrs|) {
        return false;
      }
    }
    return true;
  }

  // ----- The replaced regions and the mask -----

  /** The BuildArray sequence matches at `i` and all its elements are
      stack-only. */
  predicate BuildArrayApplies(instrs: seq<Instr>, tvs: seq<int>, i: nat)
  {
    && MatchBuildArraySequence(instrs, i).Some?
    && AllStackOnly(instrs, tvs, MatchBuildArraySequence(instrs, i).value.elements, DefinedBetween(instrs, i, i + 1))
  }

  /** The call index of the console.log sequence replaced from `i`, if
      one starts there. */
  function RegionAt(instrs: seq<Instr>, tvs: seq<int>, i: nat): (r: Option<nat>)
    ensures r.Some? ==> i + 2 <= r.value < |instrs|
  {
    if BuildArrayApplies(instrs, tvs, i) then Some(i + 2)
    else if MultiArgCall(instrs, i).Some? && MultiArgApplies(instrs, tvs, i) then MultiArgCall(instrs, i)
    else None
  }

  /** The index of the `log` call of the multi-argument sequence at `i`. */
  function MultiArgCall(instrs: seq<Instr>, i: nat): (r: Option<nat>)
    ensures r.Some? <==> MatchMultiArgSequence(instrs, i).Some?
    ensures r.Some? ==>
      && i + 2 <= r.value < |instrs|
      && r.value == MatchMultiArgSequence(instrs, i).value[|MatchMultiArgSequence(instrs, i).value| - 1].storeIndex + 1
  {
    match MatchMultiArgSequence(instrs, i)
    case None => None
    case Some(infos) =>
      MultiArgEnds(instrs, i);
      Some(infos[|infos| - 1].storeIndex + 1)
  }

  /** The arguments of the multi-argument sequence at `i` are a single
      update expression, or all stack-only. */
  predicate MultiArgApplies(instrs: seq<Instr>, tvs: seq<int>, i: nat)
    requires MatchMultiArgSequence(instrs, i).Some?
  {
    var infos := MatchMultiArgSequence(instrs, i).value;
    var last := infos[|infos| - 1].storeIndex;
    var idx := if instrs[i + 2].BeginInitArrayElement? then i + 3 else i + 2;
    (|infos| == 1 && MatchUpdateExpression(instrs, tvs, idx, infos[0].storeIndex, infos[0].storedValue).Some?)
    || AllStackOnly(instrs, tvs, StoredValues(infos), DefinedBetween(instrs, i, last))
  }

  /** A replaced region starts at the console global and ends at a `log`
      call on it. */
  lemma RegionIsConsoleLog(instrs: seq<Instr>, tvs: seq<int>, i: nat)
    requires RegionAt(instrs, tvs, i).Some?
    ensures var c := RegionAt(instrs, tvs, i).value;
      && IsConsoleGlobal(instrs[i])
      && IsLogCall(instrs[c], instrs[i].result, instrs[i + 1].result)
  {
    if BuildArrayApplies(instrs, tvs, i) {
      BuildArrayMatchIsExact(instrs, i);
      assert RegionAt(instrs, tvs, i) == Some(i + 2);
    } else {
      assert RegionAt(instrs, tvs, i) == MultiArgCall(instrs, i);
      MultiArgEnds(instrs, i);
    }
  }

  /** The region table: for each index, the call index of the sequence
      replaced from there, if one starts there. */
  ghost function Regions(instrs: seq<Instr>, tvs: seq<int>): seq<Option<nat>>
  {
    RegionsFrom(instrs, tvs, 0)
  }

  ghost function RegionsFrom(instrs: seq<Instr>, tvs: seq<int>, k: nat): (r: seq<Option<nat>>)
    ensures |r| == |instrs| - k || (k >= |instrs| && r == [])
    decreases |instrs| - k
  {
    if k >= |instrs| then [] else [RegionAt(instrs, tvs, k)] + RegionsFrom(instrs, tvs, k + 1)
  }

  lemma {:induction false} RegionsFromAt(instrs: seq<Instr>, tvs: seq<int>, k: nat, m: nat)
    requires k + m < |instrs|
    ensures RegionsFrom(instrs, tvs, k)[m] == RegionAt(instrs, tvs, k + m)
    decreases m
  {
    if m > 0 {
      RegionsFromAt(instrs, tvs, k + 1, m - 1);
    }
  }

  /** The table has one entry per instruction, each the region starting
      there. */
  lemma RegionsAt(instrs: seq<Instr>, tvs: seq<int>, i: nat)
    requires i < |instrs|
    ensures |Regions(instrs, tvs)| == |instrs|
    ensures Regions(instrs, tvs)[i] == RegionAt(instrs, tvs, i)
  {
    RegionsFromAt(instrs, tvs, 0, i);
  }

  lemma RegionsAreWellFormed(instrs: seq<Instr>, tvs: seq<int>)
    ensures |Regions(instrs, tvs)| == |instrs| && RegionsWellFormed(Regions(instrs, tvs))
    ensures RegionTable(instrs, tvs, Regions(instrs, tvs))
  {
    forall k | 0 <= k < |instrs|
      ensures Regions(instrs, tvs)[k] == RegionAt(instrs, tvs, k)
    {
      RegionsAt(instrs, tvs, k);
    }
  }

  /** `regions` holds the region starting at each index. */
  ghost predicate RegionTable(instrs: seq<Instr>, tvs: seq<int>, regions: seq<Option<nat>>)
  {
    && |regions| == |instrs|
    && forall k {:trigger RegionAt(instrs, tvs, k)} :: 0 <= k < |instrs| ==> regions[k] == RegionAt(instrs, tvs, k)
  }

  /** Every region ends after it starts and within the body. */
  predicate RegionsWellFormed(regions: seq<Option<nat>>)
  {
    forall k :: 0 <= k < |regions| && regions[k].Some? ==> k < regions[k].value < |regions|
  }

  /** Whether instruction `j` lies in a region replaced by the scan that
      starts at `i`: the scan skips over each region it replaces. */
  predicate Covered(regions: seq<Option<nat>>, i: nat, j: nat)
    requires RegionsWellFormed(regions)
    decreases |regions| - i
  {
    if i >= |regions| then false
    else match regions[i]
      case Some(c) => (i <= j <= c) || Covered(regions, c + 1, j)
      case None => Covered(regions, i + 1, j)
  }

  /** A replaced instruction lies in a region starting at or before it. */
  lemma {:induction false} CoveredLiesInRegion(regions: seq<Option<nat>>, i: nat, j: nat)
    requires RegionsWellFormed(regions) && Covered(regions, i, j)
    ensures exists s :: i <= s <= j && s < |regions| && regions[s].Some? && j <= regions[s].value
    decreases |regions| - i
  {
    match regions[i]
    case Some(c) =>
      if !(i <= j <= c) {
        CoveredLiesInRegion(regions, c + 1, j);
      }
    case None =>
      CoveredLiesInRegion(regions, i + 1, j);
  }

  /** Instructions before the scan position are never covered from it. */
  lemma {:induction false} CoveredFromIsAfter(regions: seq<Option<nat>>, i: nat, j: nat)
    requires RegionsWellFormed(regions) && j < i
    ensures !Covered(regions, i, j)
    decreases |regions| - i
  {
    if i < |regions| {
      match regions[i]
      case Some(c) => CoveredFromIsAfter(regions, c + 1, j);
      case None => CoveredFromIsAfter(regions, i + 1, j);
    }
  }

  /** A temp is used outside every replaced region. */
  ghost predicate UsedOutsideRegions(instrs: seq<Instr>, tvs: seq<int>, t: Temp)
  {
    RegionsAreWellFormed(instrs, tvs);
    exists j :: 0 <= j < |instrs| && !Covered(Regions(instrs, tvs), 0, j) && t in Uses(instrs[j])
  }

  /** What `ComputeStackOnlyMask` returns: none without temps; otherwise
      a temp needs a local iff something outside the replaced regions
      reads it. */
  ghost function StackOnlyMask(instrs: seq<Instr>, tvs: seq<int>, tempCount: nat): Option<seq<bool>>
  {
    if tempCount == 0 then None
    else Some(seq(tempCount, t requires 0 <= t < tempCount => UsedOutsideRegions(instrs, tvs, t)))
  }

  /** `ComputeStackOnlyMask`. */
  method ComputeStackOnlyMask(body: MethodBody) returns (r: Option<seq<bool>>)
    ensures r == StackOnlyMask(body.instructions, body.tempVariableSlots, body.tempCount)
  {
    var tempCount := body.tempCount;
    var instrs := body.instructions;
    var tvs := body.tempVariableSlots;
    if tempCount == 0 {
      return None;
    }
    ghost var regions := Regions(instrs, tvs);
    RegionsAreWellFormed(instrs, tvs);
    var replaced := MarkReplaced(instrs, tvs, regions);
    var usedOutside := UsedOutsideOf(instrs, replaced, tempCount);
    assert forall t :: 0 <= t < tempCount ==> usedOutside[t] == UsedOutsideRegions(instrs, tvs, t) by {
      forall t | 0 <= t < tempCount
        ensures usedOutside[t] == UsedOutsideRegions(instrs, tvs, t)
      {
        if usedOutside[t] {
          var j :| 0 <= j < |instrs| && !replaced[j] && t in Uses(instrs[j]);
          assert !Covered(regions, 0, j);
        }
      }
    }
    assert usedOutside == StackOnlyMask(instrs, tvs, tempCount).value;
    return Some(usedOutside);
  }

  /** The scan of `ComputeStackOnlyMask` that marks replaced regions. */
  method MarkReplaced(instrs: seq<Instr>, tvs: seq<int>, ghost regions: seq<Option<nat>>) returns (replaced: seq<bool>)
    requires RegionTable(instrs, tvs, regions) && RegionsWellFormed(regions)
    ensures |replaced| == |instrs|
    ensures forall j :: 0 <= j < |instrs| ==> replaced[j] == Covered(regions, 0, j)
  {
    var n := |instrs|;
    var marks := new bool[n](_ => false);
    var i := 0;
    while i < n
      invariant 0 <= i <= n || (i == 0 && n == 0)
      invariant forall j :: 0 <= j < n ==> (Covered(regions, 0, j) <==> marks[j] || Covered(regions, i, j))
      invariant forall j :: i <= j < n ==> !marks[j]
      decreases n - i
    {
      var region := RegionAtMethod(instrs, tvs, i, regions);
      if region.Some? {
        var callIndex := region.value;
        for j := i to callIndex + 1
          invariant forall k :: 0 <= k < n ==> (Covered(regions, 0, k) <==>
            marks[k] || (j <= k <= callIndex) || Covered(regions, callIndex + 1, k))
          invariant forall k :: callIndex < k < n ==> !marks[k]
        {
          marks[j] := true;
        }
        i := callIndex + 1;
      } else {
        i := i + 1;
      }
    }
    replaced := marks[..];
  }

  /** One step of the scan: the region starting at `i`, if any. */
  method RegionAtMethod(instrs: seq<Instr>, tvs: seq<int>, i: nat, ghost regions: seq<Option<nat>>)
    returns (r: Option<nat>)
    requires RegionTable(instrs, tvs, regions) && i < |instrs|
    ensures r == regions[i]
  {
    assert regions[i] == RegionAt(instrs, tvs, i);
    var buildArray := BuildArrayRegion(instrs, tvs, i);
    if buildArray {
      return Some(i + 2);
    }
    r := MultiArgRegion(instrs, tvs, i);
  }

  /** The BuildArray branch of the scan. */
  method BuildArrayRegion(instrs: seq<Instr>, tvs: seq<int>, i: nat) returns (ok: bool)
    ensures ok == BuildArrayApplies(instrs, tvs, i)
  {
    var m := MatchBuildArraySequence(instrs, i);
    if m.None? {
      return false;
    }
    var defined := DefinedInSequence(instrs, i, m.value.buildArrayIndex);
    ok := AllArgsStackOnly(instrs, tvs, m.value.elements, defined);
  }

  /** The multi-argument branch of the scan: the call index when it
      replaces the sequence. */
  method MultiArgRegion(instrs: seq<Instr>, tvs: seq<int>, i: nat) returns (r: Option<nat>)
    ensures r == (if MultiArgCall(instrs, i).Some? && MultiArgApplies(instrs, tvs, i) then MultiArgCall(instrs, i) else None)
  {
    var infos := TryMatchConsoleLogMultiArgSequence(instrs, i);
    if infos.None? {
      return None;
    }
    var storeInfos := infos.value;
    var ok := MultiArgArgumentsFit(instrs, tvs, i, storeInfos);
    if ok {
      return Some(storeInfos[|storeInfos| - 1].storeIndex + 1);
    }
    return None;
  }

  /** The argument test of the multi-argument branch. */
  method MultiArgArgumentsFit(instrs: seq<Instr>, tvs: seq<int>, i: nat, storeInfos: seq<StoreInfo>) returns (ok: bool)
    requires MatchMultiArgSequence(instrs, i) == Some(storeInfos)
    ensures ok == MultiArgApplies(instrs, tvs, i)
  {
    var last := storeInfos[|storeInfos| - 1].storeIndex;
    var defined := DefinedInSequence(instrs, i, last);
    if |storeInfos| == 1 {
      var idx := i + 2;
      if instrs[idx].BeginInitArrayElement? {
        idx := idx + 1;
      }
      var update := TryMatchUpdateExpressionForConsoleArg(instrs, tvs, idx, storeInfos[0].storeIndex, storeInfos[0].storedValue);
      if update.Some? {
        return true;
      }
    }
    ok := AllArgsStackOnly(instrs, tvs, StoredValues(storeInfos), defined);
  }

  /** The second loop of `ComputeStackOnlyMask`. */
  method UsedOutsideOf(instrs: seq<Instr>, replaced: seq<bool>, tempCount: nat) returns (usedOutside: seq<bool>)
    requires |replaced| == |instrs|
    ensures |usedOutside| == tempCount
    ensures forall t :: 0 <= t < tempCount ==>
      (usedOutside[t] <==> exists j :: 0 <= j < |instrs| && !replaced[j] && t in Uses(instrs[j]))
  {
    var marks := new bool[tempCount](_ => false);
    for i := 0 to |instrs|
      invariant forall t :: 0 <= t < tempCount ==>
        (marks[t] <==> exists j :: 0 <= j < i && !replaced[j] && t in Uses(instrs[j]))
    {
      if replaced[i] {
        continue;
      }
      var ops := Uses(instrs[i]);
      for k := 0 to |ops|
        invariant forall t :: 0 <= t < tempCount ==>
          (marks[t] <==> (exists j :: 0 <= j < i && !replaced[j] && t in Uses(instrs[j])) || t in ops[..k])
      {
        var used := ops[k];
        if 0 <= used < tempCount {
          marks[used] := true;
        }
      }
      assert ops[..|ops|] == ops;
    }
    usedOutside := marks[..];
  }

  /** Without temps there is no mask. */
  lemma NoTempsNoMask(instrs: seq<Instr>, tvs: seq<int>)
    ensures StackOnlyMask(instrs, tvs, 0).None?
  {
  }

  /** A temp read by an instruction that no console.log region spans
      keeps its local; a temp read by nothing gets none. */
  lemma MaskFollowsOutsideUses(instrs: seq<Instr>, tvs: seq<int>, tempCount: nat, t: Temp, j: nat)
    requires 0 <= t < tempCount
    ensures (&& j < |instrs| && t in Uses(instrs[j])
             && forall s :: 0 <= s <= j ==> RegionAt(instrs, tvs, s).None? || RegionAt(instrs, tvs, s).value < j) ==>
      StackOnlyMask(instrs, tvs, tempCount).value[t]
    ensures (forall k :: 0 <= k < |instrs| ==> t !in Uses(instrs[k])) ==>
      !StackOnlyMask(instrs, tvs, tempCount).value[t]
  {
    var regions := Regions(instrs, tvs);
    RegionsAreWellFormed(instrs, tvs);
    if j < |instrs| && t in Uses(instrs[j]) &&
      (forall s :: 0 <= s <= j ==> RegionAt(instrs, tvs, s).None? || RegionAt(instrs, tvs, s).value < j)
    {
      forall s | 0 <= s <= j && s < |regions| && regions[s].Some?
        ensures regions[s].value < j
      {
        RegionsAt(instrs, tvs, s);
      }
      if Covered(regions, 0, j) {
        CoveredLiesInRegion(regions, 0, j);
        assert false;
      }
    }
  }

  // ----- What the emitter consumes -----

  /** `TryEmitPeephole`'s decision: the number of instructions the
      stack-only emission consumes from `i`, or `None` when it does not
      apply. */
  function PeepholeConsumed(instrs: seq<Instr>, tvs: seq<int>, i: nat): Option<nat>
  {
    if BuildArrayApplies(instrs, tvs, i) then Some(3)
    else if i + 3 >= |instrs| then None
    else if MultiArgCall(instrs, i).Some? && EmitMultiArgApplies(instrs, tvs, i) then
      Some(MultiArgCall(instrs, i).value - i + 1)
    else None
  }

  /** The emitter's argument test: its update-expression search starts
      right after the array, whether or not a `BeginInitArrayElement`
      follows. */
  predicate EmitMultiArgApplies(instrs: seq<Instr>, tvs: seq<int>, i: nat)
    requires MatchMultiArgSequence(instrs, i).Some?
  {
    var infos := MatchMultiArgSequence(instrs, i).value;
    var last := infos[|infos| - 1].storeIndex;
    (|infos| == 1 && MatchUpdateExpression(instrs, tvs, i + 2, infos[0].storeIndex, infos[0].storedValue).Some?)
    || AllStackOnly(instrs, tvs, StoredValues(infos), DefinedBetween(instrs, i, last))
  }

  /** A successful BuildArray peephole consumes the three instructions of
      the sequence. */
  lemma BuildArrayPeepholeConsumesThree(instrs: seq<Instr>, tvs: seq<int>, i: nat)
    requires MatchBuildArraySequence(instrs, i).Some?
    requires AllStackOnly(instrs, tvs, MatchBuildArraySequence(instrs, i).value.elements, DefinedBetween(instrs, i, i + 1))
    ensures PeepholeConsumed(instrs, tvs, i) == Some(3)
  {
  }

  /** The emitter consumes exactly the region the mask treats as
      replaced, so every temp the mask leaves without a local is produced
      on the stack. */
  lemma EmitterConsumesRegion(instrs: seq<Instr>, tvs: seq<int>, i: nat)
    ensures RegionAt(instrs, tvs, i).Some? <==> PeepholeConsumed(instrs, tvs, i).Some?
    ensures RegionAt(instrs, tvs, i).Some? ==>
      PeepholeConsumed(instrs, tvs, i).value == RegionAt(instrs, tvs, i).value - i + 1
  {
    if !BuildArrayApplies(instrs, tvs, i) && MatchMultiArgSequence(instrs, i).Some? {
      var infos := MatchMultiArgSequence(instrs, i).value;
      if instrs[i + 2].BeginInitArrayElement? {
        UpdateMatchSkipsBegin(instrs, tvs, i + 2, infos[0].storeIndex, infos[0].storedValue);
      }
      assert MultiArgApplies(instrs, tvs, i) <==> EmitMultiArgApplies(instrs, tvs, i);
    }
  }
}
