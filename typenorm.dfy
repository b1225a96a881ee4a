/** The type normalisation pass over a lowered method body: stamping the
    results of `new UserClass(...)` with the constructed type, two
    peephole rewrites (a for-of over a proven array becomes a copy; a
    boxed number or boolean feeding a typed field store is unboxed), and
    the compaction of variable slots no temp uses any more. */
module TypeNormalization {
  import opened JsValues
  import opened Lir

  /** `GetDeclaredUserClassFieldClrType` for an instance field: the
      declared type, or `object` when the registry has none. */
  function FieldType(reg: ClassRegistry, cls: string, field: string, isPrivate: bool): (r: ClrType)
    ensures !isPrivate && (cls, field) !in reg.fieldTypes ==> r == ObjectType
    ensures isPrivate && (cls, field) !in reg.privateFieldTypes ==> r == ObjectType
    ensures !isPrivate && (cls, field) in reg.fieldTypes ==> r == reg.fieldTypes[(cls, field)]
    ensures isPrivate && (cls, field) in reg.privateFieldTypes ==> r == reg.privateFieldTypes[(cls, field)]
  {
    if isPrivate then
      if (cls, field) in reg.privateFieldTypes then reg.privateFieldTypes[(cls, field)] else ObjectType
    else
      if (cls, field) in reg.fieldTypes then reg.fieldTypes[(cls, field)] else ObjectType
  }

  /** The tables of a method body the pass reads and rewrites. */
  datatype BodyState = BodyState(
    instrs: seq<Instr>,
    tempStorages: seq<ValueStorage>,
    tvs: seq<int>,
    varNames: seq<string>,
    varStorages: seq<ValueStorage>,
    single: set<int>)

  function StateOf(body: MethodBody): BodyState
    reads body
  {
    BodyState(body.instructions, body.tempStorages, body.tempVariableSlots,
              body.variableNames, body.variableStorages, body.singleAssignmentSlots)
  }

  /** What the rest of the compiler keeps true of a method body and the
      compaction relies on: a storage for every variable name, and every
      temp pinned to an existing variable slot or to none. */
  predicate WellFormed(s: BodyState)
  {
    |s.varNames| <= |s.varStorages|
    && forall t :: 0 <= t < |s.tvs| ==> s.tvs[t] < |s.varNames|
  }

  /** `SetTempVariableSlot`: a range-checked update. */
  function SetSlot(tvs: seq<int>, t: Temp, slot: int): (r: seq<int>)
    ensures |r| == |tvs|
    ensures forall u :: 0 <= u < |tvs| ==> r[u] == (if u == t then slot else tvs[u])
  {
    if 0 <= t < |tvs| then tvs[t := slot] else tvs
  }

  // ---------------------------------------------------------------------
  // Phase 1: stamping `new UserClass(...)` results.

  /** The handle to stamp on the result of `instr`, when the stamp applies:
      a `NewUserClass` whose result has a storage, whose class has a
      non-nil handle and no constructor-return override, and whose result
      is a reference. */
  function StampHandle(s: BodyState, reg: ClassRegistry, instr: Instr): (r: Option<nat>)
    ensures r.Some? ==> (
      && instr.NewUserClass? && 0 <= instr.result < |s.tempStorages|
      && instr.className in reg.typeHandles && r.value == reg.typeHandles[instr.className] && r.value != 0
      && (instr.className, CtorReturnField) !in reg.privateFields
      && s.tempStorages[instr.result].kind == Reference)
    ensures r.None? && instr.NewUserClass? && 0 <= instr.result < |s.tempStorages|
        && instr.className in reg.typeHandles && reg.typeHandles[instr.className] != 0
        && (instr.className, CtorReturnField) !in reg.privateFields
      ==> s.tempStorages[instr.result].kind != Reference
  {
    match instr
    case NewUserClass(cls, _, res) =>
      if res < 0 || res >= |s.tempStorages| then None
      else if cls !in reg.typeHandles || reg.typeHandles[cls] == 0 then None
      else if (cls, CtorReturnField) in reg.privateFields then None
      else if s.tempStorages[res].kind != Reference then None
      else Some(reg.typeHandles[cls])
    case _ => None
  }

  /** One iteration of the stamping loop. */
  function StampOne(s: BodyState, reg: ClassRegistry, instr: Instr): BodyState
  {
    match StampHandle(s, reg, instr)
    case None => s
    case Some(h) =>
      var res := instr.result;
      var st := s.tempStorages[res].(typeHandle := Some(h));
      var slot := VariableSlotOf(s.tvs, res);
      s.(tempStorages := s.tempStorages[res := st],
         varStorages := if 0 <= slot < |s.varStorages| then s.varStorages[slot := st] else s.varStorages)
  }

  /** The stamping loop from instruction `k` on. */
  function StampFrom(s: BodyState, reg: ClassRegistry, k: nat): BodyState
    decreases |s.instrs| - k
  {
    if k >= |s.instrs| then s
    else StampFrom(StampOne(s, reg, s.instrs[k]), reg, k + 1)
  }

  /** `after` differs from `before` at most in its type handle. */
  predicate SameButHandle(before: ValueStorage, after: ValueStorage)
  {
    after == before.(typeHandle := after.typeHandle)
  }

  /** Stamping changes no instruction, no slot and no name; it only sets
      the type handle of reference storages, and a temp's storage changes
      only when a `NewUserClass` defines it. */
  lemma {:induction false} StampOnlyRefinesReferences(s: BodyState, reg: ClassRegistry, k: nat)
    ensures var r := StampFrom(s, reg, k);
      && r.instrs == s.instrs && r.tvs == s.tvs && r.varNames == s.varNames && r.single == s.single
      && |r.tempStorages| == |s.tempStorages| && |r.varStorages| == |s.varStorages|
      && (forall t :: 0 <= t < |s.tempStorages| ==>
            SameButHandle(s.tempStorages[t], r.tempStorages[t])
            && (r.tempStorages[t] != s.tempStorages[t] ==>
                  s.tempStorages[t].kind == Reference
                  && exists j :: k <= j < |s.instrs| && s.instrs[j].NewUserClass? && s.instrs[j].result == t))
    decreases |s.instrs| - k
  {
    if k < |s.instrs| {
      var s1 := StampOne(s, reg, s.instrs[k]);
      StampOnlyRefinesReferences(s1, reg, k + 1);
      var r := StampFrom(s, reg, k);
      forall t | 0 <= t < |s.tempStorages|
        ensures SameButHandle(s.tempStorages[t], r.tempStorages[t])
        ensures r.tempStorages[t] != s.tempStorages[t] ==>
                  s.tempStorages[t].kind == Reference
                  && exists j :: k <= j < |s.instrs| && s.instrs[j].NewUserClass? && s.instrs[j].result == t
      {
        if s1.tempStorages[t] != s.tempStorages[t] {
          assert s.instrs[k].NewUserClass? && s.instrs[k].result == t;
        }
        if r.tempStorages[t] != s1.tempStorages[t] {
          var j :| k + 1 <= j < |s1.instrs| && s1.instrs[j].NewUserClass? && s1.instrs[j].result == t;
          assert k <= j < |s.instrs| && s.instrs[j].NewUserClass? && s.instrs[j].result == t;
        }
      }
    }
  }

  /** A stamped storage carries the handle of its class. */
  lemma StampSetsConstructedHandle(s: BodyState, reg: ClassRegistry, instr: Instr)
    requires StampHandle(s, reg, instr).Some?
    ensures var r := StampOne(s, reg, instr);
      && r.tempStorages[instr.result].typeHandle == Some(reg.typeHandles[instr.className])
      && r.tempStorages[instr.result].kind == Reference
      && (0 <= VariableSlotOf(s.tvs, instr.result) < |s.varStorages| ==>
            r.varStorages[VariableSlotOf(s.tvs, instr.result)] == r.tempStorages[instr.result])
  {
  }

  /** The stamping loop of `Normalize`. */
  method StampNewUserClassResults(body: MethodBody, reg: ClassRegistry)
    modifies body
    ensures StateOf(body) == StampFrom(old(StateOf(body)), reg, 0)
    ensures body.tempCount == old(body.tempCount)
  {
    ghost var s0 := StateOf(body);
    var n := |body.instructions|;
    for k := 0 to n
      invariant body.instructions == s0.instrs
      invariant StampFrom(s0, reg, 0) == StampFrom(StateOf(body), reg, k)
      invariant body.tempCount == old(body.tempCount)
    {
      var instr := body.instructions[k];
      if !instr.NewUserClass? {
        continue;
      }
      var res := instr.result;
      if res < 0 || res >= |body.tempStorages| {
        continue;
      }
      if instr.className !in reg.typeHandles || reg.typeHandles[instr.className] == 0 {
        continue;
      }
      if (instr.className, CtorReturnField) in reg.privateFields {
        continue;
      }
      var storage := StorageOf(body.tempStorages, res);
      if storage.kind == Reference {
        storage := storage.(typeHandle := Some(reg.typeHandles[instr.className]));
        body.tempStorages := SetStorage(body.tempStorages, res, storage);
        var slot := VariableSlotOf(body.tempVariableSlots, res);
        if 0 <= slot < |body.variableStorages| {
          body.variableStorages := body.variableStorages[slot := storage];
        }
      }
    }
  }

  // ---------------------------------------------------------------------
  // Phase 2: peephole rewrites.

  /** A call of the `Object.NormalizeForOfIterable` intrinsic on one
      argument. */
  predicate IsNormalizeForOf(instr: Instr)
  {
    instr.CallIntrinsicStatic? && instr.intrinsicName == "Object"
    && instr.methodName == "NormalizeForOfIterable" && |instr.arguments| == 1
  }

  /** A storage the compiler has proven to hold a runtime array. */
  predicate ProvenArray(st: ValueStorage)
  {
    st.kind == Reference && st.clrType == Some(JsArrayType)
  }

  predicate ForOfRewriteApplies(s: BodyState, i: nat)
  {
    i < |s.instrs| && IsNormalizeForOf(s.instrs[i])
    && ProvenArray(StorageOf(s.tempStorages, s.instrs[i].arguments[0]))
  }

  /** The for-of rewrite at `i`: the call becomes a copy of its source,
      the result takes the source's storage, and the two temps are pinned
      to a common variable slot when the result had one. */
  function ForOfRewrite(s: BodyState, i: nat): BodyState
    requires ForOfRewriteApplies(s, i)
  {
    var call := s.instrs[i];
    var source := call.arguments[0];
    var result := call.result;
    var sourceStorage := StorageOf(s.tempStorages, source);
    var resultSlot := VariableSlotOf(s.tvs, result);
    var sourceSlot := VariableSlotOf(s.tvs, source);
    var tvs :=
      if resultSlot < 0 then s.tvs
      else if sourceSlot >= 0 then (if sourceSlot != resultSlot then SetSlot(s.tvs, result, sourceSlot) else s.tvs)
      else SetSlot(s.tvs, source, resultSlot);
    s.(instrs := s.instrs[i := CopyTemp(source, result)],
       tvs := tvs,
       tempStorages := SetStorage(s.tempStorages, result, sourceStorage),
       varStorages := if 0 <= resultSlot < |s.varStorages| then s.varStorages[resultSlot := sourceStorage] else s.varStorages)
  }

  /** A boxing of a number or a boolean. */
  predicate IsBoxingOfPrimitive(instr: Instr)
  {
    instr.ConvertToObject? && (instr.sourceType == Some(DoubleType) || instr.sourceType == Some(BooleanType))
  }

  /** The field-store rewrite applies at `i`: a boxing of a number or a
      boolean whose result is stored, by the next instruction, into a
      field declared with exactly that type. */
  predicate StoreRewriteApplies(s: BodyState, reg: ClassRegistry, i: nat)
  {
    i + 1 < |s.instrs| && IsBoxingOfPrimitive(s.instrs[i])
    && s.instrs[i + 1].StoreUserClassInstanceField?
    && s.instrs[i + 1].value == s.instrs[i].result
    && Some(FieldType(reg, s.instrs[i + 1].className, s.instrs[i + 1].fieldName, s.instrs[i + 1].isPrivateField))
       == s.instrs[i].sourceType
  }

  /** `IsTempUsedOutside`, with the reflection enumerator: some
      instruction other than the one at `ignore` mentions `t`. */
  predicate MentionedOutside(instrs: seq<Instr>, t: Temp, ignore: int)
  {
    exists j :: 0 <= j < |instrs| && j != ignore && t in AllTemps(instrs[j])
  }

  /** The instructions after the field-store rewrite at `i`: the store
      takes the unboxed source. */
  function StoreRewritten(s: BodyState, reg: ClassRegistry, i: nat): (r: seq<Instr>)
    requires StoreRewriteApplies(s, reg, i)
    ensures |r| == |s.instrs|
  {
    var store := s.instrs[i + 1];
    s.instrs[i + 1 := StoreUserClassInstanceField(store.className, store.fieldName, store.isPrivateField, s.instrs[i].source)]
  }

  /** One iteration of the peephole loop at `i`: the new state and the
      index the loop goes on with. */
  function Step(s: BodyState, reg: ClassRegistry, i: nat): (r: (BodyState, nat))
    requires i + 1 < |s.instrs|
    ensures (|r.0.instrs| == |s.instrs| && r.1 == i + 1) || (|r.0.instrs| == |s.instrs| - 1 && r.1 == i)
  {
    if ForOfRewriteApplies(s, i) then (ForOfRewrite(s, i), i + 1)
    else if StoreRewriteApplies(s, reg, i) then
      var instrs := StoreRewritten(s, reg, i);
      if MentionedOutside(instrs, s.instrs[i].result, i) then (s.(instrs := instrs), i + 1)
      else (s.(instrs := instrs[..i] + instrs[i + 1..]), i)
    else (s, i + 1)
  }

  /** The peephole loop from index `i` on. */
  function PeepholeFrom(s: BodyState, reg: ClassRegistry, i: nat): BodyState
    decreases 2 * |s.instrs| - i
  {
    if i + 1 >= |s.instrs| then s
    else
      var (s1, i1) := Step(s, reg, i);
      PeepholeFrom(s1, reg, i1)
  }

  /** The for-of call is rewritten exactly when its source is a proven
      array; the copy keeps source and result, and the result then has the
      source's storage. */
  lemma ForOfRewriteOnlyForArrays(s: BodyState, reg: ClassRegistry, i: nat)
    requires i + 1 < |s.instrs| && IsNormalizeForOf(s.instrs[i])
    ensures var (r, _) := Step(s, reg, i);
      var call := s.instrs[i];
      if ProvenArray(StorageOf(s.tempStorages, call.arguments[0])) then
        r.instrs[i] == CopyTemp(call.arguments[0], call.result)
        && StorageOf(r.tempStorages, call.result)
           == (if 0 <= call.result < |s.tempStorages| then StorageOf(s.tempStorages, call.arguments[0]) else UnknownValueStorage())
      else r == s
  {
  }

  /** When the for-of result is pinned to a slot, the rewrite pins source
      and result to one common slot, the source's when it had one. */
  lemma ForOfRewriteSharesSlot(s: BodyState, i: nat)
    requires ForOfRewriteApplies(s, i)
    requires var call := s.instrs[i];
      0 <= call.arguments[0] < |s.tvs| && 0 <= call.result < |s.tvs| && s.tvs[call.result] >= 0
    ensures var call := s.instrs[i];
      var r := ForOfRewrite(s, i);
      r.tvs[call.arguments[0]] == r.tvs[call.result]
      && r.tvs[call.result] == (if s.tvs[call.arguments[0]] >= 0 then s.tvs[call.arguments[0]] else s.tvs[call.result])
  {
  }

  /** The field-store rewrite: the store keeps its class and field and
      now takes the unboxed source; the boxing is removed exactly when no
      other instruction mentions its result; nothing else changes. */
  lemma StoreRewriteUnboxes(s: BodyState, reg: ClassRegistry, i: nat)
    requires i + 1 < |s.instrs| && !ForOfRewriteApplies(s, i) && StoreRewriteApplies(s, reg, i)
    ensures var (r, next) := Step(s, reg, i);
      var conv := s.instrs[i];
      var store := s.instrs[i + 1];
      var newStore := StoreUserClassInstanceField(store.className, store.fieldName, store.isPrivateField, conv.source);
      r.tempStorages == s.tempStorages && r.tvs == s.tvs && r.varStorages == s.varStorages
      && (if MentionedOutside(StoreRewritten(s, reg, i), conv.result, i) then
            next == i + 1 && r.instrs == s.instrs[i + 1 := newStore]
          else
            next == i && r.instrs == s.instrs[..i] + [newStore] + s.instrs[i + 2..])
  {
    var conv := s.instrs[i];
    var store := s.instrs[i + 1];
    var newStore := StoreUserClassInstanceField(store.className, store.fieldName, store.isPrivateField, conv.source);
    var instrs := StoreRewritten(s, reg, i);
    assert instrs[..i] + instrs[i + 1..] == s.instrs[..i] + [newStore] + s.instrs[i + 2..];
  }

  /** A boxing whose result feeds a field of another type, or that is not
      followed by a field store, is left alone. */
  lemma StoreRewriteNeedsMatchingField(s: BodyState, reg: ClassRegistry, i: nat)
    requires i + 1 < |s.instrs| && IsBoxingOfPrimitive(s.instrs[i])
    requires !s.instrs[i + 1].StoreUserClassInstanceField?
      || s.instrs[i + 1].value != s.instrs[i].result
      || Some(FieldType(reg, s.instrs[i + 1].className, s.instrs[i + 1].fieldName, s.instrs[i + 1].isPrivateField))
         != s.instrs[i].sourceType
    ensures Step(s, reg, i) == (s, i + 1)
  {
  }

  /** The peephole loop keeps the body well formed: it changes no
      variable table's length and pins temps only to slots some temp was
      pinned to. */
  lemma {:induction false} PeepholeKeepsWellFormed(s: BodyState, reg: ClassRegistry, i: nat)
    requires WellFormed(s)
    ensures var r := PeepholeFrom(s, reg, i);
      WellFormed(r) && r.varNames == s.varNames && |r.varStorages| == |s.varStorages|
      && r.single == s.single && |r.tvs| == |s.tvs| && |r.tempStorages| == |s.tempStorages|
    decreases 2 * |s.instrs| - i
  {
    if i + 1 < |s.instrs| {
      var (s1, i1) := Step(s, reg, i);
      PeepholeKeepsWellFormed(s1, reg, i1);
    }
  }

  lemma {:induction false} StampKeepsWellFormed(s: BodyState, reg: ClassRegistry, k: nat)
    requires WellFormed(s)
    ensures WellFormed(StampFrom(s, reg, k))
  {
    StampOnlyRefinesReferences(s, reg, k);
  }

  /** `IsTempUsedOutside`. */
  method IsTempUsedOutside(instrs: seq<Instr>, t: Temp, ignore: int) returns (b: bool)
    ensures b == MentionedOutside(instrs, t, ignore)
  {
    for i := 0 to |instrs|
      invariant forall j :: 0 <= j < i && j != ignore ==> t !in AllTemps(instrs[j])
    {
      if i == ignore {
        continue;
      }
      var temps := AllTemps(instrs[i]);
      for k := 0 to |temps|
        invariant forall m :: 0 <= m < k ==> temps[m] != t
      {
        if temps[k] == t {
          return true;
        }
      }
    }
    return false;
  }

  /** The for-of rewrite on the body. */
  method RewriteForOf(body: MethodBody, i: nat)
    requires ForOfRewriteApplies(StateOf(body), i)
    modifies body
    ensures StateOf(body) == ForOfRewrite(old(StateOf(body)), i)
    ensures body.tempCount == old(body.tempCount)
  {
    var call := body.instructions[i];
    var source := call.arguments[0];
    var sourceStorage := StorageOf(body.tempStorages, source);
    var resultSlot := VariableSlotOf(body.tempVariableSlots, call.result);
    if resultSlot >= 0 {
      var sourceSlot := VariableSlotOf(body.tempVariableSlots, source);
      if sourceSlot >= 0 {
        if sourceSlot != resultSlot {
          body.tempVariableSlots := SetSlot(body.tempVariableSlots, call.result, sourceSlot);
        }
      } else {
        body.tempVariableSlots := SetSlot(body.tempVariableSlots, source, resultSlot);
      }
    }
    body.instructions := body.instructions[i := CopyTemp(source, call.result)];
    body.tempStorages := SetStorage(body.tempStorages, call.result, sourceStorage);
    if 0 <= resultSlot < |body.variableStorages| {
      body.variableStorages := body.variableStorages[resultSlot := sourceStorage];
    }
  }

  /** The boxed-store peephole at `i`, with the index the loop goes on
      from. */
  method RewriteBoxedStore(body: MethodBody, reg: ClassRegistry, i: nat) returns (next: nat)
    requires i + 1 < |body.instructions| && !ForOfRewriteApplies(StateOf(body), i)
    modifies body
    ensures (StateOf(body), next) == Step(old(StateOf(body)), reg, i)
    ensures body.tempCount == old(body.tempCount)
  {
    var instr := body.instructions[i];
    if !IsBoxingOfPrimitive(instr) {
      return i + 1;
    }
    var store := body.instructions[i + 1];
    if !store.StoreUserClassInstanceField? || store.value != instr.result {
      return i + 1;
    }
    var fieldType := FieldType(reg, store.className, store.fieldName, store.isPrivateField);
    if Some(fieldType) != instr.sourceType {
      return i + 1;
    }
    body.instructions := body.instructions[i + 1 := StoreUserClassInstanceField(store.className, store.fieldName, store.isPrivateField, instr.source)];
    var used := IsTempUsedOutside(body.instructions, instr.result, i);
    if !used {
      body.instructions := body.instructions[..i] + body.instructions[i + 1..];
      return i;
    }
    return i + 1;
  }

  /** The peephole loop of `Normalize`. */
  method RewritePeepholes(body: MethodBody, reg: ClassRegistry)
    modifies body
    ensures StateOf(body) == PeepholeFrom(old(StateOf(body)), reg, 0)
    ensures body.tempCount == old(body.tempCount)
  {
    ghost var s0 := StateOf(body);
    var i: nat := 0;
    while i < |body.instructions| - 1
      invariant PeepholeFrom(s0, reg, 0) == PeepholeFrom(StateOf(body), reg, i)
      invariant body.tempCount == old(body.tempCount)
      decreases 2 * |body.instructions| - i
    {
      var instr := body.instructions[i];
      if IsNormalizeForOf(instr) && ProvenArray(StorageOf(body.tempStorages, instr.arguments[0])) {
        RewriteForOf(body, i);
        i := i + 1;
        continue;
      }
      i := RewriteBoxedStore(body, reg, i);
    }
  }

  // ---------------------------------------------------------------------
  // Phase 3: compacting unused variable slots.

  /** Some temp is pinned to slot `v`. */
  predicate SlotReferenced(tvs: seq<int>, v: int)
  {
    exists t :: 0 <= t < |tvs| && tvs[t] == v
  }

  /** The slots below `n` no temp is pinned to. */
  function UnusedSlots(tvs: seq<int>, n: nat): (r: set<int>)
    ensures forall v :: v in r <==> 0 <= v < n && !SlotReferenced(tvs, v)
  {
    if n == 0 then {}
    else UnusedSlots(tvs, n - 1) + (if SlotReferenced(tvs, n - 1) then {} else {n - 1})
  }

  /** The slots below `n` some temp is pinned to. */
  function UsedSlots(tvs: seq<int>, n: nat): (r: set<int>)
    ensures forall v :: v in r <==> 0 <= v < n && SlotReferenced(tvs, v)
  {
    if n == 0 then {}
    else UsedSlots(tvs, n - 1) + (if SlotReferenced(tvs, n - 1) then {n - 1} else {})
  }

  /** The new index of each slot: the number of used slots before it. */
  function RemapSlots(tvs: seq<int>, unused: set<int>): (r: seq<int>)
    ensures |r| == |tvs|
  {
    seq(|tvs|, t requires 0 <= t < |tvs| => if tvs[t] >= 0 then KeptBefore(unused, tvs[t]) else tvs[t])
  }

  /** The single-assignment slots that survive, under their new index. */
  function RemapSet(single: set<int>, unused: set<int>, n: nat): set<int>
  {
    set v | v in single && 0 <= v < n && v !in unused :: KeptBefore(unused, v)
  }

  /** `CompactUnusedVariableSlots`. */
  function Compacted(s: BodyState): BodyState
    requires WellFormed(s)
  {
    var n := |s.varNames|;
    var unused := UnusedSlots(s.tvs, n);
    if n == 0 || unused == {} then s
    else s.(tvs := RemapSlots(s.tvs, unused),
            varNames := Kept(s.varNames, unused, n),
            varStorages := Kept(s.varStorages, unused, n),
            single := RemapSet(s.single, unused, n))
  }

  /** The new index of old slot `v`, for a slot some temp uses. */
  function NewSlot(s: BodyState, v: nat): int
  {
    KeptBefore(UnusedSlots(s.tvs, |s.varNames|), v)
  }

  lemma {:induction false} KeptBeforeCountsUsed(tvs: seq<int>, n: nat, m: nat)
    requires m <= n
    ensures KeptBefore(UnusedSlots(tvs, n), m) == |UsedSlots(tvs, m)|
  {
    if m > 0 {
      KeptBeforeCountsUsed(tvs, n, m - 1);
      assert m - 1 !in UsedSlots(tvs, m - 1);
    }
  }

  /** After compaction there are exactly as many variable slots as slots
      that were in use, and every one of them is used by some temp. */
  lemma CompactedSlotsAllUsed(s: BodyState)
    requires WellFormed(s)
    ensures var r := Compacted(s);
      |r.varNames| == |UsedSlots(s.tvs, |s.varNames|)|
      && (forall v :: 0 <= v < |r.varNames| ==> SlotReferenced(r.tvs, v))
  {
    var n := |s.varNames|;
    var unused := UnusedSlots(s.tvs, n);
    var r := Compacted(s);
    KeptBeforeCountsUsed(s.tvs, n, n);
    if n == 0 {
    } else if unused == {} {
      KeptBeforeNone(n);
      forall v | 0 <= v < |r.varNames|
        ensures SlotReferenced(r.tvs, v)
      {
        assert v !in unused;
      }
    } else {
      forall v | 0 <= v < |r.varNames|
        ensures SlotReferenced(r.tvs, v)
      {
        CompactSurjective(unused, n, v);
        var old_ :| 0 <= old_ < n && old_ !in unused && KeptBefore(unused, old_) == v;
        var t :| 0 <= t < |s.tvs| && s.tvs[t] == old_;
        assert r.tvs[t] == v;
      }
    }
  }

  lemma {:induction false} KeptBeforeNone(n: nat)
    ensures KeptBefore({}, n) == n
  {
    if n > 0 {
      KeptBeforeNone(n - 1);
    }
  }

  /** Compaction keeps the temps' variables: a temp pinned to a slot is
      pinned afterwards to the slot holding the same name and storage, and
      a temp pinned to none stays so. */
  lemma CompactedKeepsVariables(s: BodyState)
    requires WellFormed(s)
    ensures var r := Compacted(s);
      |r.tvs| == |s.tvs| && |r.varNames| <= |r.varStorages|
      && forall t :: 0 <= t < |s.tvs| ==>
           if s.tvs[t] >= 0 then
             0 <= r.tvs[t] < |r.varNames|
             && r.varNames[r.tvs[t]] == s.varNames[s.tvs[t]]
             && r.varStorages[r.tvs[t]] == s.varStorages[s.tvs[t]]
           else r.tvs[t] == s.tvs[t]
  {
    var n := |s.varNames|;
    var unused := UnusedSlots(s.tvs, n);
    if n > 0 && unused != {} {
      forall t | 0 <= t < |s.tvs| && s.tvs[t] >= 0
        ensures KeptBefore(unused, s.tvs[t]) < |Kept(s.varNames, unused, n)|
        ensures Kept(s.varNames, unused, n)[KeptBefore(unused, s.tvs[t])] == s.varNames[s.tvs[t]]
        ensures Kept(s.varStorages, unused, n)[KeptBefore(unused, s.tvs[t])] == s.varStorages[s.tvs[t]]
      {
        assert SlotReferenced(s.tvs, s.tvs[t]);
        KeptPlacement(s.varNames, unused, n, s.tvs[t]);
        KeptPlacement(s.varStorages, unused, n, s.tvs[t]);
      }
    }
  }

  /** Compaction keeps the surviving slots in their order. */
  lemma CompactedKeepsOrder(s: BodyState, v: nat, w: nat)
    requires WellFormed(s)
    requires v < w < |s.varNames| && SlotReferenced(s.tvs, v) && SlotReferenced(s.tvs, w)
    ensures NewSlot(s, v) < NewSlot(s, w)
  {
    KeptBeforeMonotone(UnusedSlots(s.tvs, |s.varNames|), v, w);
  }

  /** When slots are removed, the single-assignment set keeps exactly the
      used slots, renumbered, and drops the rest; otherwise it is left as
      it is. */
  lemma CompactedSingleAssignment(s: BodyState)
    requires WellFormed(s)
    ensures var r := Compacted(s);
      var n := |s.varNames|;
      (n == 0 || UnusedSlots(s.tvs, n) == {} ==> r.single == s.single)
      && (n > 0 && UnusedSlots(s.tvs, n) != {} ==>
            forall x :: x in r.single <==>
              exists v :: v in s.single && 0 <= v < n && SlotReferenced(s.tvs, v) && x == NewSlot(s, v))
  {
  }

  /** With no variables, or every variable used, compaction is the
      identity. */
  lemma CompactionNoOp(s: BodyState)
    requires WellFormed(s)
    requires forall v :: 0 <= v < |s.varNames| ==> SlotReferenced(s.tvs, v)
    ensures Compacted(s) == s
  {
    var unused := UnusedSlots(s.tvs, |s.varNames|);
    assert forall v :: v !in unused;
    assert unused == {};
  }

  /** Compacting twice is compacting once. */
  lemma CompactionIdempotent(s: BodyState)
    requires WellFormed(s)
    ensures WellFormed(Compacted(s)) && Compacted(Compacted(s)) == Compacted(s)
  {
    CompactedKeepsVariables(s);
    CompactedSlotsAllUsed(s);
    var r := Compacted(s);
    CompactionNoOp(r);
  }

  /** The first loop of `CompactUnusedVariableSlots`: which slots some
      temp is pinned to. */
  method MarkUsedSlots(tvs: seq<int>, varCount: nat) returns (r: seq<bool>)
    ensures |r| == varCount
    ensures forall v :: 0 <= v < varCount ==> (r[v] <==> SlotReferenced(tvs, v))
  {
    var used := new bool[varCount](_ => false);
    for t := 0 to |tvs|
      invariant forall v :: 0 <= v < varCount ==> (used[v] <==> exists u :: 0 <= u < t && tvs[u] == v)
    {
      var slot := tvs[t];
      if 0 <= slot < varCount {
        used[slot] := true;
      }
    }
    r := used[..];
  }

  /** The renumbering loop: the new index of every used slot, and the
      name and storage tables without the unused slots. */
  method BuildSlotTables(names: seq<string>, storages: seq<ValueStorage>, used: seq<bool>, ghost unused: set<int>)
    returns (remap: seq<int>, newNames: seq<string>, newStorages: seq<ValueStorage>)
    requires |used| == |names| <= |storages|
    requires forall v :: 0 <= v < |used| ==> (used[v] <==> v !in unused)
    ensures |remap| == |used|
    ensures newNames == Kept(names, unused, |names|)
    ensures newStorages == Kept(storages, unused, |names|)
    ensures forall v {:trigger remap[v]} :: 0 <= v < |names| ==> remap[v] == (if v !in unused then KeptBefore(unused, v) else -1)
  {
    var oldToNew := new int[|used|](_ => -1);
    newNames := [];
    newStorages := [];
    var next: nat := 0;
    for i := 0 to |used|
      invariant newNames == Kept(names, unused, i)
      invariant newStorages == Kept(storages, unused, i)
      invariant next == KeptBefore(unused, i)
      invariant RemappedUpTo(oldToNew[..], unused, i)
    {
      if !used[i] {
        assert RemappedUpTo(oldToNew[..], unused, i + 1) by {
          RemappedStep(oldToNew[..], unused, i);
        }
        continue;
      }
      assert RemappedUpTo(oldToNew[..][i := next], unused, i + 1) by {
        RemappedStep(oldToNew[..], unused, i);
      }
      oldToNew[i] := next;
      next := next + 1;
      newNames := newNames + [names[i]];
      newStorages := newStorages + [storages[i]];
    }
    remap := oldToNew[..];
  }

  /** The old-to-new table once the first `i` slots are numbered: a kept
      slot below `i` holds the number of kept slots before it, every other
      entry -1. */
  ghost predicate RemappedUpTo(table: seq<int>, unused: set<int>, i: nat)
  {
    forall v {:trigger table[v]} :: 0 <= v < |table| ==>
      table[v] == (if v < i && v !in unused then KeptBefore(unused, v) else -1)
  }

  /** Numbering slot `i` (when it is kept) extends the table by one slot. */
  lemma RemappedStep(table: seq<int>, unused: set<int>, i: nat)
    requires i < |table| && RemappedUpTo(table, unused, i)
    ensures i in unused ==> RemappedUpTo(table, unused, i + 1)
    ensures i !in unused ==> RemappedUpTo(table[i := KeptBefore(unused, i)], unused, i + 1)
  {
  }

  /** The single-assignment loop: every slot of `single` that has a new
      index, under that index. The source walks the set and skips the
      slots outside the table; walking the table's slots and testing
      membership gives the same set. */
  method RemapSingleSlots(single: set<int>, oldToNew: seq<int>, ghost unused: set<int>) returns (remapped: set<int>)
    requires forall v {:trigger oldToNew[v]} :: 0 <= v < |oldToNew| ==> oldToNew[v] == (if v !in unused then KeptBefore(unused, v) else -1)
    ensures remapped == RemapSet(single, unused, |oldToNew|)
  {
    remapped := {};
    for slot := 0 to |oldToNew|
      invariant remapped == RemapSet(single, unused, slot)
    {
      if slot in single {
        var mapped := oldToNew[slot];
        if mapped >= 0 {
          remapped := remapped + {mapped};
        }
      }
      assert forall x :: x in RemapSet(single, unused, slot + 1) <==>
        x in RemapSet(single, unused, slot) || (slot in single && slot !in unused && x == KeptBefore(unused, slot));
    }
  }

  /** The temp-slot loop: every pinned temp moves to its slot's new
      index. */
  method RemapTempSlots(tvs: seq<int>, oldToNew: seq<int>, ghost unused: set<int>) returns (r: seq<int>)
    requires forall v {:trigger oldToNew[v]} :: 0 <= v < |oldToNew| ==> oldToNew[v] == (if v !in unused then KeptBefore(unused, v) else -1)
    requires forall t :: 0 <= t < |tvs| && tvs[t] >= 0 ==> tvs[t] < |oldToNew| && tvs[t] !in unused
    ensures r == RemapSlots(tvs, unused)
  {
    r := tvs;
    for i := 0 to |tvs|
      invariant |r| == |tvs|
      invariant forall t :: 0 <= t < i ==> r[t] == RemapSlots(tvs, unused)[t]
      invariant forall t :: i <= t < |tvs| ==> r[t] == tvs[t]
    {
      var slot := r[i];
      if slot >= 0 {
        r := r[i := oldToNew[slot]];
      }
    }
  }

  /** `CompactUnusedVariableSlots`. */
  method CompactUnusedVariableSlots(body: MethodBody)
    requires WellFormed(StateOf(body))
    modifies body
    ensures StateOf(body) == Compacted(old(StateOf(body)))
    ensures body.tempCount == old(body.tempCount)
  {
    ghost var s0 := StateOf(body);
    var varCount := |body.variableNames|;
    if varCount == 0 {
      return;
    }
    ghost var unused := UnusedSlots(s0.tvs, varCount);
    var tvs := body.tempVariableSlots;
    var used := MarkUsedSlots(tvs, varCount);
    var anyUnused := false;
    var i := 0;
    while i < varCount
      invariant 0 <= i <= varCount && !anyUnused
      invariant forall v :: 0 <= v < i ==> used[v]
    {
      if !used[i] {
        anyUnused := true;
        break;
      }
      i := i + 1;
    }
    if !anyUnused {
      assert forall v :: v !in unused;
      assert unused == {};
      return;
    }
    assert unused != {} by {
      assert i in unused;
    }
    RemapUnusedSlots(body, used, unused);
  }

  /** The rewriting half of `CompactUnusedVariableSlots`, once some slot
      is known to be unused: the old-to-new table, the remapped temp
      slots and single-assignment slots, and the kept names and storages. */
  method RemapUnusedSlots(body: MethodBody, used: seq<bool>, ghost unused: set<int>)
    requires WellFormed(StateOf(body))
    requires |body.variableNames| > 0 && unused == UnusedSlots(body.tempVariableSlots, |body.variableNames|) && unused != {}
    requires |used| == |body.variableNames|
    requires forall v :: 0 <= v < |used| ==> (used[v] <==> SlotReferenced(body.tempVariableSlots, v))
    modifies body
    ensures StateOf(body) == Compacted(old(StateOf(body)))
    ensures body.tempCount == old(body.tempCount)
  {
    var varCount := |body.variableNames|;
    var tvs := body.tempVariableSlots;
    var oldToNew, newNames, newStorages := BuildSlotTables(body.variableNames, body.variableStorages, used, unused);
    assert forall t :: 0 <= t < |tvs| && tvs[t] >= 0 ==> SlotReferenced(tvs, tvs[t]);
    var newTvs := RemapTempSlots(tvs, oldToNew, unused);
    var newSingle := body.singleAssignmentSlots;
    if |newSingle| > 0 {
      newSingle := RemapSingleSlots(newSingle, oldToNew, unused);
    } else {
      assert RemapSet(newSingle, unused, varCount) == {};
    }
    body.tempVariableSlots := newTvs;
    body.singleAssignmentSlots := newSingle;
    body.variableNames := newNames;
    body.variableStorages := newStorages;
  }

  /** `Normalize`: nothing happens without a class registry; otherwise
      the stamping, the peephole rewrites and the compaction run in turn. */
  function Normalized(s: BodyState, registry: Option<ClassRegistry>): BodyState
    requires registry.Some? ==> WellFormed(s)
  {
    match registry
    case None => s
    case Some(reg) =>
      var stamped := StampFrom(s, reg, 0);
      StampKeepsWellFormed(s, reg, 0);
      PeepholeKeepsWellFormed(stamped, reg, 0);
      Compacted(PeepholeFrom(stamped, reg, 0))
  }

  /** `Normalize`. */
  method Normalize(body: MethodBody, registry: Option<ClassRegistry>)
    requires registry.Some? ==> WellFormed(StateOf(body))
    modifies body
    ensures StateOf(body) == Normalized(old(StateOf(body)), registry)
    ensures body.tempCount == old(body.tempCount)
  {
    if registry.None? {
      return;
    }
    ghost var s0 := StateOf(body);
    StampNewUserClassResults(body, registry.value);
    StampKeepsWellFormed(s0, registry.value, 0);
    RewritePeepholes(body, registry.value);
    PeepholeKeepsWellFormed(StampFrom(s0, registry.value, 0), registry.value, 0);
    CompactUnusedVariableSlots(body);
  }

  /** After normalisation every variable slot is used by some temp, and
      every temp pinned to a slot is pinned to an existing one. */
  lemma NormalizedSlotsAllUsed(s: BodyState, reg: ClassRegistry)
    requires WellFormed(s)
    ensures var r := Normalized(s, Some(reg));
      WellFormed(r) && forall v :: 0 <= v < |r.varNames| ==> SlotReferenced(r.tvs, v)
  {
    var stamped := StampFrom(s, reg, 0);
    StampKeepsWellFormed(s, reg, 0);
    PeepholeKeepsWellFormed(stamped, reg, 0);
    var p := PeepholeFrom(stamped, reg, 0);
    CompactedSlotsAllUsed(p);
    CompactionIdempotent(p);
  }
}
