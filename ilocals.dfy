/** The IL local layout of a compiled method body: local 0 is the leaf
    scope instance when the method needs one, the variable slots follow,
    and the temp slots of the allocation come last. */
module ILLocals {
  import opened JsValues
  import opened Lir
  import Text
  import TempAllocation

  // ----- Local types -----

  /** The local-signature entry written for a storage. */
  datatype LocalType =
    | BooleanLocal
    | DoubleLocal
    | JsNullLocal
    | StringLocal
    | ObjectArrayLocal
    | ScopeLocal(scopeName: string)
    | HandleLocal(handle: nat)
    | RuntimeTypeLocal(clrType: ClrType)
    | ObjectLocal

  /** `EmitLocalType`.  Unboxed JsNull is kept only where allowed (temp
      slots); scope references are typed by their scope. */
  function LocalTypeOf(storage: ValueStorage, allowUnboxedJsNull: bool): (r: LocalType)
    ensures storage.kind == UnknownStorage ==> r == ObjectLocal
    ensures r == JsNullLocal ==> allowUnboxedJsNull
    ensures r.ScopeLocal? ==> storage.kind == Reference && r.scopeName == storage.scopeName
  {
    var k := storage.kind;
    var t := storage.clrType;
    if k == UnboxedValue && t == Some(BooleanType) then BooleanLocal
    else if k == UnboxedValue && t == Some(DoubleType) then DoubleLocal
    else if allowUnboxedJsNull && k == UnboxedValue && t == Some(JsNullType) then JsNullLocal
    else if k == Reference && t == Some(StringType) then StringLocal
    else if k == Reference && t == Some(ObjectArrayType) then ObjectArrayLocal
    else if k == Reference && !Text.IsBlank(storage.scopeName) then ScopeLocal(storage.scopeName)
    else if k == Reference && storage.typeHandle.Some? then HandleLocal(storage.typeHandle.value)
    else if k == Reference && t.Some? && t.value != ObjectType then RuntimeTypeLocal(t.value)
    else ObjectLocal
  }

  /** Unboxed numbers and booleans get their primitive local type. */
  lemma UnboxedScalarsStayUnboxed(scopeName: string, handle: Option<nat>, allow: bool)
    ensures LocalTypeOf(ValueStorage(UnboxedValue, Some(BooleanType), scopeName, handle), allow) == BooleanLocal
    ensures LocalTypeOf(ValueStorage(UnboxedValue, Some(DoubleType), scopeName, handle), allow) == DoubleLocal
  {
  }

  /** An unboxed JsNull variable is widened to `object`, while an unboxed
      JsNull temp keeps its type. */
  lemma UnboxedJsNullOnlyInTemps(scopeName: string, handle: Option<nat>)
    ensures LocalTypeOf(ValueStorage(UnboxedValue, Some(JsNullType), scopeName, handle), false) == ObjectLocal
    ensures LocalTypeOf(ValueStorage(UnboxedValue, Some(JsNullType), scopeName, handle), true) == JsNullLocal
  {
  }

  /** A reference of a known runtime type, without a scope name or a
      metadata handle, keeps that type. */
  lemma KnownReferenceTypeKept(c: ClrType, scopeName: string, allow: bool)
    requires c !in {StringType, ObjectArrayType, ObjectType} && Text.IsBlank(scopeName)
    ensures LocalTypeOf(ValueStorage(Reference, Some(c), scopeName, None), allow) == RuntimeTypeLocal(c)
  {
  }

  // ----- Layout -----

  /** What the layout reads from a method body. */
  datatype Frame = Frame(
    /** `NeedsLeafScopeLocal` with a non-nil leaf scope id. */
    hasLeafScope: bool,
    leafScopeName: string,
    variableStorages: seq<ValueStorage>,
    tempVariableSlots: seq<int>)

  function ScopeLocalOffset(f: Frame): (r: nat)
    ensures r <= 1
  {
    if f.hasLeafScope then 1 else 0
  }

  /** The variable slot pinned to temp `t`, or -1. */
  function PinnedSlot(f: Frame, t: Temp): int
  {
    if 0 <= t < |f.tempVariableSlots| then f.tempVariableSlots[t] else -1
  }

  /** `IsMaterialized`: a variable-mapped temp always has a local; the
      others have one when the allocation gave them a slot. */
  function IsMaterialized(f: Frame, a: TempAllocation.Allocation, t: Temp): (r: bool)
    ensures PinnedSlot(f, t) >= 0 ==> r
    ensures PinnedSlot(f, t) < 0 ==> (r <==> TempAllocation.IsMaterialized(a, t))
  {
    PinnedSlot(f, t) >= 0 || TempAllocation.IsMaterialized(a, t)
  }

  /** `GetSlotForTemp`: the IL local of a temp; `None` where the
      allocation's `GetSlot` throws. */
  function SlotForTemp(f: Frame, a: TempAllocation.Allocation, t: Temp): (r: Option<nat>)
    ensures r.Some? <==> IsMaterialized(f, a, t)
  {
    var offset := ScopeLocalOffset(f);
    var varSlot := PinnedSlot(f, t);
    if varSlot >= 0 then Some(offset + varSlot)
    else match TempAllocation.GetSlot(a, t)
      case Some(slot) => Some(offset + |f.variableStorages| + slot)
      case None => None
  }

  /** Where the locals of each kind live. */
  function VariableLocal(f: Frame, v: nat): nat { ScopeLocalOffset(f) + v }
  function TempSlotLocal(f: Frame, s: nat): nat { ScopeLocalOffset(f) + |f.variableStorages| + s }

  /** The slot numbers must name real locals. */
  predicate SlotsInRange(f: Frame, a: TempAllocation.Allocation)
  {
    && (forall t :: 0 <= t < |f.tempVariableSlots| ==> f.tempVariableSlots[t] < |f.variableStorages|)
    && (forall t :: 0 <= t < |a.tempToSlot| ==> a.tempToSlot[t] < |a.slotStorages|)
  }

  /** A temp's local is its variable's local when pinned, and its slot's
      local after every variable otherwise. */
  lemma SlotForTempLayout(f: Frame, a: TempAllocation.Allocation, t: Temp)
    ensures PinnedSlot(f, t) >= 0 ==> SlotForTemp(f, a, t) == Some(VariableLocal(f, PinnedSlot(f, t)))
    ensures PinnedSlot(f, t) < 0 && TempAllocation.IsMaterialized(a, t) ==>
      SlotForTemp(f, a, t) == Some(TempSlotLocal(f, a.tempToSlot[t]))
  {
  }

  /** Distinct variable slots, distinct temp slots and the leaf scope all
      map to distinct IL locals, each below the local count. */
  lemma LocalsDistinct(f: Frame, a: TempAllocation.Allocation, v: nat, w: nat, s: nat, u: nat)
    requires v < |f.variableStorages| && w < |f.variableStorages|
    requires s < |a.slotStorages| && u < |a.slotStorages|
    ensures VariableLocal(f, v) == VariableLocal(f, w) <==> v == w
    ensures TempSlotLocal(f, s) == TempSlotLocal(f, u) <==> s == u
    ensures VariableLocal(f, v) != TempSlotLocal(f, s)
    ensures f.hasLeafScope ==> VariableLocal(f, v) != 0 && TempSlotLocal(f, s) != 0
    ensures TempSlotLocal(f, s) < LocalCount(f, a) && VariableLocal(f, v) < LocalCount(f, a)
  {
  }

  /** Two temps share an IL local only when they share a variable slot or
      an allocation slot. */
  lemma SharedLocalMeansSharedSlot(f: Frame, a: TempAllocation.Allocation, t: Temp, u: Temp)
    requires SlotsInRange(f, a)
    requires SlotForTemp(f, a, t).Some? && SlotForTemp(f, a, t) == SlotForTemp(f, a, u)
    ensures PinnedSlot(f, t) >= 0 <==> PinnedSlot(f, u) >= 0
    ensures PinnedSlot(f, t) >= 0 ==> PinnedSlot(f, t) == PinnedSlot(f, u)
    ensures PinnedSlot(f, t) < 0 ==> a.tempToSlot[t] == a.tempToSlot[u]
  {
  }

  /** Every materialised temp's local is below the local count. */
  lemma SlotForTempInRange(f: Frame, a: TempAllocation.Allocation, t: Temp)
    requires SlotsInRange(f, a) && SlotForTemp(f, a, t).Some?
    ensures SlotForTemp(f, a, t).value < LocalCount(f, a)
  {
  }

  // ----- The local signature -----

  function LocalCount(f: Frame, a: TempAllocation.Allocation): nat
  {
    ScopeLocalOffset(f) + |f.variableStorages| + |a.slotStorages|
  }

  /** `CreateLocalVariablesSignature`: no signature without locals;
      otherwise the leaf scope, then each variable, then each temp slot. */
  method CreateLocalVariablesSignature(f: Frame, a: TempAllocation.Allocation) returns (r: Option<seq<LocalType>>)
    ensures r.None? <==> LocalCount(f, a) == 0
    ensures r.Some? ==> |r.value| == LocalCount(f, a)
    ensures r.Some? && f.hasLeafScope ==> r.value[0] == ScopeLocal(f.leafScopeName)
    ensures r.Some? ==> forall v :: 0 <= v < |f.variableStorages| ==>
      r.value[VariableLocal(f, v)] == LocalTypeOf(f.variableStorages[v], false)
    ensures r.Some? ==> forall s :: 0 <= s < |a.slotStorages| ==>
      r.value[TempSlotLocal(f, s)] == LocalTypeOf(a.slotStorages[s], true)
  {
    var varCount := |f.variableStorages|;
    var tempLocals := |a.slotStorages|;
    var scopeLocalCount := if f.hasLeafScope then 1 else 0;
    var totalLocals := scopeLocalCount + varCount + tempLocals;
    if totalLocals == 0 {
      return None;
    }
    var locals: seq<LocalType> := [];
    if f.hasLeafScope {
      locals := locals + [ScopeLocal(f.leafScopeName)];
    }
    for i := 0 to varCount
      invariant |locals| == scopeLocalCount + i
      invariant f.hasLeafScope ==> locals[0] == ScopeLocal(f.leafScopeName)
      invariant forall v :: 0 <= v < i ==> locals[VariableLocal(f, v)] == LocalTypeOf(f.variableStorages[v], false)
    {
      locals := locals + [LocalTypeOf(f.variableStorages[i], false)];
    }
    for i := 0 to tempLocals
      invariant |locals| == scopeLocalCount + varCount + i
      invariant f.hasLeafScope ==> locals[0] == ScopeLocal(f.leafScopeName)
      invariant forall v :: 0 <= v < varCount ==> locals[VariableLocal(f, v)] == LocalTypeOf(f.variableStorages[v], false)
      invariant forall s :: 0 <= s < i ==> locals[TempSlotLocal(f, s)] == LocalTypeOf(a.slotStorages[s], true)
    {
      locals := locals + [LocalTypeOf(a.slotStorages[i], true)];
    }
    return Some(locals);
  }

  // ----- Loading the scopes array -----

  /** What `EmitLoadScopesArray` reads from the method descriptor. */
  datatype MethodDescriptor = MethodDescriptor(isStatic: bool, hasScopesParameter: bool, scopesField: Option<nat>)

  /** The IL that loads the scopes array. */
  datatype ScopesLoad = LoadArgument(index: nat) | LoadScopesField(field: nat)

  /** `EmitLoadScopesArray`. */
  function ScopesArraySource(m: MethodDescriptor): (r: Result<ScopesLoad>)
  {
    if m.isStatic && m.hasScopesParameter then Ok(LoadArgument(0))
    else if !m.isStatic && m.hasScopesParameter then Ok(LoadArgument(1))
    else if !m.isStatic && m.scopesField.Some? then Ok(LoadScopesField(m.scopesField.value))
    else Err(InvalidOperation)
  }

  /** The scopes parameter comes first in a static method and after `this`
      in an instance method; an instance method without one falls back to
      its `_scopes` field. */
  lemma ScopesArraySourceOrder(m: MethodDescriptor)
    ensures m.hasScopesParameter ==> ScopesArraySource(m) == Ok(LoadArgument(if m.isStatic then 0 else 1))
    ensures !m.hasScopesParameter && !m.isStatic && m.scopesField.Some? ==>
      ScopesArraySource(m) == Ok(LoadScopesField(m.scopesField.value))
  {
  }

  /** The load fails exactly when there is no scopes parameter and no
      usable field. */
  lemma ScopesArraySourceFails(m: MethodDescriptor)
    ensures ScopesArraySource(m).Err? <==> !m.hasScopesParameter && (m.isStatic || m.scopesField.None?)
  {
  }

  // ----- Stackified temps -----

  /** The mask after marking: a stackable temp below both lengths is no
      longer materialised. */
  function Marked(mask: seq<bool>, canStackify: seq<bool>): (r: seq<bool>)
    ensures |r| == |mask|
  {
    seq(|mask|, i requires 0 <= i < |mask| => mask[i] && !(i < |canStackify| && canStackify[i]))
  }

  /** Marking only clears entries, and only where the temp is stackable. */
  lemma MarkedOnlyClears(mask: seq<bool>, canStackify: seq<bool>, i: nat)
    requires i < |mask|
    ensures Marked(mask, canStackify)[i] ==> mask[i]
    ensures Marked(mask, canStackify)[i] != mask[i] ==> i < |canStackify| && canStackify[i]
  {
  }

  /** Marking twice is marking once. */
  lemma MarkedIdempotent(mask: seq<bool>, canStackify: seq<bool>)
    ensures Marked(Marked(mask, canStackify), canStackify) == Marked(mask, canStackify)
  {
  }

  /** `MarkStackifiableTemps`. */
  method MarkStackifiableTemps(canStackify: seq<bool>, mask: array?<bool>)
    modifies mask
    ensures mask != null ==> mask[..] == Marked(old(mask[..]), canStackify)
  {
    if mask == null || |canStackify| == 0 {
      return;
    }
    var n := Min(|canStackify|, mask.Length);
    for i := 0 to n
      invariant forall j :: 0 <= j < i ==> mask[j] == Marked(old(mask[..]), canStackify)[j]
      invariant forall j :: i <= j < mask.Length ==> mask[j] == old(mask[j])
    {
      if canStackify[i] {
        mask[i] := false;
      }
    }
  }

  // ----- Finding a definition -----

  /** `TryFindDefInstruction`: the first instruction that defines `t`. */
  method TryFindDefInstruction(instrs: seq<Instr>, t: Temp) returns (r: Option<Instr>)
    ensures r.Some? <==> FirstDef(instrs, t).Some?
    ensures r.Some? ==> r.value == instrs[FirstDef(instrs, t).value]
  {
    for i := 0 to |instrs|
      invariant forall j :: 0 <= j < i ==> !Defines(instrs[j], t)
    {
      var defined := Defined(instrs[i]);
      if defined == Some(t) {
        FirstDefIsFirst(instrs, t, i);
        return Some(instrs[i]);
      }
    }
    return None;
  }

  lemma FirstDefIsFirst(instrs: seq<Instr>, t: Temp, i: nat)
    requires i < |instrs| && Defines(instrs[i], t)
    requires forall j :: 0 <= j < i ==> !Defines(instrs[j], t)
    ensures FirstDef(instrs, t) == Some(i)
  {
  }
}
