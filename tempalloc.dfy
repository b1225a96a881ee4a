/** The linear-scan allocator that maps temps to IL local slots.  A first
    pass records each temp's last use; a second pass walks the
    instructions, returns the slots of temps that die at an instruction to
    a free stack per storage key, and then gives the instruction's result a
    slot (popped from the free stack of its key, or a fresh one) when the
    result must live in a local. */
module TempAllocation {
  import opened JsValues
  import opened Lir

  /** Slots are shared only between temps with the same kind and CLR type. */
  datatype StorageKey = StorageKey(kind: StorageKind, clrType: Option<ClrType>)

  function KeyOf(v: ValueStorage): StorageKey
  {
    StorageKey(v.kind, v.clrType)
  }

  /** `TempLocalAllocation`: the slot of each temp (-1 when it has none)
      and the storage each slot was created for. */
  datatype Allocation = Allocation(tempToSlot: seq<int>, slotStorages: seq<ValueStorage>)

  predicate IsMaterialized(a: Allocation, t: Temp)
  {
    0 <= t < |a.tempToSlot| && a.tempToSlot[t] >= 0
  }

  /** `GetSlot`: the slot of a materialised temp; `None` where the source
      throws (an index out of range or a temp without a slot). */
  function GetSlot(a: Allocation, t: Temp): (r: Option<nat>)
    ensures r.Some? <==> IsMaterialized(a, t)
    ensures r.Some? ==> r.value == a.tempToSlot[t]
  {
    if IsMaterialized(a, t) then Some(a.tempToSlot[t]) else None
  }

  /** What the allocator reads from a method body, and the optional
      materialisation mask. */
  datatype Context = Context(
    instrs: seq<Instr>,
    tempCount: nat,
    tempStorages: seq<ValueStorage>,
    tempVariableSlots: seq<int>,
    mask: Option<seq<bool>>)

  /** The mask, when given, covers every temp (the source indexes it by
      temp index). */
  predicate WellFormed(c: Context)
  {
    c.mask.Some? ==> |c.mask.value| >= c.tempCount
  }

  predicate Pinned(tempVariableSlots: seq<int>, t: Temp)
  {
    0 <= t < |tempVariableSlots| && tempVariableSlots[t] >= 0
  }

  /** A temp the allocator considers at all: in range and selected by the
      mask. */
  predicate Tracked(c: Context, t: Temp)
    requires WellFormed(c)
  {
    0 <= t < c.tempCount && (c.mask.None? || c.mask.value[t])
  }

  /** `CanEmitInline`: constants, parameter and `this` loads and class
      field loads are re-emitted at their use; a `ConvertToObject` is when
      its source is not pinned to a variable and the source's first
      definition is.  `fuel` bounds the chain of definitions followed. */
  function CanEmitInline(instrs: seq<Instr>, tempVariableSlots: seq<int>, instr: Instr, fuel: nat): bool
    decreases fuel
  {
    match instr
    case ConstNumber(_, _) => true
    case ConstString(_, _) => true
    case ConstBoolean(_, _) => true
    case ConstUndefined(_) => true
    case ConstNull(_) => true
    case LoadParameter(_, _) => true
    case LoadThis(_) => true
    case LoadUserClassInstanceField(_, _, _, _) => true
    case ConvertToObject(source, _, _) =>
      if Pinned(tempVariableSlots, source) then false
      else
        var def := FirstDef(instrs, source);
        fuel > 0 && def.Some? && CanEmitInline(instrs, tempVariableSlots, instrs[def.value], fuel - 1)
    case _ => false
  }

  /** A box of a variable-pinned temp always gets its own local: the
      variable may be overwritten before the box is consumed. */
  lemma ConvertOfPinnedSourceNotInline(instrs: seq<Instr>, tempVariableSlots: seq<int>, source: Temp,
                                       sourceType: Option<ClrType>, result: Temp, fuel: nat)
    requires Pinned(tempVariableSlots, source)
    ensures !CanEmitInline(instrs, tempVariableSlots, ConvertToObject(source, sourceType, result), fuel)
  {
  }

  /** A box of an unpinned constant is re-emitted inline. */
  lemma ConvertOfConstantInline(instrs: seq<Instr>, tempVariableSlots: seq<int>, i: nat,
                                sourceType: Option<ClrType>, result: Temp, fuel: nat)
    requires i < |instrs| && instrs[i].ConstNumber?
    requires FirstDef(instrs, instrs[i].result) == Some(i)
    requires !Pinned(tempVariableSlots, instrs[i].result) && fuel >= 1
    ensures CanEmitInline(instrs, tempVariableSlots, ConvertToObject(instrs[i].result, sourceType, result), fuel)
  {
  }

  /** The last instruction before `n` that reads `t`, or -1. */
  function LastUseBefore(c: Context, t: Temp, n: nat): (r: int)
    requires WellFormed(c) && n <= |c.instrs|
    ensures -1 <= r < n
  {
    if n == 0 then -1
    else if Tracked(c, t) && t in Uses(c.instrs[n - 1]) then n - 1
    else LastUseBefore(c, t, n - 1)
  }

  /** The recorded use is a real one, and no later instruction reads the
      temp. */
  lemma {:induction false} LastUseIsLast(c: Context, t: Temp, n: nat)
    requires WellFormed(c) && n <= |c.instrs|
    ensures var r := LastUseBefore(c, t, n);
      && (r >= 0 ==> Tracked(c, t) && t in Uses(c.instrs[r]))
      && (forall j :: r < j < n ==> !(Tracked(c, t) && t in Uses(c.instrs[j])))
  {
    if n > 0 {
      LastUseIsLast(c, t, n - 1);
    }
  }

  /** The first pass: each temp's last use, or -1. */
  function LastUse(c: Context, t: Temp): int
    requires WellFormed(c)
  {
    LastUseBefore(c, t, |c.instrs|)
  }

  /** The result of instruction `i` is given a slot: it is tracked, read
      somewhere, not re-emitted inline and not pinned to a variable. */
  predicate Qualifies(c: Context, i: nat)
    requires WellFormed(c) && i < |c.instrs|
  {
    var d := Defined(c.instrs[i]);
    && d.Some?
    && Tracked(c, d.value)
    && LastUse(c, d.value) >= 0
    && !CanEmitInline(c.instrs, c.tempVariableSlots, c.instrs[i], |c.instrs|)
    && !Pinned(c.tempVariableSlots, d.value)
  }

  /** The last instruction before `n` that gave `t` a slot, or -1. */
  function DefAt(c: Context, t: Temp, n: nat): (r: int)
    requires WellFormed(c) && n <= |c.instrs|
    ensures -1 <= r < n
  {
    if n == 0 then -1
    else if Qualifies(c, n - 1) && Defines(c.instrs[n - 1], t) then n - 1
    else DefAt(c, t, n - 1)
  }

  /** The instruction recorded is the last one before `n` that gave `t` a
      slot. */
  lemma {:induction false} DefAtIsLast(c: Context, t: Temp, n: nat)
    requires WellFormed(c) && n <= |c.instrs|
    ensures var r := DefAt(c, t, n);
      && (r >= 0 ==> Qualifies(c, r) && Defines(c.instrs[r], t))
      && (forall j :: r < j < n ==> !(Qualifies(c, j) && Defines(c.instrs[j], t)))
  {
    if n > 0 {
      DefAtIsLast(c, t, n - 1);
    }
  }

  /** The allocator's state between instructions: the slot table, the
      slots created so far, and a free stack (top last) per key. */
  datatype AllocState = AllocState(
    tempToSlot: seq<int>,
    slotStorages: seq<ValueStorage>,
    free: map<StorageKey, seq<int>>)

  function Initial(c: Context): (r: AllocState)
    ensures |r.tempToSlot| == c.tempCount
    ensures forall t :: 0 <= t < c.tempCount ==> r.tempToSlot[t] == -1
  {
    AllocState(Minus1s(c.tempCount), [], map[])
  }

  function Minus1s(n: nat): (r: seq<int>)
    ensures |r| == n && forall t :: 0 <= t < n ==> r[t] == -1
  {
    if n == 0 then [] else Minus1s(n - 1) + [-1]
  }

  function Push(st: AllocState, key: StorageKey, slot: int): AllocState
  {
    st.(free := st.free[key := (if key in st.free then st.free[key] else []) + [slot]])
  }

  /** Return the slot of operand `u` to its free stack when `u` dies at
      instruction `i`. */
  function FreeOne(c: Context, st: AllocState, i: nat, u: Temp): (r: AllocState)
    requires WellFormed(c) && |st.tempToSlot| == c.tempCount
    ensures r.tempToSlot == st.tempToSlot && r.slotStorages == st.slotStorages
  {
    if 0 <= u < c.tempCount && LastUse(c, u) == i && st.tempToSlot[u] >= 0 then
      Push(st, KeyOf(StorageOf(c.tempStorages, u)), st.tempToSlot[u])
    else st
  }

  /** Free the operands `ops` in order. */
  function FreeOps(c: Context, st: AllocState, i: nat, ops: seq<Temp>): (r: AllocState)
    requires WellFormed(c) && |st.tempToSlot| == c.tempCount
    ensures r.tempToSlot == st.tempToSlot && r.slotStorages == st.slotStorages
  {
    if |ops| == 0 then st
    else FreeOne(c, FreeOps(c, st, i, ops[..|ops| - 1]), i, ops[|ops| - 1])
  }

  /** The operands without repetitions, first occurrences kept. */
  function Dedup(ops: seq<Temp>): (r: seq<Temp>)
    ensures forall x :: x in r <==> x in ops
    ensures forall j, k :: 0 <= j < k < |r| ==> r[j] != r[k]
  {
    if |ops| == 0 then []
    else
      var p := Dedup(ops[..|ops| - 1]);
      var u := ops[|ops| - 1];
      assert forall x :: x in ops <==> x in ops[..|ops| - 1] || x == u;
      if u in ops[..|ops| - 1] then p else p + [u]
  }

  predicate DistinctTemps(ops: seq<Temp>)
  {
    forall j, k :: 0 <= j < k < |ops| ==> ops[j] != ops[k]
  }

  lemma {:induction false} DedupOfDistinct(ops: seq<Temp>)
    requires DistinctTemps(ops)
    ensures Dedup(ops) == ops
  {
    if |ops| > 0 {
      DedupOfDistinct(ops[..|ops| - 1]);
      assert ops == ops[..|ops| - 1] + [ops[|ops| - 1]];
    }
  }

  /** Give the result of instruction `i` a slot when it qualifies: the top
      of its key's free stack, or a fresh slot numbered after the others. */
  function AllocResult(c: Context, st: AllocState, i: nat): (r: AllocState)
    requires WellFormed(c) && i < |c.instrs| && |st.tempToSlot| == c.tempCount
    ensures |r.tempToSlot| == c.tempCount
  {
    if Qualifies(c, i) then
      var d := Defined(c.instrs[i]).value;
      var storage := StorageOf(c.tempStorages, d);
      var key := KeyOf(storage);
      if key in st.free && |st.free[key]| > 0 then
        var stack := st.free[key];
        st.(tempToSlot := st.tempToSlot[d := stack[|stack| - 1]], free := st.free[key := stack[..|stack| - 1]])
      else
        st.(tempToSlot := st.tempToSlot[d := |st.slotStorages|], slotStorages := st.slotStorages + [storage])
    else st
  }

  /** One instruction of the second pass.  As written (`dedupe` false)
      every operand occurrence is freed; corrected (`dedupe` true) each
      dying operand is freed once. */
  function Step(c: Context, st: AllocState, i: nat, dedupe: bool): (r: AllocState)
    requires WellFormed(c) && i < |c.instrs| && |st.tempToSlot| == c.tempCount
    ensures |r.tempToSlot| == c.tempCount
  {
    var ops := Uses(c.instrs[i]);
    AllocResult(c, FreeOps(c, st, i, if dedupe then Dedup(ops) else ops), i)
  }

  function Run(c: Context, n: nat, dedupe: bool): (r: AllocState)
    requires WellFormed(c) && n <= |c.instrs|
    ensures |r.tempToSlot| == c.tempCount
  {
    if n == 0 then Initial(c) else Step(c, Run(c, n - 1, dedupe), n - 1, dedupe)
  }

  function Allocated(c: Context, dedupe: bool): Allocation
    requires WellFormed(c)
  {
    var st := Run(c, |c.instrs|, dedupe);
    Allocation(st.tempToSlot, st.slotStorages)
  }

  function ContextOf(body: MethodBody, mask: Option<seq<bool>>): Context
    reads body
  {
    Context(body.instructions, body.tempCount, body.tempStorages, body.tempVariableSlots, mask)
  }

  // ----- Facts that hold for both freeing disciplines -----

  /** Slots are in range and each slot's storage has the key of every temp
      mapped to it and of every free stack holding it. */
  ghost predicate Shape(c: Context, st: AllocState)
  {
    && |st.tempToSlot| == c.tempCount
    && (forall t :: 0 <= t < |st.tempToSlot| ==> st.tempToSlot[t] < |st.slotStorages|)
    && (forall t :: 0 <= t < |st.tempToSlot| && st.tempToSlot[t] >= 0 ==>
          KeyOf(st.slotStorages[st.tempToSlot[t]]) == KeyOf(StorageOf(c.tempStorages, t)))
    && (forall k, j :: k in st.free && 0 <= j < |st.free[k]| ==>
          0 <= st.free[k][j] < |st.slotStorages| && KeyOf(st.slotStorages[st.free[k][j]]) == k)
  }

  /** A temp has a slot exactly when some instruction so far gave it one. */
  ghost predicate DefAtMatches(c: Context, st: AllocState, n: nat)
    requires WellFormed(c) && n <= |c.instrs|
  {
    forall t :: 0 <= t < |st.tempToSlot| ==> (st.tempToSlot[t] >= 0 <==> DefAt(c, t, n) >= 0)
  }

  lemma {:induction false} FreeOpsShape(c: Context, st: AllocState, i: nat, ops: seq<Temp>)
    requires WellFormed(c) && Shape(c, st)
    ensures Shape(c, FreeOps(c, st, i, ops))
  {
    if |ops| > 0 {
      FreeOpsShape(c, st, i, ops[..|ops| - 1]);
    }
  }

  lemma AllocShape(c: Context, st: AllocState, i: nat)
    requires WellFormed(c) && i < |c.instrs| && Shape(c, st)
    requires DefAtMatches(c, st, i)
    ensures Shape(c, AllocResult(c, st, i))
    ensures DefAtMatches(c, AllocResult(c, st, i), i + 1)
  {
    var r := AllocResult(c, st, i);
    if Qualifies(c, i) {
      var d := Defined(c.instrs[i]).value;
      var key := KeyOf(StorageOf(c.tempStorages, d));
      if key in st.free && |st.free[key]| > 0 {
        var stack := st.free[key];
        assert KeyOf(st.slotStorages[stack[|stack| - 1]]) == key;
      }
    }
  }

  lemma {:induction false} RunShape(c: Context, n: nat, dedupe: bool)
    requires WellFormed(c) && n <= |c.instrs|
    ensures Shape(c, Run(c, n, dedupe))
    ensures DefAtMatches(c, Run(c, n, dedupe), n)
  {
    if n == 0 {
      InitialShape(c);
    } else {
      RunShape(c, n - 1, dedupe);
      var st := Run(c, n - 1, dedupe);
      StepShape(c, st, n - 1, dedupe);
      assert Run(c, n, dedupe) == Step(c, st, n - 1, dedupe);
    }
  }

  lemma InitialShape(c: Context)
    requires WellFormed(c)
    ensures Shape(c, Initial(c))
    ensures DefAtMatches(c, Initial(c), 0)
  {
    var st := Initial(c);
    assert forall t :: 0 <= t < |st.tempToSlot| ==> st.tempToSlot[t] == -1 && DefAt(c, t, 0) == -1;
  }

  lemma StepShape(c: Context, st: AllocState, i: nat, dedupe: bool)
    requires WellFormed(c) && i < |c.instrs| && Shape(c, st)
    requires DefAtMatches(c, st, i)
    ensures Shape(c, Step(c, st, i, dedupe))
    ensures DefAtMatches(c, Step(c, st, i, dedupe), i + 1)
  {
    var ops := Uses(c.instrs[i]);
    var operands := if dedupe then Dedup(ops) else ops;
    var freed := FreeOps(c, st, i, operands);
    FreeOpsShape(c, st, i, operands);
    assert freed.tempToSlot == st.tempToSlot;
    AllocShape(c, freed, i);
  }

  /** A materialised temp's slot exists and was created for its storage
      key. */
  lemma SlotStorageMatches(c: Context, dedupe: bool, t: Temp)
    requires WellFormed(c) && IsMaterialized(Allocated(c, dedupe), t)
    ensures var a := Allocated(c, dedupe);
      a.tempToSlot[t] < |a.slotStorages| &&
      KeyOf(a.slotStorages[a.tempToSlot[t]]) == KeyOf(StorageOf(c.tempStorages, t))
  {
    RunShape(c, |c.instrs|, dedupe);
  }

  /** A temp gets a slot exactly when some instruction defining it
      qualifies: the temp is tracked, read somewhere, not inline-emittable
      and not pinned to a variable. */
  lemma MaterializedIff(c: Context, dedupe: bool, t: Temp)
    requires WellFormed(c) && 0 <= t < c.tempCount
    ensures IsMaterialized(Allocated(c, dedupe), t) <==>
      exists i :: 0 <= i < |c.instrs| && Qualifies(c, i) && Defines(c.instrs[i], t)
  {
    RunShape(c, |c.instrs|, dedupe);
    DefAtIsLast(c, t, |c.instrs|);
    var r := DefAt(c, t, |c.instrs|);
    if r >= 0 {
      assert Qualifies(c, r) && Defines(c.instrs[r], t);
    }
  }

  /** The number of qualifying instructions before `n`. */
  function QualifyingBefore(c: Context, n: nat): (r: nat)
    requires WellFormed(c) && n <= |c.instrs|
  {
    if n == 0 then 0 else QualifyingBefore(c, n - 1) + (if Qualifies(c, n - 1) then 1 else 0)
  }

  lemma {:induction false} SlotsBoundedBefore(c: Context, n: nat, dedupe: bool)
    requires WellFormed(c) && n <= |c.instrs|
    ensures |Run(c, n, dedupe).slotStorages| <= QualifyingBefore(c, n)
  {
    if n > 0 {
      SlotsBoundedBefore(c, n - 1, dedupe);
    }
  }

  /** Slots are only created for qualifying definitions, one at most per
      definition, numbered from 0. */
  lemma SlotsBoundedByDefinitions(c: Context, dedupe: bool)
    requires WellFormed(c)
    ensures |Allocated(c, dedupe).slotStorages| <= QualifyingBefore(c, |c.instrs|)
    ensures forall t :: IsMaterialized(Allocated(c, dedupe), t) ==>
      Allocated(c, dedupe).tempToSlot[t] < |Allocated(c, dedupe).slotStorages|
  {
    SlotsBoundedBefore(c, |c.instrs|, dedupe);
    RunShape(c, |c.instrs|, dedupe);
  }

  lemma {:induction false} NoTempsNoSlots(c: Context, n: nat, dedupe: bool)
    requires WellFormed(c) && c.tempCount == 0 && n <= |c.instrs|
    ensures Run(c, n, dedupe) == AllocState([], [], map[])
  {
    if n > 0 {
      NoTempsNoSlots(c, n - 1, dedupe);
      var ops := Uses(c.instrs[n - 1]);
      NothingFreedWithoutTemps(c, n - 1, if dedupe then Dedup(ops) else ops);
    }
  }

  lemma {:induction false} NothingFreedWithoutTemps(c: Context, i: nat, ops: seq<Temp>)
    requires WellFormed(c) && c.tempCount == 0
    ensures FreeOps(c, AllocState([], [], map[]), i, ops) == AllocState([], [], map[])
  {
    if |ops| > 0 {
      NothingFreedWithoutTemps(c, i, ops[..|ops| - 1]);
    }
  }

  /** A method with no temps gets an empty allocation. */
  lemma EmptyAllocation(c: Context, dedupe: bool)
    requires WellFormed(c) && c.tempCount == 0
    ensures Allocated(c, dedupe) == Allocation([], [])
  {
    NoTempsNoSlots(c, |c.instrs|, dedupe);
  }

  /** Freeing once per operand occurrence is the same as freeing once per
      operand when no instruction reads a temp twice. */
  lemma {:induction false} AsWrittenAgreesWithoutRepeats(c: Context, n: nat)
    requires WellFormed(c) && n <= |c.instrs|
    requires forall i :: 0 <= i < |c.instrs| ==> DistinctTemps(Uses(c.instrs[i]))
    ensures Run(c, n, false) == Run(c, n, true)
  {
    if n > 0 {
      AsWrittenAgreesWithoutRepeats(c, n - 1);
      var st := Run(c, n - 1, false);
      DedupOfDistinct(Uses(c.instrs[n - 1]));
      assert Step(c, st, n - 1, false) == Step(c, st, n - 1, true);
      assert Run(c, n, false) == Step(c, st, n - 1, false);
      assert Run(c, n, true) == Step(c, Run(c, n - 1, true), n - 1, true);
    }
  }

  // ----- Non-interference of the corrected allocation -----

  ghost predicate Held(st: AllocState, t: Temp)
  {
    0 <= t < |st.tempToSlot| && st.tempToSlot[t] >= 0
  }

  /** Slot `s` lies on the free stack of its own key. */
  ghost predicate IsFree(st: AllocState, s: int)
  {
    0 <= s < |st.slotStorages| && KeyOf(st.slotStorages[s]) in st.free &&
    s in st.free[KeyOf(st.slotStorages[s])]
  }

  ghost predicate NoDupStacks(st: AllocState)
  {
    forall k, j1, j2 :: k in st.free && 0 <= j1 < j2 < |st.free[k]| ==> st.free[k][j1] != st.free[k][j2]
  }

  /** Every temp whose slot is free has died before instruction `i`, or
      dies at `i` and is among the operands freed there so far. */
  ghost predicate FreeHoldersDead(c: Context, st: AllocState, i: nat, done: seq<Temp>)
    requires WellFormed(c)
  {
    forall t :: Held(st, t) && IsFree(st, st.tempToSlot[t]) ==>
      LastUse(c, t) < i || (LastUse(c, t) == i && t in done)
  }

  /** Two temps sharing a slot: one was given it no earlier than the
      other's last use. */
  ghost predicate Disjoint(c: Context, tempToSlot: seq<int>, n: nat)
    requires WellFormed(c) && n <= |c.instrs|
  {
    forall a, b ::
      (0 <= a < |tempToSlot| && 0 <= b < |tempToSlot| && a != b &&
       tempToSlot[a] >= 0 && tempToSlot[a] == tempToSlot[b]) ==>
      DefAt(c, b, n) >= LastUse(c, a) || DefAt(c, a, n) >= LastUse(c, b)
  }

  ghost predicate Inv(c: Context, st: AllocState, n: nat)
    requires WellFormed(c) && n <= |c.instrs|
  {
    && Shape(c, st)
    && NoDupStacks(st)
    && DefAtMatches(c, st, n)
    && FreeHoldersDead(c, st, n, [])
    && Disjoint(c, st.tempToSlot, n)
  }

  lemma {:induction false} FreeOpsInv(c: Context, st0: AllocState, i: nat, ops: seq<Temp>)
    requires WellFormed(c) && i < |c.instrs| && Inv(c, st0, i)
    requires DistinctTemps(ops)
    ensures var st := FreeOps(c, st0, i, ops);
      Shape(c, st) && NoDupStacks(st) && FreeHoldersDead(c, st, i, ops)
  {
    var st := FreeOps(c, st0, i, ops);
    FreeOpsShape(c, st0, i, ops);
    if |ops| > 0 {
      var p := ops[..|ops| - 1];
      var u := ops[|ops| - 1];
      assert DistinctTemps(p);
      FreeOpsInv(c, st0, i, p);
      var st1 := FreeOps(c, st0, i, p);
      assert u !in p;
      if 0 <= u < c.tempCount && LastUse(c, u) == i && st1.tempToSlot[u] >= 0 {
        var s := st1.tempToSlot[u];
        var key := KeyOf(StorageOf(c.tempStorages, u));
        assert KeyOf(st1.slotStorages[s]) == key;
        assert !IsFree(st1, s);
        FreePushPreserves(c, st0, st1, i, p, u);
      } else {
        assert st == st1;
        assert forall t :: t in p ==> t in ops;
      }
    }
  }

  /** The push step of `FreeOpsInv`. */
  lemma FreePushPreserves(c: Context, st0: AllocState, st1: AllocState, i: nat, p: seq<Temp>, u: Temp)
    requires WellFormed(c) && i < |c.instrs| && Inv(c, st0, i)
    requires Shape(c, st1) && NoDupStacks(st1) && FreeHoldersDead(c, st1, i, p)
    requires st1.tempToSlot == st0.tempToSlot && st1.slotStorages == st0.slotStorages
    requires 0 <= u < c.tempCount && LastUse(c, u) == i && st1.tempToSlot[u] >= 0 && u !in p
    requires !IsFree(st1, st1.tempToSlot[u])
    ensures var st := Push(st1, KeyOf(StorageOf(c.tempStorages, u)), st1.tempToSlot[u]);
      Shape(c, st) && NoDupStacks(st) && FreeHoldersDead(c, st, i, p + [u])
  {
    var s := st1.tempToSlot[u];
    var key := KeyOf(StorageOf(c.tempStorages, u));
    var st := Push(st1, key, s);
    assert KeyOf(st1.slotStorages[s]) == key;
    assert key in st1.free ==> s !in st1.free[key];
    PushShape(c, st1, u);
    PushNoDup(st1, key, s);
    forall t | Held(st, t) && IsFree(st, st.tempToSlot[t])
      ensures LastUse(c, t) < i || (LastUse(c, t) == i && t in p + [u])
    {
      if st.tempToSlot[t] == s {
        if t != u {
          assert DefAt(c, t, i) < LastUse(c, u);
          assert LastUse(c, t) <= DefAt(c, u, i);
        }
      } else {
        assert IsFree(st1, st1.tempToSlot[t]);
      }
    }
  }

  lemma PushShape(c: Context, st: AllocState, u: Temp)
    requires WellFormed(c) && Shape(c, st) && 0 <= u < c.tempCount && st.tempToSlot[u] >= 0
    ensures Shape(c, Push(st, KeyOf(StorageOf(c.tempStorages, u)), st.tempToSlot[u]))
  {
    assert KeyOf(st.slotStorages[st.tempToSlot[u]]) == KeyOf(StorageOf(c.tempStorages, u));
  }

  lemma PushNoDup(st: AllocState, key: StorageKey, s: int)
    requires NoDupStacks(st) && (key in st.free ==> s !in st.free[key])
    ensures NoDupStacks(Push(st, key, s))
  {
  }

  lemma AllocInv(c: Context, st: AllocState, i: nat, done: seq<Temp>)
    requires WellFormed(c) && i < |c.instrs|
    requires Shape(c, st) && NoDupStacks(st) && DefAtMatches(c, st, i)
    requires FreeHoldersDead(c, st, i, done) && Disjoint(c, st.tempToSlot, i)
    ensures Inv(c, AllocResult(c, st, i), i + 1)
  {
    AllocShape(c, st, i);
    if Qualifies(c, i) {
      var d := Defined(c.instrs[i]).value;
      var key := KeyOf(StorageOf(c.tempStorages, d));
      if key in st.free && |st.free[key]| > 0 {
        AllocPopInv(c, st, i, done);
      } else {
        AllocFreshInv(c, st, i, done);
      }
    } else {
      DefAtUnchanged(c, i);
    }
  }

  /** Instruction `i` gives a slot to its result only. */
  lemma DefAtStep(c: Context, i: nat, t: Temp)
    requires WellFormed(c) && i < |c.instrs|
    ensures DefAt(c, t, i + 1) == (if Qualifies(c, i) && Defines(c.instrs[i], t) then i else DefAt(c, t, i))
  {
  }

  lemma DefAtUnchanged(c: Context, i: nat)
    requires WellFormed(c) && i < |c.instrs| && !Qualifies(c, i)
    ensures forall t :: DefAt(c, t, i + 1) == DefAt(c, t, i)
  {
  }

  /** The result takes the top of its key's free stack. */
  lemma AllocPopInv(c: Context, st: AllocState, i: nat, done: seq<Temp>)
    requires WellFormed(c) && i < |c.instrs| && Qualifies(c, i)
    requires Shape(c, st) && NoDupStacks(st) && DefAtMatches(c, st, i)
    requires FreeHoldersDead(c, st, i, done) && Disjoint(c, st.tempToSlot, i)
    requires var key := KeyOf(StorageOf(c.tempStorages, Defined(c.instrs[i]).value));
      key in st.free && |st.free[key]| > 0
    ensures Inv(c, AllocResult(c, st, i), i + 1)
  {
    AllocShape(c, st, i);
    var r := AllocResult(c, st, i);
    var d := Defined(c.instrs[i]).value;
    var key := KeyOf(StorageOf(c.tempStorages, d));
    var stack := st.free[key];
    var s := stack[|stack| - 1];
    assert r.tempToSlot == st.tempToSlot[d := s];
    assert r.free == st.free[key := stack[..|stack| - 1]];
    assert KeyOf(st.slotStorages[s]) == key;
    assert IsFree(st, s);
    assert s !in stack[..|stack| - 1];
    assert !IsFree(r, s);
    forall t | Held(r, t) && IsFree(r, r.tempToSlot[t])
      ensures LastUse(c, t) < i + 1
    {
      assert t != d;
      assert IsFree(st, st.tempToSlot[t]);
    }
    forall a, b | 0 <= a < |r.tempToSlot| && 0 <= b < |r.tempToSlot| && a != b &&
        r.tempToSlot[a] >= 0 && r.tempToSlot[a] == r.tempToSlot[b]
      ensures DefAt(c, b, i + 1) >= LastUse(c, a) || DefAt(c, a, i + 1) >= LastUse(c, b)
    {
      DefAtStep(c, i, a);
      DefAtStep(c, i, b);
      if a == d {
        assert Held(st, b) && IsFree(st, st.tempToSlot[b]);
      } else if b == d {
        assert Held(st, a) && IsFree(st, st.tempToSlot[a]);
      }
    }
  }

  /** The result takes a fresh slot. */
  lemma AllocFreshInv(c: Context, st: AllocState, i: nat, done: seq<Temp>)
    requires WellFormed(c) && i < |c.instrs| && Qualifies(c, i)
    requires Shape(c, st) && NoDupStacks(st) && DefAtMatches(c, st, i)
    requires FreeHoldersDead(c, st, i, done) && Disjoint(c, st.tempToSlot, i)
    requires var key := KeyOf(StorageOf(c.tempStorages, Defined(c.instrs[i]).value));
      !(key in st.free && |st.free[key]| > 0)
    ensures Inv(c, AllocResult(c, st, i), i + 1)
  {
    AllocShape(c, st, i);
    var r := AllocResult(c, st, i);
    var d := Defined(c.instrs[i]).value;
    var s := |st.slotStorages|;
    assert r.tempToSlot == st.tempToSlot[d := s];
    assert r.free == st.free;
    assert r.slotStorages == st.slotStorages + [StorageOf(c.tempStorages, d)];
    assert !IsFree(r, s);
    forall t | Held(r, t) && IsFree(r, r.tempToSlot[t])
      ensures LastUse(c, t) < i + 1
    {
      assert t != d;
      assert r.slotStorages[r.tempToSlot[t]] == st.slotStorages[st.tempToSlot[t]];
      assert IsFree(st, st.tempToSlot[t]);
    }
    forall a, b | 0 <= a < |r.tempToSlot| && 0 <= b < |r.tempToSlot| && a != b &&
        r.tempToSlot[a] >= 0 && r.tempToSlot[a] == r.tempToSlot[b]
      ensures DefAt(c, b, i + 1) >= LastUse(c, a) || DefAt(c, a, i + 1) >= LastUse(c, b)
    {
      DefAtStep(c, i, a);
      DefAtStep(c, i, b);
      assert a != d && b != d;
    }
  }

  /** One corrected allocation step keeps the invariant. */
  lemma StepInv(c: Context, st: AllocState, i: nat, next: AllocState)
    requires WellFormed(c) && i < |c.instrs| && Inv(c, st, i)
    requires next == Step(c, st, i, true)
    ensures Inv(c, next, i + 1)
  {
    var ops := Dedup(Uses(c.instrs[i]));
    FreeOpsInv(c, st, i, ops);
    var freed := FreeOps(c, st, i, ops);
    assert freed.tempToSlot == st.tempToSlot;
    assert DefAtMatches(c, freed, i);
    assert Disjoint(c, freed.tempToSlot, i);
    AllocInv(c, freed, i, ops);
    assert Step(c, st, i, true) == AllocResult(c, freed, i);
  }

  lemma RunStepInv(c: Context, i: nat)
    requires WellFormed(c) && i < |c.instrs| && Inv(c, Run(c, i, true), i)
    ensures Inv(c, Run(c, i + 1, true), i + 1)
  {
    StepInv(c, Run(c, i, true), i, Run(c, i + 1, true));
  }

  lemma {:induction false} RunInv(c: Context, n: nat)
    requires WellFormed(c) && n <= |c.instrs|
    ensures Inv(c, Run(c, n, true), n)
  {
    if n == 0 {
      InitialInv(c);
    } else {
      var i := n - 1;
      RunInv(c, i);
      RunStepInv(c, i);
      assert i + 1 == n;
    }
  }

  lemma InitialInv(c: Context)
    requires WellFormed(c)
    ensures Inv(c, Run(c, 0, true), 0)
  {
    InitialShape(c);
    assert Run(c, 0, true) == Initial(c);
  }

  /** The corrected allocation never lets two temps share a slot while
      both are live: one of them is given the slot no earlier than the
      other's last use. */
  lemma CorrectedSlotsNeverOverlap(c: Context)
    requires WellFormed(c)
    ensures Disjoint(c, Allocated(c, true).tempToSlot, |c.instrs|)
  {
    RunInv(c, |c.instrs|);
  }

  /** The allocator as written keeps the same guarantee when no
      instruction reads a temp twice. */
  lemma AsWrittenSlotsNeverOverlapWithoutRepeats(c: Context)
    requires WellFormed(c)
    requires forall i :: 0 <= i < |c.instrs| ==> DistinctTemps(Uses(c.instrs[i]))
    ensures Disjoint(c, Allocated(c, false).tempToSlot, |c.instrs|)
  {
    AsWrittenAgreesWithoutRepeats(c, |c.instrs|);
    CorrectedSlotsNeverOverlap(c);
  }

  /** `x = g0 + g0; y = g1; x + y`: the dying `g0` is freed twice, so `x`
      and `y` are both given slot 0 although both are live until the last
      addition. */
  function DoubleFreeExample(): (c: Context)
    ensures WellFormed(c)
  {
    Context(
      [ GetIntrinsicGlobal("g0", 0),
        Binary(AddDynamic, 0, 0, 1),
        GetIntrinsicGlobal("g1", 2),
        Binary(AddDynamic, 1, 2, 3),
        Return(3) ],
      4, [ObjectReference(), ObjectReference(), ObjectReference(), ObjectReference()], [], None)
  }

  lemma DuplicateOperandSharesLiveSlot(c: Context)
    requires c == DoubleFreeExample()
    ensures var a := Allocated(c, false);
      && a.tempToSlot[1] == 0 && a.tempToSlot[2] == 0
      && DefAt(c, 1, |c.instrs|) == 1 && DefAt(c, 2, |c.instrs|) == 2
      && LastUse(c, 1) == 3 && LastUse(c, 2) == 3
      && !Disjoint(c, a.tempToSlot, |c.instrs|)
  {
    LastUsesOfExample();
    ExampleRun5(c, |c.instrs|);
    ExampleDefAt(c, |c.instrs|);
    var a := Allocated(c, false);
    assert a.tempToSlot[1] == a.tempToSlot[2] == 0;
  }

  lemma ExampleDefAt(c: Context, n: nat)
    requires c == DoubleFreeExample() && n == 5
    ensures DefAt(c, 1, n) == 1 && DefAt(c, 2, n) == 2
  {
    ExampleQualifies(c);
    assert DefAt(c, 1, 2) == 1;
    assert DefAt(c, 1, 3) == 1;
    assert DefAt(c, 1, 4) == 1;
    assert DefAt(c, 2, 3) == 2;
    assert DefAt(c, 2, 4) == 2;
  }

  function ExampleKey(): StorageKey
  {
    KeyOf(ObjectReference())
  }

  lemma ExampleRun1(c: Context, n: nat)
    requires c == DoubleFreeExample() && n == 1
    ensures Run(c, n, false) == AllocState([0, -1, -1, -1], [ObjectReference()], map[])
  {
    LastUsesOfExample();
    assert Qualifies(c, 0);
    assert FreeOps(c, Initial(c), 0, []) == Initial(c);
  }

  lemma ExampleRun2(c: Context, n: nat)
    requires c == DoubleFreeExample() && n == 2
    ensures Run(c, n, false) == AllocState([0, 0, -1, -1], [ObjectReference()], map[ExampleKey() := [0]])
  {
    ExampleRun1(c, n - 1);
    ExampleFree2(c);
    ExampleQualifies(c);
    var s1 := AllocState([0, -1, -1, -1], [ObjectReference()], map[]);
    assert Uses(c.instrs[1]) == [0, 0];
    assert Run(c, n, false) == Step(c, s1, 1, false);
  }

  lemma ExampleFree2(c: Context)
    requires c == DoubleFreeExample()
    ensures FreeOps(c, AllocState([0, -1, -1, -1], [ObjectReference()], map[]), 1, [0, 0]) ==
      AllocState([0, -1, -1, -1], [ObjectReference()], map[ExampleKey() := [0, 0]])
  {
    LastUsesOfExample();
    var k := ExampleKey();
    var s1 := AllocState([0, -1, -1, -1], [ObjectReference()], map[]);
    var f1 := AllocState([0, -1, -1, -1], [ObjectReference()], map[k := [0]]);
    var f2 := AllocState([0, -1, -1, -1], [ObjectReference()], map[k := [0, 0]]);
    assert StorageOf(c.tempStorages, 0) == ObjectReference();
    var none: seq<int> := [];
    assert k !in s1.free && none + [0] == [0];
    assert FreeOne(c, s1, 1, 0) == f1;
    assert k in f1.free && f1.free[k] + [0] == [0, 0];
    assert FreeOne(c, f1, 1, 0) == f2;
    assert [0, 0][..1] == [0] && [0][..0] == [];
  }

  lemma ExampleRun3(c: Context, n: nat)
    requires c == DoubleFreeExample() && n == 3
    ensures Run(c, n, false) == AllocState([0, 0, 0, -1], [ObjectReference()], map[ExampleKey() := []])
  {
    LastUsesOfExample();
    ExampleRun2(c, n - 1);
    var k := ExampleKey();
    var s2 := AllocState([0, 0, -1, -1], [ObjectReference()], map[k := [0]]);
    assert Run(c, n, false) == Step(c, s2, 2, false);
    assert Uses(c.instrs[2]) == [];
    assert FreeOps(c, s2, 2, []) == s2;
    ExampleQualifies(c);
    assert Defined(c.instrs[2]) == Some(2);
    assert StorageOf(c.tempStorages, 2) == ObjectReference();
    assert k in s2.free && s2.free[k] == [0] && [0][..0] == [];
    assert AllocResult(c, s2, 2) == AllocState([0, 0, 0, -1], [ObjectReference()], map[k := []]);
  }

  lemma ExampleQualifies(c: Context)
    requires c == DoubleFreeExample()
    ensures Qualifies(c, 0) && Qualifies(c, 1) && Qualifies(c, 2) && Qualifies(c, 3) && !Qualifies(c, 4)
  {
    LastUsesOfExample();
  }

  lemma ExampleFree4(c: Context)
    requires c == DoubleFreeExample()
    ensures FreeOps(c, AllocState([0, 0, 0, -1], [ObjectReference()], map[ExampleKey() := []]), 3, [1, 2]) ==
      AllocState([0, 0, 0, -1], [ObjectReference()], map[ExampleKey() := [0, 0]])
  {
    LastUsesOfExample();
    var k := ExampleKey();
    var s3 := AllocState([0, 0, 0, -1], [ObjectReference()], map[k := []]);
    var f1 := AllocState([0, 0, 0, -1], [ObjectReference()], map[k := [0]]);
    var f2 := AllocState([0, 0, 0, -1], [ObjectReference()], map[k := [0, 0]]);
    assert StorageOf(c.tempStorages, 1) == ObjectReference();
    assert StorageOf(c.tempStorages, 2) == ObjectReference();
    assert k in s3.free && s3.free[k] + [0] == [0];
    assert FreeOne(c, s3, 3, 1) == f1;
    assert k in f1.free && f1.free[k] + [0] == [0, 0];
    assert FreeOne(c, f1, 3, 2) == f2;
    assert [1, 2][..1] == [1] && [1][..0] == [];
  }

  lemma ExampleRun4(c: Context, n: nat)
    requires c == DoubleFreeExample() && n == 4
    ensures Run(c, n, false) == AllocState([0, 0, 0, 0], [ObjectReference()], map[ExampleKey() := [0]])
  {
    ExampleRun3(c, n - 1);
    ExampleFree4(c);
    ExampleQualifies(c);
    assert Uses(c.instrs[3]) == [1, 2];
  }

  lemma ExampleRun5(c: Context, n: nat)
    requires c == DoubleFreeExample() && n == 5
    ensures Run(c, n, false).tempToSlot == [0, 0, 0, 0]
  {
    ExampleRun4(c, n - 1);
    ExampleQualifies(c);
  }

  lemma LastUsesOfExample()
    ensures var c := DoubleFreeExample();
      LastUse(c, 0) == 1 && LastUse(c, 1) == 3 && LastUse(c, 2) == 3 && LastUse(c, 3) == 4
  {
    var c := DoubleFreeExample();
    forall t | 0 <= t < 4
      ensures LastUseBefore(c, t, 1) == -1
    {
      assert LastUseBefore(c, t, 0) == -1;
    }
    assert LastUseBefore(c, 0, 2) == 1;
    assert LastUseBefore(c, 1, 2) == -1;
    assert LastUseBefore(c, 2, 2) == -1;
    assert LastUseBefore(c, 3, 2) == -1;
    assert LastUseBefore(c, 0, 3) == 1;
    assert LastUseBefore(c, 1, 3) == -1;
    assert LastUseBefore(c, 2, 3) == -1;
    assert LastUseBefore(c, 3, 3) == -1;
    assert LastUseBefore(c, 0, 4) == 1;
    assert LastUseBefore(c, 1, 4) == 3;
    assert LastUseBefore(c, 2, 4) == 3;
    assert LastUseBefore(c, 3, 4) == -1;
    assert LastUseBefore(c, 0, 5) == 1;
  }

  /** `Allocate`: the two passes over the method body, the second freeing
      a slot once per operand occurrence as the source does. */
  method Allocate(body: MethodBody, mask: Option<seq<bool>>) returns (a: Allocation)
    requires mask.Some? ==> |mask.value| >= body.tempCount
    ensures a == Allocated(ContextOf(body, mask), false)
    ensures forall t :: IsMaterialized(a, t) ==>
      (a.tempToSlot[t] < |a.slotStorages| &&
       KeyOf(a.slotStorages[a.tempToSlot[t]]) == KeyOf(StorageOf(body.tempStorages, t)))
    ensures (forall i :: 0 <= i < |body.instructions| ==> DistinctTemps(Uses(body.instructions[i]))) ==>
      Disjoint(ContextOf(body, mask), a.tempToSlot, |body.instructions|)
  {
    var c := ContextOf(body, mask);
    a := AllocateTwoPasses(c);
    RunShape(c, |c.instrs|, false);
    if forall i :: 0 <= i < |body.instructions| ==> DistinctTemps(Uses(body.instructions[i])) {
      AsWrittenSlotsNeverOverlapWithoutRepeats(c);
    }
  }

  method AllocateTwoPasses(c: Context) returns (a: Allocation)
    requires WellFormed(c)
    ensures a == Allocated(c, false)
  {
    var tempCount := c.tempCount;
    if tempCount == 0 {
      EmptyAllocation(c, false);
      return Allocation([], []);
    }
    var lastUse := LastUses(c);
    var tempToSlot := new int[tempCount](_ => -1);
    assert tempToSlot[..] == Minus1s(tempCount);
    var slotStorages: seq<ValueStorage> := [];
    var freeByKey: map<StorageKey, seq<int>> := map[];
    for i := 0 to |c.instrs|
      invariant AllocState(tempToSlot[..], slotStorages, freeByKey) == Run(c, i, false)
      invariant forall t :: 0 <= t < tempCount ==> lastUse[t] == LastUse(c, t)
    {
      slotStorages, freeByKey := AllocateAt(c, lastUse, tempToSlot, slotStorages, freeByKey, i);
    }
    a := Allocation(tempToSlot[..], slotStorages);
  }

  /** The second pass at instruction `i`: free the operands that die here,
      then give the result a slot when it qualifies. */
  method AllocateAt(c: Context, lastUse: array<int>, tempToSlot: array<int>,
                    slotStorages: seq<ValueStorage>, freeByKey: map<StorageKey, seq<int>>, i: nat)
    returns (storages: seq<ValueStorage>, free: map<StorageKey, seq<int>>)
    requires WellFormed(c) && i < |c.instrs| && lastUse != tempToSlot
    requires lastUse.Length == c.tempCount && tempToSlot.Length == c.tempCount
    requires forall t :: 0 <= t < c.tempCount ==> lastUse[t] == LastUse(c, t)
    modifies tempToSlot
    ensures AllocState(tempToSlot[..], storages, free) ==
      Step(c, AllocState(old(tempToSlot[..]), slotStorages, freeByKey), i, false)
  {
    var instruction := c.instrs[i];
    var ops := Uses(instruction);
    free := FreeDeadOperands(c, lastUse, tempToSlot, slotStorages, freeByKey, i, ops);
    storages := slotStorages;
    var defined := Defined(instruction);
    if defined.Some? && 0 <= defined.value < c.tempCount && lastUse[defined.value] >= 0
      && (c.mask.None? || c.mask.value[defined.value])
      && !CanEmitInline(c.instrs, c.tempVariableSlots, instruction, |c.instrs|)
      && !Pinned(c.tempVariableSlots, defined.value)
    {
      storages, free := AssignSlot(c, tempToSlot, slotStorages, free, i);
    }
  }

  /** The slot for the result of qualifying instruction `i`: the top of its
      key's free stack, or a new slot. */
  method AssignSlot(c: Context, tempToSlot: array<int>, slotStorages: seq<ValueStorage>,
                    freeByKey: map<StorageKey, seq<int>>, i: nat)
    returns (storages: seq<ValueStorage>, free: map<StorageKey, seq<int>>)
    requires WellFormed(c) && i < |c.instrs| && tempToSlot.Length == c.tempCount
    requires Qualifies(c, i)
    modifies tempToSlot
    ensures AllocState(tempToSlot[..], storages, free) ==
      AllocResult(c, AllocState(old(tempToSlot[..]), slotStorages, freeByKey), i)
  {
    var d := Defined(c.instrs[i]).value;
    var storage := StorageOf(c.tempStorages, d);
    var key := KeyOf(storage);
    var slot: int;
    free := freeByKey;
    storages := slotStorages;
    if key in freeByKey && |freeByKey[key]| > 0 {
      var stack := freeByKey[key];
      slot := stack[|stack| - 1];
      free := freeByKey[key := stack[..|stack| - 1]];
    } else {
      slot := |slotStorages|;
      storages := slotStorages + [storage];
    }
    tempToSlot[d] := slot;
  }

  /** The freeing loop of the second pass, at instruction `i`. */
  method FreeDeadOperands(c: Context, lastUse: array<int>, tempToSlot: array<int>,
                          slotStorages: seq<ValueStorage>, freeByKey: map<StorageKey, seq<int>>,
                          i: nat, ops: seq<Temp>)
    returns (free: map<StorageKey, seq<int>>)
    requires WellFormed(c) && lastUse.Length == c.tempCount && tempToSlot.Length == c.tempCount
    requires forall t :: 0 <= t < c.tempCount ==> lastUse[t] == LastUse(c, t)
    ensures AllocState(tempToSlot[..], slotStorages, free) ==
      FreeOps(c, AllocState(tempToSlot[..], slotStorages, freeByKey), i, ops)
  {
    ghost var st0 := AllocState(tempToSlot[..], slotStorages, freeByKey);
    free := freeByKey;
    for k := 0 to |ops|
      invariant AllocState(tempToSlot[..], slotStorages, free) == FreeOps(c, st0, i, ops[..k])
    {
      assert ops[..k + 1][..k] == ops[..k];
      var used := ops[k];
      if used < 0 || used >= c.tempCount || lastUse[used] != i {
        continue;
      }
      var usedSlot := tempToSlot[used];
      if usedSlot < 0 {
        continue;
      }
      var key := KeyOf(StorageOf(c.tempStorages, used));
      var stack := if key in free then free[key] else [];
      free := free[key := stack + [usedSlot]];
    }
    assert ops[..|ops|] == ops;
  }

  /** The first pass: each temp's last use. */
  method LastUses(c: Context) returns (lastUse: array<int>)
    requires WellFormed(c)
    ensures fresh(lastUse) && lastUse.Length == c.tempCount
    ensures forall t :: 0 <= t < c.tempCount ==> lastUse[t] == LastUse(c, t)
  {
    lastUse := new int[c.tempCount](_ => -1);
    for i := 0 to |c.instrs|
      invariant forall t :: 0 <= t < c.tempCount ==> lastUse[t] == LastUseBefore(c, t, i)
    {
      var ops := Uses(c.instrs[i]);
      for k := 0 to |ops|
        invariant forall t :: 0 <= t < c.tempCount ==>
          lastUse[t] == (if Tracked(c, t) && t in ops[..k] then i else LastUseBefore(c, t, i))
      {
        assert ops[..k + 1] == ops[..k] + [ops[k]];
        var used := ops[k];
        if 0 <= used < c.tempCount && (c.mask.None? || c.mask.value[used]) {
          lastUse[used] := i;
        }
      }
      assert ops[..|ops|] == ops;
    }
  }
}
