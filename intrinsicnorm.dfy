/** The intrinsic normalisation passes over a lowered method body:
    direct calls of declared functions get their exact argument list,
    CommonJS `require` calls become a dedicated instruction, intrinsic
    calls on a small literal argument array are expanded to fixed-arity
    calls, and an element read immediately converted to a number is fused
    into one instruction. Instructions are replaced and inserted in place;
    dead ones are removed by one compaction at the end of a pass. */
module IntrinsicNormalization {
  import opened JsValues
  import opened Lir

  /** The tables of a method body these passes read and rewrite. */
  datatype Body = Body(
    instrs: seq<Instr>,
    tempCount: nat,
    tempStorages: seq<ValueStorage>,
    tvs: seq<int>)

  function StateOf(body: MethodBody): Body
    reads body
  {
    Body(body.instructions, body.tempCount, body.tempStorages, body.tempVariableSlots)
  }

  // ---------------------------------------------------------------------
  // Fresh temps.

  /** `CreateTemp`: the next temp index, with its storage and no variable
      slot. */
  function WithNewTemp(s: Body, st: ValueStorage): (r: (Body, Temp))
    ensures r.1 == s.tempCount && r.0.tempCount == s.tempCount + 1
    ensures r.0.instrs == s.instrs
    ensures r.0.tempStorages == s.tempStorages + [st] && r.0.tvs == s.tvs + [-1]
  {
    (s.(tempCount := s.tempCount + 1, tempStorages := s.tempStorages + [st], tvs := s.tvs + [-1]), s.tempCount)
  }

  method CreateTemp(body: MethodBody, st: ValueStorage) returns (t: Temp)
    modifies body
    ensures (StateOf(body), t) == WithNewTemp(old(StateOf(body)), st)
    ensures body.variableNames == old(body.variableNames) && body.variableStorages == old(body.variableStorages)
  {
    t := body.tempCount;
    body.tempCount := body.tempCount + 1;
    body.tempStorages := body.tempStorages + [st];
    body.tempVariableSlots := body.tempVariableSlots + [-1];
  }

  /** `n` fresh temps in a row, each a reference to an object. */
  function WithNewTemps(s: Body, n: nat): (r: Body)
    ensures r.instrs == s.instrs && r.tempCount == s.tempCount + n
    ensures r.tempStorages == s.tempStorages + seq(n, _ => ObjectReference())
    ensures r.tvs == s.tvs + seq(n, _ => -1)
  {
    if n == 0 then s
    else
      var r := WithNewTemps(s, n - 1);
      assert seq(n, _ => ObjectReference()) == seq(n - 1, _ => ObjectReference()) + [ObjectReference()];
      assert seq(n, _ => -1) == seq(n - 1, _ => -1) + [-1];
      WithNewTemp(r, ObjectReference()).0
  }

  // ---------------------------------------------------------------------
  // Index tracking across an insertion.

  /** The position of a tracked index after an instruction is inserted at
      `at`. */
  function ShiftIndex(x: int, at: int): int
  {
    if x >= at then x + 1 else x
  }

  /** The instructions with `x` inserted at `at`. */
  function InsertAt<T>(s: seq<T>, at: nat, x: T): (r: seq<T>)
    requires at <= |s|
    ensures |r| == |s| + 1
  {
    s[..at] + [x] + s[at..]
  }

  /** A tracked index keeps naming the same instruction after the
      insertion, and the inserted one sits at `at`. */
  lemma ShiftKeepsPositions<T>(s: seq<T>, at: nat, x: T, y: nat)
    requires at <= |s| && y < |s|
    ensures ShiftIndex(y, at) < |s| + 1 && InsertAt(s, at, x)[ShiftIndex(y, at)] == s[y]
    ensures InsertAt(s, at, x)[at] == x
  {
  }

  function ShiftedSet(s: set<int>, at: int): set<int>
  {
    set x | x in s :: ShiftIndex(x, at)
  }

  /** Shifting a set of indices moves every index at or after `at` up by
      one, leaves the others, and loses none of them. */
  lemma ShiftedSetMembers(s: set<int>, at: int)
    ensures forall x :: x in s ==> ShiftIndex(x, at) in ShiftedSet(s, at)
    ensures forall y :: y in ShiftedSet(s, at) <==> (y < at && y in s) || (y > at && y - 1 in s)
    ensures |ShiftedSet(s, at)| == |s|
  {
    ShiftedSetSize(s, at);
  }

  lemma {:induction false} ShiftedSetSize(s: set<int>, at: int)
    ensures |ShiftedSet(s, at)| == |s|
    decreases |s|
  {
    if s != {} {
      ghost var member := Member(s);
      var x :| x in s;
      ShiftedSetSize(s - {x}, at);
      assert ShiftedSet(s, at) == ShiftedSet(s - {x}, at) + {ShiftIndex(x, at)};
      assert ShiftIndex(x, at) !in ShiftedSet(s - {x}, at);
    } else {
      assert ShiftedSet(s, at) == {};
    }
  }


  /** `ShiftIndicesAfterInsert` on a set of indices. */
  method ShiftSet(indices: set<int>, insertAt: int) returns (r: set<int>)
    ensures r == ShiftedSet(indices, insertAt)
  {
    if |indices| == 0 {
      return indices;
    }
    var updated: set<int> := {};
    var rest := indices;
    while rest != {}
      invariant rest <= indices
      invariant updated == ShiftedSet(indices - rest, insertAt)
      decreases |rest|
    {
      ghost var member := Member(rest);
      var idx :| idx in rest;
      updated := updated + {ShiftIndex(idx, insertAt)};
      rest := rest - {idx};
      assert indices - rest == (indices - (rest + {idx})) + {idx};
    }
    assert indices - rest == indices;
    r := updated;
  }

  function ShiftedMap(m: map<int, int>, at: int): (r: map<int, int>)
    ensures r.Keys == m.Keys
    ensures forall k :: k in m ==> r[k] == ShiftIndex(m[k], at)
  {
    map k | k in m :: ShiftIndex(m[k], at)
  }

  /** `ShiftIndicesAfterInsert` on a map from temps to instruction
      indices: only the values move. */
  method ShiftMap(indexMap: map<int, int>, insertAt: int) returns (r: map<int, int>)
    ensures r == ShiftedMap(indexMap, insertAt)
  {
    r := indexMap;
    if |indexMap| == 0 {
      assert indexMap.Keys == {};
      return;
    }
    var keys := indexMap.Keys;
    while keys != {}
      invariant keys <= indexMap.Keys && r.Keys == indexMap.Keys
      invariant forall k :: k in indexMap && k !in keys ==> r[k] == ShiftIndex(indexMap[k], insertAt)
      invariant forall k :: k in keys ==> r[k] == indexMap[k]
      decreases |keys|
    {
      ghost var member := Member(keys);
      var k :| k in keys;
      var v := r[k];
      if v >= insertAt {
        r := r[k := v + 1];
      }
      keys := keys - {k};
    }
    assert r.Keys == ShiftedMap(indexMap, insertAt).Keys;
    assert forall k :: k in r ==> r[k] == ShiftedMap(indexMap, insertAt)[k];
  }

  /** Where a literal argument array is built: the index of its
      `BuildArray` and its elements. */
  datatype BuildInfo = BuildInfo(defIndex: int, elements: seq<Temp>)

  function ShiftedBuilds(m: map<int, BuildInfo>, at: int): (r: map<int, BuildInfo>)
    ensures r.Keys == m.Keys
    ensures forall k :: k in m ==> r[k] == m[k].(defIndex := ShiftIndex(m[k].defIndex, at))
  {
    map k | k in m :: m[k].(defIndex := ShiftIndex(m[k].defIndex, at))
  }

  /** `ShiftIndicesAfterInsert` on the build-array table. */
  method ShiftBuilds(indexMap: map<int, BuildInfo>, insertAt: int) returns (r: map<int, BuildInfo>)
    ensures r == ShiftedBuilds(indexMap, insertAt)
  {
    r := indexMap;
    if |indexMap| == 0 {
      assert indexMap.Keys == {};
      return;
    }
    var keys := indexMap.Keys;
    while keys != {}
      invariant keys <= indexMap.Keys && r.Keys == indexMap.Keys
      invariant forall k :: k in indexMap && k !in keys ==> r[k] == indexMap[k].(defIndex := ShiftIndex(indexMap[k].defIndex, insertAt))
      invariant forall k :: k in keys ==> r[k] == indexMap[k]
      decreases |keys|
    {
      ghost var member := Member(keys);
      var k :| k in keys;
      var info := r[k];
      if info.defIndex >= insertAt {
        r := r[k := BuildInfo(info.defIndex + 1, info.elements)];
      }
      keys := keys - {k};
    }
    assert r.Keys == ShiftedBuilds(indexMap, insertAt).Keys;
    assert forall k :: k in r ==> r[k] == ShiftedBuilds(indexMap, insertAt)[k];
  }

  // ---------------------------------------------------------------------
  // Uses outside a set of instructions.

  /** `IsTempUsedOutside`, over the allocator's operand table. */
  method IsTempUsedOutside(instrs: seq<Instr>, t: Temp, ignore: set<int>) returns (b: bool)
    ensures b == UsedOutside(instrs, t, ignore)
  {
    for i := 0 to |instrs|
      invariant forall j :: 0 <= j < i && j !in ignore ==> t !in Uses(instrs[j])
    {
      if i in ignore {
        continue;
      }
      var used := Uses(instrs[i]);
      for k := 0 to |used|
        invariant forall m :: 0 <= m < k ==> used[m] != t
      {
        if used[k] == t {
          return true;
        }
      }
    }
    return false;
  }

  /** The compaction closing each pass: nothing to do without removals,
      otherwise the list without the removed indices. */
  method RemoveIndices(body: MethodBody, indicesToRemove: set<int>)
    modifies body
    ensures body.instructions == Kept(old(body.instructions), indicesToRemove, |old(body.instructions)|)
    ensures body.tempCount == old(body.tempCount) && body.tempStorages == old(body.tempStorages)
    ensures body.tempVariableSlots == old(body.tempVariableSlots)
    ensures body.variableNames == old(body.variableNames) && body.variableStorages == old(body.variableStorages)
  {
    if |indicesToRemove| == 0 {
      KeptNothingRemoved(body.instructions, |body.instructions|);
      return;
    }
    var newInstructions := Compact(body.instructions, indicesToRemove);
    KeptIsCompact(body.instructions, indicesToRemove, newInstructions);
    body.instructions := newInstructions;
  }

  lemma {:induction false} KeptNothingRemoved<T>(s: seq<T>, n: nat)
    requires n <= |s|
    ensures Kept(s, {}, n) == s[..n]
  {
    if n > 0 {
      KeptNothingRemoved(s, n - 1);
      assert s[..n] == s[..n - 1] + [s[n - 1]];
    }
  }

  /** What `Compact` promises pins its result down to `Kept`. */
  lemma KeptIsCompact<T>(s: seq<T>, remove: set<int>, r: seq<T>)
    requires |r| == KeptBefore(remove, |s|)
    requires forall i :: 0 <= i < |s| && i !in remove ==> KeptBefore(remove, i) < |r| && r[KeptBefore(remove, i)] == s[i]
    ensures r == Kept(s, remove, |s|)
  {
    var k := Kept(s, remove, |s|);
    forall j | 0 <= j < |r|
      ensures r[j] == k[j]
    {
      CompactSurjective(remove, |s|, j);
      var i :| 0 <= i < |s| && i !in remove && KeptBefore(remove, i) == j;
      KeptPlacement(s, remove, |s|, i);
    }
  }

  // ---------------------------------------------------------------------
  // Direct calls of declared functions.

  /** What the pass asks of the callable declarations: which callables
      have a method-definition token, and whether a callable's signature
      takes the scopes array (a callable without a known signature is
      taken to need it). */
  datatype CallableReader = CallableReader(
    methodDefinitions: set<CallableId>,
    scopesRequired: map<CallableId, bool>)

  function RequiresScopes(reader: CallableReader, id: CallableId): bool
  {
    if id in reader.scopesRequired then reader.scopesRequired[id] else true
  }

  /** The call at `i` is a direct call of a declared function that needs
      neither an `arguments` object nor a rest parameter. */
  predicate DeclaredRewritable(s: Body, reader: CallableReader, i: nat)
  {
    i < |s.instrs| && s.instrs[i].CallFunction? && s.instrs[i].callable.Some?
    && !s.instrs[i].callable.value.needsArgumentsObject
    && !s.instrs[i].callable.value.hasRestParameters
    && s.instrs[i].callable.value in reader.methodDefinitions
  }

  /** `count` instructions loading `undefined` into the temps from `base`
      on. */
  function UndefinedPrelude(base: nat, count: nat): (r: seq<Instr>)
    ensures |r| == count
    ensures forall k :: 0 <= k < count ==> r[k] == ConstUndefined(base + k)
  {
    seq(count, k requires 0 <= k < count => ConstUndefined(base + k))
  }

  /** The argument list of the declared call: the scopes array when the
      callable wants it, the `new.target` temp `base`, the first
      `jsParamCount` arguments, and the padding temps after `base`. */
  function DeclaredArgs(id: CallableId, requiresScopes: bool, scopes: Temp, args: seq<Temp>, base: nat): seq<Temp>
  {
    var passed := Min(|args|, id.jsParamCount);
    (if requiresScopes then [scopes] else []) + [base] + args[..passed]
      + seq(id.jsParamCount - passed, k requires 0 <= k < id.jsParamCount - passed => base + 1 + k)
  }

  /** The rewrite of the call at `i`: the new state and the index the call
      ends up at. */
  function DeclaredRewrite(s: Body, reader: CallableReader, i: nat): (r: (Body, nat))
    requires DeclaredRewritable(s, reader, i)
    ensures r.1 == i + 1 + (s.instrs[i].callable.value.jsParamCount - Min(|s.instrs[i].arguments|, s.instrs[i].callable.value.jsParamCount))
    ensures |r.0.instrs| == |s.instrs| + r.1 - i && r.1 < |r.0.instrs|
  {
    var call := s.instrs[i];
    var id := call.callable.value;
    var pad := id.jsParamCount - Min(|call.arguments|, id.jsParamCount);
    var s1 := WithNewTemps(s, 1 + pad);
    var args := DeclaredArgs(id, RequiresScopes(reader, id), call.scopesArray, call.arguments, s.tempCount);
    var instrs := s.instrs[..i] + UndefinedPrelude(s.tempCount, 1 + pad) + [CallDeclaredCallable(id, args, call.result)] + s.instrs[i + 1..];
    (s1.(instrs := instrs, tempStorages := SetStorage(s1.tempStorages, call.result, ObjectReference())), i + 1 + pad)
  }

  /** The loop of `NormalizeDirectDeclaredFunctionCalls` from `i` on. */
  function DeclaredFrom(s: Body, reader: CallableReader, i: nat): Body
    decreases |s.instrs| - i
  {
    if i >= |s.instrs| then s
    else if DeclaredRewritable(s, reader, i) then
      var (s1, j) := DeclaredRewrite(s, reader, i);
      DeclaredFrom(s1, reader, j + 1)
    else DeclaredFrom(s, reader, i + 1)
  }

  /** `NormalizeDirectDeclaredFunctionCalls`: nothing without a reader. */
  function DeclaredCalls(s: Body, reader: Option<CallableReader>): Body
  {
    if reader.None? then s else DeclaredFrom(s, reader.value, 0)
  }

  /** The declared argument list holds the scopes array when wanted,
      then `new.target`, then exactly `jsParamCount` JavaScript
      arguments: the leading arguments of the call, then the padding
      temps in order. */
  lemma DeclaredArgsShape(id: CallableId, requiresScopes: bool, scopes: Temp, args: seq<Temp>, base: nat)
    ensures var r := DeclaredArgs(id, requiresScopes, scopes, args, base);
      var off := if requiresScopes then 1 else 0;
      && |r| == off + 1 + id.jsParamCount
      && (requiresScopes ==> r[0] == scopes)
      && r[off] == base
      && forall k :: 0 <= k < id.jsParamCount ==>
           r[off + 1 + k] == (if k < |args| then args[k] else base + 1 + (k - |args|))
  {
  }

  /** A rewritten call passes exactly `jsParamCount` JavaScript arguments
      after the `new.target` temp: the leading arguments of the original
      call, then fresh temps, each loaded with `undefined` by the prelude
      inserted before the call. The call's result becomes an object
      reference, and the instructions around the call stay as they were. */
  lemma DeclaredCallShape(s: Body, reader: CallableReader, i: nat)
    requires DeclaredRewritable(s, reader, i)
    ensures var (r, j) := DeclaredRewrite(s, reader, i);
      var call := s.instrs[i];
      var id := call.callable.value;
      var off := if RequiresScopes(reader, id) then 1 else 0;
      var base := s.tempCount;
      && r.instrs[j].CallDeclaredCallable? && r.instrs[j].callableId == id && r.instrs[j].result == call.result
      && |r.instrs[j].arguments| == off + 1 + id.jsParamCount
      && (RequiresScopes(reader, id) ==> r.instrs[j].arguments[0] == call.scopesArray)
      && r.instrs[j].arguments[off] == base && r.instrs[i] == ConstUndefined(base)
      && (forall k :: 0 <= k < id.jsParamCount ==>
            if k < |call.arguments| then r.instrs[j].arguments[off + 1 + k] == call.arguments[k]
            else
              && r.instrs[j].arguments[off + 1 + k] > base
              && r.instrs[i + 1 + k - |call.arguments|] == ConstUndefined(r.instrs[j].arguments[off + 1 + k]))
      && r.instrs[..i] == s.instrs[..i] && r.instrs[j + 1..] == s.instrs[i + 1..]
      && r.tempCount == base + (j - i)
      && (0 <= call.result < |r.tempStorages| ==> r.tempStorages[call.result] == ObjectReference())
  {
    var call := s.instrs[i];
    var id := call.callable.value;
    DeclaredArgsShape(id, RequiresScopes(reader, id), call.scopesArray, call.arguments, s.tempCount);
    var pad := id.jsParamCount - Min(|call.arguments|, id.jsParamCount);
    var pre := UndefinedPrelude(s.tempCount, 1 + pad);
    var newCall := CallDeclaredCallable(id, DeclaredArgs(id, RequiresScopes(reader, id), call.scopesArray, call.arguments, s.tempCount), call.result);
    var instrs := s.instrs[..i] + pre + [newCall] + s.instrs[i + 1..];
    InsertedPrelude(s.instrs, i, pre, newCall);
  }

  lemma InsertedPrelude(instrs: seq<Instr>, i: nat, pre: seq<Instr>, x: Instr)
    requires i < |instrs|
    ensures var r := instrs[..i] + pre + [x] + instrs[i + 1..];
      && |r| == |instrs| + |pre|
      && r[i + |pre|] == x
      && (forall k :: 0 <= k < |pre| ==> r[i + k] == pre[k])
      && r[..i] == instrs[..i] && r[i + |pre| + 1..] == instrs[i + 1..]
  {
    var r := instrs[..i] + pre + [x] + instrs[i + 1..];
    assert r[i + |pre| + 1..] == instrs[i + 1..];
  }

  /** The argument and prelude loops of the rewrite: creates the
      `new.target` temp and one padding temp per missing argument. */
  method CollectDeclaredArgs(body: MethodBody, id: CallableId, requiresScopes: bool, scopes: Temp, args: seq<Temp>)
    returns (declaredArgs: seq<Temp>, prelude: seq<Instr>)
    modifies body
    ensures StateOf(body) == WithNewTemps(old(StateOf(body)), 1 + (id.jsParamCount - Min(|args|, id.jsParamCount)))
    ensures declaredArgs == DeclaredArgs(id, requiresScopes, scopes, args, old(body.tempCount))
    ensures prelude == UndefinedPrelude(old(body.tempCount), 1 + (id.jsParamCount - Min(|args|, id.jsParamCount)))
    ensures body.variableNames == old(body.variableNames) && body.variableStorages == old(body.variableStorages)
  {
    ghost var s0 := StateOf(body);
    var jsParamCount := id.jsParamCount;
    var argsToPass := Min(|args|, jsParamCount);
    declaredArgs := [];
    if requiresScopes {
      declaredArgs := declaredArgs + [scopes];
    }
    var newTargetTemp := CreateTemp(body, ObjectReference());
    ghost var s1 := StateOf(body);
    ghost var t0 := s0.tempCount;
    ghost var t1 := body.tempCount;
    assert newTargetTemp == t0 && t1 == t0 + 1;
    declaredArgs := AppendArgs(declaredArgs + [newTargetTemp], args, argsToPass);
    var padding, undefinedPrelude := PadWithUndefined(body, jsParamCount - argsToPass);
    NewTempThenMore(s0, s1, StateOf(body), jsParamCount - argsToPass);
    prelude := [ConstUndefined(newTargetTemp)] + undefinedPrelude;
    UndefinedPreludeCons(t0, jsParamCount - argsToPass, undefinedPrelude, prelude);
    DeclaredArgsOf(id, requiresScopes, scopes, args, t0, padding);
    declaredArgs := declaredArgs + padding;
  }

  /** The declared arguments, with the padding temps given pointwise. */
  lemma DeclaredArgsOf(id: CallableId, requiresScopes: bool, scopes: Temp, args: seq<Temp>, base: nat, padding: seq<Temp>)
    requires |padding| == id.jsParamCount - Min(|args|, id.jsParamCount)
    requires forall k :: 0 <= k < |padding| ==> padding[k] == base + 1 + k
    ensures DeclaredArgs(id, requiresScopes, scopes, args, base) ==
      (if requiresScopes then [scopes] else []) + [base] + args[..Min(|args|, id.jsParamCount)] + padding
  {
  }

  /** The loop that passes the first `n` arguments on. */
  method AppendArgs(declared: seq<Temp>, args: seq<Temp>, n: nat) returns (r: seq<Temp>)
    requires n <= |args|
    ensures r == declared + args[..n]
  {
    r := declared;
    for argIndex := 0 to n
      invariant r == declared + args[..argIndex]
    {
      r := r + [args[argIndex]];
      assert args[..argIndex + 1] == args[..argIndex] + [args[argIndex]];
    }
  }

  lemma UndefinedPreludeCons(base: nat, n: nat, rest: seq<Instr>, prelude: seq<Instr>)
    requires |rest| == n && forall k :: 0 <= k < n ==> rest[k] == ConstUndefined(base + 1 + k)
    requires prelude == [ConstUndefined(base)] + rest
    ensures prelude == UndefinedPrelude(base, 1 + n)
  {
  }

  /** The loop over the parameters no argument was given for: a fresh temp
      holding `undefined` for each. */
  method PadWithUndefined(body: MethodBody, count: nat) returns (temps: seq<Temp>, prelude: seq<Instr>)
    modifies body
    ensures StateOf(body) == WithNewTemps(old(StateOf(body)), count)
    ensures |temps| == count && forall k :: 0 <= k < count ==> temps[k] == old(body.tempCount) + k
    ensures |prelude| == count && forall k :: 0 <= k < count ==> prelude[k] == ConstUndefined(old(body.tempCount) + k)
    ensures body.variableNames == old(body.variableNames) && body.variableStorages == old(body.variableStorages)
  {
    ghost var s0 := StateOf(body);
    temps := [];
    prelude := [];
    for k := 0 to count
      invariant StateOf(body) == WithNewTemps(s0, k)
      invariant |temps| == k && forall j :: 0 <= j < k ==> temps[j] == s0.tempCount + j
      invariant |prelude| == k && forall j :: 0 <= j < k ==> prelude[j] == ConstUndefined(s0.tempCount + j)
      invariant body.variableNames == old(body.variableNames) && body.variableStorages == old(body.variableStorages)
    {
      WithNewTempsStep(s0, k);
      var undefinedArgTemp := CreateTemp(body, ObjectReference());
      prelude := prelude + [ConstUndefined(undefinedArgTemp)];
      temps := temps + [undefinedArgTemp];
    }
  }

  lemma WithNewTempsStep(s: Body, k: nat)
    ensures WithNewTemps(s, k + 1) == WithNewTemp(WithNewTemps(s, k), ObjectReference()).0
    ensures WithNewTemps(s, k).tempCount == s.tempCount + k
  {
  }

  lemma NewTempThenMore(s0: Body, s1: Body, s2: Body, n: nat)
    requires s1 == WithNewTemp(s0, ObjectReference()).0 && s2 == WithNewTemps(s1, n)
    ensures s2 == WithNewTemps(s0, 1 + n)
  {
    assert s1 == WithNewTemps(s0, 1);
    WithNewTempsAdd(s0, 1, n);
  }

  lemma WithNewTempsAdd(s: Body, m: nat, n: nat)
    ensures WithNewTemps(WithNewTemps(s, m), n) == WithNewTemps(s, m + n)
  {
    var a := WithNewTemps(WithNewTemps(s, m), n);
    var b := WithNewTemps(s, m + n);
    assert a.tempStorages == b.tempStorages;
    assert a.tvs == b.tvs;
  }

  /** Inserts the prelude before the call at `i` and replaces the call;
      returns the call's new index. */
  method RewriteDeclaredCall(body: MethodBody, reader: CallableReader, i: nat) returns (j: nat)
    requires DeclaredRewritable(StateOf(body), reader, i)
    modifies body
    ensures (StateOf(body), j) == DeclaredRewrite(old(StateOf(body)), reader, i)
    ensures body.variableNames == old(body.variableNames) && body.variableStorages == old(body.variableStorages)
  {
    ghost var s0 := StateOf(body);
    var call := body.instructions[i];
    var id := call.callable.value;
    var requiresScopes := RequiresScopes(reader, id);
    var declaredArgs, prelude := CollectDeclaredArgs(body, id, requiresScopes, call.scopesArray, call.arguments);
    j := i;
    if |prelude| > 0 {
      body.instructions := body.instructions[..i] + prelude + body.instructions[i..];
      j := i + |prelude|;
    }
    ghost var newCall := CallDeclaredCallable(id, declaredArgs, call.result);
    assert body.instructions == s0.instrs[..i] + prelude + s0.instrs[i..];
    assert s0.instrs[i..] == [s0.instrs[i]] + s0.instrs[i + 1..];
    assert body.instructions[j := newCall] == s0.instrs[..i] + prelude + [newCall] + s0.instrs[i + 1..];
    body.instructions := body.instructions[j := CallDeclaredCallable(id, declaredArgs, call.result)];
    if 0 <= call.result < |body.tempStorages| {
      body.tempStorages := body.tempStorages[call.result := ObjectReference()];
    }
  }

  /** `NormalizeDirectDeclaredFunctionCalls`. */
  method NormalizeDirectDeclaredFunctionCalls(body: MethodBody, reader: Option<CallableReader>)
    modifies body
    ensures StateOf(body) == DeclaredCalls(old(StateOf(body)), reader)
    ensures body.variableNames == old(body.variableNames) && body.variableStorages == old(body.variableStorages)
  {
    if reader.None? {
      return;
    }
    ghost var s0 := StateOf(body);
    var i: nat := 0;
    while i < |body.instructions|
      invariant DeclaredFrom(s0, reader.value, 0) == DeclaredFrom(StateOf(body), reader.value, i)
      invariant body.variableNames == old(body.variableNames) && body.variableStorages == old(body.variableStorages)
      decreases |body.instructions| - i
    {
      var instr := body.instructions[i];
      if !instr.CallFunction? || instr.callable.None? {
        i := i + 1;
        continue;
      }
      var id := instr.callable.value;
      if id.needsArgumentsObject || id.hasRestParameters {
        i := i + 1;
        continue;
      }
      if id !in reader.value.methodDefinitions {
        i := i + 1;
        continue;
      }
      var j := RewriteDeclaredCall(body, reader.value, i);
      i := j + 1;
    }
  }

  // ---------------------------------------------------------------------
  // Build-array table.

  /** The build-array table after scanning the first `n` instructions:
      an array temp maps to its last `BuildArray` before `n`. */
  function BuildsBefore(instrs: seq<Instr>, n: nat): map<int, BuildInfo>
    requires n <= |instrs|
  {
    if n == 0 then map[]
    else if instrs[n - 1].BuildArray? && instrs[n - 1].result >= 0 then
      BuildsBefore(instrs, n - 1)[instrs[n - 1].result := BuildInfo(n - 1, instrs[n - 1].elements)]
    else BuildsBefore(instrs, n - 1)
  }

  /** Every entry of a build table names a `BuildArray` of its temp. */
  predicate NamesBuilds(instrs: seq<Instr>, builds: map<int, BuildInfo>)
  {
    forall k :: k in builds ==>
      0 <= builds[k].defIndex < |instrs| && instrs[builds[k].defIndex] == BuildArray(builds[k].elements, k)
  }

  /** `b` names the last `BuildArray` of `k` before `n`. */
  predicate LastBuildBefore(instrs: seq<Instr>, n: nat, k: int, b: BuildInfo)
    requires n <= |instrs|
  {
    && k >= 0 && 0 <= b.defIndex < n
    && instrs[b.defIndex] == BuildArray(b.elements, k)
    && forall j :: b.defIndex < j < n ==> !(instrs[j].BuildArray? && instrs[j].result == k)
  }

  /** The scanned table holds exactly the array temps with a `BuildArray`
      before `n`, each mapped to its last one. */
  lemma {:induction false} BuildsBeforeNamesLastDef(instrs: seq<Instr>, n: nat)
    requires n <= |instrs|
    ensures forall k :: k in BuildsBefore(instrs, n) ==> LastBuildBefore(instrs, n, k, BuildsBefore(instrs, n)[k])
    ensures forall j :: 0 <= j < n && instrs[j].BuildArray? && instrs[j].result >= 0 ==> instrs[j].result in BuildsBefore(instrs, n)
  {
    if n > 0 {
      BuildsBeforeNamesLastDef(instrs, n - 1);
      var m := BuildsBefore(instrs, n - 1);
      forall k | k in BuildsBefore(instrs, n)
        ensures LastBuildBefore(instrs, n, k, BuildsBefore(instrs, n)[k])
      {
        if instrs[n - 1].BuildArray? && instrs[n - 1].result == k && k >= 0 {
          assert BuildsBefore(instrs, n)[k] == BuildInfo(n - 1, instrs[n - 1].elements);
        } else {
          assert k in m && BuildsBefore(instrs, n)[k] == m[k];
          assert LastBuildBefore(instrs, n - 1, k, m[k]);
        }
      }
    }
  }

  /** Without any `BuildArray` the table is empty. */
  lemma {:induction false} NoBuildsNoTable(instrs: seq<Instr>, n: nat)
    requires n <= |instrs|
    requires forall j :: 0 <= j < n ==> !instrs[j].BuildArray?
    ensures BuildsBefore(instrs, n) == map[]
  {
    if n > 0 {
      NoBuildsNoTable(instrs, n - 1);
    }
  }

  lemma BuildsNamed(instrs: seq<Instr>)
    ensures NamesBuilds(instrs, BuildsBefore(instrs, |instrs|))
  {
    BuildsBeforeNamesLastDef(instrs, |instrs|);
  }

  /** The scan loop of the arity-expansion pass. */
  method ScanBuildArrays(instrs: seq<Instr>) returns (builds: map<int, BuildInfo>)
    ensures builds == BuildsBefore(instrs, |instrs|)
  {
    builds := map[];
    for i := 0 to |instrs|
      invariant builds == BuildsBefore(instrs, i)
    {
      if instrs[i].BuildArray? && instrs[i].result >= 0 {
        builds := builds[instrs[i].result := BuildInfo(i, instrs[i].elements)];
      }
    }
  }

  // ---------------------------------------------------------------------
  // Arity expansion of intrinsic calls.

  /** The call at `i` is an intrinsic call whose argument array comes from
      a known `BuildArray` of at most three elements. */
  predicate ArityEligible(cur: seq<Instr>, builds: map<int, BuildInfo>, i: nat)
  {
    i < |cur| && cur[i].CallIntrinsic? && cur[i].argumentsArray >= 0
    && cur[i].argumentsArray in builds && |builds[cur[i].argumentsArray].elements| <= 3
  }

  /** The fixed-arity call on the console object that replaces an
      eligible intrinsic call. */
  function Expanded(call: Instr, builds: map<int, BuildInfo>): Instr
    requires call.CallIntrinsic? && call.argumentsArray in builds
  {
    CallInstanceMethod(call.intrinsicObject, ConsoleType, call.name, builds[call.argumentsArray].elements, call.result)
  }

  /** One iteration of the rewrite loop: the call is replaced, and its
      `BuildArray` is marked for removal when nothing but the build and
      this call mention the array. */
  function ArityStep(cur: seq<Instr>, builds: map<int, BuildInfo>, remove: set<int>, i: nat): (r: (seq<Instr>, set<int>))
    requires ArityEligible(cur, builds, i)
    ensures |r.0| == |cur|
  {
    var call := cur[i];
    var info := builds[call.argumentsArray];
    var next := cur[i := Expanded(call, builds)];
    if !UsedOutside(next, call.argumentsArray, {info.defIndex, i}) then (next, remove + {info.defIndex})
    else (next, remove)
  }

  /** The rewrite loop from `i` on: the instructions and the indices to
      remove. */
  function ArityFrom(cur: seq<Instr>, builds: map<int, BuildInfo>, remove: set<int>, i: nat): (r: (seq<Instr>, set<int>))
    ensures |r.0| == |cur|
    decreases |cur| - i
  {
    if i >= |cur| then (cur, remove)
    else if ArityEligible(cur, builds, i) then
      var (next, rm) := ArityStep(cur, builds, remove, i);
      ArityFrom(next, builds, rm, i + 1)
    else ArityFrom(cur, builds, remove, i + 1)
  }

  /** `NormalizeIntrinsicCallArityExpansion`. */
  function ArityExpansion(s: Body): Body
  {
    var builds := BuildsBefore(s.instrs, |s.instrs|);
    if |builds| == 0 then s
    else
      var (cur, remove) := ArityFrom(s.instrs, builds, {}, 0);
      s.(instrs := Kept(cur, remove, |cur|))
  }

  /** An instruction after the rewrite loop, in terms of the original
      list. */
  function ExpandAt(instrs: seq<Instr>, builds: map<int, BuildInfo>, j: nat): Instr
    requires j < |instrs|
  {
    if ArityEligible(instrs, builds, j) then Expanded(instrs[j], builds) else instrs[j]
  }

  /** The rewrite loop changes exactly the eligible calls, each into its
      fixed-arity call, and leaves every other instruction as it was. */
  lemma {:induction false} ArityFromPointwise(instrs: seq<Instr>, builds: map<int, BuildInfo>, cur: seq<Instr>, remove: set<int>, i: nat)
    requires |cur| == |instrs| && i <= |cur|
    requires forall j :: 0 <= j < i ==> cur[j] == ExpandAt(instrs, builds, j)
    requires forall j :: i <= j < |cur| ==> cur[j] == instrs[j]
    ensures forall j :: 0 <= j < |instrs| ==> ArityFrom(cur, builds, remove, i).0[j] == ExpandAt(instrs, builds, j)
    decreases |cur| - i
  {
    if i < |cur| {
      if ArityEligible(cur, builds, i) {
        var (next, rm) := ArityStep(cur, builds, remove, i);
        ArityFromPointwise(instrs, builds, next, rm, i + 1);
      } else {
        ArityFromPointwise(instrs, builds, cur, remove, i + 1);
      }
    }
  }

  /** After the loop no intrinsic call with a small known argument array
      is left, and a call is only ever replaced when it was one. */
  lemma ArityExpansionComplete(s: Body)
    ensures var builds := BuildsBefore(s.instrs, |s.instrs|);
      var cur := ArityFrom(s.instrs, builds, {}, 0).0;
      && |cur| == |s.instrs|
      && (forall j :: 0 <= j < |cur| ==> !ArityEligible(cur, builds, j))
      && (forall j :: 0 <= j < |cur| && cur[j] != s.instrs[j] ==>
            && ArityEligible(s.instrs, builds, j)
            && cur[j] == CallInstanceMethod(s.instrs[j].intrinsicObject, ConsoleType, s.instrs[j].name,
                                            builds[s.instrs[j].argumentsArray].elements, s.instrs[j].result)
            && |cur[j].arguments| <= 3)
  {
    var builds := BuildsBefore(s.instrs, |s.instrs|);
    ArityFromPointwise(s.instrs, builds, s.instrs, {}, 0);
  }

  /** The lowering never builds an array containing itself or calls an
      intrinsic with its own argument array as the receiver. */
  predicate NoSelfReference(instrs: seq<Instr>)
  {
    forall j :: 0 <= j < |instrs| ==>
      && (instrs[j].BuildArray? ==> instrs[j].result !in instrs[j].elements)
      && (instrs[j].CallIntrinsic? ==> instrs[j].intrinsicObject != instrs[j].argumentsArray)
  }

  /** Every index marked for removal is a `BuildArray` whose array no
      other instruction reads. */
  predicate RemovesDeadBuilds(instrs: seq<Instr>, cur: seq<Instr>, remove: set<int>)
    requires |cur| == |instrs|
  {
    forall d :: d in remove ==>
      && 0 <= d < |cur| && instrs[d].BuildArray? && cur[d] == instrs[d]
      && forall j :: 0 <= j < |cur| && j != d ==> instrs[d].result !in Uses(cur[j])
  }

  lemma ArityStepKeepsDeadBuilds(instrs: seq<Instr>, builds: map<int, BuildInfo>, cur: seq<Instr>, remove: set<int>, i: nat)
    requires NoSelfReference(instrs) && NamesBuilds(instrs, builds)
    requires |cur| == |instrs| && i < |cur| && ArityEligible(cur, builds, i)
    requires forall j :: 0 <= j < i ==> cur[j] == ExpandAt(instrs, builds, j)
    requires forall j :: i <= j < |cur| ==> cur[j] == instrs[j]
    requires RemovesDeadBuilds(instrs, cur, remove)
    ensures RemovesDeadBuilds(instrs, ArityStep(cur, builds, remove, i).0, ArityStep(cur, builds, remove, i).1)
  {
    var call := cur[i];
    var info := builds[call.argumentsArray];
    var next := ArityStep(cur, builds, remove, i).0;
    var rm := ArityStep(cur, builds, remove, i).1;
    assert cur[info.defIndex] == instrs[info.defIndex];
    assert Uses(next[i]) == [call.intrinsicObject] + info.elements;
    forall d | d in rm
      ensures 0 <= d < |next| && instrs[d].BuildArray? && next[d] == instrs[d]
      ensures forall j :: 0 <= j < |next| && j != d ==> instrs[d].result !in Uses(next[j])
    {
      if d in remove {
        var t := instrs[d].result;
        assert t !in Uses(cur[i]);
        if info.defIndex != d {
          assert t !in Uses(cur[info.defIndex]);
        }
      } else {
        assert d == info.defIndex;
        assert !UsedOutside(next, call.argumentsArray, {info.defIndex, i});
      }
    }
  }

  lemma {:induction false} ArityFromKeepsDeadBuilds(instrs: seq<Instr>, builds: map<int, BuildInfo>, cur: seq<Instr>, remove: set<int>, i: nat)
    requires NoSelfReference(instrs) && NamesBuilds(instrs, builds)
    requires |cur| == |instrs| && i <= |cur|
    requires forall j :: 0 <= j < i ==> cur[j] == ExpandAt(instrs, builds, j)
    requires forall j :: i <= j < |cur| ==> cur[j] == instrs[j]
    requires RemovesDeadBuilds(instrs, cur, remove)
    ensures RemovesDeadBuilds(instrs, ArityFrom(cur, builds, remove, i).0, ArityFrom(cur, builds, remove, i).1)
    decreases |cur| - i
  {
    if i < |cur| {
      if ArityEligible(cur, builds, i) {
        ArityStepKeepsDeadBuilds(instrs, builds, cur, remove, i);
        var (next, rm) := ArityStep(cur, builds, remove, i);
        ArityFromKeepsDeadBuilds(instrs, builds, next, rm, i + 1);
      } else {
        ArityFromKeepsDeadBuilds(instrs, builds, cur, remove, i + 1);
      }
    }
  }

  /** A `BuildArray` is dropped only when, after the rewrite, no other
      instruction reads its array. */
  lemma ArityExpansionRemovesOnlyDeadBuilds(s: Body)
    requires NoSelfReference(s.instrs)
    ensures var builds := BuildsBefore(s.instrs, |s.instrs|);
      var (cur, remove) := ArityFrom(s.instrs, builds, {}, 0);
      forall d :: d in remove ==>
        && 0 <= d < |cur| && cur[d].BuildArray? && cur[d] == s.instrs[d]
        && forall j :: 0 <= j < |cur| && j != d ==> cur[d].result !in Uses(cur[j])
  {
    var builds := BuildsBefore(s.instrs, |s.instrs|);
    BuildsNamed(s.instrs);
    ArityFromKeepsDeadBuilds(s.instrs, builds, s.instrs, {}, 0);
  }

  /** Without any `BuildArray` the pass changes nothing. */
  lemma ArityExpansionWithoutBuilds(s: Body)
    requires forall j :: 0 <= j < |s.instrs| ==> !s.instrs[j].BuildArray?
    ensures ArityExpansion(s) == s
  {
    NoBuildsNoTable(s.instrs, |s.instrs|);
  }

  /** `NormalizeIntrinsicCallArityExpansion`. */
  method NormalizeIntrinsicCallArityExpansion(body: MethodBody)
    modifies body
    ensures StateOf(body) == ArityExpansion(old(StateOf(body)))
    ensures body.variableNames == old(body.variableNames) && body.variableStorages == old(body.variableStorages)
  {
    ghost var s0 := StateOf(body);
    var builds := ScanBuildArrays(body.instructions);
    if |builds| == 0 {
      return;
    }
    var indicesToRemove: set<int> := {};
    for i := 0 to |body.instructions|
      invariant |body.instructions| == |s0.instrs|
      invariant ArityFrom(s0.instrs, builds, {}, 0) == ArityFrom(body.instructions, builds, indicesToRemove, i)
      invariant StateOf(body) == s0.(instrs := body.instructions)
      invariant body.variableNames == old(body.variableNames) && body.variableStorages == old(body.variableStorages)
    {
      var instr := body.instructions[i];
      if !instr.CallIntrinsic? {
        continue;
      }
      if instr.argumentsArray < 0 || instr.argumentsArray !in builds || |builds[instr.argumentsArray].elements| > 3 {
        continue;
      }
      var buildInfo := builds[instr.argumentsArray];
      body.instructions := body.instructions[i := CallInstanceMethod(instr.intrinsicObject, ConsoleType, instr.name, buildInfo.elements, instr.result)];
      var used := IsTempUsedOutside(body.instructions, instr.argumentsArray, {buildInfo.defIndex, i});
      if !used {
        indicesToRemove := indicesToRemove + {buildInfo.defIndex};
      }
    }
    RemoveIndices(body, indicesToRemove);
  }

  // ---------------------------------------------------------------------
  // Fusing an element read with its number conversion.

  /** How many `ConvertToNumber` instructions before `n` read `t`. */
  function ConvertCount(instrs: seq<Instr>, t: Temp, n: nat): nat
    requires n <= |instrs|
  {
    if n == 0 then 0
    else ConvertCount(instrs, t, n - 1) + (if instrs[n - 1].ConvertToNumber? && instrs[n - 1].source == t then 1 else 0)
  }

  /** The consumer scan over the first `n` instructions: the temps read by
      exactly one `ConvertToNumber`, each with that instruction's index,
      and the temps read by several. */
  function ConsumersBefore(instrs: seq<Instr>, n: nat): (r: (map<int, int>, set<int>))
    requires n <= |instrs|
    ensures forall k :: k in r.0 ==> k >= 0 && 0 <= r.0[k] < n && instrs[r.0[k]].ConvertToNumber? && instrs[r.0[k]].source == k
  {
    if n == 0 then (map[], {})
    else
      var (single, ineligible) := ConsumersBefore(instrs, n - 1);
      var instr := instrs[n - 1];
      if instr.ConvertToNumber? && instr.source >= 0 then
        if instr.source in ineligible then (single, ineligible)
        else if instr.source in single then (single - {instr.source}, ineligible + {instr.source})
        else (single[instr.source := n - 1], ineligible)
      else (single, ineligible)
  }

  /** A temp is in the single-consumer table exactly when one
      `ConvertToNumber` reads it, and is marked ineligible exactly when
      several do. */
  lemma {:induction false} ConsumersBeforeCounts(instrs: seq<Instr>, n: nat, t: Temp)
    requires n <= |instrs| && t >= 0
    ensures t in ConsumersBefore(instrs, n).0 <==> ConvertCount(instrs, t, n) == 1
    ensures t in ConsumersBefore(instrs, n).1 <==> ConvertCount(instrs, t, n) >= 2
  {
    if n > 0 {
      ConsumersBeforeCounts(instrs, n - 1, t);
    }
  }

  /** Every entry of the single-consumer table names a `ConvertToNumber`
      of its temp. */
  predicate ConsumersNamed(cur: seq<Instr>, single: map<int, int>)
  {
    forall k :: k in single ==> 0 <= single[k] < |cur| && cur[single[k]].ConvertToNumber? && cur[single[k]].source == k
  }

  /** Every `GetItem` result has a storage entry (the pass reads it
      unchecked). */
  predicate GetItemsHaveStorage(cur: seq<Instr>, storages: seq<ValueStorage>)
  {
    forall j :: 0 <= j < |cur| && cur[j].GetItem? && cur[j].result >= 0 ==> cur[j].result < |storages|
  }

  /** The `GetItem` at `i` is followed by the sole `ConvertToNumber` of its
      result, the result is not already unboxed, and no other instruction
      reads it. */
  predicate FuseEligible(cur: seq<Instr>, storages: seq<ValueStorage>, single: map<int, int>, i: nat)
    requires GetItemsHaveStorage(cur, storages)
  {
    && i < |cur| && cur[i].GetItem? && cur[i].result >= 0
    && storages[cur[i].result].kind != UnboxedValue
    && cur[i].result in single && single[cur[i].result] == i + 1
    && !UsedOutside(cur, cur[i].result, {i, i + 1})
  }

  datatype FuseState = FuseState(cur: seq<Instr>, storages: seq<ValueStorage>, remove: set<int>)

  /** One fusion: the read now produces the number directly, the
      conversion is marked for removal and its result becomes an unboxed
      double. */
  function FuseStep(st: FuseState, single: map<int, int>, i: nat): (r: FuseState)
    requires GetItemsHaveStorage(st.cur, st.storages) && ConsumersNamed(st.cur, single)
    requires FuseEligible(st.cur, st.storages, single, i)
    ensures |r.cur| == |st.cur| && |r.storages| == |st.storages|
  {
    var getItem := st.cur[i];
    var conv := st.cur[i + 1];
    FuseState(st.cur[i := GetItemAsNumber(getItem.obj, getItem.index, conv.result)],
              SetStorage(st.storages, conv.result, UnboxedDouble()),
              st.remove + {i + 1})
  }

  /** The fusion loop from `i` on. */
  function FuseFrom(st: FuseState, single: map<int, int>, i: nat): (r: FuseState)
    requires GetItemsHaveStorage(st.cur, st.storages) && ConsumersNamed(st.cur, single)
    ensures |r.cur| == |st.cur| && |r.storages| == |st.storages|
    decreases |st.cur| - i
  {
    if i >= |st.cur| then st
    else if FuseEligible(st.cur, st.storages, single, i) then FuseFrom(FuseStep(st, single, i), single, i + 1)
    else FuseFrom(st, single, i + 1)
  }

  /** `FuseGetItemWithConvertToNumber`. */
  function Fused(s: Body): Body
    requires GetItemsHaveStorage(s.instrs, s.tempStorages)
  {
    var single := ConsumersBefore(s.instrs, |s.instrs|).0;
    var r := FuseFrom(FuseState(s.instrs, s.tempStorages, {}), single, 0);
    s.(instrs := Kept(r.cur, r.remove, |r.cur|), tempStorages := r.storages)
  }

  /** The instruction at `j` was fused: it was a `GetItem` whose result is
      read by exactly one `ConvertToNumber`, placed right after it, and it
      now writes the conversion's result as a number. */
  predicate FusedAt(instrs: seq<Instr>, cur: seq<Instr>, j: nat)
    requires |cur| == |instrs|
  {
    && j + 1 < |instrs| && instrs[j].GetItem? && instrs[j].result >= 0
    && instrs[j + 1].ConvertToNumber? && instrs[j + 1].source == instrs[j].result
    && ConvertCount(instrs, instrs[j].result, |instrs|) == 1
    && cur[j] == GetItemAsNumber(instrs[j].obj, instrs[j].index, instrs[j + 1].result)
  }

  /** The results of the conversions marked for removal. */
  function UnboxedResults(instrs: seq<Instr>, remove: set<int>): set<Temp>
  {
    set d | d in remove && 0 <= d < |instrs| && instrs[d].ConvertToNumber? :: instrs[d].result
  }

  /** Unvisited instructions are as they were. */
  predicate FuseFrame(instrs: seq<Instr>, storages0: seq<ValueStorage>, st: FuseState, i: nat)
  {
    && |st.cur| == |instrs| && |st.storages| == |storages0| && i <= |instrs|
    && (forall j :: i <= j < |instrs| ==> st.cur[j] == instrs[j])
  }

  /** A visited instruction is unchanged or fused with the conversion
      after it, and that conversion is marked for removal. */
  predicate FuseVisited(instrs: seq<Instr>, st: FuseState, i: nat)
    requires |st.cur| == |instrs|
  {
    forall j :: 0 <= j < i && j < |instrs| && st.cur[j] != instrs[j] ==> FusedAt(instrs, st.cur, j) && j + 1 in st.remove
  }

  /** Every removed index is the conversion of a fused read, and nothing
      but that conversion reads the read's old result. */
  predicate FuseRemovals(instrs: seq<Instr>, st: FuseState, i: nat)
    requires |st.cur| == |instrs|
  {
    && (forall d :: d in st.remove ==> 1 <= d <= i && FusedAt(instrs, st.cur, d - 1))
    && (forall d, k :: d in st.remove && 0 <= k < |instrs| && k != d ==> instrs[d - 1].result !in Uses(st.cur[k]))
  }

  /** Exactly the removed conversions' results became unboxed doubles. */
  predicate FuseStorages(instrs: seq<Instr>, storages0: seq<ValueStorage>, st: FuseState)
    requires |st.storages| == |storages0|
  {
    forall t :: 0 <= t < |storages0| ==>
      st.storages[t] == if t in UnboxedResults(instrs, st.remove) then UnboxedDouble() else storages0[t]
  }

  /** What the fusion loop keeps true. */
  predicate FuseInvariant(instrs: seq<Instr>, storages0: seq<ValueStorage>, single: map<int, int>, st: FuseState, i: nat)
  {
    && single == ConsumersBefore(instrs, |instrs|).0
    && FuseFrame(instrs, storages0, st, i)
    && FuseVisited(instrs, st, i)
    && FuseRemovals(instrs, st, i)
    && FuseStorages(instrs, storages0, st)
  }

  /** The fused read meets every condition `FusedAt` records. */
  lemma FuseStepFuses(instrs: seq<Instr>, storages0: seq<ValueStorage>, single: map<int, int>, st: FuseState, i: nat)
    requires single == ConsumersBefore(instrs, |instrs|).0 && FuseFrame(instrs, storages0, st, i) && i < |instrs|
    requires GetItemsHaveStorage(st.cur, st.storages) && ConsumersNamed(st.cur, single)
    requires FuseEligible(st.cur, st.storages, single, i)
    ensures FusedAt(instrs, FuseStep(st, single, i).cur, i)
  {
    ConsumersBeforeCounts(instrs, |instrs|, instrs[i].result);
    assert st.cur[i + 1] == instrs[i + 1];
  }

  /** The fused read is not in the allocator's operand table. */
  lemma NumberReadReadsNothing(o: Temp, x: Temp, n: Temp)
    ensures Uses(GetItemAsNumber(o, x, n)) == []
  {
  }

  lemma FuseStepRemovedAreFused(instrs: seq<Instr>, storages0: seq<ValueStorage>, single: map<int, int>, st: FuseState, i: nat)
    requires single == ConsumersBefore(instrs, |instrs|).0 && FuseFrame(instrs, storages0, st, i) && i < |instrs|
    requires FuseRemovals(instrs, st, i)
    requires GetItemsHaveStorage(st.cur, st.storages) && ConsumersNamed(st.cur, single)
    requires FuseEligible(st.cur, st.storages, single, i)
    ensures forall d :: d in FuseStep(st, single, i).remove ==> 1 <= d <= i + 1 && FusedAt(instrs, FuseStep(st, single, i).cur, d - 1)
  {
    var next := FuseStep(st, single, i);
    FuseStepFuses(instrs, storages0, single, st, i);
    assert forall j :: 0 <= j < |instrs| && j != i ==> next.cur[j] == st.cur[j];
    RemovedStayFused(instrs, st.cur, st.remove, i, next.cur, next.remove);
  }

  /** Rewriting only instruction `i`, which is then fused, keeps every
      earlier removal fused. */
  lemma RemovedStayFused(instrs: seq<Instr>, cur: seq<Instr>, remove: set<int>, i: nat, next: seq<Instr>, nextRemove: set<int>)
    requires |cur| == |instrs| && |next| == |instrs| && nextRemove == remove + {i + 1}
    requires forall d :: d in remove ==> 1 <= d <= i && FusedAt(instrs, cur, d - 1)
    requires forall j :: 0 <= j < |instrs| && j != i ==> next[j] == cur[j]
    requires FusedAt(instrs, next, i)
    ensures forall d :: d in nextRemove ==> 1 <= d <= i + 1 && FusedAt(instrs, next, d - 1)
  {
    forall d | d in nextRemove
      ensures 1 <= d <= i + 1 && FusedAt(instrs, next, d - 1)
    {
      if d != i + 1 {
        assert FusedAt(instrs, cur, d - 1);
        assert next[d - 1] == cur[d - 1];
      }
    }
  }

  /** Replacing the read at `i` by an instruction that reads nothing, and
      removing the conversion after it, leaves the read's result and every
      earlier fused result unread. */
  lemma FuseStepRemovedResultsDead(instrs: seq<Instr>, cur: seq<Instr>, remove: set<int>, i: nat, x: Instr,
                                   next: seq<Instr>, nextRemove: set<int>)
    requires |cur| == |instrs| && i + 1 < |instrs| && instrs[i].GetItem?
    requires forall d :: d in remove ==> 1 <= d <= i && instrs[d - 1].GetItem?
    requires forall d, k :: d in remove && 0 <= k < |instrs| && k != d ==> instrs[d - 1].result !in Uses(cur[k])
    requires !UsedOutside(cur, instrs[i].result, {i, i + 1})
    requires Uses(x) == [] && next == cur[i := x] && nextRemove == remove + {i + 1}
    ensures forall d, k :: d in nextRemove && 0 <= k < |instrs| && k != d ==> instrs[d - 1].result !in Uses(next[k])
  {
    forall d, k | d in nextRemove && 0 <= k < |instrs| && k != d
      ensures instrs[d - 1].result !in Uses(next[k])
    {
      if k != i {
        assert next[k] == cur[k];
        if d == i + 1 {
          assert k !in {i, i + 1};
        }
      }
    }
  }

  lemma FuseStepStorages(instrs: seq<Instr>, storages0: seq<ValueStorage>, single: map<int, int>, st: FuseState, i: nat)
    requires single == ConsumersBefore(instrs, |instrs|).0 && FuseFrame(instrs, storages0, st, i) && i < |instrs|
    requires FuseStorages(instrs, storages0, st)
    requires GetItemsHaveStorage(st.cur, st.storages) && ConsumersNamed(st.cur, single)
    requires FuseEligible(st.cur, st.storages, single, i)
    ensures FuseStorages(instrs, storages0, FuseStep(st, single, i))
  {
    var next := FuseStep(st, single, i);
    assert st.cur[i + 1] == instrs[i + 1];
    assert UnboxedResults(instrs, next.remove) == UnboxedResults(instrs, st.remove) + {instrs[i + 1].result};
  }

  lemma FuseStepVisited(instrs: seq<Instr>, storages0: seq<ValueStorage>, single: map<int, int>, st: FuseState, i: nat)
    requires single == ConsumersBefore(instrs, |instrs|).0 && FuseFrame(instrs, storages0, st, i) && i < |instrs|
    requires FuseVisited(instrs, st, i)
    requires GetItemsHaveStorage(st.cur, st.storages) && ConsumersNamed(st.cur, single)
    requires FuseEligible(st.cur, st.storages, single, i)
    ensures FuseFrame(instrs, storages0, FuseStep(st, single, i), i + 1)
    ensures FuseVisited(instrs, FuseStep(st, single, i), i + 1)
  {
    FuseStepFuses(instrs, storages0, single, st, i);
    VisitedAfterStep(instrs, st.cur, st.remove, i, FuseStep(st, single, i).cur, FuseStep(st, single, i).remove);
  }

  lemma VisitedAfterStep(instrs: seq<Instr>, cur: seq<Instr>, remove: set<int>, i: nat, next: seq<Instr>, nextRemove: set<int>)
    requires |cur| == |instrs| && |next| == |instrs| && i < |instrs|
    requires forall j :: 0 <= j < i && j < |instrs| && cur[j] != instrs[j] ==> FusedAt(instrs, cur, j) && j + 1 in remove
    requires forall j :: 0 <= j < |cur| && j != i ==> next[j] == cur[j]
    requires FusedAt(instrs, next, i) && nextRemove == remove + {i + 1}
    ensures forall j :: 0 <= j < i + 1 && j < |instrs| && next[j] != instrs[j] ==> FusedAt(instrs, next, j) && j + 1 in nextRemove
  {
    forall j | 0 <= j < i + 1 && j < |instrs| && next[j] != instrs[j]
      ensures FusedAt(instrs, next, j) && j + 1 in nextRemove
    {
      if j < i {
        assert next[j] == cur[j];
      }
    }
  }

  lemma FuseStepKeepsInvariant(instrs: seq<Instr>, storages0: seq<ValueStorage>, single: map<int, int>, st: FuseState, i: nat)
    requires FuseInvariant(instrs, storages0, single, st, i) && i < |instrs|
    requires GetItemsHaveStorage(st.cur, st.storages) && ConsumersNamed(st.cur, single)
    requires FuseEligible(st.cur, st.storages, single, i)
    ensures FuseInvariant(instrs, storages0, single, FuseStep(st, single, i), i + 1)
  {
    FuseStepVisited(instrs, storages0, single, st, i);
    FuseStepRemovedAreFused(instrs, storages0, single, st, i);
    NumberReadReadsNothing(st.cur[i].obj, st.cur[i].index, st.cur[i + 1].result);
    FuseStepRemovedResultsDead(instrs, st.cur, st.remove, i, GetItemAsNumber(st.cur[i].obj, st.cur[i].index, st.cur[i + 1].result),
      FuseStep(st, single, i).cur, FuseStep(st, single, i).remove);
    FuseStepStorages(instrs, storages0, single, st, i);
  }


  lemma {:induction false} FuseFromKeepsInvariant(instrs: seq<Instr>, storages0: seq<ValueStorage>, single: map<int, int>, st: FuseState, i: nat)
    requires FuseInvariant(instrs, storages0, single, st, i)
    requires GetItemsHaveStorage(st.cur, st.storages) && ConsumersNamed(st.cur, single)
    ensures FuseInvariant(instrs, storages0, single, FuseFrom(st, single, i), |instrs|)
    decreases |st.cur| - i
  {
    if i < |st.cur| {
      if FuseEligible(st.cur, st.storages, single, i) {
        FuseStepKeepsInvariant(instrs, storages0, single, st, i);
        FuseFromKeepsInvariant(instrs, storages0, single, FuseStep(st, single, i), i + 1);
      } else {
        FuseFromKeepsInvariant(instrs, storages0, single, st, i + 1);
      }
    }
  }

  /** Only a `GetItem` directly followed by the sole `ConvertToNumber` of
      its result is fused; the conversion is what gets removed, its result
      becomes an unboxed double, and no instruction left after compaction
      reads the old, now undefined, result. */
  lemma FusedOnlyWhenSafe(s: Body)
    requires GetItemsHaveStorage(s.instrs, s.tempStorages)
    ensures var single := ConsumersBefore(s.instrs, |s.instrs|).0;
      var r := FuseFrom(FuseState(s.instrs, s.tempStorages, {}), single, 0);
      && (forall j :: 0 <= j < |s.instrs| && r.cur[j] != s.instrs[j] ==> FusedAt(s.instrs, r.cur, j) && j + 1 in r.remove)
      && (forall d :: d in r.remove ==>
            && 1 <= d < |s.instrs| && FusedAt(s.instrs, r.cur, d - 1)
            && forall k :: 0 <= k < |s.instrs| && k != d ==> s.instrs[d - 1].result !in Uses(r.cur[k]))
      && (forall t :: 0 <= t < |s.tempStorages| ==>
            r.storages[t] == if t in UnboxedResults(s.instrs, r.remove) then UnboxedDouble() else s.tempStorages[t])
  {
    var single := ConsumersBefore(s.instrs, |s.instrs|).0;
    var st := FuseState(s.instrs, s.tempStorages, {});
    assert UnboxedResults(s.instrs, {}) == {};
    FuseFromKeepsInvariant(s.instrs, s.tempStorages, single, st, 0);
  }

  /** The consumer scan loop. */
  method ScanConvertConsumers(instrs: seq<Instr>) returns (single: map<int, int>, ineligible: set<int>)
    ensures (single, ineligible) == ConsumersBefore(instrs, |instrs|)
  {
    single := map[];
    ineligible := {};
    for i := 0 to |instrs|
      invariant (single, ineligible) == ConsumersBefore(instrs, i)
    {
      if instrs[i].ConvertToNumber? && instrs[i].source >= 0 {
        var srcIdx := instrs[i].source;
        if srcIdx !in ineligible {
          if srcIdx in single {
            ineligible := ineligible + {srcIdx};
            single := single - {srcIdx};
          } else {
            single := single[srcIdx := i];
          }
        }
      }
    }
  }

  /** `FuseGetItemWithConvertToNumber`. */
  method FuseGetItemWithConvertToNumber(body: MethodBody)
    requires GetItemsHaveStorage(body.instructions, body.tempStorages)
    modifies body
    ensures StateOf(body) == Fused(old(StateOf(body)))
    ensures body.variableNames == old(body.variableNames) && body.variableStorages == old(body.variableStorages)
  {
    ghost var s0 := StateOf(body);
    var single, _ := ScanConvertConsumers(body.instructions);
    var indicesToRemove: set<int> := {};
    for i := 0 to |body.instructions|
      invariant GetItemsHaveStorage(body.instructions, body.tempStorages) && ConsumersNamed(body.instructions, single)
      invariant FuseFrom(FuseState(s0.instrs, s0.tempStorages, {}), single, 0)
             == FuseFrom(FuseState(body.instructions, body.tempStorages, indicesToRemove), single, i)
      invariant body.tempCount == s0.tempCount && body.tempVariableSlots == s0.tvs
      invariant body.variableNames == old(body.variableNames) && body.variableStorages == old(body.variableStorages)
    {
      if !body.instructions[i].GetItem? {
        continue;
      }
      var getItem := body.instructions[i];
      var resultIdx := getItem.result;
      if resultIdx < 0 {
        continue;
      }
      if body.tempStorages[resultIdx].kind == UnboxedValue {
        continue;
      }
      if resultIdx !in single {
        continue;
      }
      var convIdx := single[resultIdx];
      if convIdx != i + 1 {
        continue;
      }
      var conv := body.instructions[convIdx];
      var used := IsTempUsedOutside(body.instructions, resultIdx, {i, convIdx});
      if used {
        continue;
      }
      body.instructions := body.instructions[i := GetItemAsNumber(getItem.obj, getItem.index, conv.result)];
      indicesToRemove := indicesToRemove + {convIdx};
      if 0 <= conv.result < |body.tempStorages| {
        body.tempStorages := body.tempStorages[conv.result := UnboxedDouble()];
      }
    }
    ghost var r := FuseFrom(FuseState(s0.instrs, s0.tempStorages, {}), single, 0);
    RemoveIndices(body, indicesToRemove);
  }

  // ---------------------------------------------------------------------
  // CommonJS `require` calls.

  /** The definitions the `require` pass tracks besides array builds. */
  datatype DefKind = ScopesDef | ConvertDef

  predicate IsDefOf(instr: Instr, kind: DefKind, t: Temp)
  {
    match kind
    case ScopesDef => instr.BuildScopesArray? && instr.result == t
    case ConvertDef => instr.ConvertToObject? && instr.result == t
  }

  /** The instruction defines a non-negative temp with that kind. */
  predicate TrackedDef(instr: Instr, kind: DefKind)
  {
    (instr.BuildScopesArray? || instr.ConvertToObject?) && instr.result >= 0 && IsDefOf(instr, kind, instr.result)
  }

  /** The table of the last definition of each temp, of the given kind,
      before `n`. */
  function DefsBefore(instrs: seq<Instr>, n: nat, kind: DefKind): (r: map<int, int>)
    requires n <= |instrs|
    ensures forall k :: k in r ==> k >= 0 && 0 <= r[k] < n && IsDefOf(instrs[r[k]], kind, k)
  {
    if n == 0 then map[]
    else
      var m := DefsBefore(instrs, n - 1, kind);
      var instr := instrs[n - 1];
      if TrackedDef(instr, kind) then
        m[instr.result := n - 1]
      else m
  }

  /** Each temp with a definition of the kind before `n` is in the table. */
  lemma {:induction false} DefsBeforeComplete(instrs: seq<Instr>, n: nat, kind: DefKind)
    requires n <= |instrs|
    ensures forall j :: 0 <= j < n && TrackedDef(instrs[j], kind) ==> instrs[j].result in DefsBefore(instrs, n, kind)
  {
    if n > 0 {
      DefsBeforeComplete(instrs, n - 1, kind);
    }
  }

  /** The scan loop of the `require` pass. */
  method ScanRequireTables(instrs: seq<Instr>) returns (builds: map<int, BuildInfo>, scopes: map<int, int>, converts: map<int, int>)
    ensures builds == BuildsBefore(instrs, |instrs|)
    ensures scopes == DefsBefore(instrs, |instrs|, ScopesDef) && converts == DefsBefore(instrs, |instrs|, ConvertDef)
  {
    builds, scopes, converts := map[], map[], map[];
    for i := 0 to |instrs|
      invariant builds == BuildsBefore(instrs, i)
      invariant scopes == DefsBefore(instrs, i, ScopesDef) && converts == DefsBefore(instrs, i, ConvertDef)
    {
      match instrs[i]
      case BuildArray(elements, result) =>
        if result >= 0 {
          builds := builds[result := BuildInfo(i, elements)];
        }
      case BuildScopesArray(result) =>
        if result >= 0 {
          scopes := scopes[result := i];
        }
      case ConvertToObject(_, _, result) =>
        if result >= 0 {
          converts := converts[result := i];
        }
      case _ =>
    }
  }

  /** `IsRequireDelegateTemp`: the callee is a temp holding a reference to
      the module's `require` delegate. */
  predicate IsRequireDelegate(storages: seq<ValueStorage>, callee: Temp)
  {
    0 <= callee < |storages| && storages[callee].kind == Reference
    && storages[callee].clrType == Some(RequireDelegateType)
  }

  /** The body and the pass's tables and removal set. */
  datatype RequireState = RequireState(
    s: Body,
    builds: map<int, BuildInfo>,
    scopes: map<int, int>,
    converts: map<int, int>,
    remove: set<int>)

  /** A fresh temp loaded with `undefined` by an instruction inserted at
      `i`, with every tracked index shifted past the insertion. */
  function InsertUndefined(st: RequireState, i: nat): (r: (RequireState, Temp))
    requires i <= |st.s.instrs|
    ensures r.1 == st.s.tempCount && r.0.s.tempCount == st.s.tempCount + 1
    ensures r.0.s.instrs == InsertAt(st.s.instrs, i, ConstUndefined(r.1))
    ensures r.0.s.tempStorages == st.s.tempStorages + [ObjectReference()]
  {
    var (s1, m) := WithNewTemp(st.s, ObjectReference());
    (RequireState(s1.(instrs := InsertAt(s1.instrs, i, ConstUndefined(m))),
                  ShiftedBuilds(st.builds, i), ShiftedMap(st.scopes, i), ShiftedMap(st.converts, i),
                  ShiftedSet(st.remove, i)),
     m)
  }

  /** The boxing conversions among the array elements from index 1 below
      `n` whose result nothing but the conversion, the build and the call
      reads. */
  function DeadConverts(instrs: seq<Instr>, converts: map<int, int>, elems: seq<Temp>, buildDef: int, j: int, n: nat): set<int>
    requires n <= |elems|
  {
    if n <= 1 then {}
    else
      var e := elems[n - 1];
      var rest := DeadConverts(instrs, converts, elems, buildDef, j, n - 1);
      if e >= 0 && e in converts && !UsedOutside(instrs, e, {converts[e], buildDef, j}) then rest + {converts[e]}
      else rest
  }

  /** The end of a `require` rewrite: drop the scopes-array build when
      only it and the call mention the array, replace the call at `j`,
      and make its result an object reference. */
  function FinishRequire(st: RequireState, j: nat, f: Temp, sc: Temp, m: Temp, res: Temp): (r: RequireState)
    requires j < |st.s.instrs|
    ensures r.s.instrs == st.s.instrs[j := CallRequire(f, m, res)] && r.s.tempCount == st.s.tempCount
  {
    var remove :=
      if sc >= 0 && sc in st.scopes && !UsedOutside(st.s.instrs, sc, {st.scopes[sc], j}) then st.remove + {st.scopes[sc]}
      else st.remove;
    st.(s := st.s.(instrs := st.s.instrs[j := CallRequire(f, m, res)],
                   tempStorages := SetStorage(st.s.tempStorages, res, ObjectReference())),
        remove := remove)
  }

  /** The argument-array form: the module id is the first element, or a
      fresh `undefined` when the array is empty; the build, and the dead
      boxing conversions of the other elements, go when nothing else
      reads the array. */
  function RequireValueStep(st: RequireState, i: nat): (r: (RequireState, nat))
    requires i < |st.s.instrs| && st.s.instrs[i].CallFunctionValue?
    requires IsRequireDelegate(st.s.tempStorages, st.s.instrs[i].functionValue)
    requires st.s.instrs[i].argumentsArray >= 0 && st.s.instrs[i].argumentsArray in st.builds
    ensures |r.0.s.instrs| - r.1 < |st.s.instrs| - i
  {
    var call := st.s.instrs[i];
    var bi := st.builds[call.argumentsArray];
    var (st1, m, j) :=
      if |bi.elements| > 0 then (st, bi.elements[0], i)
      else var (st1, m) := InsertUndefined(st, i); (st1, m, i + 1);
    var st2 :=
      if !UsedOutside(st1.s.instrs, call.argumentsArray, {bi.defIndex, j}) then
        st1.(remove := st1.remove + {bi.defIndex} + DeadConverts(st1.s.instrs, st1.converts, bi.elements, bi.defIndex, j, |bi.elements|))
      else st1;
    (FinishRequire(st2, j, call.functionValue, call.scopesArray, m, call.result), j + 1)
  }

  /** One iteration of the `require` loop at `i`: the next state and the
      next index. */
  function RequireStep(st: RequireState, i: nat): (r: (RequireState, nat))
    requires i < |st.s.instrs|
    ensures |r.0.s.instrs| - r.1 < |st.s.instrs| - i
  {
    var instr := st.s.instrs[i];
    if instr.CallFunctionValue? then
      if !IsRequireDelegate(st.s.tempStorages, instr.functionValue) || instr.argumentsArray < 0 || instr.argumentsArray !in st.builds then
        (st, i + 1)
      else RequireValueStep(st, i)
    else if instr.CallFunctionValueN? && |instr.args| <= 3 && IsRequireDelegate(st.s.tempStorages, instr.functionValue) then
      if |instr.args| == 0 then
        var (st1, m) := InsertUndefined(st, i);
        (FinishRequire(st1, i + 1, instr.functionValue, instr.scopesArray, m, instr.result), i + 2)
      else (FinishRequire(st, i, instr.functionValue, instr.scopesArray, instr.args[0], instr.result), i + 1)
    else (st, i + 1)
  }

  /** The `require` loop from `i` on. */
  function RequireFrom(st: RequireState, i: nat): RequireState
    decreases |st.s.instrs| - i
  {
    if i >= |st.s.instrs| then st
    else
      var (st1, j) := RequireStep(st, i);
      RequireFrom(st1, j)
  }

  /** The state after the scan: the three tables, nothing to remove. */
  function RequireStart(s: Body): RequireState
  {
    RequireState(s, BuildsBefore(s.instrs, |s.instrs|), DefsBefore(s.instrs, |s.instrs|, ScopesDef),
                 DefsBefore(s.instrs, |s.instrs|, ConvertDef), {})
  }

  /** `NormalizeCommonJsRequireCalls`. */
  function RequireCalls(s: Body): Body
  {
    var r := RequireFrom(RequireStart(s), 0);
    r.s.(instrs := Kept(r.s.instrs, r.remove, |r.s.instrs|))
  }

  /** Creates the module-id temp, inserts its `undefined` load at `i` and
      shifts the tracked indices. */
  method InsertUndefinedModuleId(body: MethodBody, i: nat, indicesToRemove: set<int>, buildArrays: map<int, BuildInfo>,
                                 buildScopesArrays: map<int, int>, convertToObjectDefs: map<int, int>)
    returns (m: Temp, remove: set<int>, builds: map<int, BuildInfo>, scopes: map<int, int>, converts: map<int, int>)
    requires i <= |body.instructions|
    modifies body
    ensures (RequireState(StateOf(body), builds, scopes, converts, remove), m)
         == InsertUndefined(RequireState(old(StateOf(body)), buildArrays, buildScopesArrays, convertToObjectDefs, indicesToRemove), i)
    ensures body.variableNames == old(body.variableNames) && body.variableStorages == old(body.variableStorages)
  {
    m := CreateTemp(body, ObjectReference());
    body.instructions := body.instructions[..i] + [ConstUndefined(m)] + body.instructions[i..];
    remove := ShiftSet(indicesToRemove, i);
    builds := ShiftBuilds(buildArrays, i);
    scopes := ShiftMap(buildScopesArrays, i);
    converts := ShiftMap(convertToObjectDefs, i);
  }

  /** The loop over the remaining elements of a removed argument array. */
  method CollectDeadConverts(instrs: seq<Instr>, converts: map<int, int>, elems: seq<Temp>, buildDef: int, j: int, indicesToRemove: set<int>)
    returns (remove: set<int>)
    ensures remove == indicesToRemove + DeadConverts(instrs, converts, elems, buildDef, j, |elems|)
  {
    remove := indicesToRemove;
    if |elems| <= 1 {
      return;
    }
    for argIndex := 1 to |elems|
      invariant remove == indicesToRemove + DeadConverts(instrs, converts, elems, buildDef, j, argIndex)
    {
      var elem := elems[argIndex];
      if elem < 0 || elem !in converts {
        continue;
      }
      var defIndex := converts[elem];
      var used := IsTempUsedOutside(instrs, elem, {defIndex, buildDef, j});
      if !used {
        remove := remove + {defIndex};
      }
    }
  }

  /** Drops the dead scopes-array build, replaces the call at `j` and
      retypes its result. */
  method FinishRequireCall(body: MethodBody, j: nat, f: Temp, sc: Temp, m: Temp, res: Temp,
                           builds: map<int, BuildInfo>, scopes: map<int, int>, converts: map<int, int>, indicesToRemove: set<int>)
    returns (remove: set<int>)
    requires j < |body.instructions|
    modifies body
    ensures RequireState(StateOf(body), builds, scopes, converts, remove)
         == FinishRequire(RequireState(old(StateOf(body)), builds, scopes, converts, indicesToRemove), j, f, sc, m, res)
    ensures body.variableNames == old(body.variableNames) && body.variableStorages == old(body.variableStorages)
  {
    remove := indicesToRemove;
    if sc >= 0 && sc in scopes {
      var used := IsTempUsedOutside(body.instructions, sc, {scopes[sc], j});
      if !used {
        remove := remove + {scopes[sc]};
      }
    }
    body.instructions := body.instructions[j := CallRequire(f, m, res)];
    if 0 <= res < |body.tempStorages| {
      body.tempStorages := body.tempStorages[res := ObjectReference()];
    }
  }

  /** The `LIRCallFunctionValue` case of the loop. */
  method RewriteRequireValueCall(body: MethodBody, i: nat, indicesToRemove: set<int>, buildArrays: map<int, BuildInfo>,
                                 buildScopesArrays: map<int, int>, convertToObjectDefs: map<int, int>)
    returns (next: nat, remove: set<int>, builds: map<int, BuildInfo>, scopes: map<int, int>, converts: map<int, int>)
    requires i < |body.instructions| && body.instructions[i].CallFunctionValue?
    requires IsRequireDelegate(body.tempStorages, body.instructions[i].functionValue)
    requires body.instructions[i].argumentsArray >= 0 && body.instructions[i].argumentsArray in buildArrays
    modifies body
    ensures (RequireState(StateOf(body), builds, scopes, converts, remove), next)
         == RequireValueStep(RequireState(old(StateOf(body)), buildArrays, buildScopesArrays, convertToObjectDefs, indicesToRemove), i)
    ensures body.variableNames == old(body.variableNames) && body.variableStorages == old(body.variableStorages)
  {
    var call := body.instructions[i];
    var buildInfo := buildArrays[call.argumentsArray];
    var moduleId: Temp;
    var j := i;
    remove, builds, scopes, converts := indicesToRemove, buildArrays, buildScopesArrays, convertToObjectDefs;
    if |buildInfo.elements| > 0 {
      moduleId := buildInfo.elements[0];
    } else {
      moduleId, remove, builds, scopes, converts := InsertUndefinedModuleId(body, i, remove, builds, scopes, converts);
      j := i + 1;
    }
    var used := IsTempUsedOutside(body.instructions, call.argumentsArray, {buildInfo.defIndex, j});
    if !used {
      remove := remove + {buildInfo.defIndex};
      remove := CollectDeadConverts(body.instructions, converts, buildInfo.elements, buildInfo.defIndex, j, remove);
    }
    remove := FinishRequireCall(body, j, call.functionValue, call.scopesArray, moduleId, call.result, builds, scopes, converts, remove);
    next := j + 1;
  }

  /** The `LIRCallFunctionValue0` to `LIRCallFunctionValue3` cases of the
      loop. */
  method RewriteRequireValueNCall(body: MethodBody, i: nat, indicesToRemove: set<int>, buildArrays: map<int, BuildInfo>,
                                  buildScopesArrays: map<int, int>, convertToObjectDefs: map<int, int>)
    returns (next: nat, remove: set<int>, builds: map<int, BuildInfo>, scopes: map<int, int>, converts: map<int, int>)
    requires i < |body.instructions| && body.instructions[i].CallFunctionValueN? && |body.instructions[i].args| <= 3
    requires IsRequireDelegate(body.tempStorages, body.instructions[i].functionValue)
    modifies body
    ensures (RequireState(StateOf(body), builds, scopes, converts, remove), next)
         == RequireStep(RequireState(old(StateOf(body)), buildArrays, buildScopesArrays, convertToObjectDefs, indicesToRemove), i)
    ensures body.variableNames == old(body.variableNames) && body.variableStorages == old(body.variableStorages)
  {
    var call := body.instructions[i];
    var moduleId: Temp;
    var j := i;
    remove, builds, scopes, converts := indicesToRemove, buildArrays, buildScopesArrays, convertToObjectDefs;
    if |call.args| == 0 {
      moduleId, remove, builds, scopes, converts := InsertUndefinedModuleId(body, i, remove, builds, scopes, converts);
      j := i + 1;
    } else {
      moduleId := call.args[0];
    }
    remove := FinishRequireCall(body, j, call.functionValue, call.scopesArray, moduleId, call.result, builds, scopes, converts, remove);
    next := j + 1;
  }

  /** `NormalizeCommonJsRequireCalls`. */
  method NormalizeCommonJsRequireCalls(body: MethodBody)
    modifies body
    ensures StateOf(body) == RequireCalls(old(StateOf(body)))
    ensures body.variableNames == old(body.variableNames) && body.variableStorages == old(body.variableStorages)
  {
    ghost var s0 := StateOf(body);
    var builds, scopes, converts := ScanRequireTables(body.instructions);
    ghost var st0 := RequireStart(s0);
    var remove: set<int> := {};
    var i: nat := 0;
    while i < |body.instructions|
      invariant RequireFrom(st0, 0) == RequireFrom(RequireState(StateOf(body), builds, scopes, converts, remove), i)
      invariant body.variableNames == old(body.variableNames) && body.variableStorages == old(body.variableStorages)
      decreases |body.instructions| - i
    {
      var instr := body.instructions[i];
      if instr.CallFunctionValue? {
        if !IsRequireDelegate(body.tempStorages, instr.functionValue) || instr.argumentsArray < 0 || instr.argumentsArray !in builds {
          i := i + 1;
          continue;
        }
        i, remove, builds, scopes, converts := RewriteRequireValueCall(body, i, remove, builds, scopes, converts);
      } else if instr.CallFunctionValueN? && |instr.args| <= 3 && IsRequireDelegate(body.tempStorages, instr.functionValue) {
        i, remove, builds, scopes, converts := RewriteRequireValueNCall(body, i, remove, builds, scopes, converts);
      } else {
        i := i + 1;
      }
    }
    RemoveIndices(body, remove);
  }

  /** The call at `i` is a `require` call the pass rewrites. */
  predicate IsRequireCall(st: RequireState, i: nat)
    requires i < |st.s.instrs|
  {
    var instr := st.s.instrs[i];
    || (instr.CallFunctionValue? && IsRequireDelegate(st.s.tempStorages, instr.functionValue)
        && instr.argumentsArray >= 0 && instr.argumentsArray in st.builds)
    || (instr.CallFunctionValueN? && |instr.args| <= 3 && IsRequireDelegate(st.s.tempStorages, instr.functionValue))
  }

  /** The rewritten call has no module-id argument. */
  predicate ZeroArgRequire(st: RequireState, i: nat)
    requires i < |st.s.instrs| && IsRequireCall(st, i)
  {
    var instr := st.s.instrs[i];
    if instr.CallFunctionValue? then st.builds[instr.argumentsArray].elements == [] else instr.args == []
  }

  /** The module id of a call with arguments: its first argument. */
  function FirstArgument(st: RequireState, i: nat): Temp
    requires i < |st.s.instrs| && IsRequireCall(st, i) && !ZeroArgRequire(st, i)
  {
    var instr := st.s.instrs[i];
    if instr.CallFunctionValue? then st.builds[instr.argumentsArray].elements[0] else instr.args[0]
  }

  /** Anything but a `require` call is stepped over unchanged. */
  lemma RequireOnlyRewritesRequireCalls(st: RequireState, i: nat)
    requires i < |st.s.instrs| && !IsRequireCall(st, i)
    ensures RequireStep(st, i) == (st, i + 1)
  {
  }

  /** A zero-argument `require` call gets a fresh temp, loaded with
      `undefined` by an instruction inserted right before it, as its
      module id; the call becomes a `CallRequire` one slot later. */
  lemma ZeroArgRequireGetsUndefined(st: RequireState, i: nat)
    requires i < |st.s.instrs| && IsRequireCall(st, i) && ZeroArgRequire(st, i)
    ensures RequireStep(st, i).1 == i + 2
    ensures RequireStep(st, i).0.s.tempCount == st.s.tempCount + 1
    ensures |RequireStep(st, i).0.s.instrs| == |st.s.instrs| + 1
    ensures RequireStep(st, i).0.s.instrs[i] == ConstUndefined(st.s.tempCount)
    ensures RequireStep(st, i).0.s.instrs[i + 1]
         == CallRequire(st.s.instrs[i].functionValue, st.s.tempCount, st.s.instrs[i].result)
    ensures RequireStep(st, i).0.s.instrs[..i] == st.s.instrs[..i]
    ensures RequireStep(st, i).0.s.instrs[i + 2..] == st.s.instrs[i + 1..]
    ensures RequireStep(st, i).0.s.tempStorages[|st.s.tempStorages|] == ObjectReference()
  {
    var r := RequireStep(st, i).0;
    var ins := InsertAt(st.s.instrs, i, ConstUndefined(st.s.tempCount));
    assert r.s.instrs == ins[i + 1 := CallRequire(st.s.instrs[i].functionValue, st.s.tempCount, st.s.instrs[i].result)];
    assert ins[i + 2..] == st.s.instrs[i + 1..];
  }

  /** A `require` call with arguments becomes a `CallRequire` of its first
      argument in place; nothing is inserted and no temp is created. */
  lemma RequireWithArgumentUsesIt(st: RequireState, i: nat)
    requires i < |st.s.instrs| && IsRequireCall(st, i) && !ZeroArgRequire(st, i)
    ensures RequireStep(st, i).1 == i + 1
    ensures RequireStep(st, i).0.s.tempCount == st.s.tempCount
    ensures RequireStep(st, i).0.s.instrs
         == st.s.instrs[i := CallRequire(st.s.instrs[i].functionValue, FirstArgument(st, i), st.s.instrs[i].result)]
  {
  }

  // Tracked indices keep naming their instructions.

  predicate Removable(instr: Instr)
  {
    instr.BuildArray? || instr.BuildScopesArray? || instr.ConvertToObject?
  }

  predicate NamesDefs(instrs: seq<Instr>, m: map<int, int>, kind: DefKind)
  {
    forall k :: k in m ==> 0 <= m[k] < |instrs| && IsDefOf(instrs[m[k]], kind, k)
  }

  /** The tables name definitions of their temps, and every index marked
      for removal is an array build, a scopes-array build or a boxing
      conversion. */
  predicate TablesTrack(st: RequireState)
  {
    && NamesBuilds(st.s.instrs, st.builds)
    && NamesDefs(st.s.instrs, st.scopes, ScopesDef)
    && NamesDefs(st.s.instrs, st.converts, ConvertDef)
    && forall d :: d in st.remove ==> 0 <= d < |st.s.instrs| && Removable(st.s.instrs[d])
  }

  /** Every unvisited argument-array call comes after the build its table
      entry names. */
  predicate ArgsBuiltBefore(st: RequireState, i: nat)
  {
    forall j :: i <= j < |st.s.instrs| && st.s.instrs[j].CallFunctionValue? && st.s.instrs[j].argumentsArray in st.builds ==>
      st.builds[st.s.instrs[j].argumentsArray].defIndex < j
  }

  lemma InsertKeepsTables(st: RequireState, i: nat)
    requires i <= |st.s.instrs| && TablesTrack(st)
    ensures TablesTrack(InsertUndefined(st, i).0)
  {
    var r := InsertUndefined(st, i).0;
    var x := ConstUndefined(st.s.tempCount);
    forall k | k in r.builds
      ensures 0 <= r.builds[k].defIndex < |r.s.instrs| && r.s.instrs[r.builds[k].defIndex] == BuildArray(r.builds[k].elements, k)
    {
      ShiftKeepsPositions(st.s.instrs, i, x, st.builds[k].defIndex);
    }
    forall k | k in r.scopes
      ensures 0 <= r.scopes[k] < |r.s.instrs| && IsDefOf(r.s.instrs[r.scopes[k]], ScopesDef, k)
    {
      ShiftKeepsPositions(st.s.instrs, i, x, st.scopes[k]);
    }
    forall k | k in r.converts
      ensures 0 <= r.converts[k] < |r.s.instrs| && IsDefOf(r.s.instrs[r.converts[k]], ConvertDef, k)
    {
      ShiftKeepsPositions(st.s.instrs, i, x, st.converts[k]);
    }
    ShiftedSetMembers(st.remove, i);
    forall d | d in r.remove
      ensures 0 <= d < |r.s.instrs| && Removable(r.s.instrs[d])
    {
      var e := if d < i then d else d - 1;
      assert e in st.remove && ShiftIndex(e, i) == d;
      ShiftKeepsPositions(st.s.instrs, i, x, e);
    }
  }

  lemma InsertKeepsArgsBuiltBefore(st: RequireState, i: nat)
    requires i <= |st.s.instrs| && ArgsBuiltBefore(st, i)
    ensures ArgsBuiltBefore(InsertUndefined(st, i).0, i + 1)
  {
    var r := InsertUndefined(st, i).0;
    forall j | i + 1 <= j < |r.s.instrs| && r.s.instrs[j].CallFunctionValue? && r.s.instrs[j].argumentsArray in r.builds
      ensures r.builds[r.s.instrs[j].argumentsArray].defIndex < j
    {
      assert r.s.instrs[j] == st.s.instrs[j - 1];
    }
  }

  /** Every index `DeadConverts` collects is a table entry. */
  lemma {:induction false} DeadConvertsFromTable(instrs: seq<Instr>, converts: map<int, int>, elems: seq<Temp>, buildDef: int, j: int, n: nat)
    requires n <= |elems|
    ensures forall d :: d in DeadConverts(instrs, converts, elems, buildDef, j, n) ==> exists e :: e in converts && converts[e] == d
  {
    if n > 1 {
      DeadConvertsFromTable(instrs, converts, elems, buildDef, j, n - 1);
    }
  }

  lemma FinishKeepsTables(st: RequireState, j: nat, f: Temp, sc: Temp, m: Temp, res: Temp)
    requires j < |st.s.instrs| && TablesTrack(st) && !Removable(st.s.instrs[j])
    ensures TablesTrack(FinishRequire(st, j, f, sc, m, res))
  {
    var r := FinishRequire(st, j, f, sc, m, res);
    var x := CallRequire(f, m, res);
    assert r.s.instrs == st.s.instrs[j := x];
    assert r.builds == st.builds && r.scopes == st.scopes && r.converts == st.converts;
    SetKeepsNamesBuilds(st.s.instrs, st.builds, j, x);
    SetKeepsNamesDefs(st.s.instrs, st.scopes, ScopesDef, j, x);
    SetKeepsNamesDefs(st.s.instrs, st.converts, ConvertDef, j, x);
    if sc >= 0 && sc in st.scopes {
      assert Removable(st.s.instrs[st.scopes[sc]]);
    }
  }

  /** Overwriting an instruction that is not an array build keeps the
      build table's entries. */
  lemma SetKeepsNamesBuilds(instrs: seq<Instr>, builds: map<int, BuildInfo>, j: nat, x: Instr)
    requires j < |instrs| && !Removable(instrs[j]) && NamesBuilds(instrs, builds)
    ensures NamesBuilds(instrs[j := x], builds)
  {
    forall k | k in builds
      ensures instrs[j := x][builds[k].defIndex] == instrs[builds[k].defIndex]
    {
    }
  }

  /** Overwriting an instruction that is not a scopes build or boxing
      conversion keeps a definition table's entries. */
  lemma SetKeepsNamesDefs(instrs: seq<Instr>, m: map<int, int>, kind: DefKind, j: nat, x: Instr)
    requires j < |instrs| && !Removable(instrs[j]) && NamesDefs(instrs, m, kind)
    ensures NamesDefs(instrs[j := x], m, kind)
  {
    forall k | k in m
      ensures instrs[j := x][m[k]] == instrs[m[k]]
    {
    }
  }

  lemma RequireValueStepKeepsTables(st: RequireState, i: nat)
    requires i < |st.s.instrs| && st.s.instrs[i].CallFunctionValue?
    requires IsRequireDelegate(st.s.tempStorages, st.s.instrs[i].functionValue)
    requires st.s.instrs[i].argumentsArray >= 0 && st.s.instrs[i].argumentsArray in st.builds
    requires TablesTrack(st) && ArgsBuiltBefore(st, i)
    ensures TablesTrack(RequireValueStep(st, i).0) && ArgsBuiltBefore(RequireValueStep(st, i).0, RequireValueStep(st, i).1)
  {
    var call := st.s.instrs[i];
    var bi := st.builds[call.argumentsArray];
    assert bi.defIndex < i;
    var st1: RequireState, m: Temp, j: nat;
    if |bi.elements| > 0 {
      st1, m, j := st, bi.elements[0], i;
    } else {
      InsertKeepsTables(st, i);
      InsertKeepsArgsBuiltBefore(st, i);
      st1, m := InsertUndefined(st, i).0, InsertUndefined(st, i).1;
      j := i + 1;
      assert st1.s.instrs[bi.defIndex] == st.s.instrs[bi.defIndex];
      assert st1.s.instrs[j] == call;
    }
    var st2 :=
      if !UsedOutside(st1.s.instrs, call.argumentsArray, {bi.defIndex, j}) then
        st1.(remove := st1.remove + {bi.defIndex} + DeadConverts(st1.s.instrs, st1.converts, bi.elements, bi.defIndex, j, |bi.elements|))
      else st1;
    DeadConvertsFromTable(st1.s.instrs, st1.converts, bi.elements, bi.defIndex, j, |bi.elements|);
    assert TablesTrack(st2);
    assert st2.s == st1.s && st2.builds == st1.builds;
    FinishKeepsTables(st2, j, call.functionValue, call.scopesArray, m, call.result);
    FinishKeepsArgsBuiltBefore(st2, j, call.functionValue, call.scopesArray, m, call.result);
    assert RequireValueStep(st, i) == (FinishRequire(st2, j, call.functionValue, call.scopesArray, m, call.result), j + 1);
  }

  /** Rewriting the call at `j` leaves the calls after it as they were. */
  lemma FinishKeepsArgsBuiltBefore(st: RequireState, j: nat, f: Temp, sc: Temp, m: Temp, res: Temp)
    requires j < |st.s.instrs| && ArgsBuiltBefore(st, j)
    ensures ArgsBuiltBefore(FinishRequire(st, j, f, sc, m, res), j + 1)
  {
    var r := FinishRequire(st, j, f, sc, m, res);
    assert r.builds == st.builds;
    assert forall k :: j + 1 <= k < |r.s.instrs| ==> r.s.instrs[k] == st.s.instrs[k];
  }

  lemma RequireStepKeepsTables(st: RequireState, i: nat)
    requires i < |st.s.instrs| && TablesTrack(st) && ArgsBuiltBefore(st, i)
    ensures TablesTrack(RequireStep(st, i).0) && ArgsBuiltBefore(RequireStep(st, i).0, RequireStep(st, i).1)
  {
    var instr := st.s.instrs[i];
    if !IsRequireCall(st, i) {
    } else if instr.CallFunctionValue? {
      RequireValueStepKeepsTables(st, i);
    } else if |instr.args| == 0 {
      InsertKeepsTables(st, i);
      InsertKeepsArgsBuiltBefore(st, i);
      var (st1, m) := InsertUndefined(st, i);
      assert st1.s.instrs[i + 1] == instr;
      FinishKeepsTables(st1, i + 1, instr.functionValue, instr.scopesArray, m, instr.result);
      var r := FinishRequire(st1, i + 1, instr.functionValue, instr.scopesArray, m, instr.result);
      assert forall j :: i + 2 <= j < |r.s.instrs| ==> r.s.instrs[j] == st1.s.instrs[j];
    } else {
      FinishKeepsTables(st, i, instr.functionValue, instr.scopesArray, instr.args[0], instr.result);
    }
  }

  lemma {:induction false} RequireFromKeepsTables(st: RequireState, i: nat)
    requires TablesTrack(st) && ArgsBuiltBefore(st, i)
    ensures TablesTrack(RequireFrom(st, i))
    decreases |st.s.instrs| - i
  {
    if i < |st.s.instrs| {
      RequireStepKeepsTables(st, i);
      var (st1, j) := RequireStep(st, i);
      RequireFromKeepsTables(st1, j);
    }
  }

  /** The lowering builds an argument array before passing it. */
  predicate ArgumentArraysBuiltFirst(instrs: seq<Instr>)
  {
    forall j, d :: (0 <= j < |instrs| && 0 <= d < |instrs| && instrs[j].CallFunctionValue? && instrs[d].BuildArray?
                    && instrs[d].result == instrs[j].argumentsArray) ==> d < j
  }

  /** Across insertions the tables keep naming the definitions they were
      built from, so the compaction deletes only array builds, scopes-array
      builds and boxing conversions, never a call or the module-id load. */
  lemma RequireCallsRemoveOnlyDefinitions(s: Body)
    requires ArgumentArraysBuiltFirst(s.instrs)
    ensures forall d :: d in RequireFrom(RequireStart(s), 0).remove ==>
      0 <= d < |RequireFrom(RequireStart(s), 0).s.instrs| && Removable(RequireFrom(RequireStart(s), 0).s.instrs[d])
  {
    BuildsNamed(s.instrs);
    var st := RequireStart(s);
    assert TablesTrack(st);
    BuildsBeforeNamesLastDef(s.instrs, |s.instrs|);
    assert ArgsBuiltBefore(st, 0);
    RequireFromKeepsTables(st, 0);
  }

  // ---------------------------------------------------------------------
  // Driver.

  /** `Normalize` without a class registry: declared calls, then `require`
      calls, then arity expansion. */
  function NormalizedWithoutRegistry(s: Body, reader: Option<CallableReader>): Body
  {
    ArityExpansion(RequireCalls(DeclaredCalls(s, reader)))
  }

  method NormalizeWithoutClassRegistry(body: MethodBody, reader: Option<CallableReader>)
    modifies body
    ensures StateOf(body) == NormalizedWithoutRegistry(old(StateOf(body)), reader)
    ensures body.variableNames == old(body.variableNames) && body.variableStorages == old(body.variableStorages)
  {
    NormalizeDirectDeclaredFunctionCalls(body, reader);
    NormalizeCommonJsRequireCalls(body);
    NormalizeIntrinsicCallArityExpansion(body);
  }
}
