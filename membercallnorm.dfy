/** The member-call normalisation pass over a lowered method body: a
    generic member call whose method name and arity resolve to exactly one
    instance method of a user class becomes an early-bound call on that
    class. When the receiver's class is proven, the call has no runtime
    fallback; otherwise it keeps a guarded fallback to dynamic dispatch.
    The literal argument array of a rewritten array-based call is dropped
    by one compaction at the end. */
module MemberCallNormalization {
  import opened JsValues
  import opened Lir
  import opened IntrinsicNormalization

  // ---------------------------------------------------------------------
  // Proven receiver types.

  /** `TryGetDeclaredUserClassFieldTypeHandle` for an instance field: the
      declared user-class type handle of a field or private field. */
  function FieldTypeHandle(reg: ClassRegistry, cls: string, field: string, isPrivate: bool): (r: Option<nat>)
    ensures r.Some? <==> (if isPrivate then (cls, field) in reg.privateFieldTypeHandles else (cls, field) in reg.fieldTypeHandles)
    ensures r.Some? && isPrivate ==> r.value == reg.privateFieldTypeHandles[(cls, field)]
    ensures r.Some? && !isPrivate ==> r.value == reg.fieldTypeHandles[(cls, field)]
  {
    if isPrivate then
      if (cls, field) in reg.privateFieldTypeHandles then Some(reg.privateFieldTypeHandles[(cls, field)]) else None
    else
      if (cls, field) in reg.fieldTypeHandles then Some(reg.fieldTypeHandles[(cls, field)]) else None
  }

  /** The entry one instruction adds to the table of proven receiver
      types: the result of `new C(...)` when `C` is registered and its
      constructor cannot return another value, the result of a load of an
      instance field with a declared user-class type, and the destination
      of a copy of a temp already proven. */
  function Seed(reg: ClassRegistry, known: map<int, nat>, instr: Instr): (r: Option<(int, nat)>)
    ensures r.Some? ==> r.value.0 >= 0 && Defined(instr) == Some(r.value.0)
  {
    match instr
    case NewUserClass(cls, _, res) =>
      if res >= 0 && cls in reg.typeHandles && (cls, CtorReturnField) !in reg.privateFields
      then Some((res, reg.typeHandles[cls])) else None
    case LoadUserClassInstanceField(cls, field, isPrivate, res) =>
      var h := FieldTypeHandle(reg, cls, field, isPrivate);
      if res >= 0 && h.Some? then Some((res, h.value)) else None
    case CopyTemp(src, dst) =>
      if dst >= 0 && src in known then Some((dst, known[src])) else None
    case _ => None
  }

  /** The table of proven receiver types after the first `n`
      instructions. */
  function ProvenTypes(instrs: seq<Instr>, reg: ClassRegistry, n: nat): map<int, nat>
    requires n <= |instrs|
  {
    if n == 0 then map[]
    else
      var known := ProvenTypes(instrs, reg, n - 1);
      match Seed(reg, known, instrs[n - 1])
      case None => known
      case Some((t, h)) => known[t := h]
  }

  /** Instruction `j` proves temp `k`. */
  predicate SeedsAt(instrs: seq<Instr>, reg: ClassRegistry, j: nat, k: int)
    requires j < |instrs|
  {
    var e := Seed(reg, ProvenTypes(instrs, reg, j), instrs[j]);
    e.Some? && e.value.0 == k
  }

  /** A step of the scan adds at most the entry its instruction proves. */
  lemma ProvenTypesStep(instrs: seq<Instr>, reg: ClassRegistry, n: nat)
    requires 0 < n <= |instrs|
    ensures forall k :: k in ProvenTypes(instrs, reg, n) <==> k in ProvenTypes(instrs, reg, n - 1) || SeedsAt(instrs, reg, n - 1, k)
    ensures forall k :: k in ProvenTypes(instrs, reg, n) && !SeedsAt(instrs, reg, n - 1, k) ==>
              ProvenTypes(instrs, reg, n)[k] == ProvenTypes(instrs, reg, n - 1)[k]
    ensures forall k :: SeedsAt(instrs, reg, n - 1, k) ==>
              Seed(reg, ProvenTypes(instrs, reg, n - 1), instrs[n - 1]) == Some((k, ProvenTypes(instrs, reg, n)[k])) && k >= 0
  {
    var e := Seed(reg, ProvenTypes(instrs, reg, n - 1), instrs[n - 1]);
    if e.Some? {
      assert ProvenTypes(instrs, reg, n) == ProvenTypes(instrs, reg, n - 1)[e.value.0 := e.value.1];
    }
  }

  /** A temp is in the table exactly when some instruction before `n`
      proves it, and every proven temp is a real temp. */
  lemma {:induction false} ProvenTypesFromSeeds(instrs: seq<Instr>, reg: ClassRegistry, n: nat)
    requires n <= |instrs|
    ensures forall k :: k in ProvenTypes(instrs, reg, n) <==> exists j :: 0 <= j < n && SeedsAt(instrs, reg, j, k)
    ensures forall k :: k in ProvenTypes(instrs, reg, n) ==> k >= 0
  {
    if n > 0 {
      ProvenTypesFromSeeds(instrs, reg, n - 1);
      ProvenTypesStep(instrs, reg, n);
      forall k | k in ProvenTypes(instrs, reg, n)
        ensures exists j :: 0 <= j < n && SeedsAt(instrs, reg, j, k)
      {
        if !SeedsAt(instrs, reg, n - 1, k) {
          var j :| 0 <= j < n - 1 && SeedsAt(instrs, reg, j, k);
          assert 0 <= j < n && SeedsAt(instrs, reg, j, k);
        }
      }
    }
  }

  /** A proven temp holds the type the last instruction proving it
      proved. */
  lemma {:induction false} ProvenTypesFromLastSeed(instrs: seq<Instr>, reg: ClassRegistry, n: nat, j: nat, k: int)
    requires j < n <= |instrs| && SeedsAt(instrs, reg, j, k)
    requires forall m :: j < m < n ==> !SeedsAt(instrs, reg, m, k)
    ensures k in ProvenTypes(instrs, reg, n)
    ensures Seed(reg, ProvenTypes(instrs, reg, j), instrs[j]) == Some((k, ProvenTypes(instrs, reg, n)[k]))
  {
    ProvenTypesStep(instrs, reg, n);
    if j < n - 1 {
      ProvenTypesFromLastSeed(instrs, reg, n - 1, j, k);
    }
  }

  /** The seeding loop. */
  method ScanProvenTypes(instrs: seq<Instr>, reg: ClassRegistry) returns (known: map<int, nat>)
    ensures known == ProvenTypes(instrs, reg, |instrs|)
  {
    known := map[];
    for i := 0 to |instrs|
      invariant known == ProvenTypes(instrs, reg, i)
    {
      match instrs[i]
      case NewUserClass(cls, _, res) =>
        if res >= 0 && cls in reg.typeHandles && (cls, CtorReturnField) !in reg.privateFields {
          known := known[res := reg.typeHandles[cls]];
        }
      case LoadUserClassInstanceField(cls, field, isPrivate, res) =>
        var h := FieldTypeHandle(reg, cls, field, isPrivate);
        if res >= 0 && h.Some? {
          known := known[res := h.value];
        }
      case CopyTemp(src, dst) =>
        if dst >= 0 && src in known {
          known := known[dst := known[src]];
        }
      case _ =>
    }
  }

  // ---------------------------------------------------------------------
  // Call sites.

  /** A normalisable member call: its receiver, member name, argument
      temps, result, and the index of the `BuildArray` its arguments came
      from (or -1). */
  datatype CallSite = CallSite(
    receiver: Temp,
    methodName: string,
    arguments: seq<Temp>,
    result: Temp,
    buildArrayDefIndex: int)

  /** `TryGetMemberCallSite`: a fixed-arity member call, or an array-based
      one whose array has a `BuildArray` and is read by nothing but that
      build and this call. */
  function SiteAt(cur: seq<Instr>, builds: map<int, BuildInfo>, i: nat): Option<CallSite>
    requires i < |cur|
  {
    match cur[i]
    case CallMember(r, name, a, res) =>
      if a < 0 || a !in builds || UsedOutside(cur, a, {builds[a].defIndex, i}) then None
      else Some(CallSite(r, name, builds[a].elements, res, builds[a].defIndex))
    case CallMemberN(r, name, args, res) =>
      if |args| <= 3 then Some(CallSite(r, name, args, res, -1)) else None
    case _ => None
  }

  method TryGetMemberCallSite(cur: seq<Instr>, builds: map<int, BuildInfo>, i: nat) returns (site: Option<CallSite>)
    requires i < |cur|
    ensures site == SiteAt(cur, builds, i)
  {
    match cur[i]
    case CallMember(r, name, a, res) =>
      if a < 0 || a !in builds {
        return None;
      }
      var used := IsTempUsedOutside(cur, a, {builds[a].defIndex, i});
      if used {
        return None;
      }
      return Some(CallSite(r, name, builds[a].elements, res, builds[a].defIndex));
    case CallMemberN(r, name, args, res) =>
      if |args| > 3 {
        return None;
      }
      return Some(CallSite(r, name, args, res, -1));
    case _ =>
      return None;
  }

  // ---------------------------------------------------------------------
  // The rewrite loop.

  /** The early-bound call without fallback. */
  function TypedCall(site: CallSite, m: ResolvedMethod): Instr
  {
    CallTypedMember(site.receiver, m.receiverType, m.methodHandle, m.hasScopesParameter,
                    m.returnClrType, m.maxParamCount, site.arguments, site.result)
  }

  /** The guarded early-bound call with runtime-dispatch fallback. */
  function FallbackCall(site: CallSite, m: ResolvedMethod): Instr
  {
    CallTypedMemberWithFallback(site.receiver, site.methodName, m.receiverType, m.methodHandle,
                                m.hasScopesParameter, m.returnClrType, m.maxParamCount, site.arguments, site.result)
  }

  /** The storage of a temp proven to hold an instance of a user class. */
  function TypedReference(h: nat): ValueStorage
  {
    ValueStorage(Reference, Some(ObjectType), "", Some(h))
  }

  predicate Proven(known: map<int, nat>, t: Temp, h: nat)
  {
    t >= 0 && t in known && known[t] == h
  }

  /** The registry resolves the method `name` at arity `n` to a method
      returning its own receiver class (a `return this`-style method). */
  predicate ReturnsReceiver(reg: ClassRegistry, name: string, n: nat)
  {
    (name, n) in reg.uniqueInstanceMethods
    && reg.uniqueInstanceMethods[(name, n)].returnTypeHandle == Some(reg.uniqueInstanceMethods[(name, n)].receiverType)
  }

  /** The loop state: instructions, temp storages, proven receiver types
      and the indices to remove. */
  datatype MemberState = MemberState(
    instrs: seq<Instr>,
    storages: seq<ValueStorage>,
    known: map<int, nat>,
    remove: set<int>)

  /** One iteration of the rewrite loop at instruction `i`. */
  function MemberStep(st: MemberState, builds: map<int, BuildInfo>, reg: ClassRegistry, i: nat): (r: MemberState)
    requires i < |st.instrs|
    ensures |r.instrs| == |st.instrs| && |r.storages| == |st.storages|
  {
    match SiteAt(st.instrs, builds, i)
    case None => st
    case Some(site) =>
      if (site.methodName, |site.arguments|) !in reg.uniqueInstanceMethods then st
      else
        var m := reg.uniqueInstanceMethods[(site.methodName, |site.arguments|)];
        var rm := if site.buildArrayDefIndex >= 0 then st.remove + {site.buildArrayDefIndex} else st.remove;
        if Proven(st.known, site.receiver, m.receiverType) then
          if m.returnTypeHandle == Some(m.receiverType) && site.result >= 0 then
            MemberState(st.instrs[i := TypedCall(site, m)],
                        SetStorage(st.storages, site.result, TypedReference(m.receiverType)),
                        st.known[site.result := m.receiverType], rm)
          else MemberState(st.instrs[i := TypedCall(site, m)], st.storages, st.known, rm)
        else MemberState(st.instrs[i := FallbackCall(site, m)], st.storages, st.known, rm)
  }

  /** The loop state after the first `n` iterations. */
  function MemberUpTo(start: MemberState, builds: map<int, BuildInfo>, reg: ClassRegistry, n: nat): (r: MemberState)
    requires n <= |start.instrs|
    ensures |r.instrs| == |start.instrs| && |r.storages| == |start.storages|
  {
    if n == 0 then start else MemberStep(MemberUpTo(start, builds, reg, n - 1), builds, reg, n - 1)
  }

  function MemberStart(s: Body, reg: ClassRegistry): MemberState
  {
    MemberState(s.instrs, s.tempStorages, ProvenTypes(s.instrs, reg, |s.instrs|), {})
  }

  /** The state after the whole rewrite loop, before compaction. */
  function Rewritten(s: Body, reg: ClassRegistry): MemberState
  {
    MemberUpTo(MemberStart(s, reg), BuildsBefore(s.instrs, |s.instrs|), reg, |s.instrs|)
  }

  /** `Normalize` with a class registry. */
  function MemberCalls(s: Body, reg: ClassRegistry): Body
  {
    var f := Rewritten(s, reg);
    s.(instrs := Kept(f.instrs, f.remove, |f.instrs|), tempStorages := f.storages)
  }

  // ---------------------------------------------------------------------
  // What the loop does to each instruction.

  /** `b` is `a` with some instructions replaced by instructions that read
      no temp in the allocator's tables. */
  predicate Shrinks(a: seq<Instr>, b: seq<Instr>)
  {
    |a| == |b| && forall k :: 0 <= k < |a| ==> b[k] == a[k] || Uses(b[k]) == []
  }

  lemma ShrinksKeepsUnused(a: seq<Instr>, b: seq<Instr>, t: Temp, ignore: set<int>)
    requires Shrinks(a, b) && !UsedOutside(a, t, ignore)
    ensures !UsedOutside(b, t, ignore)
  {
    forall k | 0 <= k < |b| && k !in ignore
      ensures t !in Uses(b[k])
    {
      assert t !in Uses(a[k]);
    }
  }

  /** The instruction a step leaves at `i`, named by its own site and
      resolved method. */
  predicate RewrittenAt(st: MemberState, builds: map<int, BuildInfo>, reg: ClassRegistry, i: nat, x: Instr)
    requires i < |st.instrs|
  {
    && SiteAt(st.instrs, builds, i).Some?
    && var site := SiteAt(st.instrs, builds, i).value;
    && (site.methodName, |site.arguments|) in reg.uniqueInstanceMethods
    && var m := reg.uniqueInstanceMethods[(site.methodName, |site.arguments|)];
    && (x == TypedCall(site, m) || x == FallbackCall(site, m))
    && (x.CallTypedMember? <==> Proven(st.known, site.receiver, m.receiverType))
  }

  /** A step replaces at most instruction `i`, a member call, with a call
      that reads no temp in the allocator's tables, and only adds
      removals. */
  lemma StepFrame(st: MemberState, builds: map<int, BuildInfo>, reg: ClassRegistry, i: nat)
    requires i < |st.instrs|
    ensures var next := MemberStep(st, builds, reg, i);
      && (forall k :: 0 <= k < |st.instrs| && k != i ==> next.instrs[k] == st.instrs[k])
      && Shrinks(st.instrs, next.instrs)
      && st.remove <= next.remove
      && (next.instrs[i] != st.instrs[i] ==> st.instrs[i].CallMember? || st.instrs[i].CallMemberN?)
  {
    StepOthers(st, builds, reg, i);
    StepShrinks(st, builds, reg, i);
    StepRemoveGrows(st, builds, reg, i);
    StepChangesCall(st, builds, reg, i);
  }

  lemma StepOthers(st: MemberState, builds: map<int, BuildInfo>, reg: ClassRegistry, i: nat)
    requires i < |st.instrs|
    ensures forall k :: 0 <= k < |st.instrs| && k != i ==> MemberStep(st, builds, reg, i).instrs[k] == st.instrs[k]
  {
  }

  lemma StepShrinks(st: MemberState, builds: map<int, BuildInfo>, reg: ClassRegistry, i: nat)
    requires i < |st.instrs|
    ensures Shrinks(st.instrs, MemberStep(st, builds, reg, i).instrs)
  {
    var next := MemberStep(st, builds, reg, i);
    if next.instrs[i] != st.instrs[i] {
      var site := SiteAt(st.instrs, builds, i).value;
      var m := reg.uniqueInstanceMethods[(site.methodName, |site.arguments|)];
      assert next.instrs[i] == TypedCall(site, m) || next.instrs[i] == FallbackCall(site, m);
    }
  }

  lemma StepRemoveGrows(st: MemberState, builds: map<int, BuildInfo>, reg: ClassRegistry, i: nat)
    requires i < |st.instrs|
    ensures st.remove <= MemberStep(st, builds, reg, i).remove
  {
  }

  lemma StepChangesCall(st: MemberState, builds: map<int, BuildInfo>, reg: ClassRegistry, i: nat)
    requires i < |st.instrs|
    ensures MemberStep(st, builds, reg, i).instrs[i] != st.instrs[i] ==> st.instrs[i].CallMember? || st.instrs[i].CallMemberN?
  {
  }

  /** A step changes instruction `i` exactly when it is a site whose
      method the registry resolves, and then as `RewrittenAt` says. */
  lemma StepOutcome(st: MemberState, builds: map<int, BuildInfo>, reg: ClassRegistry, i: nat)
    requires i < |st.instrs|
    ensures MemberStep(st, builds, reg, i).instrs[i] != st.instrs[i] <==> RewrittenAt(st, builds, reg, i, MemberStep(st, builds, reg, i).instrs[i])
    ensures RewrittenAt(st, builds, reg, i, MemberStep(st, builds, reg, i).instrs[i]) || MemberStep(st, builds, reg, i) == st
  {
  }

  lemma UpToSucc(start: MemberState, builds: map<int, BuildInfo>, reg: ClassRegistry, j: nat)
    requires j < |start.instrs|
    ensures MemberUpTo(start, builds, reg, j + 1) == MemberStep(MemberUpTo(start, builds, reg, j), builds, reg, j)
  {
  }

  /** A changed instruction is a rewrite of its site. */
  lemma StepRewrites(st: MemberState, builds: map<int, BuildInfo>, reg: ClassRegistry, i: nat, x: Instr)
    requires i < |st.instrs| && x == MemberStep(st, builds, reg, i).instrs[i] && x != st.instrs[i]
    ensures RewrittenAt(st, builds, reg, i, x)
  {
  }

  /** After `n` iterations the unvisited instructions are untouched. */
  lemma {:induction false} UpToUnvisited(start: MemberState, builds: map<int, BuildInfo>, reg: ClassRegistry, n: nat)
    requires n <= |start.instrs|
    ensures forall j :: n <= j < |start.instrs| ==> MemberUpTo(start, builds, reg, n).instrs[j] == start.instrs[j]
  {
    if n > 0 {
      UpToUnvisited(start, builds, reg, n - 1);
      var prev := MemberUpTo(start, builds, reg, n - 1);
      StepOthers(prev, builds, reg, n - 1);
      assert MemberUpTo(start, builds, reg, n) == MemberStep(prev, builds, reg, n - 1);
    }
  }

  /** Only member calls are ever replaced. */
  lemma UpToOnlyCalls(start: MemberState, builds: map<int, BuildInfo>, reg: ClassRegistry, n: nat)
    requires n <= |start.instrs|
    ensures forall j :: 0 <= j < |start.instrs| && !start.instrs[j].CallMember? && !start.instrs[j].CallMemberN? ==>
              MemberUpTo(start, builds, reg, n).instrs[j] == start.instrs[j]
  {
    forall j | 0 <= j < |start.instrs| && !start.instrs[j].CallMember? && !start.instrs[j].CallMemberN?
      ensures MemberUpTo(start, builds, reg, n).instrs[j] == start.instrs[j]
    {
      OnlyCallsAt(start, builds, reg, n, j);
    }
  }

  lemma OnlyCallsAt(start: MemberState, builds: map<int, BuildInfo>, reg: ClassRegistry, n: nat, j: nat)
    requires n <= |start.instrs| && j < |start.instrs|
    requires !start.instrs[j].CallMember? && !start.instrs[j].CallMemberN?
    ensures MemberUpTo(start, builds, reg, n).instrs[j] == start.instrs[j]
  {
    if j < n {
      UpToFrame(start, builds, reg, n);
      UpToUnvisited(start, builds, reg, j);
      UpToSucc(start, builds, reg, j);
      StepChangesCall(MemberUpTo(start, builds, reg, j), builds, reg, j);
    } else {
      UpToUnvisited(start, builds, reg, n);
    }
  }

  /** Every visited instruction keeps what its own iteration left. */
  lemma {:induction false} UpToFrame(start: MemberState, builds: map<int, BuildInfo>, reg: ClassRegistry, n: nat)
    requires n <= |start.instrs|
    ensures forall j :: 0 <= j < n ==> MemberUpTo(start, builds, reg, n).instrs[j] == MemberUpTo(start, builds, reg, j + 1).instrs[j]
  {
    if n > 0 {
      UpToFrame(start, builds, reg, n - 1);
      var prev := MemberUpTo(start, builds, reg, n - 1);
      StepOthers(prev, builds, reg, n - 1);
      assert MemberUpTo(start, builds, reg, n) == MemberStep(prev, builds, reg, n - 1);
    }
  }

  /** The list only shrinks against any earlier state, and removals only
      accumulate. */
  lemma UpToShrinks(start: MemberState, builds: map<int, BuildInfo>, reg: ClassRegistry, m: nat, n: nat)
    requires m <= n <= |start.instrs|
    ensures Shrinks(MemberUpTo(start, builds, reg, m).instrs, MemberUpTo(start, builds, reg, n).instrs)
    ensures MemberUpTo(start, builds, reg, m).remove <= MemberUpTo(start, builds, reg, n).remove
  {
    forall k | 0 <= k < |start.instrs|
      ensures var b := MemberUpTo(start, builds, reg, n).instrs[k];
        b == MemberUpTo(start, builds, reg, m).instrs[k] || Uses(b) == []
    {
      ShrinksAt(start, builds, reg, m, n, k);
    }
    UpToRemoveGrows(start, builds, reg, m, n);
  }

  lemma ShrinksAt(start: MemberState, builds: map<int, BuildInfo>, reg: ClassRegistry, m: nat, n: nat, k: nat)
    requires m <= n <= |start.instrs| && k < |start.instrs|
    ensures var b := MemberUpTo(start, builds, reg, n).instrs[k];
      b == MemberUpTo(start, builds, reg, m).instrs[k] || Uses(b) == []
  {
    if k < m {
      UpToFrame(start, builds, reg, m);
      UpToFrame(start, builds, reg, n);
    } else if k < n {
      UpToUnvisited(start, builds, reg, m);
      UpToUnvisited(start, builds, reg, k);
      UpToFrame(start, builds, reg, n);
      UpToSucc(start, builds, reg, k);
      StepShrinks(MemberUpTo(start, builds, reg, k), builds, reg, k);
    } else {
      UpToUnvisited(start, builds, reg, m);
      UpToUnvisited(start, builds, reg, n);
    }
  }

  lemma {:induction false} UpToRemoveGrows(start: MemberState, builds: map<int, BuildInfo>, reg: ClassRegistry, m: nat, n: nat)
    requires m <= n <= |start.instrs|
    ensures MemberUpTo(start, builds, reg, m).remove <= MemberUpTo(start, builds, reg, n).remove
  {
    if m < n {
      UpToRemoveGrows(start, builds, reg, m, n - 1);
      var prev := MemberUpTo(start, builds, reg, n - 1);
      StepRemoveGrows(prev, builds, reg, n - 1);
      assert MemberUpTo(start, builds, reg, n) == MemberStep(prev, builds, reg, n - 1);
    }
  }

  /** The instruction at `j` before its own iteration is the original. */
  lemma VisitSeesOriginal(start: MemberState, builds: map<int, BuildInfo>, reg: ClassRegistry, j: nat)
    requires j < |start.instrs|
    ensures MemberUpTo(start, builds, reg, j).instrs[j] == start.instrs[j]
    ensures Shrinks(start.instrs, MemberUpTo(start, builds, reg, j).instrs)
  {
    UpToUnvisited(start, builds, reg, j);
    UpToShrinks(start, builds, reg, 0, j);
  }

  /** The proven-type table at the iteration for instruction `j`. */
  function KnownAt(s: Body, reg: ClassRegistry, j: nat): map<int, nat>
    requires j <= |s.instrs|
  {
    MemberUpTo(MemberStart(s, reg), BuildsBefore(s.instrs, |s.instrs|), reg, j).known
  }

  /** An instruction the loop replaced: the original was a fixed-arity
      member call of at most three arguments, or an array-based one whose
      array has a `BuildArray` that is marked for removal and that nothing
      else in the rewritten list reads; the registry resolves its name and
      arity; and the new call keeps receiver, name, arguments and result,
      names the resolved class and method, and has no fallback exactly
      when the receiver's class was proven to be the resolved class. */
  predicate SoundRewrite(orig: Instr, x: Instr, builds: map<int, BuildInfo>, reg: ClassRegistry,
                         fin: seq<Instr>, remove: set<int>, known: map<int, nat>)
  {
    SoundShape(orig, x) && SoundArguments(orig, x, builds, fin, remove) && SoundTarget(orig, x, reg, known)
  }

  /** The kinds of call before and after, and what the new call keeps. */
  predicate SoundShape(orig: Instr, x: Instr)
  {
    && (orig.CallMember? || (orig.CallMemberN? && |orig.args| <= 3))
    && (x.CallTypedMember? || x.CallTypedMemberWithFallback?)
    && x.receiver == orig.receiver && x.result == orig.result
    && (x.CallTypedMemberWithFallback? ==> x.methodName == orig.methodName)
  }

  /** Where the arguments come from, and what becomes of the array. */
  predicate SoundArguments(orig: Instr, x: Instr, builds: map<int, BuildInfo>, fin: seq<Instr>, remove: set<int>)
    requires x.CallTypedMember? || x.CallTypedMemberWithFallback?
  {
    && (orig.CallMemberN? ==> x.arguments == orig.args)
    && (orig.CallMember? ==>
          && orig.argumentsArray >= 0 && orig.argumentsArray in builds
          && x.arguments == builds[orig.argumentsArray].elements
          && builds[orig.argumentsArray].defIndex in remove
          && !UsedOutside(fin, orig.argumentsArray, {builds[orig.argumentsArray].defIndex}))
  }

  /** The resolved method the new call names. */
  predicate SoundTarget(orig: Instr, x: Instr, reg: ClassRegistry, known: map<int, nat>)
    requires x.CallTypedMember? || x.CallTypedMemberWithFallback?
    requires orig.CallMember? || orig.CallMemberN?
  {
    && (orig.methodName, |x.arguments|) in reg.uniqueInstanceMethods
    && var m := reg.uniqueInstanceMethods[(orig.methodName, |x.arguments|)];
    && x.receiverType == m.receiverType && x.methodHandle == m.methodHandle
    && x.hasScopesParameter == m.hasScopesParameter && x.returnClrType == m.returnClrType
    && x.maxParamCount == m.maxParamCount
    && (x.CallTypedMember? <==> Proven(known, x.receiver, m.receiverType))
  }

  /** A rewrite stays sound however later iterations shrink the list and
      add removals. */
  lemma StepSound(st: MemberState, builds: map<int, BuildInfo>, reg: ClassRegistry, j: nat, orig: Instr, x: Instr,
                  fin: seq<Instr>, next: MemberState, remove: set<int>, known: map<int, nat>)
    requires j < |st.instrs| && |fin| == |st.instrs| && orig == st.instrs[j] && x == fin[j] && known == st.known
    requires RewrittenAt(st, builds, reg, j, fin[j])
    requires Shrinks(st.instrs, fin) && next == MemberStep(st, builds, reg, j) && next.remove <= remove
    requires forall k :: k in builds ==> builds[k].defIndex >= 0
    ensures SoundRewrite(orig, x, builds, reg, fin, remove, known)
  {
    var site := SiteAt(st.instrs, builds, j).value;
    var m := reg.uniqueInstanceMethods[(site.methodName, |site.arguments|)];
    assert x == TypedCall(site, m) || x == FallbackCall(site, m);
    assert Uses(x) == [];
    if st.instrs[j].CallMember? {
      var a := st.instrs[j].argumentsArray;
      var d := builds[a].defIndex;
      ShrinksKeepsUnused(st.instrs, fin, a, {d, j});
      assert d in next.remove;
    }
  }

  lemma UpToSound(start: MemberState, builds: map<int, BuildInfo>, reg: ClassRegistry, j: nat)
    requires j < |start.instrs|
    requires forall k :: k in builds ==> builds[k].defIndex >= 0
    requires MemberUpTo(start, builds, reg, |start.instrs|).instrs[j] != start.instrs[j]
    ensures var f := MemberUpTo(start, builds, reg, |start.instrs|);
      SoundRewrite(start.instrs[j], f.instrs[j], builds, reg, f.instrs, f.remove, MemberUpTo(start, builds, reg, j).known)
  {
    var st := MemberUpTo(start, builds, reg, j);
    var next := MemberUpTo(start, builds, reg, j + 1);
    var f := MemberUpTo(start, builds, reg, |start.instrs|);
    assert next.remove <= f.remove by {
      UpToShrinks(start, builds, reg, j + 1, |start.instrs|);
    }
    assert Shrinks(st.instrs, f.instrs) by {
      UpToShrinks(start, builds, reg, j, |start.instrs|);
    }
    assert st.instrs[j] == start.instrs[j] by {
      VisitSeesOriginal(start, builds, reg, j);
    }
    assert f.instrs[j] == next.instrs[j] by {
      UpToFrame(start, builds, reg, |start.instrs|);
    }
    assert next == MemberStep(st, builds, reg, j) by {
      UpToSucc(start, builds, reg, j);
    }
    SoundFrom(st, next, f, builds, reg, j, start.instrs[j]);
  }

  /** A rewrite at `j`, kept in a later state that only shrank the list and
      added removals, is sound. */
  lemma SoundFrom(st: MemberState, next: MemberState, f: MemberState, builds: map<int, BuildInfo>, reg: ClassRegistry,
                  j: nat, orig: Instr)
    requires j < |st.instrs| && |f.instrs| == |st.instrs|
    requires next == MemberStep(st, builds, reg, j)
    requires st.instrs[j] == orig && f.instrs[j] == next.instrs[j] && f.instrs[j] != orig
    requires Shrinks(st.instrs, f.instrs) && next.remove <= f.remove
    requires forall k :: k in builds ==> builds[k].defIndex >= 0
    ensures SoundRewrite(orig, f.instrs[j], builds, reg, f.instrs, f.remove, st.known)
  {
    StepRewrites(st, builds, reg, j, f.instrs[j]);
    StepSound(st, builds, reg, j, orig, f.instrs[j], f.instrs, next, f.remove, st.known);
  }

  lemma SoundAt(s: Body, reg: ClassRegistry, j: nat)
    requires j < |s.instrs| && Rewritten(s, reg).instrs[j] != s.instrs[j]
    ensures SoundRewrite(s.instrs[j], Rewritten(s, reg).instrs[j], BuildsBefore(s.instrs, |s.instrs|), reg,
                         Rewritten(s, reg).instrs, Rewritten(s, reg).remove, KnownAt(s, reg, j))
  {
    BuildsNamed(s.instrs);
    UpToSound(MemberStart(s, reg), BuildsBefore(s.instrs, |s.instrs|), reg, j);
  }

  /** What a replaced instruction becomes. */
  lemma MemberCallRewriteSound(s: Body, reg: ClassRegistry)
    ensures forall j :: 0 <= j < |s.instrs| && Rewritten(s, reg).instrs[j] != s.instrs[j] ==>
      SoundRewrite(s.instrs[j], Rewritten(s, reg).instrs[j], BuildsBefore(s.instrs, |s.instrs|), reg,
                   Rewritten(s, reg).instrs, Rewritten(s, reg).remove, KnownAt(s, reg, j))
  {
    forall j | 0 <= j < |s.instrs| && Rewritten(s, reg).instrs[j] != s.instrs[j]
      ensures SoundRewrite(s.instrs[j], Rewritten(s, reg).instrs[j], BuildsBefore(s.instrs, |s.instrs|), reg,
                           Rewritten(s, reg).instrs, Rewritten(s, reg).remove, KnownAt(s, reg, j))
    {
      SoundAt(s, reg, j);
    }
  }

  /** Instruction `j` is a member call the pass can normalise: a
      fixed-arity call of at most three arguments, or an array-based call
      whose array has a `BuildArray` and is read by nothing but that build
      and the call, and the registry resolves its name at its arity. */
  predicate Normalisable(instrs: seq<Instr>, builds: map<int, BuildInfo>, reg: ClassRegistry, j: nat)
    requires j < |instrs|
  {
    || (instrs[j].CallMemberN? && |instrs[j].args| <= 3
        && (instrs[j].methodName, |instrs[j].args|) in reg.uniqueInstanceMethods)
    || (instrs[j].CallMember? && instrs[j].argumentsArray >= 0 && instrs[j].argumentsArray in builds
        && !UsedOutside(instrs, instrs[j].argumentsArray, {builds[instrs[j].argumentsArray].defIndex, j})
        && (instrs[j].methodName, |builds[instrs[j].argumentsArray].elements|) in reg.uniqueInstanceMethods)
  }

  /** Every normalisable member call is replaced by an early-bound call. */
  lemma MemberCallRewriteComplete(s: Body, reg: ClassRegistry)
    ensures forall j :: 0 <= j < |s.instrs| && Normalisable(s.instrs, BuildsBefore(s.instrs, |s.instrs|), reg, j) ==>
      Rewritten(s, reg).instrs[j].CallTypedMember? || Rewritten(s, reg).instrs[j].CallTypedMemberWithFallback?
  {
    forall j | 0 <= j < |s.instrs| && Normalisable(s.instrs, BuildsBefore(s.instrs, |s.instrs|), reg, j)
      ensures Rewritten(s, reg).instrs[j].CallTypedMember? || Rewritten(s, reg).instrs[j].CallTypedMemberWithFallback?
    {
      CompleteAt(s, reg, j);
    }
  }

  lemma CompleteAt(s: Body, reg: ClassRegistry, j: nat)
    requires j < |s.instrs| && Normalisable(s.instrs, BuildsBefore(s.instrs, |s.instrs|), reg, j)
    ensures Rewritten(s, reg).instrs[j].CallTypedMember? || Rewritten(s, reg).instrs[j].CallTypedMemberWithFallback?
  {
    var start := MemberStart(s, reg);
    var builds := BuildsBefore(s.instrs, |s.instrs|);
    var st := MemberUpTo(start, builds, reg, j);
    VisitSeesOriginal(start, builds, reg, j);
    NormalisableSite(s.instrs, st.instrs, builds, reg, j);
    StepMakesTypedCall(st, builds, reg, j);
    UpToSucc(start, builds, reg, j);
    UpToFrame(start, builds, reg, |s.instrs|);
  }

  /** A normalisable call, still in place in a list that only shrank, is a
      call site the registry resolves. */
  lemma NormalisableSite(orig: seq<Instr>, cur: seq<Instr>, builds: map<int, BuildInfo>, reg: ClassRegistry, j: nat)
    requires j < |orig| && Normalisable(orig, builds, reg, j)
    requires Shrinks(orig, cur) && cur[j] == orig[j]
    ensures SiteAt(cur, builds, j).Some?
    ensures (SiteAt(cur, builds, j).value.methodName, |SiteAt(cur, builds, j).value.arguments|) in reg.uniqueInstanceMethods
  {
    if orig[j].CallMember? {
      var a := orig[j].argumentsArray;
      ShrinksKeepsUnused(orig, cur, a, {builds[a].defIndex, j});
    }
  }

  /** A resolved call site is replaced by an early-bound call. */
  lemma StepMakesTypedCall(st: MemberState, builds: map<int, BuildInfo>, reg: ClassRegistry, j: nat)
    requires j < |st.instrs| && SiteAt(st.instrs, builds, j).Some?
    requires (SiteAt(st.instrs, builds, j).value.methodName, |SiteAt(st.instrs, builds, j).value.arguments|) in reg.uniqueInstanceMethods
    ensures MemberStep(st, builds, reg, j).instrs[j].CallTypedMember? || MemberStep(st, builds, reg, j).instrs[j].CallTypedMemberWithFallback?
  {
  }

  // ---------------------------------------------------------------------
  // Proven types along the loop.

  /** `x`, which replaced the member call `orig`, is an early-bound call
      without fallback writing `k`, resolved to a method that returns its
      own receiver class `h`. */
  predicate TypedResult(orig: Instr, x: Instr, reg: ClassRegistry, k: Temp, h: nat)
  {
    && (orig.CallMember? || orig.CallMemberN?)
    && x.CallTypedMember? && x.result == k && k >= 0 && x.receiverType == h
    && ReturnsReceiver(reg, orig.methodName, |x.arguments|)
  }

  /** A step proves a new type only for the result of a typed call
      returning its receiver class, and then gives that result the typed
      storage. */
  lemma StepTypes(st: MemberState, builds: map<int, BuildInfo>, reg: ClassRegistry, i: nat)
    requires i < |st.instrs|
    ensures var next := MemberStep(st, builds, reg, i);
      var x := next.instrs[i];
      || (next.known == st.known && next.storages == st.storages)
      || (&& x.CallTypedMember? && TypedResult(st.instrs[i], x, reg, x.result, x.receiverType)
          && next.known == st.known[x.result := x.receiverType]
          && next.storages == SetStorage(st.storages, x.result, TypedReference(x.receiverType)))
  {
  }

  /** The instruction iteration `i` leaves at `i`. */
  function Visited(start: MemberState, builds: map<int, BuildInfo>, reg: ClassRegistry, i: nat): Instr
    requires i < |start.instrs|
  {
    MemberUpTo(start, builds, reg, i + 1).instrs[i]
  }

  /** Every entry of `known` was seeded before the loop or comes from one
      of the first `n` iterations, a typed call returning its receiver class. */
  predicate KnownSourced(start: MemberState, builds: map<int, BuildInfo>, reg: ClassRegistry, n: nat, known: map<int, nat>)
    requires n <= |start.instrs|
  {
    forall k :: k in known ==>
      || (k in start.known && known[k] == start.known[k])
      || exists i :: 0 <= i < n && TypedResult(start.instrs[i], Visited(start, builds, reg, i), reg, k, known[k])
  }

  /** An iteration keeps the table or adds one entry from its own typed call. */
  lemma KnownSourcedStep(start: MemberState, builds: map<int, BuildInfo>, reg: ClassRegistry, n: nat,
                         known: map<int, nat>, next: map<int, nat>, x: Instr)
    requires 0 < n <= |start.instrs|
    requires KnownSourced(start, builds, reg, n - 1, known)
    requires x == Visited(start, builds, reg, n - 1)
    requires next == known || (x.CallTypedMember? && TypedResult(start.instrs[n - 1], x, reg, x.result, x.receiverType) && next == known[x.result := x.receiverType])
    ensures KnownSourced(start, builds, reg, n, next)
  {
  }

  /** Every proven type in the loop state was seeded before the loop or
      comes from an earlier typed call returning its receiver class. */
  lemma {:induction false} UpToKnown(start: MemberState, builds: map<int, BuildInfo>, reg: ClassRegistry, n: nat)
    requires n <= |start.instrs|
    ensures KnownSourced(start, builds, reg, n, MemberUpTo(start, builds, reg, n).known)
  {
    if n > 0 {
      var i := n - 1;
      UpToKnown(start, builds, reg, i);
      var st := MemberUpTo(start, builds, reg, i);
      var next := MemberUpTo(start, builds, reg, n);
      assert st.instrs[i] == start.instrs[i] by {
        UpToUnvisited(start, builds, reg, i);
      }
      assert next == MemberStep(st, builds, reg, i);
      StepTypes(st, builds, reg, i);
      assert i + 1 == n;
      KnownSourcedStep(start, builds, reg, n, st.known, next.known, next.instrs[i]);
    }
  }

  /** Temp storages change only at the results of typed calls returning
      their receiver class, which become typed references to that class. */
  lemma {:induction false} UpToStorages(start: MemberState, builds: map<int, BuildInfo>, reg: ClassRegistry, n: nat)
    requires n <= |start.instrs|
    ensures forall t :: 0 <= t < |start.storages| ==>
      || MemberUpTo(start, builds, reg, n).storages[t] == start.storages[t]
      || exists i :: 0 <= i < n && MemberUpTo(start, builds, reg, i + 1).instrs[i].CallTypedMember?
           && TypedResult(start.instrs[i], MemberUpTo(start, builds, reg, i + 1).instrs[i], reg, t, MemberUpTo(start, builds, reg, i + 1).instrs[i].receiverType)
           && MemberUpTo(start, builds, reg, n).storages[t] == TypedReference(MemberUpTo(start, builds, reg, i + 1).instrs[i].receiverType)
  {
    if n > 0 {
      var st := MemberUpTo(start, builds, reg, n - 1);
      var next := MemberUpTo(start, builds, reg, n);
      assert st.instrs[n - 1] == start.instrs[n - 1] by {
        UpToUnvisited(start, builds, reg, n - 1);
      }
      UpToStorages(start, builds, reg, n - 1);
      StepTypes(st, builds, reg, n - 1);
    }
  }

  /** A receiver type the loop relies on at the call `j` was seeded before
      the loop (by `new`, a typed field load or a copy), or is the result
      of an earlier typed call whose method returns its receiver class. */
  lemma ProvenReceiversHaveASource(s: Body, reg: ClassRegistry, j: nat)
    requires j <= |s.instrs|
    ensures forall k :: k in KnownAt(s, reg, j) ==>
      || (k in ProvenTypes(s.instrs, reg, |s.instrs|) && KnownAt(s, reg, j)[k] == ProvenTypes(s.instrs, reg, |s.instrs|)[k])
      || exists i :: 0 <= i < j && TypedResult(s.instrs[i], Rewritten(s, reg).instrs[i], reg, k, KnownAt(s, reg, j)[k])
  {
    var start := MemberStart(s, reg);
    var builds := BuildsBefore(s.instrs, |s.instrs|);
    UpToKnown(start, builds, reg, j);
    UpToFrame(start, builds, reg, |s.instrs|);
  }

  /** The result of a typed call whose method returns its receiver class
      is proven to hold that class for every later call. */
  lemma ChainedResultIsProven(s: Body, reg: ClassRegistry, i: nat)
    requires i < |s.instrs| && Rewritten(s, reg).instrs[i] != s.instrs[i]
    requires Rewritten(s, reg).instrs[i].CallTypedMember?
    requires TypedResult(s.instrs[i], Rewritten(s, reg).instrs[i], reg, Rewritten(s, reg).instrs[i].result, Rewritten(s, reg).instrs[i].receiverType)
    ensures Proven(KnownAt(s, reg, i + 1), Rewritten(s, reg).instrs[i].result, Rewritten(s, reg).instrs[i].receiverType)
  {
    var start := MemberStart(s, reg);
    var builds := BuildsBefore(s.instrs, |s.instrs|);
    var st := MemberUpTo(start, builds, reg, i);
    var next := MemberUpTo(start, builds, reg, i + 1);
    var f := Rewritten(s, reg);
    assert f.instrs[i] == next.instrs[i] by {
      UpToFrame(start, builds, reg, |s.instrs|);
    }
    assert st.instrs[i] == s.instrs[i] by {
      VisitSeesOriginal(start, builds, reg, i);
    }
    assert next == MemberStep(st, builds, reg, i) by {
      UpToSucc(start, builds, reg, i);
    }
    StepRewrites(st, builds, reg, i, f.instrs[i]);
  }

  /** The rewrite changes a temp storage only at the result of a typed
      call whose method returns its receiver class, and makes it a typed
      reference to that class. */
  lemma StoragesOnlyForChainedResults(s: Body, reg: ClassRegistry)
    ensures |Rewritten(s, reg).storages| == |s.tempStorages|
    ensures forall t :: 0 <= t < |s.tempStorages| ==>
      || Rewritten(s, reg).storages[t] == s.tempStorages[t]
      || exists i :: 0 <= i < |s.instrs| && Rewritten(s, reg).instrs[i].CallTypedMember?
           && TypedResult(s.instrs[i], Rewritten(s, reg).instrs[i], reg, t, Rewritten(s, reg).instrs[i].receiverType)
           && Rewritten(s, reg).storages[t] == TypedReference(Rewritten(s, reg).instrs[i].receiverType)
  {
    var start := MemberStart(s, reg);
    var builds := BuildsBefore(s.instrs, |s.instrs|);
    UpToStorages(start, builds, reg, |s.instrs|);
    UpToFrame(start, builds, reg, |s.instrs|);
  }

  // ---------------------------------------------------------------------
  // Removals and compaction.

  /** Every index marked for removal is an untouched `BuildArray` whose
      array feeds a rewritten array-based call, and no other instruction
      reads that array any more. */
  predicate DeadBuilds(orig: seq<Instr>, cur: seq<Instr>, remove: set<int>)
    requires |cur| == |orig|
  {
    forall d :: d in remove ==>
      && 0 <= d < |orig| && orig[d].BuildArray? && cur[d] == orig[d]
      && (exists j :: 0 <= j < |orig| && orig[j].CallMember? && orig[j].argumentsArray == orig[d].result && cur[j] != orig[j])
      && !UsedOutside(cur, orig[d].result, {d})
  }

  lemma StepKeepsDeadBuilds(orig: seq<Instr>, builds: map<int, BuildInfo>, reg: ClassRegistry, st: MemberState, i: nat)
    requires NamesBuilds(orig, builds) && |st.instrs| == |orig| && i < |orig| && st.instrs[i] == orig[i]
    requires forall k :: 0 <= k < |orig| && !orig[k].CallMember? && !orig[k].CallMemberN? ==> st.instrs[k] == orig[k]
    requires DeadBuilds(orig, st.instrs, st.remove)
    ensures DeadBuilds(orig, MemberStep(st, builds, reg, i).instrs, MemberStep(st, builds, reg, i).remove)
  {
    var next := MemberStep(st, builds, reg, i);
    StepFrame(st, builds, reg, i);
    forall d | d in next.remove
      ensures && 0 <= d < |orig| && orig[d].BuildArray? && next.instrs[d] == orig[d]
              && (exists j :: 0 <= j < |orig| && orig[j].CallMember? && orig[j].argumentsArray == orig[d].result && next.instrs[j] != orig[j])
              && !UsedOutside(next.instrs, orig[d].result, {d})
    {
      if d in st.remove {
        var j :| 0 <= j < |orig| && orig[j].CallMember? && orig[j].argumentsArray == orig[d].result && st.instrs[j] != orig[j];
        assert j != i;
        ShrinksKeepsUnused(st.instrs, next.instrs, orig[d].result, {d});
      } else {
        var site := SiteAt(st.instrs, builds, i).value;
        var m := reg.uniqueInstanceMethods[(site.methodName, |site.arguments|)];
        var a := orig[i].argumentsArray;
        assert orig[i].CallMember? && d == builds[a].defIndex;
        assert orig[d] == BuildArray(builds[a].elements, a);
        assert next.instrs[i] == TypedCall(site, m) || next.instrs[i] == FallbackCall(site, m);
        ShrinksKeepsUnused(st.instrs, next.instrs, a, {d, i});
        assert !UsedOutside(next.instrs, a, {d});
      }
    }
  }

  lemma {:induction false} UpToDeadBuilds(start: MemberState, builds: map<int, BuildInfo>, reg: ClassRegistry, n: nat)
    requires n <= |start.instrs| && NamesBuilds(start.instrs, builds) && start.remove == {}
    ensures DeadBuilds(start.instrs, MemberUpTo(start, builds, reg, n).instrs, MemberUpTo(start, builds, reg, n).remove)
  {
    if n > 0 {
      UpToDeadBuilds(start, builds, reg, n - 1);
      var st := MemberUpTo(start, builds, reg, n - 1);
      assert st.instrs[n - 1] == start.instrs[n - 1] by {
        UpToUnvisited(start, builds, reg, n - 1);
      }
      assert forall k :: 0 <= k < |start.instrs| && !start.instrs[k].CallMember? && !start.instrs[k].CallMemberN? ==> st.instrs[k] == start.instrs[k] by {
        UpToOnlyCalls(start, builds, reg, n - 1);
      }
      StepKeepsDeadBuilds(start.instrs, builds, reg, st, n - 1);
    }
  }

  /** Only the `BuildArray`s of rewritten array-based calls are removed,
      and nothing left in the rewritten list reads their arrays. */
  lemma MemberCallRemovesOnlyRewrittenBuilds(s: Body, reg: ClassRegistry)
    ensures DeadBuilds(s.instrs, Rewritten(s, reg).instrs, Rewritten(s, reg).remove)
  {
    BuildsNamed(s.instrs);
    UpToDeadBuilds(MemberStart(s, reg), BuildsBefore(s.instrs, |s.instrs|), reg, |s.instrs|);
  }

  /** The compaction keeps every other instruction, in order, and with
      nothing to remove the rewritten list is kept as it is. */
  lemma MemberCallsKeepOrder(s: Body, reg: ClassRegistry)
    ensures var f := Rewritten(s, reg);
      var r := MemberCalls(s, reg).instrs;
      && |r| == KeptBefore(f.remove, |s.instrs|)
      && (forall i :: 0 <= i < |s.instrs| && i !in f.remove ==> KeptBefore(f.remove, i) < |r| && r[KeptBefore(f.remove, i)] == f.instrs[i])
      && (forall i, j :: 0 <= i < j < |s.instrs| && i !in f.remove && j !in f.remove ==> KeptBefore(f.remove, i) < KeptBefore(f.remove, j))
      && (f.remove == {} ==> r == f.instrs)
  {
    var f := Rewritten(s, reg);
    forall i | 0 <= i < |s.instrs| && i !in f.remove
      ensures KeptBefore(f.remove, i) < |MemberCalls(s, reg).instrs| && MemberCalls(s, reg).instrs[KeptBefore(f.remove, i)] == f.instrs[i]
    {
      KeptPlacement(f.instrs, f.remove, |f.instrs|, i);
    }
    forall i, j | 0 <= i < j < |s.instrs| && i !in f.remove && j !in f.remove
      ensures KeptBefore(f.remove, i) < KeptBefore(f.remove, j)
    {
      KeptBeforeMonotone(f.remove, i, j);
    }
    if f.remove == {} {
      KeptNothingRemoved(f.instrs, |f.instrs|);
    }
  }

  // ---------------------------------------------------------------------
  // The pass on a method body.

  /** One iteration of the rewrite loop of `Normalize`. */
  method RewriteMemberCall(body: MethodBody, builds: map<int, BuildInfo>, reg: ClassRegistry,
                           known: map<int, nat>, indicesToRemove: set<int>, i: nat)
    returns (known': map<int, nat>, indicesToRemove': set<int>)
    requires i < |body.instructions|
    modifies body
    ensures MemberState(body.instructions, body.tempStorages, known', indicesToRemove')
         == MemberStep(MemberState(old(body.instructions), old(body.tempStorages), known, indicesToRemove), builds, reg, i)
    ensures body.tempCount == old(body.tempCount) && body.tempVariableSlots == old(body.tempVariableSlots)
    ensures body.variableNames == old(body.variableNames) && body.variableStorages == old(body.variableStorages)
  {
    known', indicesToRemove' := known, indicesToRemove;
    var site := TryGetMemberCallSite(body.instructions, builds, i);
    if site.None? {
      return;
    }
    var call := site.value;
    var argCount := |call.arguments|;
    if (call.methodName, argCount) !in reg.uniqueInstanceMethods {
      return;
    }
    var m := reg.uniqueInstanceMethods[(call.methodName, argCount)];
    var resultIsReceiverType := m.returnTypeHandle.Some? && m.returnTypeHandle.value == m.receiverType;
    if call.receiver >= 0 && call.receiver in known' && known'[call.receiver] == m.receiverType {
      body.instructions := body.instructions[i := CallTypedMember(
        call.receiver, m.receiverType, m.methodHandle, m.hasScopesParameter,
        m.returnClrType, m.maxParamCount, call.arguments, call.result)];
      if resultIsReceiverType && call.result >= 0 {
        known' := known'[call.result := m.receiverType];
        if call.result < |body.tempStorages| {
          body.tempStorages := body.tempStorages[call.result := ValueStorage(Reference, Some(ObjectType), "", Some(m.receiverType))];
        }
      }
      if call.buildArrayDefIndex >= 0 {
        indicesToRemove' := indicesToRemove' + {call.buildArrayDefIndex};
      }
      return;
    }
    body.instructions := body.instructions[i := CallTypedMemberWithFallback(
      call.receiver, call.methodName, m.receiverType, m.methodHandle, m.hasScopesParameter,
      m.returnClrType, m.maxParamCount, call.arguments, call.result)];
    if call.buildArrayDefIndex >= 0 {
      indicesToRemove' := indicesToRemove' + {call.buildArrayDefIndex};
    }
  }

  /** `Normalize`: nothing without a class registry; otherwise the
      rewrite loop followed by one compaction. */
  method Normalize(body: MethodBody, classRegistry: Option<ClassRegistry>)
    modifies body
    ensures classRegistry.None? ==> StateOf(body) == old(StateOf(body))
    ensures classRegistry.Some? ==> StateOf(body) == MemberCalls(old(StateOf(body)), classRegistry.value)
    ensures body.variableNames == old(body.variableNames) && body.variableStorages == old(body.variableStorages)
  {
    if classRegistry.None? {
      return;
    }
    var reg := classRegistry.value;
    ghost var s0 := StateOf(body);
    var buildArrays := ScanBuildArrays(body.instructions);
    var known := ScanProvenTypes(body.instructions, reg);
    ghost var start := MemberState(s0.instrs, s0.tempStorages, known, {});
    assert start == MemberStart(s0, reg);
    var indicesToRemove: set<int> := {};
    for i := 0 to |body.instructions|
      invariant |body.instructions| == |s0.instrs|
      invariant MemberState(body.instructions, body.tempStorages, known, indicesToRemove) == MemberUpTo(start, buildArrays, reg, i)
      invariant body.tempCount == s0.tempCount && body.tempVariableSlots == s0.tvs
      invariant body.variableNames == old(body.variableNames) && body.variableStorages == old(body.variableStorages)
    {
      known, indicesToRemove := RewriteMemberCall(body, buildArrays, reg, known, indicesToRemove, i);
    }
    RemoveIndices(body, indicesToRemove);
  }
}
