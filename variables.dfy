/** The per-method variable context of the code generator: one `Variables`
    object maps the identifiers of one generated CLR method to where they
    live (a field of a scope object, an IL argument, a field of a parent
    scope reachable through the `scopes` array), tracks the active block
    scopes innermost first, and counts the local slots holding scope
    instances.

    The scope registry is not part of this model; its two lookups are an
    oracle: `fieldHandles` answers `GetFieldHandle(scope, name)` (absent keys
    are the `KeyNotFoundException` path) and `firstMatch` answers the
    registry-wide `FindVariable(name)` with whichever entry the registry
    finds first. */
module VariableBindings {
  import opened JsValues

  /** The two values of a variable's type slot that the resolver assigns. */
  datatype JavascriptType = Unknown | Object

  /** The three variable records, with the fields the resolver fills. */
  datatype Variable =
    | LocalVariable(name: string, scopeName: string, fieldHandle: nat, jsType: JavascriptType)
    | ParameterVariable(name: string, parameterIndex: int, jsType: JavascriptType)
    | ScopeVariable(name: string, scopeName: string, parentScopeIndex: int, fieldHandle: nat, jsType: JavascriptType)

  datatype ObjectReferenceLocation = Local | Parameter | ScopeArray

  datatype ScopeObjectReference = ScopeObjectReference(location: ObjectReferenceLocation, address: int)

  const NotAvailable := ScopeObjectReference(Local, -1)

  datatype VariableInfo = VariableInfo(scopeName: string, fieldHandle: nat)

  datatype Registry = Registry(fieldHandles: map<(string, string), nat>, firstMatch: map<string, VariableInfo>)

  // ---------------------------------------------------------------------
  // Parameters and parent scopes

  /** The IL argument index of each parameter name: argument 0 is the
      scopes array, so the k-th name gets k + 1 unless an earlier
      occurrence already claimed the name. */
  function ParameterIndices(names: seq<string>): map<string, int>
    decreases |names|
  {
    if |names| == 0 then map[]
    else
      var m := ParameterIndices(names[..|names| - 1]);
      if names[|names| - 1] in m then m else m[names[|names| - 1] := |names|]
  }

  /** Exactly the parameter names are mapped. */
  lemma {:induction false} ParameterIndicesKeys(names: seq<string>)
    ensures forall p :: p in ParameterIndices(names) <==> p in names
    decreases |names|
  {
    if |names| > 0 {
      var init := names[..|names| - 1];
      ParameterIndicesKeys(init);
      assert names == init + [names[|names| - 1]];
    }
  }

  /** Each parameter name maps to the position after its first occurrence. */
  lemma {:induction false} ParameterIndicesFirstWins(names: seq<string>)
    ensures forall k :: 0 <= k < |names| && names[k] !in names[..k] ==>
      names[k] in ParameterIndices(names) && ParameterIndices(names)[names[k]] == k + 1
    decreases |names|
  {
    ParameterIndicesKeys(names);
    if |names| > 0 {
      var init := names[..|names| - 1];
      ParameterIndicesFirstWins(init);
      ParameterIndicesKeys(init);
      forall k | 0 <= k < |names| && names[k] !in names[..k]
        ensures names[k] in ParameterIndices(names) && ParameterIndices(names)[names[k]] == k + 1
      {
        assert names[k] in names;
        if k < |names| - 1 {
          assert init[k] == names[k] && init[..k] == names[..k];
          assert names[k] in ParameterIndices(init);
        } else {
          assert names[..k] == init;
        }
      }
    }
  }

  /** Duplicate parameter names do not shift later indices: every mapped
      index is a real argument position. */
  lemma {:induction false} ParameterIndicesInRange(names: seq<string>)
    ensures forall p :: p in ParameterIndices(names) ==> 1 <= ParameterIndices(names)[p] <= |names|
    decreases |names|
  {
    if |names| > 0 {
      ParameterIndicesInRange(names[..|names| - 1]);
    }
  }

  /** The parent scopes a function receives in its `scopes` argument: the
      global scope always at index 0, and for a nested function whose parent
      is not the global scope, that parent at index 1. */
  function ParentScopeIndices(globalScopeName: string, parentScopeName: string, isNestedFunction: bool): (r: map<string, int>)
    ensures globalScopeName in r && r[globalScopeName] == 0
    ensures isNestedFunction && parentScopeName != globalScopeName ==> parentScopeName in r && r[parentScopeName] == 1
    ensures forall s :: s in r ==> s == globalScopeName || (isNestedFunction && s == parentScopeName)
    ensures forall s :: s in r ==> 0 <= r[s] < |r|
  {
    var m := map[globalScopeName := 0];
    if isNestedFunction && parentScopeName != globalScopeName then m[parentScopeName := 1] else m
  }

  // ---------------------------------------------------------------------
  // The lexical scope stack (innermost first)

  /** Pushing ignores an empty scope name. */
  function Pushed(stack: seq<string>, scopeName: string): seq<string>
  {
    if scopeName == "" then stack else [scopeName] + stack
  }

  /** The stack without its innermost occurrence of `n`. */
  function RemoveFirst<T(==)>(stack: seq<T>, n: T): seq<T>
  {
    if |stack| == 0 then []
    else if stack[0] == n then stack[1..]
    else [stack[0]] + RemoveFirst(stack[1..], n)
  }

  /** Popping removes the top entry when it is `n` and otherwise drains and
      refills the stack without the innermost occurrence of `n`. */
  function Popped<T(==)>(stack: seq<T>, n: T): seq<T>
  {
    if |stack| == 0 then stack
    else if stack[0] == n then stack[1..]
    else RemoveFirst(stack, n)
  }

  function Reversed<T>(s: seq<T>): (r: seq<T>)
    ensures |r| == |s|
  {
    if |s| == 0 then [] else Reversed(s[1..]) + [s[0]]
  }

  lemma {:induction false} RemoveFirstAt<T>(stack: seq<T>, n: T, k: nat)
    requires k < |stack| && stack[k] == n
    requires forall j :: 0 <= j < k ==> stack[j] != n
    ensures RemoveFirst(stack, n) == stack[..k] + stack[k + 1..]
  {
    if k > 0 {
      var tail := stack[1..];
      assert forall j :: 0 <= j < k - 1 ==> tail[j] == stack[j + 1];
      RemoveFirstAt(tail, n, k - 1);
      assert tail[..k - 1] == stack[1..k] && tail[k..] == stack[k + 1..];
      assert [stack[0]] + stack[1..k] == stack[..k];
    }
  }

  lemma {:induction false} RemoveFirstAbsent<T>(stack: seq<T>, n: T)
    requires n !in stack
    ensures RemoveFirst(stack, n) == stack
  {
    if |stack| > 0 {
      RemoveFirstAbsent(stack[1..], n);
    }
  }

  /** Removing the innermost occurrence keeps every other entry in order,
      and is the identity when `n` is absent. */
  lemma RemoveFirstSpec<T>(stack: seq<T>, n: T)
    ensures n !in stack ==> RemoveFirst(stack, n) == stack
    ensures forall k :: 0 <= k < |stack| && stack[k] == n && n !in stack[..k] ==>
      RemoveFirst(stack, n) == stack[..k] + stack[k + 1..]
  {
    if n !in stack {
      RemoveFirstAbsent(stack, n);
    }
    forall k | 0 <= k < |stack| && stack[k] == n && n !in stack[..k]
      ensures RemoveFirst(stack, n) == stack[..k] + stack[k + 1..]
    {
      assert forall j :: 0 <= j < k ==> stack[..k][j] == stack[j];
      RemoveFirstAt(stack, n, k);
    }
  }

  /** Popping `n` removes exactly its innermost occurrence: the top entry
      when that is `n`, the first one further down otherwise, and nothing
      when `n` is not on the stack. */
  lemma PoppedRemovesInnermost<T>(stack: seq<T>, n: T)
    ensures n !in stack ==> Popped(stack, n) == stack
    ensures forall k :: 0 <= k < |stack| && stack[k] == n && n !in stack[..k] ==>
      Popped(stack, n) == stack[..k] + stack[k + 1..]
  {
    RemoveFirstSpec(stack, n);
    if |stack| > 0 && stack[0] == n {
      assert stack[..0] + stack[1..] == stack[1..];
    }
  }

  /** A push followed by the matching pop restores the stack. */
  lemma PushThenPop(stack: seq<string>, n: string)
    requires n != ""
    ensures Popped(Pushed(stack, n), n) == stack
  {
  }

  /** Popping never introduces a name and never grows the stack. */
  lemma {:induction false} PoppedShrinks<T>(stack: seq<T>, n: T)
    ensures forall s :: s in Popped(stack, n) ==> s in stack
    ensures |Popped(stack, n)| == if n in stack then |stack| - 1 else |stack|
  {
    RemoveFirstShrinks(stack, n);
  }

  lemma {:induction false} RemoveFirstShrinks<T>(stack: seq<T>, n: T)
    ensures forall s :: s in RemoveFirst(stack, n) ==> s in stack
    ensures |RemoveFirst(stack, n)| == if n in stack then |stack| - 1 else |stack|
  {
    if |stack| > 0 {
      RemoveFirstShrinks(stack[1..], n);
      assert n in stack <==> stack[0] == n || n in stack[1..];
    }
  }

  // ---------------------------------------------------------------------
  // Local slot counting

  /** The number of locals holding scope instances: the function's own
      scope when it has one, plus every registered extra scope except the
      current one. */
  function LocalCount(hasLocalScope: bool, created: map<string, int>, current: string): nat
  {
    (if hasLocalScope then 1 else 0) + |created.Keys - {current}|
  }

  /** Registering an extra local ignores an empty scope name and otherwise
      (re)binds it. */
  function Registered(created: map<string, int>, scopeName: string, index: int): map<string, int>
  {
    if scopeName == "" then created else created[scopeName := index]
  }

  /** Allocating a block-scope local at `index`, the count before the
      call, increases the count by exactly one when the name is fresh (not
      empty, not the current scope, not already registered), and leaves it
      unchanged otherwise. */
  lemma AllocateCounts(hasLocalScope: bool, created: map<string, int>, current: string, n: string, index: int)
    requires index == LocalCount(hasLocalScope, created, current)
    ensures LocalCount(hasLocalScope, Registered(created - {current}, n, index), current)
      == index + (if n != "" && n != current && n !in created then 1 else 0)
  {
    if n != "" && n != current {
      KeysAfterRebind(created, current, n, index);
    } else {
      assert (created - {current}).Keys == created.Keys - {current};
    }
  }

  lemma KeysAfterRebind<K, V>(m: map<K, V>, c: K, n: K, v: V)
    requires n != c
    ensures |(m - {c})[n := v].Keys - {c}| == |m.Keys - {c}| + (if n in m then 0 else 1)
  {
    assert (m - {c})[n := v].Keys - {c} == (m.Keys - {c}) + {n};
    CardAddOne(m.Keys - {c}, n);
  }

  lemma CardAddOne<K>(a: set<K>, n: K)
    ensures |a + {n}| == |a| + (if n in a then 0 else 1)
  {
    if n in a {
      assert a + {n} == a;
    }
  }

  /** The extra locals occupy distinct slots at or above the base local and
      below the local count. */
  ghost predicate DistinctSlots(hasLocalScope: bool, created: map<string, int>, current: string)
  {
    && (forall s :: s in created && s != current ==>
          (if hasLocalScope then 1 else 0) <= created[s] < LocalCount(hasLocalScope, created, current))
    && (forall s, t :: s in created && t in created && s != current && t != current && s != t ==> created[s] != created[t])
  }

  /** Allocating at `index` for a name that holds no extra local yet hands
      out a slot no other scope holds, and keeps the slots distinct. */
  lemma AllocateKeepsSlotsDistinct(hasLocalScope: bool, created: map<string, int>, current: string, n: string, index: int)
    requires DistinctSlots(hasLocalScope, created, current)
    requires index == LocalCount(hasLocalScope, created, current)
    requires n == current || n !in created
    ensures forall s :: s in created && s != current ==> created[s] != index
    ensures DistinctSlots(hasLocalScope, Registered(created - {current}, n, index), current)
  {
    AllocateCounts(hasLocalScope, created, current, n, index);
    var r := Registered(created - {current}, n, index);
    SlotsInRange(hasLocalScope, created, current, n, index, r, LocalCount(hasLocalScope, r, current));
    SlotsApart(created, current, n, index, r);
  }

  lemma SlotsInRange(hasLocalScope: bool, created: map<string, int>, current: string, n: string, index: int,
                     r: map<string, int>, count: int)
    requires forall s :: s in created && s != current ==> (if hasLocalScope then 1 else 0) <= created[s] < index
    requires (if hasLocalScope then 1 else 0) <= index <= count
    requires n != "" && n != current ==> index < count
    requires r == Registered(created - {current}, n, index)
    ensures forall s :: s in r && s != current ==> (if hasLocalScope then 1 else 0) <= r[s] < count
  {
    forall s | s in r && s != current
      ensures (if hasLocalScope then 1 else 0) <= r[s] < count
    {
      if s != n {
        assert r[s] == created[s];
      }
    }
  }

  lemma SlotsApart(created: map<string, int>, current: string, n: string, index: int, r: map<string, int>)
    requires forall s :: s in created && s != current ==> created[s] != index
    requires forall s, t :: s in created && t in created && s != current && t != current && s != t ==> created[s] != created[t]
    requires r == Registered(created - {current}, n, index)
    ensures forall s, t :: s in r && t in r && s != current && t != current && s != t ==> r[s] != r[t]
  {
    forall s, t | s in r && t in r && s != current && t != current && s != t
      ensures r[s] != r[t]
    {
      if s != n && t != n {
        assert r[s] == created[s] && r[t] == created[t];
      }
    }
  }

  // ---------------------------------------------------------------------
  // The per-method context

  /** No name appears twice. */
  predicate NoRepeats(s: seq<string>)
  {
    forall i, j :: 0 <= i < j < |s| ==> s[i] != s[j]
  }

  class Variables {
    const registry: Registry
    const scopeName: string
    const globalScopeName: string
    /** Parameter name to IL argument index. */
    const parameterIndices: map<string, int>
    /** Parent scope name to index in the `scopes` argument. */
    const parentScopeIndices: map<string, int>

    /** Resolved variables outside the block scopes, by name. */
    var cache: map<string, Variable>
    /** Whether the function's own scope instance lives in local 0. */
    var hasLocalScope: bool
    /** Extra scope locals registered by name. */
    var createdLocalScopes: map<string, int>
    /** Active block scope names, innermost first. */
    var lexicalStack: seq<string>

    /** No empty name is ever on the block scope stack. */
    ghost predicate Valid()
      reads this
    {
      "" !in lexicalStack
    }

    /** The context of the global scope, which always has its scope
        instance in local 0. */
    constructor Global(registry: Registry, scopeName: string)
      ensures Valid()
      ensures this.registry == registry && this.scopeName == scopeName && globalScopeName == scopeName
      ensures hasLocalScope && parameterIndices == map[] && parentScopeIndices == map[]
      ensures cache == map[] && createdLocalScopes == map[] && lexicalStack == []
    {
      this.registry := registry;
      this.scopeName := scopeName;
      globalScopeName := scopeName;
      parameterIndices := map[];
      parentScopeIndices := map[];
      cache := map[];
      hasLocalScope := true;
      createdLocalScopes := map[];
      lexicalStack := [];
    }

    /** The context of a function (or a block with its own scope) under
        `parent`; the two-argument overload is this with
        `isNestedFunction` true. */
    constructor Nested(parent: Variables, scopeName: string, parameterNames: seq<string>, isNestedFunction: bool)
      ensures Valid()
      ensures registry == parent.registry && this.scopeName == scopeName && globalScopeName == parent.globalScopeName
      ensures parameterIndices == ParameterIndices(parameterNames)
      ensures parentScopeIndices == ParentScopeIndices(parent.globalScopeName, parent.scopeName, isNestedFunction)
      ensures !hasLocalScope && cache == map[] && createdLocalScopes == map[] && lexicalStack == []
    {
      var indices: map<string, int> := map[];
      var i := 1;
      var k := 0;
      while k < |parameterNames|
        invariant 0 <= k <= |parameterNames| && i == k + 1
        invariant indices == ParameterIndices(parameterNames[..k])
      {
        var p := parameterNames[k];
        assert parameterNames[..k + 1][..k] == parameterNames[..k];
        if p !in indices {
          indices := indices[p := i];
        }
        i := i + 1;
        k := k + 1;
      }
      assert parameterNames[..k] == parameterNames;
      var parents := map[parent.globalScopeName := 0];
      if isNestedFunction && parent.scopeName != parent.globalScopeName {
        parents := parents[parent.scopeName := 1];
      }
      registry := parent.registry;
      this.scopeName := scopeName;
      globalScopeName := parent.globalScopeName;
      parameterIndices := indices;
      parentScopeIndices := parents;
      cache := map[];
      hasLocalScope := false;
      createdLocalScopes := map[];
      lexicalStack := [];
    }

    // -------------------------------------------------------------------
    // Resolution

    /** The innermost active block scope whose scope type declares `name`,
        as a local variable of that scope. */
    function LexicalHit(stack: seq<string>, name: string): Option<Variable>
    {
      if |stack| == 0 then None
      else if (stack[0], name) in registry.fieldHandles then
        Some(LocalVariable(name, stack[0], registry.fieldHandles[(stack[0], name)], Unknown))
      else LexicalHit(stack[1..], name)
    }

    /** A local variable in the current function's scope, when that scope
        declares `name`. */
    function CurrentScopeField(name: string): Option<Variable>
    {
      if (scopeName, name) in registry.fieldHandles then
        Some(LocalVariable(name, scopeName, registry.fieldHandles[(scopeName, name)], Unknown))
      else None
    }

    /** What `FindVariable(name)` returns, and the cache it leaves, given
        the block scope stack and the cache it starts from. */
    function Resolve(stack: seq<string>, cache: map<string, Variable>, name: string): (Option<Variable>, map<string, Variable>)
    {
      if name == "" then (None, cache)
      else if LexicalHit(stack, name).Some? then (LexicalHit(stack, name), cache)
      else if name in cache then (Some(cache[name]), cache)
      else if name in parameterIndices then
        var v := if CurrentScopeField(name).Some? then CurrentScopeField(name).value
                 else ParameterVariable(name, parameterIndices[name], Object);
        (Some(v), cache[name := v])
      else if CurrentScopeField(name).Some? then (CurrentScopeField(name), cache[name := CurrentScopeField(name).value])
      else if name !in registry.firstMatch then (None, cache)
      else
        var info := registry.firstMatch[name];
        if info.scopeName in parentScopeIndices then
          var v := ScopeVariable(name, info.scopeName, parentScopeIndices[info.scopeName], info.fieldHandle, Unknown);
          (Some(v), cache[name := v])
        else if info.scopeName == scopeName then
          var v := LocalVariable(name, info.scopeName, info.fieldHandle, Unknown);
          (Some(v), cache[name := v])
        else (None, cache)
    }

    lemma {:induction false} LexicalHitInnermost(stack: seq<string>, name: string, k: nat)
      requires k < |stack| && (stack[k], name) in registry.fieldHandles
      requires forall j :: 0 <= j < k ==> (stack[j], name) !in registry.fieldHandles
      ensures LexicalHit(stack, name) == Some(LocalVariable(name, stack[k], registry.fieldHandles[(stack[k], name)], Unknown))
    {
      if k > 0 {
        var tail := stack[1..];
        forall j | 0 <= j < k - 1
          ensures (tail[j], name) !in registry.fieldHandles
        {
          assert tail[j] == stack[j + 1];
        }
        LexicalHitInnermost(tail, name, k - 1);
      }
    }

    lemma {:induction false} LexicalMiss(stack: seq<string>, name: string)
      requires forall j :: 0 <= j < |stack| ==> (stack[j], name) !in registry.fieldHandles
      ensures LexicalHit(stack, name) == None
    {
      if |stack| > 0 {
        var tail := stack[1..];
        forall j | 0 <= j < |tail|
          ensures (tail[j], name) !in registry.fieldHandles
        {
          assert tail[j] == stack[j + 1];
        }
        LexicalMiss(tail, name);
      }
    }

    /** The innermost active block scope declaring `name` shadows every
        outer binding, including a cached one, and the hit is not cached. */
    lemma FindsInnermostBlockBinding(stack: seq<string>, cache: map<string, Variable>, name: string, k: nat)
      requires name != "" && k < |stack| && (stack[k], name) in registry.fieldHandles
      requires forall j :: 0 <= j < k ==> (stack[j], name) !in registry.fieldHandles
      ensures Resolve(stack, cache, name)
        == (Some(LocalVariable(name, stack[k], registry.fieldHandles[(stack[k], name)], Unknown)), cache)
    {
      LexicalHitInnermost(stack, name, k);
    }

    /** Only resolutions outside the block scopes are cached, and a cached
        entry is the variable that was returned. */
    lemma CachesOnlyOutsideBlocks(stack: seq<string>, cache: map<string, Variable>, name: string)
      ensures var r := Resolve(stack, cache, name);
        r.1 == cache || (LexicalHit(stack, name).None? && name !in cache && r.0.Some? && r.1 == cache[name := r.0.value])
    {
    }

    /** Asking twice gives the same variable and leaves the cache as the
        first call left it. */
    lemma ResolveIdempotent(stack: seq<string>, cache: map<string, Variable>, name: string)
      ensures Resolve(stack, Resolve(stack, cache, name).1, name) == Resolve(stack, cache, name)
    {
    }

    /** Pushing a block scope, resolving a name inside it and popping the
        scope again restores the stack, and the name then resolves as it
        did before the block: a block's binding never outlives the block. */
    lemma PopRestoresOuterBinding(stack: seq<string>, cache: map<string, Variable>, block: string, name: string)
      requires block != ""
      ensures Popped(Pushed(stack, block), block) == stack
      ensures Resolve(stack, Resolve(Pushed(stack, block), cache, name).1, name).0 == Resolve(stack, cache, name).0
    {
      PushThenPop(stack, block);
      var inner := Pushed(stack, block);
      if name != "" && (block, name) !in registry.fieldHandles {
        assert inner[1..] == stack;
        assert LexicalHit(inner, name) == LexicalHit(stack, name);
        ResolveIdempotent(stack, cache, name);
      }
    }

    /** Resolves `name`: block scopes innermost first (not cached), then the
        cache, then parameters, the current scope, and finally the registry,
        whose hit is reachable only through a parent scope index or in the
        current scope. */
    method FindVariable(name: string) returns (v: Option<Variable>)
      modifies this
      ensures (v, cache) == Resolve(old(lexicalStack), old(cache), name)
      ensures lexicalStack == old(lexicalStack) && hasLocalScope == old(hasLocalScope)
      ensures createdLocalScopes == old(createdLocalScopes)
    {
      if name == "" {
        return None;
      }
      var k := 0;
      while k < |lexicalStack|
        invariant 0 <= k <= |lexicalStack|
        invariant forall j :: 0 <= j < k ==> (lexicalStack[j], name) !in registry.fieldHandles
      {
        var s := lexicalStack[k];
        if (s, name) in registry.fieldHandles {
          LexicalHitInnermost(lexicalStack, name, k);
          v := Some(LocalVariable(name, s, registry.fieldHandles[(s, name)], Unknown));
          return;
        }
        k := k + 1;
      }
      LexicalMiss(lexicalStack, name);
      if name in cache {
        return Some(cache[name]);
      }
      if name in parameterIndices {
        if (scopeName, name) in registry.fieldHandles {
          var local := LocalVariable(name, scopeName, registry.fieldHandles[(scopeName, name)], Unknown);
          cache := cache[name := local];
          return Some(local);
        }
        var p := ParameterVariable(name, parameterIndices[name], Object);
        cache := cache[name := p];
        return Some(p);
      }
      if (scopeName, name) in registry.fieldHandles {
        var direct := LocalVariable(name, scopeName, registry.fieldHandles[(scopeName, name)], Unknown);
        cache := cache[name := direct];
        return Some(direct);
      }
      if name !in registry.firstMatch {
        return None;
      }
      var info := registry.firstMatch[name];
      if info.scopeName in parentScopeIndices {
        var sv := ScopeVariable(name, info.scopeName, parentScopeIndices[info.scopeName], info.fieldHandle, Unknown);
        cache := cache[name := sv];
        return Some(sv);
      }
      if info.scopeName == scopeName {
        var lv := LocalVariable(name, info.scopeName, info.fieldHandle, Unknown);
        cache := cache[name := lv];
        return Some(lv);
      }
      return None;
    }

    // -------------------------------------------------------------------
    // Scope slots

    /** Where a scope instance can be loaded from: local 0 for the current
        scope (when it has one), a registered extra local, an index of the
        `scopes` argument, or nowhere (address -1). */
    function GetScopeLocalSlot(name: string): (r: ScopeObjectReference)
      reads this
      ensures r.location == ScopeArray <==>
        name != "" && name != scopeName && name !in createdLocalScopes && name in parentScopeIndices
      ensures r.location == ScopeArray ==> r.address == parentScopeIndices[name]
      ensures name != "" && name != scopeName && name in createdLocalScopes ==> r == ScopeObjectReference(Local, createdLocalScopes[name])
      ensures r.location != Parameter
    {
      if name == "" then NotAvailable
      else if name == scopeName then ScopeObjectReference(Local, if hasLocalScope then 0 else -1)
      else if name in createdLocalScopes then ScopeObjectReference(Local, createdLocalScopes[name])
      else if name in parentScopeIndices then ScopeObjectReference(ScopeArray, parentScopeIndices[name])
      else NotAvailable
    }

    /** The current function's own scope slot. */
    function GetLocalScopeSlot(): (r: ScopeObjectReference)
      reads this
      ensures r == GetScopeLocalSlot(scopeName) || scopeName == ""
      ensures r.location == Local && (r.address == 0 <==> hasLocalScope)
    {
      ScopeObjectReference(Local, if hasLocalScope then 0 else -1)
    }

    /** Creating an instance is possible only for the current scope, which
        then lives in local 0 without being registered as an extra local, so
        it is counted once. */
    method CreateScopeInstance(name: string) returns (r: ScopeObjectReference)
      modifies this
      ensures r == (if name == scopeName then ScopeObjectReference(Local, 0) else NotAvailable)
      ensures hasLocalScope == (old(hasLocalScope) || name == scopeName)
      ensures createdLocalScopes == old(createdLocalScopes) && lexicalStack == old(lexicalStack) && cache == old(cache)
      ensures name == scopeName ==> LocalCount(hasLocalScope, createdLocalScopes, scopeName) == 1 + |createdLocalScopes.Keys - {scopeName}|
    {
      if name == scopeName {
        hasLocalScope := true;
        return ScopeObjectReference(Local, 0);
      }
      return NotAvailable;
    }

    /** The scope names this method knows about, without repeats: the
        global scope, the current scope, then the parent scopes, then the
        extra scope locals that are no parent scope. */
    method GetAllScopeNames() returns (r: seq<string>)
      ensures NoRepeats(r)
      ensures forall s :: s in r <==>
        s == globalScopeName || s == scopeName || s in parentScopeIndices || s in createdLocalScopes
      ensures |r| >= 1 && r[0] == globalScopeName
      ensures scopeName != globalScopeName ==> |r| >= 2 && r[1] == scopeName
      ensures forall i, j :: 0 <= i < j < |r| && r[j] in parentScopeIndices ==>
        r[i] == globalScopeName || r[i] == scopeName || r[i] in parentScopeIndices
    {
      r := [globalScopeName];
      if scopeName != globalScopeName {
        r := r + [scopeName];
      }
      var parents := parentScopeIndices.Keys;
      while parents != {}
        invariant parents <= parentScopeIndices.Keys
        invariant NoRepeats(r)
        invariant |r| >= 1 && r[0] == globalScopeName
        invariant scopeName != globalScopeName ==> |r| >= 2 && r[1] == scopeName
        invariant forall s :: s in r <==>
          s == globalScopeName || s == scopeName || (s in parentScopeIndices && s !in parents)
        decreases |parents|
      {
        var k :| k in parents;
        if k !in r {
          r := r + [k];
        }
        parents := parents - {k};
      }
      var created := createdLocalScopes.Keys;
      while created != {}
        invariant created <= createdLocalScopes.Keys
        invariant NoRepeats(r)
        invariant |r| >= 1 && r[0] == globalScopeName
        invariant scopeName != globalScopeName ==> |r| >= 2 && r[1] == scopeName
        invariant forall s :: s in r <==>
          s == globalScopeName || s == scopeName || s in parentScopeIndices || (s in createdLocalScopes && s !in created)
        invariant forall i, j :: 0 <= i < j < |r| && r[j] in parentScopeIndices ==>
          r[i] == globalScopeName || r[i] == scopeName || r[i] in parentScopeIndices
        decreases |created|
      {
        var k :| k in created;
        if k !in r {
          r := r + [k];
        }
        created := created - {k};
      }
    }

    predicate IsCurrentFunctionScope(name: string)
    {
      name == scopeName
    }

    function GetLeafScopeName(): string
    {
      scopeName
    }

    /** Counts the scope locals, first dropping a stale registration of the
        current scope. */
    method GetNumberOfLocals() returns (count: nat)
      modifies this
      ensures count == LocalCount(old(hasLocalScope), old(createdLocalScopes), scopeName)
      ensures createdLocalScopes == old(createdLocalScopes) - {scopeName}
      ensures hasLocalScope == old(hasLocalScope) && lexicalStack == old(lexicalStack) && cache == old(cache)
    {
      count := if hasLocalScope then 1 else 0;
      if scopeName in createdLocalScopes {
        createdLocalScopes := createdLocalScopes - {scopeName};
      }
      assert createdLocalScopes.Keys == old(createdLocalScopes).Keys - {scopeName};
      count := count + |createdLocalScopes|;
    }

    method RegisterAdditionalLocalScope(name: string, localIndex: int)
      modifies this
      ensures createdLocalScopes == Registered(old(createdLocalScopes), name, localIndex)
      ensures hasLocalScope == old(hasLocalScope) && lexicalStack == old(lexicalStack) && cache == old(cache)
    {
      if name == "" {
        return;
      }
      createdLocalScopes := createdLocalScopes[name := localIndex];
    }

    /** Gives a block scope the next local slot: the number of scope locals
        before the call. */
    method AllocateBlockScopeLocal(name: string) returns (index: nat)
      modifies this
      ensures index == LocalCount(old(hasLocalScope), old(createdLocalScopes), scopeName)
      ensures createdLocalScopes == Registered(old(createdLocalScopes) - {scopeName}, name, index)
      ensures LocalCount(hasLocalScope, createdLocalScopes, scopeName)
        == index + (if name != "" && name != scopeName && name !in old(createdLocalScopes) then 1 else 0)
      ensures name != "" && name != scopeName ==> GetScopeLocalSlot(name) == ScopeObjectReference(Local, index)
      ensures hasLocalScope == old(hasLocalScope) && lexicalStack == old(lexicalStack) && cache == old(cache)
    {
      index := GetNumberOfLocals();
      RegisterAdditionalLocalScope(name, index);
      AllocateCounts(old(hasLocalScope), old(createdLocalScopes), scopeName, name, index);
    }

    // -------------------------------------------------------------------
    // Block scopes

    method PushLexicalScope(name: string)
      requires Valid()
      modifies this
      ensures Valid()
      ensures lexicalStack == Pushed(old(lexicalStack), name)
      ensures hasLocalScope == old(hasLocalScope) && createdLocalScopes == old(createdLocalScopes) && cache == old(cache)
    {
      if name != "" {
        lexicalStack := [name] + lexicalStack;
      }
    }

    /** Pops `name`: the top entry when it matches, otherwise the stack is
        drained into a temporary stack, skipping the first match, and
        refilled. */
    method PopLexicalScope(name: string)
      requires Valid()
      modifies this
      ensures Valid()
      ensures lexicalStack == Popped(old(lexicalStack), name)
      ensures hasLocalScope == old(hasLocalScope) && createdLocalScopes == old(createdLocalScopes) && cache == old(cache)
    {
      PoppedShrinks(lexicalStack, name);
      if |lexicalStack| == 0 {
        return;
      }
      if lexicalStack[0] == name {
        lexicalStack := lexicalStack[1..];
        return;
      }
      var temp := DrainSkipping(name);
      Refill(temp);
    }

    /** Empties the stack into a temporary stack, top first, leaving out
        the first entry equal to `name`. */
    method DrainSkipping(name: string) returns (temp: seq<string>)
      modifies this
      ensures lexicalStack == [] && Reversed(temp) == RemoveFirst(old(lexicalStack), name)
      ensures hasLocalScope == old(hasLocalScope) && createdLocalScopes == old(createdLocalScopes) && cache == old(cache)
    {
      var target := RemoveFirst(lexicalStack, name);
      temp := [];
      var removed := false;
      while |lexicalStack| > 0
        invariant Reversed(temp) + (if removed then lexicalStack else RemoveFirst(lexicalStack, name)) == target
        invariant hasLocalScope == old(hasLocalScope) && createdLocalScopes == old(createdLocalScopes) && cache == old(cache)
        decreases |lexicalStack|
      {
        var s := lexicalStack[0];
        lexicalStack := lexicalStack[1..];
        if !removed && s == name {
          removed := true;
          continue;
        }
        temp := [s] + temp;
        assert Reversed(temp) == Reversed(temp[1..]) + [s];
      }
    }

    /** Pushes the temporary stack back, so that its bottom ends on top. */
    method Refill(temp: seq<string>)
      modifies this
      ensures lexicalStack == Reversed(temp) + old(lexicalStack)
      ensures hasLocalScope == old(hasLocalScope) && createdLocalScopes == old(createdLocalScopes) && cache == old(cache)
    {
      var rest := temp;
      while |rest| > 0
        invariant Reversed(rest) + lexicalStack == Reversed(temp) + old(lexicalStack)
        invariant hasLocalScope == old(hasLocalScope) && createdLocalScopes == old(createdLocalScopes) && cache == old(cache)
        decreases |rest|
      {
        assert Reversed(rest) == Reversed(rest[1..]) + [rest[0]];
        lexicalStack := [rest[0]] + lexicalStack;
        rest := rest[1..];
      }
    }
  }
}
