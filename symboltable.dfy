/** The symbol-table builder: the scope tree of a module, where each
    declaration is bound, which bindings closures capture, how function
    parameters (including destructured ones) are bound, and the two name
    normalisations the builder applies.

    The tree is an arena: scope `i` of `scopes` names its parent and its
    children by index, and a parent always comes before its children.  The
    `IsCaptured` flags of the bindings are kept as the set `captured` of
    (scope, name) pairs.  What the AST walk `CollectFreeVariables` finds in
    a scope's syntax is the scope's `freeReferences`: the identifiers it
    references that are neither declared inside it nor global intrinsics. */
module SymbolTable {
  import opened JsValues
  import Text

  datatype ScopeKind = GlobalScope | FunctionScope | BlockScope | ClassScope

  datatype BindingKind = Var | Let | Const | FunctionBinding | GlobalBinding

  datatype BindingInfo = BindingInfo(kind: BindingKind)

  datatype Scope = Scope(
    kind: ScopeKind,
    parent: Option<nat>,
    children: seq<nat>,
    bindings: map<string, BindingInfo>,
    parameters: seq<string>,
    destructuredParameters: seq<string>,
    referencesParentScopeVariables: bool,
    freeReferences: set<string>)

  ghost predicate ParentsBefore(scopes: seq<Scope>)
  {
    forall i :: 0 <= i < |scopes| && scopes[i].parent.Some? ==> scopes[i].parent.value < i
  }

  /** Parent and child links agree, and parents come first. */
  ghost predicate Tree(scopes: seq<Scope>)
  {
    && ParentsBefore(scopes)
    && (forall i :: 0 <= i < |scopes| && scopes[i].parent.Some? ==> i in scopes[scopes[i].parent.value].children)
    && (forall i, k :: 0 <= i < |scopes| && 0 <= k < |scopes[i].children| ==>
          i < scopes[i].children[k] < |scopes| && scopes[scopes[i].children[k]].parent == Some(i))
  }

  /** The strict ancestors of `s`, nearest first. */
  ghost function Ancestors(scopes: seq<Scope>, s: nat): (r: seq<nat>)
    requires ParentsBefore(scopes) && s < |scopes|
    ensures forall k :: 0 <= k < |r| ==> r[k] < s
    decreases s
  {
    match scopes[s].parent
    case None => []
    case Some(p) => [p] + Ancestors(scopes, p)
  }

  /** Each entry of the ancestor chain is the parent of the one before. */
  lemma {:induction false} AncestorsStep(scopes: seq<Scope>, s: nat, i: nat)
    requires ParentsBefore(scopes) && s < |scopes| && i < |Ancestors(scopes, s)|
    ensures scopes[Ancestors(scopes, s)[i]].parent ==
      (if i + 1 < |Ancestors(scopes, s)| then Some(Ancestors(scopes, s)[i + 1]) else None)
    decreases s
  {
    var p := scopes[s].parent.value;
    if i > 0 {
      AncestorsStep(scopes, p, i - 1);
    }
  }

  /** An ancestor's own ancestors are a suffix of the chain. */
  lemma {:induction false} AncestorsTransitive(scopes: seq<Scope>, c: nat, a: nat, s: nat)
    requires ParentsBefore(scopes) && c < |scopes|
    requires a in Ancestors(scopes, c) && s in Ancestors(scopes, a)
    ensures s in Ancestors(scopes, c)
    decreases c
  {
    var p := scopes[c].parent.value;
    if a != p {
      AncestorsTransitive(scopes, p, a, s);
    }
  }

  // ---------------------------------------------------------------------
  // Where a declaration is bound

  predicate HoistsVar(kind: ScopeKind)
  {
    kind == FunctionScope || kind == GlobalScope
  }

  function FirstHoistTarget(scopes: seq<Scope>, chain: seq<nat>): (r: Option<nat>)
    requires forall k :: 0 <= k < |chain| ==> chain[k] < |scopes|
    ensures r.Some? ==> r.value in chain
  {
    if |chain| == 0 then None
    else if HoistsVar(scopes[chain[0]].kind) then Some(chain[0])
    else FirstHoistTarget(scopes, chain[1..])
  }

  /** The scope a declaration of `kind` made in `current` is bound in. */
  ghost function DeclarationTarget(scopes: seq<Scope>, current: nat, kind: BindingKind): (r: nat)
    requires ParentsBefore(scopes) && current < |scopes|
    ensures r < |scopes|
  {
    if kind == Var && scopes[current].kind == BlockScope then
      match FirstHoistTarget(scopes, Ancestors(scopes, current))
      case Some(a) => a
      case None => current
    else current
  }

  lemma {:induction false} FirstHoistTargetSpec(scopes: seq<Scope>, chain: seq<nat>)
    requires forall k :: 0 <= k < |chain| ==> chain[k] < |scopes|
    ensures (forall k :: 0 <= k < |chain| ==> !HoistsVar(scopes[chain[k]].kind)) ==> FirstHoistTarget(scopes, chain) == None
    ensures forall k :: (0 <= k < |chain| && HoistsVar(scopes[chain[k]].kind)
      && (forall j :: 0 <= j < k ==> !HoistsVar(scopes[chain[j]].kind))) ==> FirstHoistTarget(scopes, chain) == Some(chain[k])
  {
    if |chain| > 0 {
      var tail := chain[1..];
      FirstHoistTargetSpec(scopes, tail);
      forall k | 0 <= k < |chain| && HoistsVar(scopes[chain[k]].kind)
        && (forall j :: 0 <= j < k ==> !HoistsVar(scopes[chain[j]].kind))
        ensures FirstHoistTarget(scopes, chain) == Some(chain[k])
      {
        if k > 0 {
          assert !HoistsVar(scopes[chain[0]].kind);
          assert tail[k - 1] == chain[k];
          assert forall j :: 0 <= j < k - 1 ==> tail[j] == chain[j + 1];
        }
      }
      if forall k :: 0 <= k < |chain| ==> !HoistsVar(scopes[chain[k]].kind) {
        assert !HoistsVar(scopes[chain[0]].kind);
        assert forall j :: 0 <= j < |tail| ==> tail[j] == chain[j + 1];
      }
    }
  }

  /** `let` and `const` (and anything declared outside a block) stay where
      they are declared; a `var` in a block is bound in the nearest
      function or global ancestor, or stays in the block when there is none. */
  lemma VarHoistsToNearestFunctionOrGlobal(scopes: seq<Scope>, current: nat, kind: BindingKind, chain: seq<nat>)
    requires ParentsBefore(scopes) && current < |scopes| && chain == Ancestors(scopes, current)
    ensures kind != Var || scopes[current].kind != BlockScope ==> DeclarationTarget(scopes, current, kind) == current
    ensures kind == Var && scopes[current].kind == BlockScope ==>
      forall k :: (0 <= k < |chain| && HoistsVar(scopes[chain[k]].kind)
        && (forall j :: 0 <= j < k ==> !HoistsVar(scopes[chain[j]].kind))) ==>
        DeclarationTarget(scopes, current, kind) == chain[k]
    ensures (kind == Var && scopes[current].kind == BlockScope
      && (forall k :: 0 <= k < |chain| ==> !HoistsVar(scopes[chain[k]].kind))) ==>
        DeclarationTarget(scopes, current, kind) == current
  {
    if kind == Var && scopes[current].kind == BlockScope {
      FirstHoistTargetSpec(scopes, chain);
      assert DeclarationTarget(scopes, current, kind) ==
        match FirstHoistTarget(scopes, chain) case Some(a) => a case None => current;
    }
  }

  function Declared(scope: Scope, name: string, kind: BindingKind): Scope
  {
    scope.(bindings := scope.bindings[name := BindingInfo(kind)])
  }

  // ---------------------------------------------------------------------
  // Captured variables

  /** The binding names of `p` and of every ancestor of `p`. */
  ghost function AncestorVariables(scopes: seq<Scope>, p: nat): set<string>
    requires ParentsBefore(scopes) && p < |scopes|
    decreases p
  {
    scopes[p].bindings.Keys + match scopes[p].parent
      case None => {}
      case Some(q) => AncestorVariables(scopes, q)
  }

  ghost function AncestorVariablesFrom(scopes: seq<Scope>, a: Option<nat>): set<string>
    requires ParentsBefore(scopes) && (a.Some? ==> a.value < |scopes|)
  {
    match a
    case None => {}
    case Some(p) => AncestorVariables(scopes, p)
  }

  /** The scope nearest to `p` (itself first) that declares `x`. */
  function NearestDeclaring(scopes: seq<Scope>, p: nat, x: string): Option<nat>
    requires ParentsBefore(scopes) && p < |scopes|
    decreases p
  {
    if x in scopes[p].bindings then Some(p)
    else match scopes[p].parent
      case None => None
      case Some(q) => NearestDeclaring(scopes, q, x)
  }

  /** The nearest declaring scope is `p` or an ancestor of it, declares
      `x`, and no scope between `p` and it declares `x`; it exists exactly
      when `x` is declared in `p` or an ancestor. */
  lemma {:induction false} NearestDeclaringSpec(scopes: seq<Scope>, p: nat, x: string)
    requires ParentsBefore(scopes) && p < |scopes|
    ensures NearestDeclaring(scopes, p, x).Some? <==> x in AncestorVariables(scopes, p)
    ensures NearestDeclaring(scopes, p, x).Some? ==>
      var d := NearestDeclaring(scopes, p, x).value;
      && d < |scopes| && x in scopes[d].bindings
      && (d == p || d in Ancestors(scopes, p))
    ensures NearestDeclaring(scopes, p, x).Some? && NearestDeclaring(scopes, p, x).value != p ==>
      x !in scopes[p].bindings
      && forall k :: (0 <= k < |Ancestors(scopes, p)| && Ancestors(scopes, p)[k] != NearestDeclaring(scopes, p, x).value
        && NearestDeclaring(scopes, p, x).value in Ancestors(scopes, p)[k..]) ==> x !in scopes[Ancestors(scopes, p)[k]].bindings
    decreases p
  {
    if x !in scopes[p].bindings && scopes[p].parent.Some? {
      var q := scopes[p].parent.value;
      NearestDeclaringSpec(scopes, q, x);
      var chain := Ancestors(scopes, p);
      assert chain == [q] + Ancestors(scopes, q);
      if NearestDeclaring(scopes, p, x).Some? {
        var d := NearestDeclaring(scopes, p, x).value;
        forall k | 0 <= k < |chain| && chain[k] != d && d in chain[k..]
          ensures x !in scopes[chain[k]].bindings
        {
          if k > 0 {
            assert chain[k] == Ancestors(scopes, q)[k - 1];
            assert chain[k..] == Ancestors(scopes, q)[k - 1..];
          } else if d != q {
            assert d in chain[1..];
          }
        }
      }
    }
  }

  /** A child scope that forms a closure: a function, or a class whose
      members may reference outer variables, when it references parent
      scope variables at all.  Block scopes never do. */
  predicate CreatesClosure(c: Scope)
  {
    (c.kind == FunctionScope || c.kind == ClassScope) && c.referencesParentScopeVariables
  }

  /** The variables of `p` and its ancestors that the child `c` references:
      its free references that are not its own bindings or parameters. */
  ghost function ReferencedParentVariables(scopes: seq<Scope>, c: nat, p: nat): set<string>
    requires ParentsBefore(scopes) && c < |scopes| && p < |scopes|
  {
    set x | x in scopes[c].freeReferences && x !in scopes[c].bindings && x !in scopes[c].parameters
      && x in AncestorVariables(scopes, p)
  }

  /** The (scope, name) pairs marked for the names `names` seen from `p`. */
  ghost function MarksFor(scopes: seq<Scope>, p: nat, names: set<string>): set<(nat, string)>
    requires ParentsBefore(scopes) && p < |scopes|
  {
    set x | x in names && NearestDeclaring(scopes, p, x).Some? :: (NearestDeclaring(scopes, p, x).value, x)
  }

  /** The marks a child causes in its parent `p` and the ancestors of `p`. */
  ghost function ChildMarks(scopes: seq<Scope>, c: nat, p: nat): set<(nat, string)>
    requires ParentsBefore(scopes) && c < |scopes| && p < |scopes|
  {
    if CreatesClosure(scopes[c]) then MarksFor(scopes, p, ReferencedParentVariables(scopes, c, p)) else {}
  }

  /** Everything `MarkCapturedVariables(s)` marks. */
  ghost function Marks(scopes: seq<Scope>, s: nat): set<(nat, string)>
    requires Tree(scopes) && s < |scopes|
    decreases |scopes| - s, |scopes[s].children| + 1
  {
    MarksUpTo(scopes, s, |scopes[s].children|)
  }

  /** The marks of the first `k` children of `s` and their subtrees. */
  ghost function MarksUpTo(scopes: seq<Scope>, s: nat, k: nat): set<(nat, string)>
    requires Tree(scopes) && s < |scopes| && k <= |scopes[s].children|
    decreases |scopes| - s, k
  {
    if k == 0 then {}
    else
      MarksUpTo(scopes, s, k - 1) + ChildMarks(scopes, scopes[s].children[k - 1], s)
        + Marks(scopes, scopes[s].children[k - 1])
  }

  /** The marks after one more child of `s`: those of the children before
      it, the child's own and those of its subtree. */
  lemma MarksUpToStep(scopes: seq<Scope>, s: nat, k: nat, start: set<(nat, string)>,
                      before: set<(nat, string)>, after: set<(nat, string)>)
    requires Tree(scopes) && s < |scopes| && k < |scopes[s].children|
    requires before == start + MarksUpTo(scopes, s, k)
    requires after == before + ChildMarks(scopes, scopes[s].children[k], s) + Marks(scopes, scopes[s].children[k])
    ensures after == start + MarksUpTo(scopes, s, k + 1)
  {
  }

  /** The closure `c` references `x`, and `d` is the scope nearest to the
      parent of `c` that declares `x`. */
  ghost predicate MarkedVia(scopes: seq<Scope>, c: nat, d: nat, x: string)
    requires ParentsBefore(scopes) && c < |scopes|
  {
    && scopes[c].parent.Some?
    && CreatesClosure(scopes[c])
    && x in ReferencedParentVariables(scopes, c, scopes[c].parent.value)
    && NearestDeclaring(scopes, scopes[c].parent.value, x) == Some(d)
  }

  lemma ChildMarksVia(scopes: seq<Scope>, c: nat, p: nat, d: nat, x: string)
    requires ParentsBefore(scopes) && c < |scopes| && p < |scopes| && scopes[c].parent == Some(p)
    ensures (d, x) in ChildMarks(scopes, c, p) <==> MarkedVia(scopes, c, d, x)
  {
  }

  /** Every mark below `s` comes from a closure in the subtree of `s`
      referencing a name whose nearest declaration is the marked scope. */
  lemma {:induction false} MarksSound(scopes: seq<Scope>, s: nat, d: nat, x: string)
    requires Tree(scopes) && s < |scopes| && (d, x) in Marks(scopes, s)
    ensures exists c :: s < c < |scopes| && s in Ancestors(scopes, c) && MarkedVia(scopes, c, d, x)
    decreases |scopes| - s, |scopes[s].children| + 1
  {
    MarksUpToSound(scopes, s, |scopes[s].children|, d, x);
  }

  lemma {:induction false} MarksUpToSound(scopes: seq<Scope>, s: nat, k: nat, d: nat, x: string)
    requires Tree(scopes) && s < |scopes| && k <= |scopes[s].children| && (d, x) in MarksUpTo(scopes, s, k)
    ensures exists c :: s < c < |scopes| && s in Ancestors(scopes, c) && MarkedVia(scopes, c, d, x)
    decreases |scopes| - s, k
  {
    var c := scopes[s].children[k - 1];
    assert s < c < |scopes| && scopes[c].parent == Some(s);
    assert Ancestors(scopes, c) == [s] + Ancestors(scopes, s);
    if (d, x) in MarksUpTo(scopes, s, k - 1) {
      MarksUpToSound(scopes, s, k - 1, d, x);
    } else if (d, x) in ChildMarks(scopes, c, s) {
      ChildMarksVia(scopes, c, s, d, x);
    } else {
      MarksSound(scopes, c, d, x);
      var c' :| c < c' < |scopes| && c in Ancestors(scopes, c') && MarkedVia(scopes, c', d, x);
      AncestorsTransitive(scopes, c', c, s);
    }
  }

  lemma {:induction false} MarksUpToGrows(scopes: seq<Scope>, s: nat, j: nat, k: nat)
    requires Tree(scopes) && s < |scopes| && j < k <= |scopes[s].children|
    ensures ChildMarks(scopes, scopes[s].children[j], s) <= MarksUpTo(scopes, s, k)
    ensures Marks(scopes, scopes[s].children[j]) <= MarksUpTo(scopes, s, k)
    decreases k
  {
    if j < k - 1 {
      MarksUpToGrows(scopes, s, j, k - 1);
    }
  }

  /** A scope's marks are among its parent's. */
  lemma ChildMarksInParent(scopes: seq<Scope>, c: nat, p: nat)
    requires Tree(scopes) && c < |scopes| && scopes[c].parent == Some(p)
    ensures ChildMarks(scopes, c, p) <= Marks(scopes, p)
    ensures Marks(scopes, c) <= Marks(scopes, p)
  {
    var j :| 0 <= j < |scopes[p].children| && scopes[p].children[j] == c;
    MarksUpToGrows(scopes, p, j, |scopes[p].children|);
  }

  lemma {:induction false} MarksGrowUpwards(scopes: seq<Scope>, s: nat, a: nat)
    requires Tree(scopes) && a < |scopes| && s in Ancestors(scopes, a)
    ensures s < |scopes| && Marks(scopes, a) <= Marks(scopes, s)
    decreases a
  {
    var q := scopes[a].parent.value;
    ChildMarksInParent(scopes, a, q);
    if q != s {
      MarksGrowUpwards(scopes, s, q);
    }
  }

  /** Every closure in the subtree of `s` marks, for each variable it
      references, the nearest declaration seen from its parent. */
  lemma MarksComplete(scopes: seq<Scope>, s: nat, c: nat, d: nat, x: string)
    requires Tree(scopes) && c < |scopes| && s in Ancestors(scopes, c) && MarkedVia(scopes, c, d, x)
    ensures s < |scopes| && (d, x) in Marks(scopes, s)
  {
    var p := scopes[c].parent.value;
    ChildMarksVia(scopes, c, p, d, x);
    ChildMarksInParent(scopes, c, p);
    if p != s {
      MarksGrowUpwards(scopes, s, p);
    }
  }

  /** Every mark is a binding, and it is the nearest declaration of its
      name seen from the parent of some function or class scope below `s`:
      an outer binding shadowed by a nearer one is never marked through
      that closure. */
  lemma MarksAreNearestDeclarations(scopes: seq<Scope>, s: nat, d: nat, x: string)
    requires Tree(scopes) && s < |scopes| && (d, x) in Marks(scopes, s)
    ensures d < |scopes| && x in scopes[d].bindings
    ensures exists c :: (s < c < |scopes| && s in Ancestors(scopes, c) && scopes[c].parent.Some?
      && (scopes[c].kind == FunctionScope || scopes[c].kind == ClassScope)
      && NearestDeclaring(scopes, scopes[c].parent.value, x) == Some(d))
  {
    MarksSound(scopes, s, d, x);
    var c :| s < c < |scopes| && s in Ancestors(scopes, c) && MarkedVia(scopes, c, d, x);
    NearestDeclaringSpec(scopes, scopes[c].parent.value, x);
  }

  /** A subtree without function or class scopes marks nothing. */
  lemma BlocksMarkNothing(scopes: seq<Scope>, s: nat)
    requires Tree(scopes) && s < |scopes|
    requires forall c :: s < c < |scopes| && s in Ancestors(scopes, c) ==>
      scopes[c].kind == BlockScope || scopes[c].kind == GlobalScope
    ensures Marks(scopes, s) == {}
  {
    if Marks(scopes, s) != {} {
      var m :| m in Marks(scopes, s);
      MarksSound(scopes, s, m.0, m.1);
      assert false;
    }
  }

  lemma MarksForUnion(scopes: seq<Scope>, p: nat, a: set<string>, b: set<string>)
    requires ParentsBefore(scopes) && p < |scopes|
    ensures MarksFor(scopes, p, a + b) == MarksFor(scopes, p, a) + MarksFor(scopes, p, b)
  {
  }

  /** The marks after one more name: those of the names before it and its own. */
  lemma MarksForStep(scopes: seq<Scope>, p: nat, done: set<string>, x: string, start: set<(nat, string)>,
                     before: set<(nat, string)>, after: set<(nat, string)>)
    requires ParentsBefore(scopes) && p < |scopes|
    requires before == start + MarksFor(scopes, p, done)
    requires after == before + MarksFor(scopes, p, {x})
    ensures after == start + MarksFor(scopes, p, done + {x})
  {
    MarksForUnion(scopes, p, done, {x});
  }

  lemma MarksForOne(scopes: seq<Scope>, p: nat, x: string)
    requires ParentsBefore(scopes) && p < |scopes|
    ensures MarksFor(scopes, p, {x}) ==
      if NearestDeclaring(scopes, p, x).Some? then {(NearestDeclaring(scopes, p, x).value, x)} else {}
  {
  }

  // ---------------------------------------------------------------------
  // Parameters

  /** The value of one property of an object pattern. */
  datatype PatternValue =
    | IdentifierValue(name: string)
    | DefaultedIdentifier(name: string)
    | OtherValue

  /** One member of an object pattern: a property (with its key when that
      is an identifier), or a rest element. */
  datatype PatternProperty =
    | Property(key: Option<string>, value: PatternValue)
    | RestProperty

  /** A formal parameter: an identifier, an identifier with a default, an
      object pattern, an object pattern with a default, or any other
      pattern (left unbound here). */
  datatype ParameterNode =
    | IdentifierParam(name: string)
    | DefaultedParam(name: string)
    | ObjectPatternParam(properties: seq<PatternProperty>)
    | DefaultedObjectPattern(properties: seq<PatternProperty>)
    | OtherParam

  /** The identifier a pattern property binds: the left side of a default,
      the value identifier, or else the key identifier. */
  function BoundName(p: PatternProperty): Option<string>
  {
    match p
    case RestProperty => None
    case Property(key, value) =>
      match value
      case DefaultedIdentifier(n) => Some(n)
      case IdentifierValue(n) => Some(n)
      case OtherValue => key
  }

  function AddIfMissing(s: seq<string>, x: string): seq<string>
  {
    if x in s then s else s + [x]
  }

  /** Binds `name` as a `var` unless the scope already binds it, and lists
      it as a parameter unless it is listed. */
  function BindIdentifier(scope: Scope, name: string): Scope
  {
    scope.(bindings := if name in scope.bindings then scope.bindings else scope.bindings[name := BindingInfo(Var)],
           parameters := AddIfMissing(scope.parameters, name))
  }

  function BindProperty(scope: Scope, p: PatternProperty): Scope
  {
    match BoundName(p)
    case None => scope
    case Some(n) =>
      var bound := BindIdentifier(scope, n);
      bound.(destructuredParameters := AddIfMissing(bound.destructuredParameters, n))
  }

  function BindProperties(scope: Scope, props: seq<PatternProperty>): Scope
    decreases |props|
  {
    if |props| == 0 then scope
    else BindProperty(BindProperties(scope, props[..|props| - 1]), props[|props| - 1])
  }

  function BindParameter(scope: Scope, p: ParameterNode): Scope
  {
    match p
    case IdentifierParam(n) => BindIdentifier(scope, n)
    case DefaultedParam(n) => BindIdentifier(scope, n)
    case ObjectPatternParam(props) => BindProperties(scope, props)
    case DefaultedObjectPattern(props) => BindProperties(scope, props)
    case OtherParam => scope
  }

  /** The scope after binding `params` in order. */
  function BindParameters(scope: Scope, params: seq<ParameterNode>): Scope
    decreases |params|
  {
    if |params| == 0 then scope
    else BindParameter(BindParameters(scope, params[..|params| - 1]), params[|params| - 1])
  }

  function PropertyNames(props: seq<PatternProperty>): set<string>
  {
    set k | 0 <= k < |props| && BoundName(props[k]).Some? :: BoundName(props[k]).value
  }

  function ParameterNames(params: seq<ParameterNode>): set<string>
    decreases |params|
  {
    if |params| == 0 then {}
    else
      ParameterNames(params[..|params| - 1]) +
      match params[|params| - 1]
      case IdentifierParam(n) => {n}
      case DefaultedParam(n) => {n}
      case ObjectPatternParam(props) => PropertyNames(props)
      case DefaultedObjectPattern(props) => PropertyNames(props)
      case OtherParam => {}
  }

  predicate NoDuplicates(s: seq<string>)
  {
    forall i, j :: 0 <= i < j < |s| ==> s[i] != s[j]
  }

  /** `b` grows `a`: existing bindings are kept as they are, the parameter
      lists only grow at the end and stay free of duplicates, and nothing
      else changes. */
  ghost predicate Extends(a: Scope, b: Scope)
  {
    && b.kind == a.kind && b.parent == a.parent && b.children == a.children
    && b.referencesParentScopeVariables == a.referencesParentScopeVariables
    && b.freeReferences == a.freeReferences
    && (forall x :: x in a.bindings ==> x in b.bindings && b.bindings[x] == a.bindings[x])
    && a.parameters <= b.parameters && a.destructuredParameters <= b.destructuredParameters
    && (NoDuplicates(a.parameters) ==> NoDuplicates(b.parameters))
    && (NoDuplicates(a.destructuredParameters) ==> NoDuplicates(b.destructuredParameters))
  }

  lemma AddIfMissingSpec(s: seq<string>, x: string)
    ensures s <= AddIfMissing(s, x) && x in AddIfMissing(s, x)
    ensures NoDuplicates(s) ==> NoDuplicates(AddIfMissing(s, x))
    ensures forall y :: y in AddIfMissing(s, x) ==> y in s || y == x
  {
  }

  lemma ExtendsTransitive(a: Scope, b: Scope, c: Scope)
    requires Extends(a, b) && Extends(b, c)
    ensures Extends(a, c)
  {
  }

  lemma BindPropertyExtends(scope: Scope, p: PatternProperty)
    ensures Extends(scope, BindProperty(scope, p))
    ensures BoundName(p).Some? ==> (BoundName(p).value in BindProperty(scope, p).bindings
      && BoundName(p).value in BindProperty(scope, p).parameters)
    ensures forall y :: y in BindProperty(scope, p).parameters ==> y in scope.parameters || Some(y) == BoundName(p)
  {
    if BoundName(p).Some? {
      var n := BoundName(p).value;
      AddIfMissingSpec(scope.parameters, n);
      AddIfMissingSpec(scope.destructuredParameters, n);
    }
  }

  lemma {:induction false} BindPropertiesExtends(scope: Scope, props: seq<PatternProperty>)
    ensures Extends(scope, BindProperties(scope, props))
    ensures forall n :: n in PropertyNames(props) ==>
      n in BindProperties(scope, props).bindings && n in BindProperties(scope, props).parameters
    ensures forall y :: y in BindProperties(scope, props).parameters ==> y in scope.parameters || y in PropertyNames(props)
    decreases |props|
  {
    if |props| > 0 {
      var init := props[..|props| - 1];
      var mid := BindProperties(scope, init);
      BindPropertiesExtends(scope, init);
      BindPropertyExtends(mid, props[|props| - 1]);
      ExtendsTransitive(scope, mid, BindProperties(scope, props));
      forall n | n in PropertyNames(props)
        ensures n in BindProperties(scope, props).bindings && n in BindProperties(scope, props).parameters
      {
        var k :| 0 <= k < |props| && BoundName(props[k]).Some? && BoundName(props[k]).value == n;
        if k < |props| - 1 {
          assert init[k] == props[k];
          assert n in PropertyNames(init);
        }
      }
      forall y | y in BindProperties(scope, props).parameters
        ensures y in scope.parameters || y in PropertyNames(props)
      {
        if y !in mid.parameters {
          assert BoundName(props[|props| - 1]) == Some(y);
        } else if y !in scope.parameters {
          var k :| 0 <= k < |init| && BoundName(init[k]).Some? && BoundName(init[k]).value == y;
          assert props[k] == init[k];
        }
      }
    }
  }

  lemma BindParameterExtends(scope: Scope, p: ParameterNode)
    ensures Extends(scope, BindParameter(scope, p))
    ensures forall n :: n in ParameterNames([p]) ==> n in BindParameter(scope, p).bindings && n in BindParameter(scope, p).parameters
    ensures forall y :: y in BindParameter(scope, p).parameters ==> y in scope.parameters || y in ParameterNames([p])
  {
    assert [p][..0] == [];
    match p
    case IdentifierParam(n) =>
      AddIfMissingSpec(scope.parameters, n);
    case DefaultedParam(n) =>
      AddIfMissingSpec(scope.parameters, n);
    case ObjectPatternParam(props) =>
      BindPropertiesExtends(scope, props);
    case DefaultedObjectPattern(props) =>
      BindPropertiesExtends(scope, props);
    case OtherParam =>
  }

  /** Binding parameters never overwrites an existing binding, never lists
      a name twice, binds and lists every name the parameters introduce,
      and lists nothing else. */
  lemma {:induction false} BindParametersExtends(scope: Scope, params: seq<ParameterNode>)
    ensures Extends(scope, BindParameters(scope, params))
    ensures forall n :: n in ParameterNames(params) ==>
      n in BindParameters(scope, params).bindings && n in BindParameters(scope, params).parameters
    ensures forall y :: y in BindParameters(scope, params).parameters ==> y in scope.parameters || y in ParameterNames(params)
    decreases |params|
  {
    if |params| > 0 {
      var init := params[..|params| - 1];
      var last := params[|params| - 1];
      var mid := BindParameters(scope, init);
      BindParametersExtends(scope, init);
      BindParameterExtends(mid, last);
      ExtendsTransitive(scope, mid, BindParameters(scope, params));
      assert [last][..0] == [];
      assert ParameterNames(params) == ParameterNames(init) + ParameterNames([last]);
    }
  }

  // ---------------------------------------------------------------------
  // The scope tree being built


  class ScopeTree {
    var scopes: seq<Scope>
    /** The (scope, name) pairs whose bindings are marked captured. */
    var captured: set<(nat, string)>

    ghost predicate Valid()
      reads this
    {
      && Tree(scopes)
      && forall m :: m in captured ==> m.0 < |scopes| && m.1 in scopes[m.0].bindings
    }

    constructor (scopes: seq<Scope>)
      requires Tree(scopes)
      ensures Valid() && this.scopes == scopes && captured == {}
    {
      this.scopes := scopes;
      captured := {};
    }

    /** Follows parent links from a block to the nearest function or global
        scope for a `var`. */
    method HoistTarget(current: nat, kind: BindingKind) returns (target: nat)
      requires Valid() && current < |scopes|
      ensures target == DeclarationTarget(scopes, current, kind)
    {
      target := current;
      if kind == Var && scopes[current].kind == BlockScope {
        var ancestor := scopes[current].parent;
        ghost var chain := Ancestors(scopes, current);
        ghost var i := 0;
        while ancestor.Some? && !HoistsVar(scopes[ancestor.value].kind)
          invariant 0 <= i <= |chain|
          invariant ancestor == (if i < |chain| then Some(chain[i]) else None)
          invariant FirstHoistTarget(scopes, chain) == FirstHoistTarget(scopes, chain[i..])
          decreases |chain| - i
        {
          AncestorsStep(scopes, current, i);
          assert chain[i..][1..] == chain[i + 1..];
          ancestor := scopes[ancestor.value].parent;
          i := i + 1;
        }
        if ancestor.Some? {
          target := ancestor.value;
        }
      }
    }

    /** Binds a simple declaration, replacing any binding of the name in
        the target scope (whose mark, if any, goes with it). */
    method DeclareVariable(current: nat, name: string, kind: BindingKind)
      requires Valid() && current < |scopes|
      modifies this
      ensures Valid()
      ensures scopes == old(scopes)[DeclarationTarget(old(scopes), current, kind) :=
        Declared(old(scopes)[DeclarationTarget(old(scopes), current, kind)], name, kind)]
      ensures captured == old(captured) - {(DeclarationTarget(old(scopes), current, kind), name)}
    {
      var target := HoistTarget(current, kind);
      scopes := scopes[target := Declared(scopes[target], name, kind)];
      captured := captured - {(target, name)};
    }

    /** The names of `target` and its ancestors that `child` references,
        collecting the ancestors' bindings by walking parent links. */
    method CollectReferencedParentVariables(child: nat, target: nat) returns (result: set<string>)
      requires Valid() && child < |scopes| && target < |scopes|
      ensures result == ReferencedParentVariables(scopes, child, target)
    {
      var childLocals := scopes[child].bindings.Keys + set x | x in scopes[child].parameters;
      var ancestorVariables: set<string> := {};
      var current: Option<nat> := Some(target);
      while current.Some?
        invariant current.Some? ==> current.value < |scopes|
        invariant ancestorVariables + AncestorVariablesFrom(scopes, current) == AncestorVariables(scopes, target)
        invariant scopes == old(scopes)
        decreases if current.Some? then current.value + 1 else 0
      {
        ancestorVariables := ancestorVariables + scopes[current.value].bindings.Keys;
        current := scopes[current.value].parent;
      }
      result := set x | x in scopes[child].freeReferences && x !in childLocals && x in ancestorVariables;
    }

    /** Marks `x` in the nearest scope from `p` upwards that declares it. */
    method MarkNearest(p: nat, x: string)
      requires Valid() && p < |scopes|
      modifies this
      ensures Valid() && scopes == old(scopes)
      ensures captured == old(captured) + MarksFor(scopes, p, {x})
    {
      MarksForOne(scopes, p, x);
      var search: Option<nat> := Some(p);
      while search.Some?
        invariant search.Some? ==> search.value < |scopes|
        invariant NearestDeclaring(scopes, p, x) == if search.Some? then NearestDeclaring(scopes, search.value, x) else None
        invariant captured == old(captured) && scopes == old(scopes)
        decreases if search.Some? then search.value + 1 else 0
      {
        if x in scopes[search.value].bindings {
          captured := captured + {(search.value, x)};
          return;
        }
        search := scopes[search.value].parent;
      }
    }

    /** Marks everything a closure child references, each in its nearest
        declaring scope. */
    method MarkReferencedVariables(child: nat, p: nat)
      requires Valid() && child < |scopes| && p < |scopes|
      modifies this
      ensures Valid() && scopes == old(scopes)
      ensures captured == old(captured) + MarksFor(scopes, p, ReferencedParentVariables(scopes, child, p))
    {
      var vars := CollectReferencedParentVariables(child, p);
      var remaining := vars;
      ghost var done: set<string> := {};
      while remaining != {}
        invariant Valid() && scopes == old(scopes) && remaining <= vars
        invariant done == vars - remaining
        invariant captured == old(captured) + MarksFor(scopes, p, done)
        decreases |remaining|
      {
        ghost var member := Member(remaining);
        var x :| x in remaining;
        ghost var before := captured;
        MarkNearest(p, x);
        MarksForStep(scopes, p, done, x, old(captured), before, captured);
        done := done + {x};
        remaining := remaining - {x};
      }
    }

    /** Marks, for every function or class child of `s` that references
        parent scope variables, each referenced variable in the nearest
        scope declaring it, and then does the same inside each child. */
    method MarkCapturedVariables(s: nat)
      requires Valid() && s < |scopes|
      modifies this
      ensures Valid() && scopes == old(scopes)
      ensures captured == old(captured) + Marks(scopes, s)
      decreases |scopes| - s, 1
    {
      var k := 0;
      while k < |scopes[s].children|
        invariant Valid() && scopes == old(scopes) && k <= |scopes[s].children|
        invariant captured == old(captured) + MarksUpTo(scopes, s, k)
      {
        ghost var before := captured;
        MarkChild(s, k);
        MarksUpToStep(scopes, s, k, old(captured), before, captured);
        k := k + 1;
      }
    }

    /** One turn of the loop of `MarkCapturedVariables(s)`: the variables
        the `k`-th child captures from `s` when it creates a closure, then
        everything below that child. */
    method MarkChild(s: nat, k: nat)
      requires Valid() && s < |scopes| && k < |scopes[s].children|
      modifies this
      ensures Valid() && scopes == old(scopes)
      ensures captured == old(captured) + ChildMarks(scopes, scopes[s].children[k], s) + Marks(scopes, scopes[s].children[k])
      decreases |scopes| - s, 0
    {
      var child := scopes[s].children[k];
      if CreatesClosure(scopes[child]) {
        MarkReferencedVariables(child, s);
      }
      MarkCapturedVariables(child);
    }

    /** Binds the parameters of the function whose scope is `s`. */
    method BindObjectPatternParameters(parameters: seq<ParameterNode>, s: nat)
      requires Valid() && s < |scopes|
      modifies this
      ensures Valid()
      ensures scopes == old(scopes)[s := BindParameters(old(scopes)[s], parameters)]
      ensures captured == old(captured)
    {
      var scope := scopes[s];
      var k := 0;
      while k < |parameters|
        invariant k <= |parameters| && scopes == old(scopes) && captured == old(captured)
        invariant scope == BindParameters(old(scopes)[s], parameters[..k])
      {
        assert parameters[..k + 1][..k] == parameters[..k];
        var p := parameters[k];
        match p {
          case IdentifierParam(n) =>
            scope := BindIdentifier(scope, n);
          case DefaultedParam(n) =>
            scope := BindIdentifier(scope, n);
          case ObjectPatternParam(props) =>
            scope := BindPatternProperties(scope, props);
          case DefaultedObjectPattern(props) =>
            scope := BindPatternProperties(scope, props);
          case OtherParam =>
        }
        k := k + 1;
      }
      assert parameters[..k] == parameters;
      BindParametersExtends(old(scopes)[s], parameters);
      scopes := scopes[s := scope];
    }
  }

  /** The loop over the properties of one object pattern. */
  method BindPatternProperties(scope: Scope, props: seq<PatternProperty>) returns (r: Scope)
    ensures r == BindProperties(scope, props)
  {
    r := scope;
    var k := 0;
    while k < |props|
      invariant k <= |props|
      invariant r == BindProperties(scope, props[..k])
    {
      assert props[..k + 1][..k] == props[..k];
      r := BindProperty(r, props[k]);
      k := k + 1;
    }
    assert props[..k] == props;
  }

  // ---------------------------------------------------------------------
  // Names

  predicate IsMetadataChar(c: char)
  {
    Text.IsAsciiLetterOrDigit(c) || c == '_'
  }

  function SanitizeChars(s: string): (r: string)
    ensures |r| == |s|
    ensures forall i :: 0 <= i < |s| ==> r[i] == if IsMetadataChar(s[i]) then s[i] else '_'
  {
    if |s| == 0 then [] else [if IsMetadataChar(s[0]) then s[0] else '_'] + SanitizeChars(s[1..])
  }

  /** A metadata-safe type name: letters, digits and '_' only, never
      starting with a digit, never empty. */
  function SanitizeForMetadata(name: string): (r: string)
    ensures |r| > 0 && !Text.IsAsciiDigit(r[0])
    ensures forall i :: 0 <= i < |r| ==> IsMetadataChar(r[i])
    ensures name == "" ==> r == "_"
    ensures name != "" ==> |r| == |name| + (if Text.IsAsciiDigit(name[0]) then 1 else 0)
    ensures forall i :: 0 <= i < |name| ==> r[|r| - |name| + i] == if IsMetadataChar(name[i]) then name[i] else '_'
  {
    if name == "" then "_"
    else
      var chars := SanitizeChars(name);
      if Text.IsAsciiDigit(chars[0]) then "_" + chars else chars
  }

  /** A name that is already safe is kept, so sanitising twice changes
      nothing. */
  lemma SanitizeKeepsSafeNames(name: string)
    requires name != "" && !Text.IsAsciiDigit(name[0])
    requires forall i :: 0 <= i < |name| ==> IsMetadataChar(name[i])
    ensures SanitizeForMetadata(name) == name
  {
  }

  lemma SanitizeIdempotent(name: string)
    ensures SanitizeForMetadata(SanitizeForMetadata(name)) == SanitizeForMetadata(name)
  {
    SanitizeKeepsSafeNames(SanitizeForMetadata(name));
  }

  /** A module specifier for lookup: trimmed, without one leading "node:"
      in any letter case. */
  function NormalizeModuleName(s: string): (r: string)
    ensures Text.IsSuffix(r, Text.Trim(s))
    ensures |r| == |Text.Trim(s)| || |r| == |Text.Trim(s)| - 5
  {
    var trimmed := Text.Trim(s);
    if Text.StartsWithIgnoreCase(trimmed, "node:") then trimmed[5..] else trimmed
  }

  /** One "node:" prefix, in any letter case, is stripped from a trimmed
      name; only one, so "node:node:fs" becomes "node:fs". */
  lemma NormalizeStripsOneNodePrefix(prefix: string, m: string)
    requires Text.EqualsIgnoreCase(prefix, "node:") && |prefix| == 5
    requires m == [] || !Text.IsWhiteSpace(m[|m| - 1])
    ensures NormalizeModuleName(prefix + m) == m
  {
    var s := prefix + m;
    assert Text.Lower(prefix)[0] == Text.Lower("node:")[0];
    assert s[0] == prefix[0];
    assert !Text.IsWhiteSpace(s[0]);
    assert Text.Lower(prefix)[4] == Text.Lower("node:")[4];
    assert !Text.IsWhiteSpace(s[|s| - 1]);
    Text.TrimKeepsTrimmed(s);
    assert s[..5] == prefix;
    assert s[5..] == m;
  }

  /** A trimmed name without the prefix is left as it is. */
  lemma NormalizeKeepsPlainNames(m: string)
    requires m == [] || (!Text.IsWhiteSpace(m[0]) && !Text.IsWhiteSpace(m[|m| - 1]))
    requires !Text.StartsWithIgnoreCase(m, "node:")
    ensures NormalizeModuleName(m) == m
  {
    Text.TrimKeepsTrimmed(m);
  }
}
