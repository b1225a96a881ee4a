/** Values shared by the runtime modules.

    A JavaScript value is modelled abstractly: CLR `null` is `Undefined`, the
    `JsNull` singleton is `Null`, numbers are taken as already-coerced
    integers, and arrays and other objects are references.  The contents of
    the arrays a value may refer to are given by a `Heap` where an operation
    needs them (`concat`, `flat`). */
module JsValues {

  datatype Option<+T> = None | Some(value: T)

  /** The exceptions the code throws: the JavaScript `RangeError` and
      `TypeError`, and the CLR `ArgumentOutOfRangeException`,
      `ArgumentException`, `InvalidOperationException` and
      `IndexOutOfRangeException`. */
  datatype JsError = RangeError | TypeError | ArgumentOutOfRange | ArgumentError | InvalidOperation | IndexOutOfRange

  datatype Result<+T> = Ok(value: T) | Err(error: JsError)

  datatype Value =
    | Undefined
    | Null
    | Bool(b: bool)
    | Num(n: int)
    | Str(s: string)
    | ArrayRef(arrayId: nat)
    | ObjectRef(objectId: nat)

  /** The contents of every JavaScript array reachable by id. */
  type Heap = map<nat, seq<Value>>

  /** Every array reference in `s` has contents in `heap`. */
  ghost predicate RefsIn(heap: Heap, s: seq<Value>)
  {
    forall i :: 0 <= i < |s| && s[i].ArrayRef? ==> s[i].arrayId in heap
  }

  /** Every array stored in the heap refers only to arrays of the heap. */
  ghost predicate ClosedHeap(heap: Heap)
  {
    forall id :: id in heap ==> RefsIn(heap, heap[id])
  }

  const Int32Max: int := 0x7FFF_FFFF

  function Min(a: int, b: int): int { if a <= b then a else b }
  function Max(a: int, b: int): int { if a >= b then a else b }

  /** Euclidean remainder is determined by any quotient/remainder split. */
  lemma ModUnique(v: int, m: nat, a: int, s: int)
    requires m >= 1 && v == m * a + s && 0 <= s < m
    ensures v % m == s
  {
    var q, r := v / m, v % m;
    assert m * (q - a) == s - r;
    MulSmall(m, q - a, s - r);
  }

  /** A multiple of m strictly between -m and m is 0. */
  lemma MulSmall(m: int, d: int, e: int)
    requires m >= 1 && m * d == e && -m < e < m
    ensures d == 0
  {
    if d > 0 {
      assert false;
    } else if d < 0 {
      assert false;
    }
  }

  /** A non-empty set has a member to pick. */
  lemma Member<T>(s: set<T>) returns (x: T)
    requires s != {}
    ensures x in s
  {
    if forall y :: y !in s {
      assert false;
    }
    x :| x in s;
  }
}
