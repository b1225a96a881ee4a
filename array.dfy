/** `JavaScriptRuntime.Array`: a JavaScript array backed by a growable list.

    The list is the field `elems`; methods that edit the list in place change
    it, and the methods that return a fresh array return its contents as a
    sequence.  Index arguments arrive as already-coerced values: a number is
    an integer, `undefined`/`null` select the documented defaults. */
module JsArray {
  import opened JsValues

  /** `ToInt`: the integer an index argument stands for, or `dflt` when it is
      not numeric (undefined, null, a string that is not parsed here, an
      object). */
  function ToInt(v: Value, dflt: int): int
  {
    match v
    case Num(n) => n
    case Bool(b) => if b then 1 else 0
    case _ => dflt
  }

  /** A relative index as ECMA-262 section 23.1.3 resolves it: a negative
      index counts back from `len`, and the result is clamped into [0, len]. */
  function ClampRelative(idx: int, len: nat): (r: nat)
    ensures r <= len
    ensures idx < 0 && len + idx >= 0 ==> r == len + idx
    ensures idx < 0 && len + idx < 0 ==> r == 0
    ensures 0 <= idx <= len ==> r == idx
    ensures idx > len ==> r == len
  {
    if idx < 0 then (if len + idx < 0 then 0 else len + idx)
    else if idx > len then len
    else idx
  }

  /** `CoerceStartIndex(arg, len, dflt)`. */
  function CoerceStartIndex(arg: Value, len: nat, dflt: int): (r: nat)
    ensures r <= len
    ensures arg == Undefined && 0 <= dflt <= len ==> r == dflt
    ensures arg.Num? && arg.n < 0 && len + arg.n >= 0 ==> r == len + arg.n
    ensures arg.Num? && 0 <= arg.n <= len ==> r == arg.n
  {
    ClampRelative(ToInt(arg, dflt), len)
  }

  /** The `n` undefined elements an array is padded with. */
  function Padding(n: nat): (r: seq<Value>)
    ensures |r| == n
    ensures forall i :: 0 <= i < n ==> r[i] == Undefined
  {
    seq(n, _ => Undefined)
  }

  /** The list after the integer-index write `a[i] = v` for i >= 0. */
  function WrittenAt(s: seq<Value>, i: nat, v: Value): (r: seq<Value>)
    ensures |r| == Max(|s|, i + 1)
    ensures r[i] == v
    ensures forall j :: 0 <= j < |s| && j != i ==> r[j] == s[j]
    ensures forall j :: |s| <= j < i ==> r[j] == Undefined
  {
    if i < |s| then s[i := v] else s + Padding(i - |s|) + [v]
  }

  /** The list after `length = n`: truncated, or padded with undefined. */
  function Resized(s: seq<Value>, n: nat): (r: seq<Value>)
    ensures |r| == n
    ensures forall j :: 0 <= j < n && j < |s| ==> r[j] == s[j]
    ensures forall j :: |s| <= j < n ==> r[j] == Undefined
  {
    if n < |s| then s[..n] else s + Padding(n - |s|)
  }

  /** The end argument of `slice`: undefined keeps `len`, null means +0. */
  function SliceEnd(args: seq<Value>, len: nat): (r: nat)
    ensures r <= len
    ensures |args| < 2 || args[1] == Undefined ==> r == len
    ensures |args| >= 2 && args[1] == Null ==> r == 0
  {
    if |args| < 2 || args[1] == Undefined then len
    else if args[1] == Null then 0
    else ClampRelative(ToInt(args[1], 0), len)
  }

  function SliceStart(args: seq<Value>, len: nat): (r: nat)
    ensures r <= len
    ensures |args| == 0 ==> r == 0
  {
    if |args| > 0 then CoerceStartIndex(args[0], len, 0) else 0
  }

  /** Start and delete count of `splice`; the delete count is clamped to what
      lies after the start. */
  function SpliceDeleteCount(args: seq<Value>, len: nat, start: nat): (r: nat)
    requires start <= len
    ensures r <= len - start
    ensures |args| == 1 ==> r == len - start
    ensures |args| >= 2 && 0 <= ToInt(args[1], 0) <= len - start ==> r == ToInt(args[1], 0)
    ensures |args| >= 2 && ToInt(args[1], 0) < 0 ==> r == 0
  {
    if |args| == 1 then len - start
    else
      var raw := if |args| < 2 then 0 else ToInt(args[1], 0);
      var raw' := if raw < 0 then 0 else raw;
      if raw' > len - start then len - start else raw'
  }

  /** The items `splice` inserts: its arguments after the first two. */
  function SpliceItems(args: seq<Value>): (r: seq<Value>)
    ensures |args| <= 2 ==> r == []
    ensures |args| > 2 ==> r == args[2..]
  {
    if |args| > 2 then args[2..] else []
  }

  /** The first index `indexOf` examines, or `len` when there is none. */
  function IndexOfFrom(args: seq<Value>, len: nat): (r: nat)
    ensures r <= len
    ensures |args| < 2 ==> r == 0
  {
    var from := if |args| > 1 then ToInt(args[1], 0) else 0;
    ClampRelative(from, len)
  }

  /** The first index `lastIndexOf` examines (counting down), or -1. */
  function LastIndexOfFrom(args: seq<Value>, len: nat): (r: int)
    ensures -1 <= r < len
    ensures len > 0 && |args| < 2 ==> r == len - 1
  {
    if len == 0 then -1
    else
      var from := if |args| > 1 then ToInt(args[1], len - 1) else len - 1;
      var from' := if from < 0 then len + from else from;
      var from'' := if from' >= len then len - 1 else from';
      if from'' < 0 then -1 else from''
  }

  /** Target, start and count of a `copyWithin`; count 0 is a no-op. */
  datatype CopyPlan = CopyPlan(target: nat, start: nat, count: nat)

  function CopyWithinPlan(args: seq<Value>, len: nat): (p: CopyPlan)
    ensures p.target + p.count <= len
    ensures p.start + p.count <= len
    ensures len == 0 ==> p.count == 0
  {
    if len == 0 then CopyPlan(0, 0, 0)
    else
      var target0 := if |args| > 0 then ToInt(args[0], 0) else 0;
      var start0 := if |args| > 1 then ToInt(args[1], 0) else 0;
      var end0 := if |args| > 2 then ToInt(args[2], len) else len;
      var target1 := if target0 < 0 then len + target0 else target0;
      var start1 := if start0 < 0 then len + start0 else start0;
      var end1 := if end0 < 0 then len + end0 else end0;
      var target := if target1 < 0 then 0 else target1;
      var start := if start1 < 0 then 0 else start1;
      var end := if end1 > len then len else end1;
      if target >= len then CopyPlan(0, 0, 0)
      else
        var count := end - start;
        if count <= 0 then CopyPlan(0, 0, 0)
        else if count > len - target then CopyPlan(target, start, len - target)
        else CopyPlan(target, start, count)
  }

  /** The list after copying `count` elements from `start` to `target`, read
      from a snapshot of the list. */
  function CopiedWithin(s: seq<Value>, p: CopyPlan): (r: seq<Value>)
    requires p.target + p.count <= |s| && p.start + p.count <= |s|
    ensures |r| == |s|
    ensures forall i :: 0 <= i < |s| && !(p.target <= i < p.target + p.count) ==> r[i] == s[i]
    ensures forall i :: p.target <= i < p.target + p.count ==> r[i] == s[p.start + (i - p.target)]
  {
    seq(|s|, i requires 0 <= i < |s| =>
      if p.target <= i < p.target + p.count then s[p.start + (i - p.target)] else s[i])
  }

  /** The elements `splice` removes, collected one at a time. */
  method CollectRange(s: seq<Value>, start: nat, count: nat) returns (r: seq<Value>)
    requires start + count <= |s|
    ensures r == s[start..start + count]
  {
    r := [];
    for i := 0 to count
      invariant r == s[start..start + i]
    {
      r := r + [s[start + i]];
    }
  }

  /** The temporary buffer `copyWithin` fills: `count` elements from `start`. */
  method SnapshotRange(s: seq<Value>, start: nat, count: nat) returns (temp: array<Value>)
    requires start + count <= |s|
    ensures fresh(temp) && temp.Length == count
    ensures forall k :: 0 <= k < count ==> temp[k] == s[start + k]
  {
    temp := new Value[count];
    for i := 0 to count
      invariant forall k :: 0 <= k < i ==> temp[k] == s[start + k]
    {
      temp[i] := s[start + i];
    }
  }

  /** The elements `concat` appends for its arguments: an array argument is
      spread, any other argument is appended as one element. */
  function Spread(heap: Heap, args: seq<Value>): seq<Value>
    requires RefsIn(heap, args)
  {
    if |args| == 0 then []
    else
      var last := args[|args| - 1];
      Spread(heap, args[..|args| - 1]) + (if last.ArrayRef? then heap[last.arrayId] else [last])
  }

  lemma {:induction false} SpreadOfNonArrays(heap: Heap, args: seq<Value>)
    requires forall i :: 0 <= i < |args| ==> !args[i].ArrayRef?
    ensures Spread(heap, args) == args
  {
    if |args| > 0 {
      SpreadOfNonArrays(heap, args[..|args| - 1]);
      assert args == args[..|args| - 1] + [args[|args| - 1]];
    }
  }

  /** `flat(depth)`: array elements are replaced by their contents, up to
      `depth` levels deep. */
  function Flattened(heap: Heap, s: seq<Value>, depth: nat): seq<Value>
    requires ClosedHeap(heap) && RefsIn(heap, s)
    decreases depth, |s|
  {
    if |s| == 0 then []
    else
      var last := s[|s| - 1];
      Flattened(heap, s[..|s| - 1], depth)
        + (if depth > 0 && last.ArrayRef? then Flattened(heap, heap[last.arrayId], depth - 1) else [last])
  }

  lemma {:induction false} FlattenedDepthZero(heap: Heap, s: seq<Value>)
    requires ClosedHeap(heap) && RefsIn(heap, s)
    ensures Flattened(heap, s, 0) == s
  {
    if |s| > 0 {
      FlattenedDepthZero(heap, s[..|s| - 1]);
      assert s == s[..|s| - 1] + [s[|s| - 1]];
    }
  }

  lemma {:induction false} FlattenedWithoutArrays(heap: Heap, s: seq<Value>, depth: nat)
    requires ClosedHeap(heap) && RefsIn(heap, s)
    requires forall i :: 0 <= i < |s| ==> !s[i].ArrayRef?
    ensures Flattened(heap, s, depth) == s
  {
    if |s| > 0 {
      FlattenedWithoutArrays(heap, s[..|s| - 1], depth);
      assert s == s[..|s| - 1] + [s[|s| - 1]];
    }
  }

  function Reverse(s: seq<Value>): (r: seq<Value>)
    ensures |r| == |s|
    ensures forall k :: 0 <= k < |s| ==> r[k] == s[|s| - 1 - k]
  {
    if |s| == 0 then [] else Reverse(s[1..]) + [s[0]]
  }

  lemma ReverseInvolutive(s: seq<Value>)
    ensures Reverse(Reverse(s)) == s
  {
  }

  /** `new Array(...)` / `Array(...)`: no argument gives [], one number gives
      that many undefined elements (RangeError outside [0, 2^31-1]), any other
      single argument or several arguments become the elements. */
  method Construct(args: seq<Value>) returns (r: Result<seq<Value>>)
    ensures |args| == 0 ==> r == Ok([])
    ensures |args| == 1 && args[0].Num? && (args[0].n < 0 || args[0].n > Int32Max) ==> r == Err(RangeError)
    ensures |args| == 1 && args[0].Num? && 0 <= args[0].n <= Int32Max ==> r == Ok(Padding(args[0].n))
    ensures |args| == 1 && !args[0].Num? ==> r == Ok(args)
    ensures |args| > 1 ==> r == Ok(args)
  {
    if |args| == 0 {
      return Ok([]);
    }
    if |args| == 1 {
      var a0 := args[0];
      if a0.Num? {
        if a0.n < 0 || a0.n > Int32Max {
          return Err(RangeError);
        }
        var len := a0.n;
        var result: seq<Value> := [];
        for i := 0 to len
          invariant result == Padding(i)
        {
          result := result + [Undefined];
        }
        return Ok(result);
      }
      assert args == [a0];
      return Ok([a0]);
    }
    return Ok(args);
  }

  class JsArray {
    /** The backing list; its length is the JavaScript `length`. */
    var elems: seq<Value>

    constructor (init: seq<Value>)
      ensures elems == init
    {
      elems := init;
    }

    /** Integer-index write `a[index] = v`.  A negative index is stored as a
        named property, outside the list, so the list is unchanged. */
    method SetItem(index: int, v: Value)
      modifies this
      ensures index < 0 ==> elems == old(elems)
      ensures index >= 0 ==> elems == WrittenAt(old(elems), index, v)
    {
      if index < 0 {
        return;
      }
      if index < |elems| {
        elems := elems[index := v];
        return;
      }
      if index == |elems| {
        elems := elems + [v];
        return;
      }
      while |elems| < index
        invariant |old(elems)| <= |elems| <= index
        invariant elems == old(elems) + Padding(|elems| - |old(elems)|)
        decreases index - |elems|
      {
        elems := elems + [Undefined];
      }
      elems := elems + [v];
    }

    /** Integer-index read: out-of-range reads give undefined. */
    function GetItem(index: int): (r: Value)
      reads this
      ensures 0 <= index < |elems| ==> r == elems[index]
      ensures !(0 <= index < |elems|) ==> r == Undefined
    {
      if index < 0 || index >= |elems| then Undefined else elems[index]
    }

    /** The `length` setter: RangeError for negative lengths and lengths above
        2^31-1 (the list is unchanged); otherwise truncate or pad. */
    method SetLength(newLen: int) returns (r: Result<()>)
      modifies this
      ensures (newLen < 0 || newLen > Int32Max) <==> r.Err?
      ensures r.Err? ==> r.error == RangeError && elems == old(elems)
      ensures r.Ok? ==> elems == Resized(old(elems), newLen)
    {
      if newLen < 0 || newLen > Int32Max {
        return Err(RangeError);
      }
      if newLen < |elems| {
        elems := elems[..newLen];
        return Ok(());
      }
      while |elems| < newLen
        invariant |old(elems)| <= |elems| <= newLen
        invariant elems == old(elems) + Padding(|elems| - |old(elems)|)
        decreases newLen - |elems|
      {
        elems := elems + [Undefined];
      }
      return Ok(());
    }

    /** `slice(start, end)`: a fresh copy of [start, end) after normalisation;
        the receiver is not modified. */
    method Slice(args: seq<Value>) returns (r: seq<Value>)
      ensures var start, end := SliceStart(args, |elems|), SliceEnd(args, |elems|);
        r == if start < end then elems[start..end] else []
    {
      var len := |elems|;
      var start := SliceStart(args, len);
      var end := SliceEnd(args, len);
      var count := (end as int) - (start as int);
      if count <= 0 {
        return [];
      }
      r := [];
      var k := start;
      while k < end
        invariant start <= k <= end
        invariant r == elems[start..k]
      {
        r := r + [elems[k]];
        k := k + 1;
      }
    }

    /** `splice(start, deleteCount, ...items)`: returns the removed elements
        and leaves prefix ++ items ++ suffix; with no argument it is a no-op. */
    method Splice(args: seq<Value>) returns (removed: seq<Value>)
      modifies this
      ensures |args| == 0 ==> removed == [] && elems == old(elems)
      ensures |args| > 0 ==>
        var start := CoerceStartIndex(args[0], |old(elems)|, 0);
        var del := SpliceDeleteCount(args, |old(elems)|, start);
        && removed == old(elems)[start..start + del]
        && elems == old(elems)[..start] + SpliceItems(args) + old(elems)[start + del..]
    {
      var len := |elems|;
      if |args| == 0 {
        return [];
      }
      var start := CoerceStartIndex(args[0], len, 0);
      var deleteCount := SpliceDeleteCount(args, len, start);
      removed := CollectRange(elems, start, deleteCount);
      DeleteRange(start, deleteCount);
      if |args| > 2 {
        var toInsert := args[2..];
        elems := elems[..start] + toInsert + elems[start..];
      }
    }

    /** Removes `count` elements at `start`, one at a time. */
    method DeleteRange(start: nat, count: nat)
      requires start + count <= |elems|
      modifies this
      ensures elems == old(elems)[..start] + old(elems)[start + count..]
    {
      for i := 0 to count
        invariant |elems| == |old(elems)| - i
        invariant elems == old(elems)[..start] + old(elems)[start + i..]
      {
        assert elems[start + 1..] == old(elems)[start + i + 1..];
        elems := elems[..start] + elems[start + 1..];
      }
    }

    /** `push(x)`: appends and returns the new length. */
    method Push(x: Value) returns (n: nat)
      modifies this
      ensures elems == old(elems) + [x]
      ensures n == |elems|
    {
      elems := elems + [x];
      n := |elems|;
    }

    /** `push(...items)`. */
    method PushAll(items: seq<Value>) returns (n: nat)
      modifies this
      ensures elems == old(elems) + items
      ensures n == |elems|
    {
      for i := 0 to |items|
        invariant elems == old(elems) + items[..i]
      {
        elems := elems + [items[i]];
      }
      assert items[..|items|] == items;
      n := |elems|;
    }

    /** `pop()`: removes the last element; on an empty array returns
        undefined and changes nothing. */
    method Pop() returns (v: Value)
      modifies this
      ensures old(elems) == [] ==> v == Undefined && elems == []
      ensures old(elems) != [] ==> v == old(elems)[|old(elems)| - 1] && elems == old(elems)[..|old(elems)| - 1]
    {
      if |elems| == 0 {
        return Undefined;
      }
      var lastIndex := |elems| - 1;
      v := elems[lastIndex];
      elems := elems[..lastIndex];
    }

    /** `shift()`: removes the first element, or returns undefined. */
    method Shift() returns (v: Value)
      modifies this
      ensures old(elems) == [] ==> v == Undefined && elems == []
      ensures old(elems) != [] ==> v == old(elems)[0] && elems == old(elems)[1..]
    {
      if |elems| == 0 {
        return Undefined;
      }
      v := elems[0];
      elems := elems[1..];
    }

    /** `unshift(...items)`: inserts each item at 0 from the last one back, so
        the items end up in their original order; returns the new length. */
    method Unshift(items: seq<Value>) returns (n: nat)
      modifies this
      ensures elems == items + old(elems)
      ensures n == |elems|
    {
      var i := |items|;
      while i > 0
        invariant 0 <= i <= |items|
        invariant elems == items[i..] + old(elems)
      {
        i := i - 1;
        elems := [items[i]] + elems;
      }
      n := |elems|;
    }

    /** `indexOf(search, from)` with strict equality. */
    method IndexOf(args: seq<Value>) returns (r: int)
      ensures -1 <= r < |elems|
      ensures var search := if |args| > 0 then args[0] else Undefined;
        var from := IndexOfFrom(args, |elems|);
        && (r >= 0 ==> from <= r && elems[r] == search)
        && (forall j :: from <= j < |elems| && (r < 0 || j < r) ==> elems[j] != search)
    {
      var len := |elems|;
      if len == 0 {
        return -1;
      }
      var search := if |args| > 0 then args[0] else Undefined;
      var from := IndexOfFrom(args, len);
      if from >= len {
        return -1;
      }
      var i := from;
      while i < len
        invariant from <= i <= len
        invariant forall j :: from <= j < i ==> elems[j] != search
      {
        if elems[i] == search {
          return i;
        }
        i := i + 1;
      }
      return -1;
    }

    /** `lastIndexOf(search, from)`, searching from `from` down to 0. */
    method LastIndexOf(args: seq<Value>) returns (r: int)
      ensures -1 <= r < |elems|
      ensures var search := if |args| > 0 then args[0] else Undefined;
        var from := LastIndexOfFrom(args, |elems|);
        && (r >= 0 ==> r <= from && elems[r] == search)
        && (forall j :: r < j <= from ==> elems[j] != search)
    {
      var len := |elems|;
      var search := if |args| > 0 then args[0] else Undefined;
      var from := LastIndexOfFrom(args, len);
      if from < 0 {
        return -1;
      }
      var i := from;
      while i >= 0
        invariant -1 <= i <= from
        invariant forall j :: i < j <= from ==> elems[j] != search
      {
        if elems[i] == search {
          return i;
        }
        i := i - 1;
      }
      return -1;
    }

    /** `fill(value, start, end)`: overwrites [start, end) and nothing else. */
    method Fill(args: seq<Value>)
      modifies this
      ensures |elems| == |old(elems)|
      ensures var value := if |args| > 0 then args[0] else Undefined;
        var start := if |args| > 1 then CoerceStartIndex(args[1], |elems|, 0) else 0;
        var end := if |args| > 2 then ClampRelative(ToInt(args[2], |elems|), |elems|) else |elems|;
        forall i :: 0 <= i < |elems| ==> elems[i] == if start <= i < end then value else old(elems)[i]
    {
      var value := if |args| > 0 then args[0] else Undefined;
      var len := |elems|;
      var start := if |args| > 1 then CoerceStartIndex(args[1], len, 0) else 0;
      var end := if |args| > 2 then ClampRelative(ToInt(args[2], len), len) else len;
      var i := start;
      while i < end
        invariant start <= i <= Max(start, end)
        invariant |elems| == len
        invariant forall j :: 0 <= j < len ==> elems[j] == if start <= j < i then value else old(elems)[j]
      {
        elems := elems[i := value];
        i := i + 1;
      }
    }

    /** `copyWithin(target, start, end)`: copies through a temporary buffer,
        so the result equals copying from a snapshot; the length never
        changes and only [target, target + count) is written. */
    method CopyWithin(args: seq<Value>)
      modifies this
      ensures elems == CopiedWithin(old(elems), CopyWithinPlan(args, |old(elems)|))
    {
      var p := CopyWithinPlan(args, |elems|);
      if p.count == 0 {
        return;
      }
      var temp := SnapshotRange(elems, p.start, p.count);
      WriteRange(temp, p.target);
    }

    /** Writes `temp` over the elements from `target` on. */
    method WriteRange(temp: array<Value>, target: nat)
      requires target + temp.Length <= |elems|
      modifies this
      ensures |elems| == |old(elems)|
      ensures forall j :: target <= j < target + temp.Length ==> elems[j] == temp[j - target]
      ensures forall j :: 0 <= j < |elems| && !(target <= j < target + temp.Length) ==> elems[j] == old(elems)[j]
    {
      for i := 0 to temp.Length
        invariant |elems| == |old(elems)|
        invariant forall j :: target <= j < target + i ==> elems[j] == temp[j - target]
        invariant forall j :: 0 <= j < |elems| && !(target <= j < target + i) ==> elems[j] == old(elems)[j]
      {
        elems := elems[target + i := temp[i]];
      }
    }

    /** `concat(...items)`: a fresh copy of the receiver followed by the
        spread arguments. */
    method Concat(heap: Heap, args: seq<Value>) returns (r: seq<Value>)
      requires RefsIn(heap, args)
      ensures r == elems + Spread(heap, args)
    {
      r := elems;
      for i := 0 to |args|
        invariant r == elems + Spread(heap, args[..i])
      {
        var item := args[i];
        assert args[..i + 1][..i] == args[..i];
        if item.ArrayRef? {
          var arr := heap[item.arrayId];
          ghost var r0 := r;
          for j := 0 to |arr|
            invariant r == r0 + arr[..j]
          {
            r := r + [arr[j]];
          }
          assert arr[..|arr|] == arr;
        } else {
          r := r + [item];
        }
      }
      assert args[..|args|] == args;
    }

    /** `flat(depth)`: depth defaults to 1 and negative depths act as 0. */
    method Flat(heap: Heap, args: seq<Value>) returns (r: seq<Value>)
      requires ClosedHeap(heap) && RefsIn(heap, elems)
      ensures var d := if |args| > 0 && args[0] != Undefined then ToInt(args[0], 1) else 1;
        r == Flattened(heap, elems, if d < 0 then 0 else d)
    {
      var depth := 1;
      if |args| > 0 && args[0] != Undefined {
        depth := ToInt(args[0], 1);
      }
      if depth < 0 {
        depth := 0;
      }
      r := FlattenInto(heap, [], elems, depth);
    }

    /** `toReversed()`: a reversed copy. */
    function ToReversed(): (r: seq<Value>)
      reads this
      ensures |r| == |elems|
      ensures forall k :: 0 <= k < |elems| ==> r[k] == elems[|elems| - 1 - k]
    {
      Reverse(elems)
    }

    /** `with(index, value)`: TypeError with fewer than two arguments,
        RangeError for an index outside the array after counting negatives
        from the end, otherwise a copy with that one element replaced. */
    function With(args: seq<Value>): (r: Result<seq<Value>>)
      reads this
      ensures |args| < 2 ==> r == Err(TypeError)
      ensures |args| >= 2 ==>
        var i0 := ToInt(args[0], 0);
        var i := if i0 < 0 then |elems| + i0 else i0;
        && (r.Ok? <==> 0 <= i < |elems|)
        && (r.Err? ==> r.error == RangeError)
        && (r.Ok? ==>
              && |r.value| == |elems| && r.value[i] == args[1]
              && forall j :: 0 <= j < |elems| && j != i ==> r.value[j] == elems[j])
    {
      if |args| < 2 then Err(TypeError)
      else
        var len := |elems|;
        var index0 := ToInt(args[0], 0);
        var index := if index0 < 0 then len + index0 else index0;
        if index < 0 || index >= len then Err(RangeError)
        else Ok(elems[index := args[1]])
    }
  }

  /** `FlattenInto(target, source, depth)`. */
  method FlattenInto(heap: Heap, target: seq<Value>, source: seq<Value>, depth: nat) returns (r: seq<Value>)
    requires ClosedHeap(heap) && RefsIn(heap, source)
    ensures r == target + Flattened(heap, source, depth)
    decreases depth
  {
    r := target;
    for i := 0 to |source|
      invariant r == target + Flattened(heap, source[..i], depth)
    {
      var v := source[i];
      assert source[..i + 1][..i] == source[..i];
      assert Flattened(heap, source[..i + 1], depth) == Flattened(heap, source[..i], depth)
        + (if depth > 0 && v.ArrayRef? then Flattened(heap, heap[v.arrayId], depth - 1) else [v]);
      if depth > 0 && v.ArrayRef? {
        r := FlattenInto(heap, r, heap[v.arrayId], depth - 1);
      } else {
        r := r + [v];
      }
    }
    assert source[..|source|] == source;
  }

  /** `push(x)` followed by `pop()` returns x and restores the contents. */
  method PushThenPop(a: JsArray, x: Value) returns (n: nat, v: Value)
    modifies a
    ensures n == |old(a.elems)| + 1
    ensures v == x && a.elems == old(a.elems)
  {
    n := a.Push(x);
    v := a.Pop();
  }
}
