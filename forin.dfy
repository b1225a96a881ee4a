/** The for-in iterator (ECMA-262 section 14.7.5.10): it walks a target
    and then its prototypes, one level at a time; each level's keys are
    captured when the level begins, and each key is re-checked for presence
    and enumerability just before it is yielded.  A key is never yielded
    twice. */
module ForIn {
  import opened JsValues
  import JsString
  import JsArray
  import JsObject

  /** One level of the walk: an object literal, a JavaScript array, or a
      string. */
  datatype Level =
    | ObjectLevel(obj: JsObject.PropertyBag)
    | ArrayLevel(arr: JsArray.JsArray)
    | StringLevel(s: string)

  function ObjectsOf(levels: seq<Level>): set<object>
  {
    (set i | 0 <= i < |levels| && levels[i].ObjectLevel? :: levels[i].obj as object)
    + (set i | 0 <= i < |levels| && levels[i].ArrayLevel? :: levels[i].arr as object)
  }

  /** `int.TryParse` applied to a key of an index snapshot: a non-empty run
      of decimal digits and its value. */
  function ParseIndex(key: string): (r: Option<nat>)
    ensures r.Some? <==> |key| >= 1 && JsObject.AllDigits(key)
  {
    if |key| >= 1 && JsObject.AllDigits(key) then Some(JsString.DigitsValue(key)) else None
  }

  /** The presence check of an array or string level: the key names an
      index below the current length. */
  predicate IndexPresent(key: string, length: nat)
  {
    ParseIndex(key).Some? && ParseIndex(key).value < length
  }

  /** The keys of an array or string of length n: "0", "1", ... */
  function IndexKeys(n: nat): (r: seq<string>)
    ensures |r| == n
    ensures forall i :: 0 <= i < n ==> r[i] == JsObject.DecimalString(i)
  {
    if n == 0 then [] else IndexKeys(n - 1) + [JsObject.DecimalString(n - 1)]
  }

  /** Index keys parse back to their position. */
  lemma IndexKeyParses(i: nat)
    ensures ParseIndex(JsObject.DecimalString(i)) == Some(i)
  {
  }

  /** No index key appears twice. */
  lemma IndexKeysDistinct(n: nat)
    ensures forall i, j :: 0 <= i < j < n ==> IndexKeys(n)[i] != IndexKeys(n)[j]
  {
    forall i, j | 0 <= i < j < n
      ensures IndexKeys(n)[i] != IndexKeys(n)[j]
    {
      IndexKeyParses(i);
      IndexKeyParses(j);
    }
  }

  /** An index key of the snapshot is yielded later only while its index is
      still below the current length. */
  lemma IndexKeyPresentIffInBounds(n: nat, i: nat, length: nat)
    requires i < n
    ensures IndexPresent(IndexKeys(n)[i], length) <==> i < length
  {
    IndexKeyParses(i);
  }

  /** The enumerable own keys of an object level. */
  function EnumerableKeys(props: map<string, JsObject.PropertyDescriptor>): set<string>
  {
    set k | k in props && props[k].enumerable
  }

  /** `IsEnumerableAndPresent`: the key is an own enumerable property of
      the object, or an index below the length of the array or string. */
  predicate IsEnumerableAndPresent(l: Level, key: string)
    reads if l.ObjectLevel? then {l.obj} else {}
    reads if l.ArrayLevel? then {l.arr} else {}
  {
    match l
    case ObjectLevel(obj) => key in EnumerableKeys(obj.props)
    case ArrayLevel(arr) => IndexPresent(key, |arr.elems|)
    case StringLevel(s) => IndexPresent(key, |s|)
  }

  predicate Distinct(s: seq<string>)
  {
    forall i, j :: 0 <= i < j < |s| ==> s[i] != s[j]
  }

  /** What a level's key snapshot is: the index keys of an array or string,
      or each enumerable own key of an object exactly once. */
  ghost predicate IsSnapshotOf(l: Level, keys: seq<string>)
    reads if l.ObjectLevel? then {l.obj} else {}
    reads if l.ArrayLevel? then {l.arr} else {}
  {
    match l
    case ObjectLevel(obj) =>
      Distinct(keys) && (forall k :: k in keys <==> k in EnumerableKeys(obj.props))
    case ArrayLevel(arr) => keys == IndexKeys(|arr.elems|)
    case StringLevel(s) => keys == IndexKeys(|s|)
  }

  /** Every key of a snapshot passes the presence check at the time it is
      taken. */
  lemma SnapshotKeysPresent(l: Level, keys: seq<string>, i: nat)
    requires IsSnapshotOf(l, keys) && i < |keys|
    ensures IsEnumerableAndPresent(l, keys[i])
  {
    match l
    case ObjectLevel(_) =>
    case ArrayLevel(arr) => IndexKeyPresentIffInBounds(|arr.elems|, i, |arr.elems|);
    case StringLevel(s) => IndexKeyPresentIffInBounds(|s|, i, |s|);
  }

  /** Each key of `keys` from position `from` up to `to` was passed over:
      it had already been yielded, or it was no longer present and
      enumerable. */
  ghost predicate PassedOver(l: Level, keys: seq<string>, from: nat, to: nat, seen: set<string>)
    requires from <= to <= |keys|
    reads if l.ObjectLevel? then {l.obj} else {}
    reads if l.ArrayLevel? then {l.arr} else {}
  {
    forall k :: from <= k < to ==> keys[k] in seen || !IsEnumerableAndPresent(l, keys[k])
  }

  /** Nothing on the level is left to yield: every enumerable own key of
      the object, or every index of the array or string, has been seen. */
  ghost predicate LevelPassedOver(l: Level, seen: set<string>)
    reads if l.ObjectLevel? then {l.obj} else {}
    reads if l.ArrayLevel? then {l.arr} else {}
  {
    match l
    case ObjectLevel(obj) => EnumerableKeys(obj.props) <= seen
    case ArrayLevel(arr) => forall i :: 0 <= i < |arr.elems| ==> JsObject.DecimalString(i) in seen
    case StringLevel(s) => forall i :: 0 <= i < |s| ==> JsObject.DecimalString(i) in seen
  }

  /** Passing over a whole snapshot of a level that has not changed since
      leaves nothing on that level to yield. */
  lemma SnapshotPassedOver(l: Level, keys: seq<string>, seen: set<string>)
    requires IsSnapshotOf(l, keys) && PassedOver(l, keys, 0, |keys|, seen)
    ensures LevelPassedOver(l, seen)
  {
    match l
    case ObjectLevel(obj) =>
      forall key | key in EnumerableKeys(obj.props)
        ensures key in seen
      {
        var k :| 0 <= k < |keys| && keys[k] == key;
        assert IsEnumerableAndPresent(l, keys[k]);
      }
    case ArrayLevel(arr) =>
      forall i | 0 <= i < |arr.elems|
        ensures JsObject.DecimalString(i) in seen
      {
        SnapshotKeysPresent(l, keys, i);
      }
    case StringLevel(s) =>
      forall i | 0 <= i < |s|
        ensures JsObject.DecimalString(i) in seen
      {
        SnapshotKeysPresent(l, keys, i);
      }
  }

  /** The loop that lists the indices of an array or string. */
  method IndexKeysOf(n: nat) returns (keys: seq<string>)
    ensures keys == IndexKeys(n)
  {
    keys := [];
    for i := 0 to n
      invariant keys == IndexKeys(i)
    {
      keys := keys + [JsObject.DecimalString(i)];
    }
  }

  /** The enumerable own keys of an object, in some order. */
  method EnumerableKeysOf(props: map<string, JsObject.PropertyDescriptor>) returns (keys: seq<string>)
    ensures Distinct(keys)
    ensures forall k :: k in keys <==> k in EnumerableKeys(props)
  {
    keys := [];
    var remaining := props.Keys;
    while remaining != {}
      invariant remaining <= props.Keys
      invariant Distinct(keys)
      invariant forall k :: k in keys ==> k !in remaining
      invariant forall k :: k in keys <==> k in EnumerableKeys(props) && k !in remaining
      decreases |remaining|
    {
      var k :| k in remaining;
      if props[k].enumerable {
        keys := keys + [k];
      }
      remaining := remaining - {k};
    }
  }

  /** `GetOwnEnumerableKeysSingleTarget`. */
  method OwnEnumerableKeys(l: Level) returns (keys: seq<string>)
    ensures IsSnapshotOf(l, keys)
  {
    match l
    case ObjectLevel(obj) => keys := EnumerableKeysOf(obj.props);
    case ArrayLevel(arr) => keys := IndexKeysOf(|arr.elems|);
    case StringLevel(s) => keys := IndexKeysOf(|s|);
  }

  class ForInIterator {
    /** The root, then each prototype in chain order. */
    const levels: seq<Level>
    /** The level being enumerated; past the end the iterator is done. */
    var level: nat
    /** The snapshot of the current level, once it has begun. */
    var currentKeys: Option<seq<string>>
    var currentIndex: nat
    var visited: set<string>
    /** Every key yielded so far, in order. */
    ghost var yielded: seq<string>

    ghost predicate Valid()
      reads this
    {
      && level <= |levels|
      && (currentKeys.Some? ==> level < |levels| && currentIndex <= |currentKeys.value|)
      && Distinct(yielded)
      && (forall k :: k in visited <==> k in yielded)
    }

    predicate Exhausted()
      reads this
    {
      level >= |levels|
    }

    /** A target without a prototype chain is a single level. */
    constructor (root: Level, prototypes: seq<Level>)
      ensures Valid() && !Exhausted()
      ensures levels == [root] + prototypes
      ensures visited == {} && yielded == [] && currentKeys.None?
    {
      levels := [root] + prototypes;
      level := 0;
      currentKeys := None;
      currentIndex := 0;
      visited := {};
      yielded := [];
    }

    /** The first level whose snapshot has not been taken yet. */
    ghost function FirstFreshLevel(): nat
      reads this
    {
      if currentKeys.Some? then level + 1 else level
    }

    /** `Next`: the next key not yet yielded that is still present and
        enumerable on the level whose snapshot listed it; `None` once every
        level is exhausted, and from then on.  Every key of a snapshot that
        it steps over, and every level that it leaves behind, had nothing
        left to yield. */
    method Next() returns (r: Option<string>)
      requires Valid()
      modifies this
      ensures Valid()
      ensures old(Exhausted()) ==> r.None?
      ensures r.None? ==> Exhausted() && visited == old(visited) && yielded == old(yielded)
      ensures r.Some? ==>
        && r.value !in old(visited)
        && visited == old(visited) + {r.value}
        && yielded == old(yielded) + [r.value]
        && level < |levels|
        && IsEnumerableAndPresent(levels[level], r.value)
        && currentKeys.Some? && 0 < currentIndex
        && r.value == currentKeys.value[currentIndex - 1]
      ensures old(currentKeys).Some? && level == old(level) ==> currentKeys == old(currentKeys)
      ensures currentKeys.Some? && (old(currentKeys).None? || level != old(level)) ==>
        IsSnapshotOf(levels[level], currentKeys.value)
      ensures level >= old(level)
      // Completeness: what was stepped over had nothing left to yield.
      ensures old(currentKeys).Some? && level > old(level) ==>
        PassedOver(levels[old(level)], old(currentKeys).value, old(currentIndex), |old(currentKeys).value|, old(visited))
      ensures forall l :: old(FirstFreshLevel()) <= l < level ==> LevelPassedOver(levels[l], old(visited))
      ensures r.Some? && old(currentKeys).Some? && level == old(level) ==>
        currentIndex > old(currentIndex) &&
        PassedOver(levels[level], currentKeys.value, old(currentIndex), currentIndex - 1, old(visited))
      ensures r.Some? && (old(currentKeys).None? || level != old(level)) ==>
        PassedOver(levels[level], currentKeys.value, 0, currentIndex - 1, old(visited))
    {
      while true
        invariant Valid()
        invariant level >= old(level)
        invariant visited == old(visited) && yielded == old(yielded)
        invariant old(Exhausted()) ==> currentKeys == old(currentKeys) && level == old(level)
        invariant level == old(level) ==> currentKeys == old(currentKeys) && currentIndex == old(currentIndex)
        invariant level != old(level) ==> currentKeys.None?
        invariant old(currentKeys).Some? && level > old(level) ==>
          PassedOver(levels[old(level)], old(currentKeys).value, old(currentIndex), |old(currentKeys).value|, old(visited))
        invariant forall l :: old(FirstFreshLevel()) <= l < level ==> LevelPassedOver(levels[l], old(visited))
        decreases |levels| - level
      {
        if level >= |levels| {
          return None;
        }
        r := NextOrLeaveLevel();
        if r.Some? {
          return r;
        }
      }
    }

    /** One round of `Next`'s loop: take the level's snapshot if it has not
        been taken, scan it, and move to the next level when nothing on
        this one is left. */
    method NextOrLeaveLevel() returns (r: Option<string>)
      requires Valid() && !Exhausted()
      modifies this
      ensures Valid()
      ensures r.None? ==>
        && level == old(level) + 1 && currentKeys.None?
        && visited == old(visited) && yielded == old(yielded)
        && (old(currentKeys).Some? ==>
              PassedOver(levels[old(level)], old(currentKeys).value, old(currentIndex), |old(currentKeys).value|, old(visited)))
        && (old(currentKeys).None? ==> LevelPassedOver(levels[old(level)], old(visited)))
      ensures r.Some? ==>
        && level == old(level) && currentKeys.Some?
        && (old(currentKeys).Some? ==> currentKeys == old(currentKeys) && currentIndex > old(currentIndex))
        && (old(currentKeys).None? ==> IsSnapshotOf(levels[level], currentKeys.value))
        && r.value !in old(visited)
        && visited == old(visited) + {r.value}
        && yielded == old(yielded) + [r.value]
        && IsEnumerableAndPresent(levels[level], r.value)
        && 0 < currentIndex && r.value == currentKeys.value[currentIndex - 1]
        && PassedOver(levels[level], currentKeys.value, if old(currentKeys).Some? then old(currentIndex) else 0,
                      currentIndex - 1, old(visited))
    {
      var newLevel := currentKeys.None?;
      if newLevel {
        var snapshot := OwnEnumerableKeys(levels[level]);
        currentKeys := Some(snapshot);
        currentIndex := 0;
      }
      r := NextOnLevel();
      if r.None? {
        if newLevel {
          SnapshotPassedOver(levels[level], currentKeys.value, visited);
        }
        currentKeys := None;
        level := level + 1;
      }
    }

    /** The inner loop of `Next`: scan the current snapshot from the current
        position, skipping keys already yielded and keys no longer present
        or enumerable. */
    method NextOnLevel() returns (r: Option<string>)
      requires Valid() && currentKeys.Some?
      modifies this
      ensures Valid()
      ensures level == old(level) && currentKeys == old(currentKeys)
      ensures currentIndex >= old(currentIndex)
      ensures r.None? ==> visited == old(visited) && yielded == old(yielded)
      ensures r.None? ==>
        && currentIndex == |currentKeys.value|
        && PassedOver(levels[level], currentKeys.value, old(currentIndex), currentIndex, old(visited))
      ensures r.Some? ==>
        && r.value !in old(visited)
        && visited == old(visited) + {r.value}
        && yielded == old(yielded) + [r.value]
        && IsEnumerableAndPresent(levels[level], r.value)
        && currentIndex > old(currentIndex)
        && r.value == currentKeys.value[currentIndex - 1]
        && PassedOver(levels[level], currentKeys.value, old(currentIndex), currentIndex - 1, old(visited))
    {
      var keys := currentKeys.value;
      while currentIndex < |keys|
        invariant Valid()
        invariant level == old(level) && currentKeys == old(currentKeys)
        invariant old(currentIndex) <= currentIndex <= |keys|
        invariant visited == old(visited) && yielded == old(yielded)
        invariant PassedOver(levels[level], keys, old(currentIndex), currentIndex, visited)
        decreases |keys| - currentIndex
      {
        var key := keys[currentIndex];
        currentIndex := currentIndex + 1;
        if key in visited {
          continue;
        }
        if !IsEnumerableAndPresent(levels[level], key) {
          continue;
        }
        visited := visited + {key};
        yielded := yielded + [key];
        return Some(key);
      }
      return None;
    }
  }
}
