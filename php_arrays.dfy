/**
 * PHP values as the filter sees them: strings, ordered keyed arrays and
 * every other scalar, with the few runtime operations the filter relies on
 * (`empty()`, key lookup, `array_merge`, `Arr::flatten` and the conversion
 * between integer keys and their decimal spelling).
 */
module PhpArrays {

  datatype Option<T> = None | Some(value: T)

  datatype Result<T, E> = Ok(value: T) | Err(error: E)

  /**
   * An array key, written as PHP's `(string) $key` spells it. PHP stores a
   * string that is a canonical decimal integer as that integer, so a key and
   * its spelling determine each other; `IsIntKey` tells the two kinds apart.
   */
  type Key = string

  /**
   * A PHP value. `Other` is any scalar that is neither a string nor an array
   * (null, bool, int, float); `blank` says whether `empty()` holds of it.
   */
  datatype Value = Str(s: string) | Other(blank: bool) | Node(items: seq<Item>)

  datatype Item = Item(key: Key, val: Value)

  /** PHP's `empty()` on a value that is present. */
  predicate Blank(v: Value)
  {
    match v
    case Str(s) => s == "" || s == "0"
    case Other(b) => b
    case Node(items) => items == []
  }

  /** PHP's `empty($m[$k])` on a keyed map of options: a missing key is empty. */
  predicate BlankAt(m: map<string, Value>, k: string)
  {
    k !in m || Blank(m[k])
  }

  /** `$array[$k]` on an array: the value stored under key `k`, if any. */
  function Lookup(items: seq<Item>, k: Key): (r: Option<Value>)
    ensures r.Some? <==> exists i :: 0 <= i < |items| && items[i].key == k
    ensures r.Some? ==> exists i :: 0 <= i < |items| && items[i].key == k && items[i].val == r.value
  {
    if items == [] then None
    else if items[0].key == k then Some(items[0].val)
    else
      var r := Lookup(items[1..], k);
      assert forall i :: 1 <= i < |items| ==> items[i] == items[1..][i - 1];
      r
  }

  function Keys(items: seq<Item>): seq<Key>
  {
    if items == [] then [] else [items[0].key] + Keys(items[1..])
  }

  /** No key occurs twice in one array: true of every PHP array. */
  predicate UniqueKeys(items: seq<Item>)
  {
    forall i, j :: 0 <= i < j < |items| ==> items[i].key != items[j].key
  }

  /** The values of an array, in order (PHP's `array_values`). */
  function Values(items: seq<Item>): (r: seq<Value>)
    ensures |r| == |items|
    ensures forall i :: 0 <= i < |items| ==> r[i] == items[i].val
  {
    if items == [] then [] else [items[0].val] + Values(items[1..])
  }

  /** An array holding the given values under the keys 0, 1, 2, ... */
  function List(vals: seq<Value>): (r: seq<Item>)
    ensures Values(r) == vals
    ensures forall i :: 0 <= i < |r| ==> r[i].key == Decimal(i)
  {
    seq(|vals|, i requires 0 <= i < |vals| => Item(Decimal(i), vals[i]))
  }

  predicate IsLeaf(v: Value)
  {
    !v.Node?
  }

  /**
   * `Arr::flatten` with unlimited depth: the non-array values of a nested
   * array, depth first, in order, keys dropped.
   */
  function Flatten(items: seq<Item>): (r: seq<Value>)
    ensures forall i :: 0 <= i < |r| ==> IsLeaf(r[i])
  {
    if items == [] then []
    else
      (if items[0].val.Node? then Flatten(items[0].val.items) else [items[0].val]) + Flatten(items[1..])
  }

  lemma {:induction false} FlattenAppend(a: seq<Item>, b: seq<Item>)
    ensures Flatten(a + b) == Flatten(a) + Flatten(b)
  {
    if a == [] {
      assert a + b == b;
    } else {
      assert (a + b)[0] == a[0];
      assert (a + b)[1..] == a[1..] + b;
      FlattenAppend(a[1..], b);
    }
  }

  /** An array of leaves flattens to its own values. */
  lemma {:induction false} FlattenLeaves(items: seq<Item>)
    requires forall i :: 0 <= i < |items| ==> IsLeaf(items[i].val)
    ensures Flatten(items) == Values(items)
  {
    if items != [] {
      FlattenLeaves(items[1..]);
    }
  }

  /** Flattening is idempotent: flattening the flattened list changes nothing. */
  lemma FlattenIdempotent(items: seq<Item>)
    ensures Flatten(List(Flatten(items))) == Flatten(items)
  {
    var l := List(Flatten(items));
    FlattenLeaves(l);
  }

  /** The string values among flattened leaves (the `is_string` filter). */
  function Strings(vals: seq<Value>): (r: seq<string>)
    ensures |r| <= |vals|
  {
    if vals == [] then []
    else (if vals[0].Str? then [vals[0].s] else []) + Strings(vals[1..])
  }

  lemma {:induction false} StringsAppend(a: seq<Value>, b: seq<Value>)
    ensures Strings(a + b) == Strings(a) + Strings(b)
  {
    if a == [] {
      assert a + b == b;
    } else {
      assert (a + b)[0] == a[0] && (a + b)[1..] == a[1..] + b;
      StringsAppend(a[1..], b);
      var h := if a[0].Str? then [a[0].s] else [];
      assert Strings(a + b) == h + (Strings(a[1..]) + Strings(b));
      assert h + (Strings(a[1..]) + Strings(b)) == (h + Strings(a[1..])) + Strings(b);
    }
  }

  // ---------------------------------------------------------------------
  // array_merge

  /** Number of integer-keyed entries: the next index array_merge assigns. */
  function IntCount(items: seq<Item>): nat
  {
    if items == [] then 0 else (if IsIntKey(items[0].key) then 1 else 0) + IntCount(items[1..])
  }

  /** Store `v` under string key `k`: overwrite in place, or append. */
  function Put(items: seq<Item>, k: Key, v: Value): seq<Item>
  {
    if items == [] then [Item(k, v)]
    else if items[0].key == k then [Item(k, v)] + items[1..]
    else [items[0]] + Put(items[1..], k, v)
  }

  /** One step of array_merge: integer keys are renumbered, string keys overwrite. */
  function MergeStep(acc: seq<Item>, it: Item): seq<Item>
  {
    if IsIntKey(it.key) then acc + [Item(Decimal(IntCount(acc)), it.val)]
    else Put(acc, it.key, it.val)
  }

  function MergeInto(acc: seq<Item>, items: seq<Item>): seq<Item>
    decreases |items|
  {
    if items == [] then acc else MergeInto(MergeStep(acc, items[0]), items[1..])
  }

  /** PHP's `array_merge($a, $b)`. */
  function ArrayMerge(a: seq<Item>, b: seq<Item>): seq<Item>
  {
    MergeInto(MergeInto([], a), b)
  }

  predicate IsList(items: seq<Item>)
  {
    forall i :: 0 <= i < |items| ==> IsIntKey(items[i].key)
  }

  lemma {:induction false} MergeIntoList(acc: seq<Item>, items: seq<Item>)
    requires IsList(items)
    ensures Values(MergeInto(acc, items)) == Values(acc) + Values(items)
    ensures IsList(acc) ==> IsList(MergeInto(acc, items))
    decreases |items|
  {
    if items != [] {
      var next := MergeStep(acc, items[0]);
      DecimalIsIntKey(IntCount(acc));
      assert next == acc + [Item(Decimal(IntCount(acc)), items[0].val)];
      assert Values(next) == Values(acc) + [items[0].val];
      MergeIntoList(next, items[1..]);
      assert Values(items) == [items[0].val] + Values(items[1..]);
    }
  }

  /**
   * Merging two lists keeps every value of the first, in order, followed by
   * every value of the second.
   */
  lemma ArrayMergeLists(a: seq<Item>, b: seq<Item>)
    requires IsList(a) && IsList(b)
    ensures Values(ArrayMerge(a, b)) == Values(a) + Values(b)
    ensures IsList(ArrayMerge(a, b))
  {
    var empty: seq<Item> := [];
    MergeIntoList(empty, a);
    var merged := MergeInto(empty, a);
    assert Values(merged) == Values(a);
    assert IsList(merged);
    MergeIntoList(merged, b);
  }

  predicate HasKey(items: seq<Item>, k: Key)
  {
    exists i :: 0 <= i < |items| && items[i].key == k
  }

  /** Storing under a key the array does not hold appends the entry. */
  lemma {:induction false} PutAbsent(items: seq<Item>, k: Key, v: Value)
    requires !HasKey(items, k)
    ensures Put(items, k, v) == items + [Item(k, v)]
  {
    if items != [] {
      assert items[0].key != k;
      assert !HasKey(items[1..], k) by {
        forall i | 0 <= i < |items[1..]| ensures items[1..][i].key != k {
          assert items[1..][i] == items[i + 1];
        }
      }
      PutAbsent(items[1..], k, v);
      assert items == [items[0]] + items[1..];
    }
  }

  /** The string keys of `items` that `acc` already holds: none, for a merge that only appends. */
  predicate FreshStringKeys(acc: seq<Item>, items: seq<Item>)
  {
    forall j :: 0 <= j < |items| && !IsIntKey(items[j].key) ==> !HasKey(acc, items[j].key)
  }

  /** Every key of `r` is an integer key or comes from `acc` or `items`. */
  predicate KeysFrom(r: seq<Item>, acc: seq<Item>, items: seq<Item>)
  {
    forall i :: 0 <= i < |r| ==> IsIntKey(r[i].key) || HasKey(acc, r[i].key) || HasKey(items, r[i].key)
  }

  /** One entry merged in: it is appended, under a renumbered key or its own string key. */
  lemma MergeStepAppends(acc: seq<Item>, it: Item)
    requires !IsIntKey(it.key) ==> !HasKey(acc, it.key)
    ensures |MergeStep(acc, it)| == |acc| + 1
    ensures MergeStep(acc, it) == acc + [Item(MergeStep(acc, it)[|acc|].key, it.val)]
    ensures IsIntKey(MergeStep(acc, it)[|acc|].key) || MergeStep(acc, it)[|acc|].key == it.key
  {
    if IsIntKey(it.key) {
      DecimalIsIntKey(IntCount(acc));
    } else {
      PutAbsent(acc, it.key, it.val);
    }
  }

  /**
   * Merging entries whose string keys are new appends their values in
   * order; the keys of the result are integer keys or keys of the inputs.
   */
  lemma {:induction false} MergeIntoAppends(acc: seq<Item>, items: seq<Item>)
    requires UniqueKeys(items) && FreshStringKeys(acc, items)
    ensures Values(MergeInto(acc, items)) == Values(acc) + Values(items)
    ensures KeysFrom(MergeInto(acc, items), acc, items)
    decreases |items|
  {
    if items != [] {
      var it := items[0];
      MergeStepAppends(acc, it);
      var next := MergeStep(acc, it);
      var k := next[|acc|].key;
      FreshAfterStep(acc, items, k, next);
      MergeIntoAppends(next, items[1..]);
      ValuesAfterStep(acc, items, k, next);
      KeysFromStep(MergeInto(next, items[1..]), acc, items, k, next);
    }
  }

  /** The values after one merge step, then the rest: the values before it, then all entries. */
  lemma ValuesAfterStep(acc: seq<Item>, items: seq<Item>, k: Key, next: seq<Item>)
    requires items != [] && next == acc + [Item(k, items[0].val)]
    ensures Values(next) + Values(items[1..]) == Values(acc) + Values(items)
  {
    var l := Values(next) + Values(items[1..]);
    var r := Values(acc) + Values(items);
    forall i | 0 <= i < |l| ensures l[i] == r[i] {
      if i > |acc| {
        assert items[1..][i - |acc| - 1] == items[i - |acc|];
      }
    }
  }

  lemma ValuesAppend(a: seq<Item>, b: seq<Item>)
    ensures Values(a + b) == Values(a) + Values(b)
  {
  }

  /** The rest of the entries still bring only new string keys after the first is merged. */
  lemma FreshAfterStep(acc: seq<Item>, items: seq<Item>, k: Key, next: seq<Item>)
    requires items != [] && UniqueKeys(items) && FreshStringKeys(acc, items)
    requires next == acc + [Item(k, items[0].val)]
    requires IsIntKey(k) || k == items[0].key
    ensures UniqueKeys(items[1..]) && FreshStringKeys(next, items[1..])
  {
    forall j | 0 <= j < |items[1..]| && !IsIntKey(items[1..][j].key) ensures !HasKey(next, items[1..][j].key) {
      var key := items[1..][j].key;
      assert key == items[j + 1].key;
      assert !HasKey(acc, key);
      assert key != k;
    }
  }

  /** Keys that come from the state after the first step come from the original inputs. */
  lemma KeysFromStep(r: seq<Item>, acc: seq<Item>, items: seq<Item>, k: Key, next: seq<Item>)
    requires items != [] && KeysFrom(r, next, items[1..])
    requires next == acc + [Item(k, items[0].val)]
    requires IsIntKey(k) || k == items[0].key
    ensures KeysFrom(r, acc, items)
  {
    forall i | 0 <= i < |r| ensures IsIntKey(r[i].key) || HasKey(acc, r[i].key) || HasKey(items, r[i].key) {
      var key := r[i].key;
      if HasKey(next, key) && !IsIntKey(key) {
        var m :| 0 <= m < |next| && next[m].key == key;
        if m < |acc| {
          assert acc[m].key == key;
        } else {
          assert items[0].key == key;
        }
      } else if HasKey(items[1..], key) {
        var m :| 0 <= m < |items[1..]| && items[1..][m].key == key;
        assert items[m + 1].key == key;
      }
    }
  }

  /**
   * `array_merge` of two arrays that share no string key: the values of the
   * first, then the values of the second, whatever the keys.
   */
  lemma ArrayMergeAppends(a: seq<Item>, b: seq<Item>)
    requires UniqueKeys(a) && UniqueKeys(b) && FreshStringKeys(a, b)
    ensures Values(ArrayMerge(a, b)) == Values(a) + Values(b)
  {
    var empty: seq<Item> := [];
    assert FreshStringKeys(empty, a);
    MergeIntoAppends(empty, a);
    var merged := MergeInto(empty, a);
    assert Values(merged) == Values(a) by {
      assert Values(empty) + Values(a) == Values(a);
    }
    FreshThroughMerge(merged, a, b);
    MergeIntoAppends(merged, b);
  }

  /** A list has distinct integer keys, so it shares no string key with any array. */
  lemma ListKeys(vals: seq<Value>, b: seq<Item>)
    ensures UniqueKeys(List(vals)) && FreshStringKeys(List(vals), b)
  {
    var l := List(vals);
    forall i, j | 0 <= i < j < |l| ensures l[i].key != l[j].key {
      DecimalIsIntKey(i);
      DecimalIsIntKey(j);
    }
    forall j | 0 <= j < |b| && !IsIntKey(b[j].key) ensures !HasKey(l, b[j].key) {
      ListKeyIsInt(vals, b[j].key);
    }
  }

  /** Every key of a list is an integer key. */
  lemma ListKeyIsInt(vals: seq<Value>, k: Key)
    ensures HasKey(List(vals), k) ==> IsIntKey(k)
  {
    if HasKey(List(vals), k) {
      var m :| 0 <= m < |List(vals)| && List(vals)[m].key == k;
      DecimalIsIntKey(m);
    }
  }

  /** Keys drawn from `a` (or integer keys) leave the string keys of `b` new. */
  lemma FreshThroughMerge(merged: seq<Item>, a: seq<Item>, b: seq<Item>)
    requires KeysFrom(merged, [], a) && FreshStringKeys(a, b)
    ensures FreshStringKeys(merged, b)
  {
    forall j | 0 <= j < |b| && !IsIntKey(b[j].key) ensures !HasKey(merged, b[j].key) {
      KeyDrawnFrom(merged, a, b[j].key);
    }
  }

  /** A key held by an array whose keys come from `a` is an integer key or a key of `a`. */
  lemma KeyDrawnFrom(merged: seq<Item>, a: seq<Item>, k: Key)
    requires KeysFrom(merged, [], a)
    ensures HasKey(merged, k) ==> IsIntKey(k) || HasKey(a, k)
  {
    if HasKey(merged, k) {
      var m :| 0 <= m < |merged| && merged[m].key == k;
      var empty: seq<Item> := [];
      assert !HasKey(empty, k);
    }
  }

  // ---------------------------------------------------------------------
  // Integer keys and their decimal spelling

  predicate IsDigit(c: char)
  {
    '0' <= c <= '9'
  }

  function DigitChar(d: nat): (c: char)
    requires d < 10
    ensures IsDigit(c) && c as int - '0' as int == d
  {
    ('0' as int + d) as char
  }

  /** Decimal spelling of a natural number, no leading zeros. */
  function Decimal(n: nat): (r: string)
    ensures |r| > 0
    ensures forall i :: 0 <= i < |r| ==> IsDigit(r[i])
    ensures r[0] == '0' ==> r == "0"
  {
    if n < 10 then [DigitChar(n)] else Decimal(n / 10) + [DigitChar(n % 10)]
  }

  /** The number a string of digits denotes. */
  function DigitsValue(s: string): nat
    requires forall i :: 0 <= i < |s| ==> IsDigit(s[i])
  {
    if s == [] then 0
    else
      var last := s[|s| - 1];
      assert IsDigit(last);
      DigitsValue(s[..|s| - 1]) * 10 + (last as int - '0' as int)
  }

  lemma {:induction false} DigitsValueDecimal(n: nat)
    ensures DigitsValue(Decimal(n)) == n
  {
    if n >= 10 {
      var d := Decimal(n);
      assert d[..|d| - 1] == Decimal(n / 10);
      DigitsValueDecimal(n / 10);
    }
  }

  /** A non-empty digit string without a superfluous leading zero. */
  predicate CanonicalDigits(s: string)
  {
    |s| > 0 && (forall i :: 0 <= i < |s| ==> IsDigit(s[i])) && (s[0] == '0' ==> |s| == 1)
  }

  /** The integer a string key stands for when PHP stores it as an integer key. */
  function IntOfKeyString(s: string): Option<int>
  {
    if CanonicalDigits(s) then Some(DigitsValue(s))
    else if |s| > 1 && s[0] == '-' && CanonicalDigits(s[1..]) && s[1..] != "0" then Some(0 - DigitsValue(s[1..]))
    else None
  }

  /** Whether PHP stores the key `k` as an integer. */
  predicate IsIntKey(k: Key)
  {
    IntOfKeyString(k).Some?
  }

  /** The decimal spelling of `n` is the integer key `n`. */
  lemma DecimalIsIntKey(n: nat)
    ensures IntOfKeyString(Decimal(n)) == Some(n)
  {
    DigitsValueDecimal(n);
  }
}
