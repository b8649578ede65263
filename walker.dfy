/**
 * The structured walker: `findBadWordsInArray` lists the dot-joined key
 * paths of the dirty string leaves of a nested array, depth first, and
 * `cleanArray` / `cleanArrayKey` rewrite the leaf at each listed path.
 */
module Walker {
  import opened PhpArrays
  import opened Text

  /** A path of keys from the top of a nested array down to one of its entries. */
  type Path = seq<Key>

  /** The position of the first entry with key `k`. */
  function IndexOf(items: seq<Item>, k: Key): (r: Option<nat>)
    ensures r.Some? ==> r.value < |items| && items[r.value].key == k
    ensures r.Some? ==> forall j :: 0 <= j < r.value ==> items[j].key != k
    ensures r.None? ==> forall j :: 0 <= j < |items| ==> items[j].key != k
  {
    if items == [] then None
    else if items[0].key == k then Some(0)
    else
      match IndexOf(items[1..], k)
      case None => None
      case Some(i) => Some(i + 1)
  }

  /** The value reached by following `path` (`$array[$k1][$k2]...`); the empty path reaches the array itself. */
  function At(items: seq<Item>, path: Path): Option<Value>
    decreases |path|
  {
    if path == [] then Some(Node(items))
    else
      match IndexOf(items, path[0])
      case None => None
      case Some(i) =>
        if |path| == 1 then Some(items[i].val)
        else if items[i].val.Node? then At(items[i].val.items, path[1..])
        else None
  }

  /** The string reached by `path`, if it reaches a string. */
  predicate StringAt(items: seq<Item>, path: Path)
  {
    At(items, path).Some? && At(items, path).value.Str?
  }

  /**
   * `cleanArrayKey` along a path that is already split into keys: the
   * string at the end of the path is rewritten by `f`; a path that does not
   * reach a string changes nothing.
   */
  function UpdateAt(items: seq<Item>, path: Path, f: string -> string): (r: seq<Item>)
    ensures |r| == |items|
    ensures forall j :: 0 <= j < |r| ==> r[j].key == items[j].key
    decreases |path|
  {
    if path == [] then items
    else
      match IndexOf(items, path[0])
      case None => items
      case Some(i) =>
        var v := items[i].val;
        if |path| == 1 then
          if v.Str? then items[i := Item(path[0], Str(f(v.s)))] else items
        else if v.Node? then items[i := Item(path[0], Node(UpdateAt(v.items, path[1..], f)))]
        else items
  }

  /** One more key: `$array[$k]` of what the path reached, when that is an array holding `k`. */
  function Next(o: Option<Value>, k: Key): Option<Value>
  {
    if o.Some? && o.value.Node? then
      match IndexOf(o.value.items, k)
      case None => None
      case Some(i) => Some(o.value.items[i].val)
    else None
  }

  /** Following a path key by key, from the top down, reaches what `At` reaches. */
  lemma {:induction false} AtSnoc(items: seq<Item>, p: Path, k: Key)
    ensures At(items, p + [k]) == Next(At(items, p), k)
    decreases |p|
  {
    if p != [] {
      assert (p + [k])[0] == p[0] && (p + [k])[1..] == p[1..] + [k];
      match IndexOf(items, p[0]) {
        case None =>
        case Some(i) =>
          if |p| > 1 && items[i].val.Node? {
            AtSnoc(items[i].val.items, p[1..], k);
          }
      }
    }
  }

  /** Once a prefix of a path reaches nothing, the whole path reaches nothing. */
  lemma {:induction false} AtNonePersists(items: seq<Item>, p: Path, i: nat)
    requires i <= |p| && At(items, p[..i]) == None
    ensures At(items, p) == None
    decreases |p| - i
  {
    if i < |p| {
      AtSnoc(items, p[..i], p[i]);
      assert p[..i] + [p[i]] == p[..i + 1];
      AtNonePersists(items, p, i + 1);
    } else {
      assert p[..i] == p;
    }
  }

  /**
   * Rewriting along the rest of a path, from its `i`-th key: the entry
   * holding that key is replaced by the rewritten string, or by the array
   * below it rewritten along the keys after it.
   */
  lemma UpdateAtStep(items: seq<Item>, p: Path, i: nat, pos: nat, f: string -> string)
    requires i < |p| && IndexOf(items, p[i]) == Some(pos)
    ensures var v := items[pos].val;
      UpdateAt(items, p[i..], f)
      == if i + 1 == |p| then (if v.Str? then items[pos := Item(p[i], Str(f(v.s)))] else items)
         else if v.Node? then items[pos := Item(p[i], Node(UpdateAt(v.items, p[i + 1..], f)))]
         else items
  {
    assert p[i..][0] == p[i] && p[i..][1..] == p[i + 1..];
  }

  /**
   * The arrays a path passes through, from the top down, and the position of
   * the path's key in each: `levels[j]` is reached by the first `j` keys.
   */
  predicate Trail(items: seq<Item>, path: Path, levels: seq<seq<Item>>, positions: seq<nat>)
  {
    |levels| == |positions| == |path|
    && (|path| > 0 ==> levels[0] == items)
    && (forall j :: 0 <= j < |path| ==> IndexOf(levels[j], path[j]) == Some(positions[j]))
    && (forall j :: 0 <= j < |path| - 1 ==> levels[j][positions[j]].val == Node(levels[j + 1]))
  }

  /** One more key of the path found in the array reached so far extends the trail by that array. */
  lemma TrailStep(arr: seq<Item>, path: Path, i: nat, levels: seq<seq<Item>>, positions: seq<nat>,
                  items: seq<Item>, pos: nat)
    requires i < |path| && Trail(arr, path[..i], levels, positions)
    requires i == 0 ==> items == arr
    requires i > 0 ==> levels[i - 1][positions[i - 1]].val == Node(items)
    requires IndexOf(items, path[i]) == Some(pos)
    ensures Trail(arr, path[..i + 1], levels + [items], positions + [pos])
  {
    var lv, ps := levels + [items], positions + [pos];
    assert forall j :: 0 <= j < i ==> path[..i + 1][j] == path[..i][j];
    assert forall j :: 0 <= j < i ==> lv[j] == levels[j] && ps[j] == positions[j];
  }

  /** Arrays with the same keys in the same order find a key at the same position. */
  lemma {:induction false} IndexOfSameKeys(a: seq<Item>, b: seq<Item>, k: Key)
    requires |a| == |b| && forall j :: 0 <= j < |a| ==> a[j].key == b[j].key
    ensures IndexOf(a, k) == IndexOf(b, k)
  {
    if a != [] && a[0].key != k {
      IndexOfSameKeys(a[1..], b[1..], k);
    }
  }

  predicate IsPrefix(q: Path, p: Path)
  {
    |q| <= |p| && p[..|q|] == q
  }

  /**
   * Rewriting one path changes the string there and nothing else: every
   * path that is not a prefix of the rewritten one (and so not an array
   * enclosing it) reaches what it reached before.
   */
  lemma UpdateAtChangesOnlyItsPath(items: seq<Item>, p: Path, f: string -> string, q: Path)
    ensures StringAt(items, p) ==> At(UpdateAt(items, p, f), p) == Some(Str(f(At(items, p).value.s)))
    ensures !StringAt(items, p) ==> UpdateAt(items, p, f) == items
    ensures !IsPrefix(q, p) ==> At(UpdateAt(items, p, f), q) == At(items, q)
  {
    if StringAt(items, p) {
      UpdateAtRewrites(items, p, f);
    } else {
      UpdateAtMissing(items, p, f);
    }
    if !IsPrefix(q, p) {
      UpdateAtKeepsOthers(items, p, f, q);
    }
  }

  /** The string at the path is rewritten. */
  lemma {:induction false} UpdateAtRewrites(items: seq<Item>, p: Path, f: string -> string)
    requires StringAt(items, p)
    ensures At(UpdateAt(items, p, f), p) == Some(Str(f(At(items, p).value.s)))
    decreases |p|
  {
    var i := IndexOf(items, p[0]).value;
    IndexOfSameKeys(items, UpdateAt(items, p, f), p[0]);
    if |p| > 1 {
      UpdateAtRewrites(items[i].val.items, p[1..], f);
    }
  }

  /** A path that reaches no string changes nothing. */
  lemma {:induction false} UpdateAtMissing(items: seq<Item>, p: Path, f: string -> string)
    requires !StringAt(items, p)
    ensures UpdateAt(items, p, f) == items
    decreases |p|
  {
    if p != [] && IndexOf(items, p[0]).Some? {
      var i := IndexOf(items, p[0]).value;
      var v := items[i].val;
      if |p| > 1 && v.Node? {
        UpdateAtMissing(v.items, p[1..], f);
        assert items[i] == Item(p[0], Node(v.items));
      }
    }
  }

  /** Every path that is not a prefix of the rewritten one reaches what it reached before. */
  lemma {:induction false} UpdateAtKeepsOthers(items: seq<Item>, p: Path, f: string -> string, q: Path)
    requires !IsPrefix(q, p)
    ensures At(UpdateAt(items, p, f), q) == At(items, q)
    decreases |p|
  {
    if p != [] && IndexOf(items, p[0]).Some? {
      PrefixHead(q, p);
      if q[0] == p[0] {
        UpdateAtBelow(items, p, f, q);
      } else {
        UpdateAtOtherKey(items, p, f, q);
      }
    }
  }

  /** A path that starts with another key goes down another entry, which is left as it was. */
  lemma UpdateAtOtherKey(items: seq<Item>, p: Path, f: string -> string, q: Path)
    requires p != [] && q != [] && q[0] != p[0]
    ensures At(UpdateAt(items, p, f), q) == At(items, q)
  {
    var r := UpdateAt(items, p, f);
    IndexOfSameKeys(items, r, q[0]);
    match IndexOf(items, q[0]) {
      case None =>
      case Some(j) =>
        assert r[j] == items[j];
    }
  }

  /** Paths with the same first key: one is a prefix of the other exactly when their tails are. */
  lemma PrefixHead(q: Path, p: Path)
    ensures q != [] && p != [] && q[0] == p[0] ==> (IsPrefix(q, p) <==> IsPrefix(q[1..], p[1..]))
  {
    if q != [] && p != [] && q[0] == p[0] && |q| <= |p| {
      assert p[..|q|] == [p[0]] + p[1..][..|q| - 1];
      assert q == [q[0]] + q[1..];
    }
  }

  /** The case of a path that shares the first key with the rewritten one but goes elsewhere below it. */
  lemma {:induction false} UpdateAtBelow(items: seq<Item>, p: Path, f: string -> string, q: Path)
    requires p != [] && IndexOf(items, p[0]).Some? && |q| > 1 && q[0] == p[0] && !IsPrefix(q, p)
    ensures At(UpdateAt(items, p, f), q) == At(items, q)
    decreases |p|, 0
  {
    var r := UpdateAt(items, p, f);
    var i := IndexOf(items, p[0]).value;
    IndexOfSameKeys(items, r, p[0]);
    var v := items[i].val;
    if |p| > 1 && v.Node? {
      PrefixHead(q, p);
      UpdateAtKeepsOthers(v.items, p[1..], f, q[1..]);
    }
  }

  /** The key `findBadWordsInArray` builds for an entry: the parent's key, a dot, its own key. */
  function Extend(prefix: Option<string>, k: Key): string
  {
    if prefix.Some? then prefix.value + "." + k else k
  }

  /**
   * `findBadWordsInArray`: the dotted keys of the dirty string leaves,
   * depth first; non-string leaves are skipped, and the keys found below
   * an array are flattened into the list where that array stands.
   */
  function DirtyKeys(items: seq<Item>, prefix: Option<string>, dirty: string -> bool): seq<string>
  {
    if items == [] then []
    else
      var key := Extend(prefix, items[0].key);
      (match items[0].val
       case Node(children) => DirtyKeys(children, Some(key), dirty)
       case Str(s) => if dirty(s) then [key] else []
       case Other(_) => [])
      + DirtyKeys(items[1..], prefix, dirty)
  }

  /** What one entry contributes to the walk: its own key if it is a dirty string, the keys below it if it is an array. */
  function EntryKeys(it: Item, prefix: Option<string>, dirty: string -> bool): seq<string>
  {
    var key := Extend(prefix, it.key);
    match it.val
    case Node(children) => DirtyKeys(children, Some(key), dirty)
    case Str(s) => if dirty(s) then [key] else []
    case Other(_) => []
  }

  /** The walk from position `i` on is the entry at `i` followed by the walk from `i + 1`. */
  lemma DirtyKeysStep(items: seq<Item>, i: nat, prefix: Option<string>, dirty: string -> bool)
    requires i < |items|
    ensures DirtyKeys(items[i..], prefix, dirty)
            == EntryKeys(items[i], prefix, dirty) + DirtyKeys(items[i + 1..], prefix, dirty)
  {
    assert items[i..][0] == items[i] && items[i..][1..] == items[i + 1..];
  }

  /** A walk that has covered the entries before `i` and adds the keys of entry `i` has covered the entries before `i + 1`. */
  lemma KeysLoopStep(items: seq<Item>, i: nat, prefix: Option<string>, dirty: string -> bool, acc: seq<string>, entry: seq<string>)
    requires i < |items|
    requires acc + DirtyKeys(items[i..], prefix, dirty) == DirtyKeys(items, prefix, dirty)
    requires entry == EntryKeys(items[i], prefix, dirty)
    ensures (acc + entry) + DirtyKeys(items[i + 1..], prefix, dirty) == DirtyKeys(items, prefix, dirty)
  {
    DirtyKeysStep(items, i, prefix, dirty);
    assert (acc + entry) + DirtyKeys(items[i + 1..], prefix, dirty) == acc + (entry + DirtyKeys(items[i + 1..], prefix, dirty));
  }

  /** Every path of `ps` with `k` put in front. */
  function Under(k: Key, ps: seq<Path>): (r: seq<Path>)
    ensures |r| == |ps| && forall j :: 0 <= j < |ps| ==> r[j] == [k] + ps[j]
  {
    seq(|ps|, j requires 0 <= j < |ps| => [k] + ps[j])
  }

  /** What one entry contributes to the walk of key paths. */
  function EntryPaths(it: Item, dirty: string -> bool): seq<Path>
  {
    match it.val
    case Node(children) => Under(it.key, DirtyPaths(children, dirty))
    case Str(s) => if dirty(s) then [[it.key]] else []
    case Other(_) => []
  }

  /** The same walk, with each path kept as its list of keys. */
  function DirtyPaths(items: seq<Item>, dirty: string -> bool): seq<Path>
  {
    if items == [] then []
    else
      (match items[0].val
       case Node(children) => Under(items[0].key, DirtyPaths(children, dirty))
       case Str(s) => if dirty(s) then [[items[0].key]] else []
       case Other(_) => [])
      + DirtyPaths(items[1..], dirty)
  }

  /** The walk of key paths from position `i` on is the entry at `i` followed by the walk from `i + 1`. */
  lemma DirtyPathsStep(items: seq<Item>, i: nat, dirty: string -> bool)
    requires i < |items|
    ensures DirtyPaths(items[i..], dirty) == EntryPaths(items[i], dirty) + DirtyPaths(items[i + 1..], dirty)
  {
    assert items[i..][0] == items[i] && items[i..][1..] == items[i + 1..];
  }

  /** The same loop step for the walk of key paths. */
  lemma PathsLoopStep(items: seq<Item>, i: nat, dirty: string -> bool, acc: seq<Path>, entry: seq<Path>)
    requires i < |items|
    requires acc + DirtyPaths(items[i..], dirty) == DirtyPaths(items, dirty)
    requires entry == EntryPaths(items[i], dirty)
    ensures (acc + entry) + DirtyPaths(items[i + 1..], dirty) == DirtyPaths(items, dirty)
  {
    DirtyPathsStep(items, i, dirty);
    assert (acc + entry) + DirtyPaths(items[i + 1..], dirty) == acc + (entry + DirtyPaths(items[i + 1..], dirty));
  }

  /** A key path spelled the way the walk spells it, below a given parent key. */
  function Dotted(prefix: Option<string>, p: Path): string
    decreases |p|
  {
    if p == [] then (if prefix.Some? then prefix.value else "")
    else Dotted(Some(Extend(prefix, p[0])), p[1..])
  }

  function DottedAll(prefix: Option<string>, ps: seq<Path>): (r: seq<string>)
    ensures |r| == |ps| && forall j :: 0 <= j < |ps| ==> r[j] == Dotted(prefix, ps[j])
  {
    seq(|ps|, j requires 0 <= j < |ps| => Dotted(prefix, ps[j]))
  }

  /** The dotted keys are the key paths spelled with dots. */
  lemma {:induction false} DirtyKeysAreDottedPaths(items: seq<Item>, prefix: Option<string>, dirty: string -> bool)
    ensures DirtyKeys(items, prefix, dirty) == DottedAll(prefix, DirtyPaths(items, dirty))
    decreases items
  {
    if items != [] {
      EntryKeysAreDottedPaths(items[0], prefix, dirty);
      DirtyKeysAreDottedPaths(items[1..], prefix, dirty);
      DottedStep(items, prefix, dirty);
    }
  }

  /** The step of the walk: the first entry's keys and the rest's keys, both spelled from their paths. */
  lemma DottedStep(items: seq<Item>, prefix: Option<string>, dirty: string -> bool)
    requires items != []
    requires EntryKeys(items[0], prefix, dirty) == DottedAll(prefix, EntryPaths(items[0], dirty))
    requires DirtyKeys(items[1..], prefix, dirty) == DottedAll(prefix, DirtyPaths(items[1..], dirty))
    ensures DirtyKeys(items, prefix, dirty) == DottedAll(prefix, DirtyPaths(items, dirty))
  {
    DirtyKeysStep(items, 0, prefix, dirty);
    DirtyPathsStep(items, 0, dirty);
    assert items[0..] == items;
    DottedAllAppend(prefix, EntryPaths(items[0], dirty), DirtyPaths(items[1..], dirty));
  }

  lemma DottedAllAppend(prefix: Option<string>, a: seq<Path>, b: seq<Path>)
    ensures DottedAll(prefix, a + b) == DottedAll(prefix, a) + DottedAll(prefix, b)
  {
  }

  /** The same for what one entry contributes. */
  lemma {:induction false} EntryKeysAreDottedPaths(it: Item, prefix: Option<string>, dirty: string -> bool)
    ensures EntryKeys(it, prefix, dirty) == DottedAll(prefix, EntryPaths(it, dirty))
    decreases it
  {
    var key := Extend(prefix, it.key);
    match it.val {
      case Node(children) =>
        DirtyKeysAreDottedPaths(children, Some(key), dirty);
        var ps := DirtyPaths(children, dirty);
        forall j | 0 <= j < |ps| ensures Dotted(prefix, [it.key] + ps[j]) == Dotted(Some(key), ps[j]) {
          assert ([it.key] + ps[j])[0] == it.key && ([it.key] + ps[j])[1..] == ps[j];
        }
      case Str(s) =>
        assert Dotted(prefix, [it.key]) == Dotted(Some(key), []) == key;
      case Other(_) =>
    }
  }

  /** Below a parent key, a path is spelled as the parent, a dot and the keys joined by dots. */
  lemma {:induction false} DottedIsJoin(s: string, p: Path)
    requires |p| > 0
    ensures Dotted(Some(s), p) == s + "." + Join(p, ".")
    ensures Dotted(None, p) == Join(p, ".")
    decreases |p|
  {
    if |p| > 1 {
      DottedIsJoin(s + "." + p[0], p[1..]);
      DottedIsJoin(p[0], p[1..]);
      assert s + "." + p[0] + "." + Join(p[1..], ".") == s + "." + (p[0] + "." + Join(p[1..], "."));
    }
  }

  // ---------------------------------------------------------------------
  // cleanArray

  /**
   * `cleanArray`: each path in turn has its string rewritten by `f`. A path
   * that does not reach a string gives `None`. In PHP a missing key, null or
   * an array there makes `cleanString` raise an error; an int, float or
   * boolean there is converted to a string and stored instead, which the
   * model does not follow (an `Other` value does not carry its value).
   */
  function ApplyPaths(items: seq<Item>, paths: seq<Path>, f: string -> string): Option<seq<Item>>
    decreases |paths|
  {
    if paths == [] then Some(items)
    else if StringAt(items, paths[0]) then ApplyPaths(UpdateAt(items, paths[0], f), paths[1..], f)
    else None
  }

  /** The array with every dirty string rewritten by `f` and every other leaf kept. */
  function CleanTree(items: seq<Item>, dirty: string -> bool, f: string -> string): (r: seq<Item>)
    ensures |r| == |items|
    ensures forall j :: 0 <= j < |r| ==> r[j].key == items[j].key
  {
    if items == [] then []
    else
      var it := items[0];
      var v := match it.val
        case Str(s) => if dirty(s) then Str(f(s)) else it.val
        case Node(children) => Node(CleanTree(children, dirty, f))
        case Other(_) => it.val;
      [Item(it.key, v)] + CleanTree(items[1..], dirty, f)
  }

  /** Keys are unique at every level: true of every PHP array. */
  predicate UniqueKeysDeep(items: seq<Item>)
  {
    UniqueKeys(items)
    && forall j :: 0 <= j < |items| && items[j].val.Node? ==> UniqueKeysDeep(items[j].val.items)
  }

  /** No key at any level contains a dot. */
  predicate NoDottedKeys(items: seq<Item>)
  {
    forall j :: 0 <= j < |items| ==>
      '.' !in items[j].key && (items[j].val.Node? ==> NoDottedKeys(items[j].val.items))
  }

  /** Visiting `a` and then `b` is visiting `a + b`; an error stops the visit. */
  lemma {:induction false} ApplyPathsAppend(items: seq<Item>, a: seq<Path>, b: seq<Path>, f: string -> string)
    ensures ApplyPaths(items, a + b, f)
            == (match ApplyPaths(items, a, f) case None => None case Some(r) => ApplyPaths(r, b, f))
    decreases |a|
  {
    if a == [] {
      assert a + b == b;
    } else {
      assert (a + b)[0] == a[0] && (a + b)[1..] == a[1..] + b;
      if StringAt(items, a[0]) {
        ApplyPathsAppend(UpdateAt(items, a[0], f), a[1..], b, f);
      }
    }
  }

  /** Every dirty path is non-empty and starts with a key of the array. */
  lemma {:induction false} DirtyPathsStartWithKeys(items: seq<Item>, dirty: string -> bool)
    ensures forall j :: 0 <= j < |DirtyPaths(items, dirty)| ==>
      |DirtyPaths(items, dirty)[j]| > 0
      && exists i :: 0 <= i < |items| && items[i].key == DirtyPaths(items, dirty)[j][0]
  {
    if items != [] {
      DirtyPathsStartWithKeys(items[1..], dirty);
      var rest := DirtyPaths(items[1..], dirty);
      var head := DirtyPaths(items, dirty)[..|DirtyPaths(items, dirty)| - |rest|];
      assert DirtyPaths(items, dirty) == head + rest;
      forall j | 0 <= j < |DirtyPaths(items, dirty)|
        ensures |DirtyPaths(items, dirty)[j]| > 0
        ensures exists i :: 0 <= i < |items| && items[i].key == DirtyPaths(items, dirty)[j][0]
      {
        var ps := DirtyPaths(items, dirty);
        if j < |head| {
          assert ps[j][0] == items[0].key;
        } else {
          assert ps[j] == rest[j - |head|];
          var i :| 0 <= i < |items[1..]| && items[1..][i].key == rest[j - |head|][0];
          assert items[i + 1].key == ps[j][0];
        }
      }
    }
  }

  /** Below an entry with another key, the entry is passed over. */
  lemma PassOver(x: Item, rest: seq<Item>, p: Path, f: string -> string)
    requires |p| > 0 && p[0] != x.key
    ensures At([x] + rest, p) == At(rest, p)
    ensures UpdateAt([x] + rest, p, f) == [x] + UpdateAt(rest, p, f)
  {
    assert ([x] + rest)[1..] == rest;
    match IndexOf(rest, p[0]) {
      case None =>
      case Some(i) =>
        assert ([x] + rest)[i + 1] == rest[i];
    }
  }

  /** Paths that avoid the first entry's key visit the rest of the array only. */
  lemma {:induction false} ApplyPassingOver(x: Item, rest: seq<Item>, paths: seq<Path>, f: string -> string)
    requires forall j :: 0 <= j < |paths| ==> |paths[j]| > 0 && paths[j][0] != x.key
    ensures ApplyPaths([x] + rest, paths, f)
            == (match ApplyPaths(rest, paths, f) case None => None case Some(r) => Some([x] + r))
    decreases |paths|
  {
    if paths != [] {
      PassOver(x, rest, paths[0], f);
      ApplyPassingOver(x, UpdateAt(rest, paths[0], f), paths[1..], f);
    }
  }

  /** Below an entry holding an array, a path is a path into that array. */
  lemma Descend(k: Key, c: seq<Item>, rest: seq<Item>, q: Path, f: string -> string)
    ensures At([Item(k, Node(c))] + rest, [k] + q) == At(c, q)
    ensures StringAt(c, q) ==>
      UpdateAt([Item(k, Node(c))] + rest, [k] + q, f) == [Item(k, Node(UpdateAt(c, q, f)))] + rest
  {
    var items := [Item(k, Node(c))] + rest;
    assert IndexOf(items, k) == Some(0);
    assert ([k] + q)[1..] == q;
    if StringAt(c, q) {
      assert q != [];
    }
  }

  /** Paths below an entry holding an array visit that array. */
  lemma {:induction false} ApplyDescending(k: Key, c: seq<Item>, rest: seq<Item>, qs: seq<Path>, f: string -> string)
    ensures ApplyPaths([Item(k, Node(c))] + rest, Under(k, qs), f)
            == (match ApplyPaths(c, qs, f) case None => None case Some(r) => Some([Item(k, Node(r))] + rest))
    decreases |qs|
  {
    if qs != [] {
      Descend(k, c, rest, qs[0], f);
      assert Under(k, qs)[1..] == Under(k, qs[1..]);
      if StringAt(c, qs[0]) {
        ApplyDescending(k, UpdateAt(c, qs[0], f), rest, qs[1..], f);
      }
    }
  }

  lemma UniqueKeysDeepRest(items: seq<Item>)
    requires items != [] && UniqueKeysDeep(items)
    ensures UniqueKeysDeep(items[1..])
    ensures forall j :: 0 <= j < |items| - 1 ==> items[1..][j].key != items[0].key
  {
    assert forall j :: 0 <= j < |items| - 1 ==> items[1..][j] == items[j + 1];
  }

  /**
   * `cleanArray` rewrites exactly the dirty strings: visiting the paths
   * `findBadWordsInArray` lists, in its order, never fails and rewrites
   * each dirty string once, leaving every other leaf as it was.
   */
  lemma {:induction false} CleanArrayRewritesDirtyLeaves(items: seq<Item>, dirty: string -> bool, f: string -> string)
    requires UniqueKeysDeep(items)
    ensures ApplyPaths(items, DirtyPaths(items, dirty), f) == Some(CleanTree(items, dirty, f))
    decreases items, 1
  {
    if items != [] {
      var rest := items[1..];
      var x' := CleanTree(items, dirty, f)[0];
      UniqueKeysDeepRest(items);
      EntryCleaned(items, dirty, f);
      CleanArrayRewritesDirtyLeaves(rest, dirty, f);
      DirtyPathsStartWithKeys(rest, dirty);
      ApplyPassingOver(x', rest, DirtyPaths(rest, dirty), f);
      CleanedStep(items, dirty, f);
    }
  }

  /** The first entry's paths rewrite the first entry, the paths of the rest the rest. */
  lemma CleanedStep(items: seq<Item>, dirty: string -> bool, f: string -> string)
    requires items != []
    requires ApplyPaths(items, EntryPaths(items[0], dirty), f) == Some([CleanTree(items, dirty, f)[0]] + items[1..])
    requires ApplyPaths([CleanTree(items, dirty, f)[0]] + items[1..], DirtyPaths(items[1..], dirty), f)
             == Some([CleanTree(items, dirty, f)[0]] + CleanTree(items[1..], dirty, f))
    ensures ApplyPaths(items, DirtyPaths(items, dirty), f) == Some(CleanTree(items, dirty, f))
  {
    DirtyPathsStep(items, 0, dirty);
    assert items[0..] == items;
    ApplyPathsAppend(items, EntryPaths(items[0], dirty), DirtyPaths(items[1..], dirty), f);
  }

  /** The paths below the first entry rewrite its dirty strings and nothing else. */
  lemma {:induction false} EntryCleaned(items: seq<Item>, dirty: string -> bool, f: string -> string)
    requires items != [] && UniqueKeysDeep(items)
    ensures ApplyPaths(items, EntryPaths(items[0], dirty), f) == Some([CleanTree(items, dirty, f)[0]] + items[1..])
    decreases items, 0
  {
    var x := items[0];
    var rest := items[1..];
    var x' := CleanTree(items, dirty, f)[0];
    assert items == [x] + rest;
    match x.val {
      case Node(c) =>
        assert x in items;
        CleanArrayRewritesDirtyLeaves(c, dirty, f);
        ApplyDescending(x.key, c, rest, DirtyPaths(c, dirty), f);
      case Str(s) =>
        if dirty(s) {
          assert IndexOf(items, x.key) == Some(0);
          assert UpdateAt(items, [x.key], f) == [x'] + rest;
        }
      case Other(_) =>
    }
  }

  /** An array with no dirty path comes out of cleaning as it went in. */
  lemma {:induction false} CleanTreeWithoutDirtyPaths(items: seq<Item>, dirty: string -> bool, f: string -> string)
    requires DirtyPaths(items, dirty) == []
    ensures CleanTree(items, dirty, f) == items
  {
    if items != [] {
      CleanTreeWithoutDirtyPaths(items[1..], dirty, f);
      if items[0].val.Node? {
        CleanTreeWithoutDirtyPaths(items[0].val.items, dirty, f);
      }
      assert items == [items[0]] + items[1..];
    }
  }

  /** The walk lists no dotted key exactly when it lists no key path. */
  lemma NoDirtyKeysNoDirtyPaths(items: seq<Item>, dirty: string -> bool)
    ensures DirtyKeys(items, None, dirty) == [] <==> DirtyPaths(items, dirty) == []
  {
    DirtyKeysAreDottedPaths(items, None, dirty);
  }

  // ---------------------------------------------------------------------
  // cleanArrayKey as written: the dotted key is split again on dots

  /** `explode('.', $key)` for every dotted key. */
  function SplitAll(keys: seq<string>): (r: seq<Path>)
    ensures |r| == |keys| && forall j :: 0 <= j < |keys| ==> r[j] == Split(keys[j], '.')
  {
    seq(|keys|, j requires 0 <= j < |keys| => Split(keys[j], '.'))
  }

  /** `cleanArray` as written: the dotted keys are split on dots to find the leaves again. */
  function CleanArrayAsWritten(items: seq<Item>, dirty: string -> bool, f: string -> string): Option<seq<Item>>
  {
    ApplyPaths(items, SplitAll(DirtyKeys(items, None, dirty)), f)
  }

  /** Dirty paths are non-empty and, when no key has a dot, made of keys without dots. */
  lemma DirtyPathsWithoutDots(items: seq<Item>, dirty: string -> bool)
    ensures forall j :: 0 <= j < |DirtyPaths(items, dirty)| ==> |DirtyPaths(items, dirty)[j]| > 0
    ensures NoDottedKeys(items) ==> Undotted(DirtyPaths(items, dirty))
  {
    DirtyPathsStartWithKeys(items, dirty);
    if NoDottedKeys(items) {
      PathsUndotted(items, dirty);
    }
  }

  /** No key of any of the paths contains a dot. */
  predicate Undotted(ps: seq<Path>)
  {
    forall j, m :: 0 <= j < |ps| && 0 <= m < |ps[j]| ==> '.' !in ps[j][m]
  }

  lemma {:induction false} PathsUndotted(items: seq<Item>, dirty: string -> bool)
    requires NoDottedKeys(items)
    ensures Undotted(DirtyPaths(items, dirty))
    decreases items, 1
  {
    if items != [] {
      NoDottedKeysRest(items);
      EntryUndotted(items[0], dirty);
      PathsUndotted(items[1..], dirty);
      DirtyPathsStep(items, 0, dirty);
      assert items[0..] == items;
      UndottedAppend(EntryPaths(items[0], dirty), DirtyPaths(items[1..], dirty));
    }
  }

  lemma NoDottedKeysRest(items: seq<Item>)
    requires items != [] && NoDottedKeys(items)
    ensures NoDottedKeys(items[1..])
  {
    assert forall j :: 0 <= j < |items| - 1 ==> items[1..][j] == items[j + 1];
  }

  lemma UndottedAppend(a: seq<Path>, b: seq<Path>)
    requires Undotted(a) && Undotted(b)
    ensures Undotted(a + b)
  {
    assert forall j :: |a| <= j < |a + b| ==> (a + b)[j] == b[j - |a|];
  }

  lemma {:induction false} EntryUndotted(it: Item, dirty: string -> bool)
    requires '.' !in it.key && (it.val.Node? ==> NoDottedKeys(it.val.items))
    ensures Undotted(EntryPaths(it, dirty))
    decreases it, 0
  {
    match it.val {
      case Node(c) =>
        PathsUndotted(c, dirty);
        var ps := DirtyPaths(c, dirty);
        forall j, m | 0 <= j < |ps| && 0 <= m < |ps[j]| + 1 ensures '.' !in Under(it.key, ps)[j][m] {
          if m > 0 {
            assert Under(it.key, ps)[j][m] == ps[j][m - 1];
          }
        }
      case Str(s) =>
      case Other(_) =>
    }
  }

  /** Without dots in the keys, splitting the dotted keys gives back the key paths. */
  lemma SplittingRecoversPaths(items: seq<Item>, dirty: string -> bool)
    requires NoDottedKeys(items)
    ensures SplitAll(DirtyKeys(items, None, dirty)) == DirtyPaths(items, dirty)
  {
    var ps := DirtyPaths(items, dirty);
    DirtyKeysAreDottedPaths(items, None, dirty);
    DirtyPathsWithoutDots(items, dirty);
    forall j | 0 <= j < |ps| ensures Split(Dotted(None, ps[j]), '.') == ps[j] {
      DottedIsJoin("", ps[j]);
      SplitJoin(ps[j], '.');
    }
  }

  /**
   * As long as no key contains a dot, `cleanArray` as written cleans
   * exactly the dirty strings.
   */
  lemma AsWrittenAgreesWithoutDots(items: seq<Item>, dirty: string -> bool, f: string -> string)
    requires UniqueKeysDeep(items) && NoDottedKeys(items)
    ensures CleanArrayAsWritten(items, dirty, f) == Some(CleanTree(items, dirty, f))
  {
    SplittingRecoversPaths(items, dirty);
    CleanArrayRewritesDirtyLeaves(items, dirty, f);
  }

  /**
   * A key with a dot in it: the dirty string stored under "a.b" is looked
   * for under "a" and then "b", which do not exist, so `cleanArray` as
   * written fails where the dirty string should have been rewritten.
   */
  lemma AsWrittenFailsOnDottedKey(f: string -> string)
    ensures var items := [Item("a.b", Str("x"))];
      var dirty := (s: string) => true;
      CleanArrayAsWritten(items, dirty, f) == None
      && CleanTree(items, dirty, f) == [Item("a.b", Str(f("x")))]
      && ApplyPaths(items, DirtyPaths(items, dirty), f) == Some(CleanTree(items, dirty, f))
  {
    var items := [Item("a.b", Str("x"))];
    var dirty := (s: string) => true;
    assert DirtyKeys(items, None, dirty) == ["a.b"];
    assert Split("a.b", '.') == ["a", "b"] by {
      SplitNoDelimiter("a", "b", '.');
      SplitNoDelimiter("b", "", '.');
      assert "a" + ['.'] + "b" == "a.b";
    }
    assert IndexOf(items, "a") == None;
    assert !StringAt(items, ["a", "b"]);
    assert items[1..] == [];
    UniqueKeysDeepSingle();
    CleanArrayRewritesDirtyLeaves(items, dirty, f);
  }

  lemma UniqueKeysDeepSingle()
    ensures UniqueKeysDeep([Item("a.b", Str("x"))])
  {
  }

  // ---------------------------------------------------------------------
  // The walk on the arrays of the filter's own examples

  /** A flat list: the keys of the dirty strings, in order. */
  lemma DirtyKeysOfList(dirty: string -> bool)
    requires !dirty("this is a clean string") && dirty("this shit is dirty") && dirty("fuck yo couch")
    requires !dirty("actually that is a nice couch!") && dirty("another shitty string")
    ensures DirtyKeys([Item("0", Str("this is a clean string")), Item("1", Str("this shit is dirty")),
                       Item("2", Str("fuck yo couch")), Item("3", Str("actually that is a nice couch!")),
                       Item("filth", Str("another shitty string"))], None, dirty)
            == ["1", "2", "filth"]
  {
  }

  /** A nested array: the dirty strings' keys joined with dots, depth first. */
  lemma DirtyKeysOfNestedArray(dirty: string -> bool)
    requires dirty("this shit is dirty") && !dirty("this one is clean") && dirty("fuck it I lied, this one is dirty")
    ensures DirtyKeys([Item("filth", Node([
                        Item("dirty", Str("this shit is dirty")),
                        Item("clean", Node([Item("0", Str("this one is clean")),
                                            Item("1", Str("fuck it I lied, this one is dirty"))]))]))],
                      None, dirty)
            == ["filth.dirty", "filth.clean.1"]
  {
    MiddleArrayKeys(dirty);
    assert Extend(None, "filth") == "filth";
  }

  /** The array under "filth" in the nested example. */
  lemma MiddleArrayKeys(dirty: string -> bool)
    requires dirty("this shit is dirty") && !dirty("this one is clean") && dirty("fuck it I lied, this one is dirty")
    ensures DirtyKeys([Item("dirty", Str("this shit is dirty")),
                       Item("clean", Node([Item("0", Str("this one is clean")),
                                           Item("1", Str("fuck it I lied, this one is dirty"))]))],
                      Some("filth"), dirty)
            == ["filth.dirty", "filth.clean.1"]
  {
    var clean := [Item("0", Str("this one is clean")), Item("1", Str("fuck it I lied, this one is dirty"))];
    var filth := [Item("dirty", Str("this shit is dirty")), Item("clean", Node(clean))];
    InnerArrayKeys(dirty);
    assert Extend(Some("filth"), "clean") == "filth.clean";
    assert Extend(Some("filth"), "dirty") == "filth.dirty";
    assert filth[1..][1..] == [];
    assert DirtyKeys(filth[1..], Some("filth"), dirty) == ["filth.clean.1"];
  }

  /** The innermost array of the nested example. */
  lemma InnerArrayKeys(dirty: string -> bool)
    requires !dirty("this one is clean") && dirty("fuck it I lied, this one is dirty")
    ensures DirtyKeys([Item("0", Str("this one is clean")), Item("1", Str("fuck it I lied, this one is dirty"))],
                      Some("filth.clean"), dirty)
            == ["filth.clean.1"]
  {
    var clean := [Item("0", Str("this one is clean")), Item("1", Str("fuck it I lied, this one is dirty"))];
    assert Extend(Some("filth.clean"), "1") == "filth.clean.1";
    assert clean[1..][1..] == [];
    assert DirtyKeys(clean[1..], Some("filth.clean"), dirty) == ["filth.clean.1"];
  }
}
