/** The general-purpose value of the runtime (src/lib/dtree.cpp).

    `Tree` is the value of a tree; C++ copies trees by value, so that is what
    maps and calls carry.  `DTree` is the mutable object: its methods change the
    fields in place, each proved against a function on `Tree`. */
module DTreeModel {
  import opened Text

  datatype Entry = Entry(key: string, value: Tree)

  /** A `std::map` is its entries in key order.  A number is what `%f` prints:
      a sign and a count of millionths. */
  datatype Tree =
    | Str(text: string)
    | Num(negative: bool, micros: nat)
    | Bool(flag: bool)
    | Map(entries: seq<Entry>, listMode: bool, arrayIndex: nat)

  const EMPTY_TREE := Str("")

  // ----- std::map on strings -----

  predicate Sorted(es: seq<Entry>) {
    forall i, j | 0 <= i < j < |es| :: Less(es[i].key, es[j].key)
  }

  function Lookup(es: seq<Entry>, key: string): Option<Tree> {
    if es == [] then None
    else if es[0].key == key then Some(es[0].value)
    else Lookup(es[1..], key)
  }

  /** `_map[key] = value` */
  function MapPut(es: seq<Entry>, key: string, value: Tree): (r: seq<Entry>)
    ensures forall e | e in r :: e == Entry(key, value) || e in es
  {
    if es == [] then [Entry(key, value)]
    else if es[0].key == key then [Entry(key, value)] + es[1..]
    else if Less(key, es[0].key) then [Entry(key, value)] + es
    else [es[0]] + MapPut(es[1..], key, value)
  }

  lemma {:induction false} PutKeepsSorted(es: seq<Entry>, key: string, value: Tree)
    requires Sorted(es)
    ensures Sorted(MapPut(es, key, value))
  {
    if es != [] && es[0].key != key {
      if Less(key, es[0].key) {
        forall j | 0 < j < |es| ensures Less(key, es[j].key) {
          LessTransitive(key, es[0].key, es[j].key);
        }
      } else {
        LessTotal(key, es[0].key);
        PutKeepsSorted(es[1..], key, value);
        var tail := MapPut(es[1..], key, value);
        forall j | 0 <= j < |tail| ensures Less(es[0].key, tail[j].key) {
          assert tail[j] in tail;
        }
      }
    }
  }

  lemma {:induction false} LookupPut(es: seq<Entry>, key: string, value: Tree, probe: string)
    requires Sorted(es)
    ensures Lookup(MapPut(es, key, value), probe) == (if probe == key then Some(value) else Lookup(es, probe))
  {
    if es != [] && es[0].key != key {
      if Less(key, es[0].key) {
        if probe == key { LookupBelow(es, key); }
        assert MapPut(es, key, value)[1..] == es;
      } else {
        LookupPut(es[1..], key, value, probe);
        assert MapPut(es, key, value)[1..] == MapPut(es[1..], key, value);
      }
    } else if es != [] {
      assert MapPut(es, key, value)[1..] == es[1..];
    }
  }

  lemma LookupBelow(es: seq<Entry>, key: string)
    requires es != [] ==> Less(key, es[0].key)
    requires Sorted(es)
    ensures Lookup(es, key) == None
  {
    forall i | 0 <= i < |es| ensures es[i].key != key {
      LessIrreflexive(key);
      if i > 0 { LessTransitive(key, es[0].key, es[i].key); }
    }
    LookupAbsent(es, key);
  }

  lemma {:induction false} LookupAbsent(es: seq<Entry>, key: string)
    ensures Lookup(es, key) == None <==> forall i | 0 <= i < |es| :: es[i].key != key
  {
    if es != [] { LookupAbsent(es[1..], key); }
  }

  lemma {:induction false} LookupAt(es: seq<Entry>, i: nat)
    requires Sorted(es) && i < |es|
    ensures Lookup(es, es[i].key) == Some(es[i].value)
  {
    if i > 0 {
      LessIrreflexive(es[0].key);
      LookupAt(es[1..], i - 1);
    }
  }

  lemma {:induction false} PutAtEnd(es: seq<Entry>, key: string, value: Tree)
    requires forall i | 0 <= i < |es| :: Less(es[i].key, key)
    ensures MapPut(es, key, value) == es + [Entry(key, value)]
  {
    if es != [] {
      LessIrreflexive(key);
      if Less(key, es[0].key) { LessTransitive(key, es[0].key, key); }
      PutAtEnd(es[1..], key, value);
      assert es == [es[0]] + es[1..];
    }
  }

  /** Two sorted entry lists that answer every lookup alike are equal, so the
      entry list of a map carries no more than the map. */
  lemma {:induction false} SortedIsCanonical(a: seq<Entry>, b: seq<Entry>)
    requires Sorted(a) && Sorted(b)
    requires forall k :: Lookup(a, k) == Lookup(b, k)
    ensures a == b
  {
    if a != [] { assert Lookup(a, a[0].key) == Some(a[0].value) == Lookup(b, a[0].key); }
    if b != [] { assert Lookup(b, b[0].key) == Some(b[0].value) == Lookup(a, b[0].key); }
    if a != [] && b != [] {
      LessTotal(a[0].key, b[0].key);
      if Less(a[0].key, b[0].key) { LookupBelow(b, a[0].key); }
      if Less(b[0].key, a[0].key) { LookupBelow(a, b[0].key); }
      forall k ensures Lookup(a[1..], k) == Lookup(b[1..], k) {
        LookupInTail(a, k);
        LookupInTail(b, k);
        assert Lookup(a, k) == Lookup(b, k);
      }
      SortedIsCanonical(a[1..], b[1..]);
      assert a == [a[0]] + a[1..] && b == [b[0]] + b[1..];
    }
  }

  lemma LookupInTail(es: seq<Entry>, key: string)
    requires es != [] && Sorted(es)
    ensures Lookup(es[1..], key) == if key == es[0].key then None else Lookup(es, key)
  {
    if key == es[0].key && |es| > 1 { LookupBelow(es[1..], key); }
  }

  // ----- lists -----

  /** The walk of `DTree::is_list` over a non-empty map: the entries, in key
      order, must be named 0, 1, 2, ... */
  predicate IndexNamed(es: seq<Entry>) {
    forall i | 0 <= i < |es| :: es[i].key == Dec(i)
  }

  predicate IsList(t: Tree) {
    t.Map? && if t.entries == [] then t.listMode else IndexNamed(t.entries)
  }

  /** Key order puts "10" before "9", so the walk accepts ten entries at most. */
  lemma IndexNamedIsShort(es: seq<Entry>)
    requires Sorted(es) && IndexNamed(es)
    ensures |es| <= 10
  {
    assert |es| > 10 ==> Less(es[9].key, es[10].key);
    TenSortsBeforeNine();
  }

  lemma TenSortsBeforeNine()
    ensures !Less(Dec(9), Dec(10))
  {
    assert Dec(10) == Dec(1) + [Digit(0)];
    assert Dec(9) == [Digit(9)] && Dec(1) == [Digit(1)];
  }

  lemma IndexKeysAscend(i: nat, j: nat)
    requires i < j < 10
    ensures Less(Dec(i), Dec(j))
  {
    assert Dec(i) == [Digit(i)] && Dec(j) == [Digit(j)];
  }

  // ----- the operations as functions on values -----

  function AsMap(t: Tree): (r: Tree)
    ensures r.Map?
  {
    if t.Map? then t else Map([], false, 0)
  }

  /** The first index at or after `from` that is not a key. */
  function FreeIndex(es: seq<Entry>, from: nat, fuel: nat): nat
    decreases fuel
  {
    if fuel == 0 || Lookup(es, Dec(from)) == None then from else FreeIndex(es, from + 1, fuel - 1)
  }

  /** `DTree::push` */
  function PushValue(t: Tree, child: Tree): (r: Tree)
    ensures r.Map?
  {
    var m := AsMap(t);
    if m.entries == [] then Map(MapPut([], Dec(0), child), true, 1)
    else if IsList(m) then Map(MapPut(m.entries, Dec(|m.entries|), child), true, |m.entries| + 1)
    else
      var at := FreeIndex(m.entries, m.arrayIndex, |m.entries|);
      Map(MapPut(m.entries, Dec(at), child), false, at + 1)
  }

  function PushAll(t: Tree, children: seq<Tree>): (r: Tree) {
    if children == [] then t
    else PushValue(PushAll(t, children[..|children| - 1]), children[|children| - 1])
  }

  function SetKey(t: Tree, key: string, value: Tree): (r: Tree)
    ensures r.Map?
  {
    var m := AsMap(t);
    Map(MapPut(m.entries, key, value), m.listMode && IsIndexKey(key), m.arrayIndex)
  }

  predicate IsIndexKey(key: string) {
    key != "" && forall i | 0 <= i < |key| :: IsDigit(key[i])
  }

  /** `tree[key]`, which creates an empty text when there is no such entry. */
  function Field(t: Tree, key: string): Tree {
    if t.Map? then match Lookup(t.entries, key) case None => EMPTY_TREE case Some(v) => v
    else EMPTY_TREE
  }

  lemma SetKeyFacts(t: Tree, key: string, value: Tree)
    requires t.Map? ==> Sorted(t.entries)
    ensures var r := SetKey(t, key, value);
      && Sorted(r.entries)
      && (forall k :: Lookup(r.entries, k) == if k == key then Some(value) else if t.Map? then Lookup(t.entries,
          k) else None)
      && (forall e | e in r.entries :: e == Entry(key, value) || (t.Map? && e in t.entries))
  {
    var es := AsMap(t).entries;
    PutKeepsSorted(es, key, value);
    forall k ensures Lookup(SetKey(t, key, value).entries, k) == if k == key then Some(value) else Lookup(es, k) {
      LookupPut(es, key, value, k);
    }
  }

  function TextEntries(items: seq<(string, string)>): seq<Entry> {
    seq(|items|, i requires 0 <= i < |items| => Entry(items[i].0, Str(items[i].1)))
  }

  // ----- push names its children 0 .. n-1, past ten as well -----

  /** `t` holds exactly `children` under the keys 0 .. n-1, in that order. */
  ghost predicate HoldsInOrder(t: Tree, children: seq<Tree>) {
    && t.Map? && Sorted(t.entries)
    && (forall k: nat | k < |children| :: Lookup(t.entries, Dec(k)) == Some(children[k]))
    && (forall i | 0 <= i < |t.entries| :: exists k: nat :: k < |children| && t.entries[i].key == Dec(k))
  }

  lemma {:induction false} PushAllHoldsInOrder(children: seq<Tree>)
    ensures HoldsInOrder(PushAll(Map([], true, 0), children), children)
    ensures PushAll(Map([], true, 0), children).arrayIndex == |children|
  {
    hide HoldsInOrder, PushValue;
    var n := |children|;
    if n == 0 {
      NothingHeld();
    } else {
      var front := children[..n - 1];
      PushAllHoldsInOrder(front);
      PushOne(PushAll(Map([], true, 0), front), front, children[n - 1]);
      assert front + [children[n - 1]] == children;
    }
  }

  lemma NothingHeld()
    ensures HoldsInOrder(Map([], true, 0), [])
  {
  }

  lemma PushOne(t: Tree, front: seq<Tree>, child: Tree)
    requires HoldsInOrder(t, front) && t.arrayIndex == |front|
    ensures HoldsInOrder(PushValue(t, child), front + [child])
    ensures PushValue(t, child).arrayIndex == |front| + 1
  {
    var n := |front|;
    NextKeyIsFree(t, front);
    if t.entries != [] && IsList(t) { ListLength(t, front); }
    assert n > 0 ==> Lookup(t.entries, Dec(0)) == Some(front[0]);
    assert PushValue(t, child).entries == MapPut(t.entries, Dec(n), child);
    PutExtends(t, front, child, PushValue(t, child));
  }

  lemma PutExtends(t: Tree, front: seq<Tree>, child: Tree, r: Tree)
    requires HoldsInOrder(t, front)
    requires r.Map? && r.entries == MapPut(t.entries, Dec(|front|), child)
    ensures HoldsInOrder(r, front + [child])
  {
    var n := |front|;
    PutKeepsSorted(t.entries, Dec(n), child);
    forall k: nat | k <= n ensures Lookup(r.entries, Dec(k)) == Some((front + [child])[k]) {
      LookupPut(t.entries, Dec(n), child, Dec(k));
      if k < n && Dec(k) == Dec(n) { DecInjective(k, n); }
    }
    forall i | 0 <= i < |r.entries| ensures exists k: nat :: k < n + 1 && r.entries[i].key == Dec(k) {
      var e := r.entries[i];
      assert e in r.entries;
      if e == Entry(Dec(n), child) {
        assert n < n + 1 && e.key == Dec(n);
      } else {
        var j :| 0 <= j < |t.entries| && t.entries[j] == e;
        var k: nat :| k < n && t.entries[j].key == Dec(k);
        assert k < n + 1 && e.key == Dec(k);
      }
    }
  }

  lemma NextKeyIsFree(t: Tree, front: seq<Tree>)
    requires HoldsInOrder(t, front)
    ensures Lookup(t.entries, Dec(|front|)) == None
  {
    forall i | 0 <= i < |t.entries| ensures t.entries[i].key != Dec(|front|) {
      var k: nat :| k < |front| && t.entries[i].key == Dec(k);
      if Dec(k) == Dec(|front|) { DecInjective(k, |front|); }
    }
    LookupAbsent(t.entries, Dec(|front|));
  }

  lemma ListLength(t: Tree, front: seq<Tree>)
    requires HoldsInOrder(t, front) && t.entries != [] && IsList(t)
    ensures |t.entries| == |front|
  {
    hide Dec, Lookup;
    var last := |t.entries| - 1;
    assert exists k: nat :: k < |front| && t.entries[last].key == Dec(k);
    var k: nat :| k < |front| && t.entries[last].key == Dec(k);
    DecInjective(k, last);
    if |front| > |t.entries| {
      LookupAbsent(t.entries, Dec(|t.entries|));
      var i :| 0 <= i < |t.entries| && t.entries[i].key == Dec(|t.entries|);
      DecInjective(i, |t.entries|);
    }
  }

  // ----- the order in which a pushed list is walked -----

  function Numbered(children: seq<Tree>): seq<Entry> {
    seq(|children|, i requires 0 <= i < |children| => Entry(Dec(i), children[i]))
  }

  lemma {:induction false} ShortListInOrder(children: seq<Tree>)
    requires |children| <= 10
    ensures PushAll(Map([], true, 0), children) == Map(Numbered(children), true, |children|)
  {
    hide PushValue, Numbered;
    var n := |children|;
    if n == 0 {
      assert Numbered(children) == [] by { NumberedLength(children); }
    } else {
      var front := children[..n - 1];
      ShortListInOrder(front);
      PushNumbered(front, children[n - 1]);
      assert front + [children[n - 1]] == children;
    }
  }

  lemma NumberedLength(children: seq<Tree>)
    ensures |Numbered(children)| == |children|
  {
  }

  lemma PushNumbered(front: seq<Tree>, child: Tree)
    requires |front| < 10
    ensures PushValue(Map(Numbered(front), true, |front|), child) == Map(Numbered(front + [child]), true, |front| + 1)
  {
    hide MapPut, Less, Dec;
    var n := |front|;
    forall i | 0 <= i < n ensures Less(Numbered(front)[i].key, Dec(n)) {
      IndexKeysAscend(i, n);
    }
    PutAtEnd(Numbered(front), Dec(n), child);
    assert Numbered(front + [child]) == Numbered(front) + [Entry(Dec(n), child)];
    if n == 0 { assert Numbered(front) == []; }
  }

  /** `each` walks in key order.  That is the order of the pushes if and only if
      there are at most ten. */
  lemma WalkedInPushOrderIff(children: seq<Tree>)
    ensures var es := PushAll(Map([], true, 0), children).entries;
      IndexNamed(es) <==> |children| <= 10
  {
    var t := PushAll(Map([], true, 0), children);
    PushAllHoldsInOrder(children);
    if |children| <= 10 {
      ShortListInOrder(children);
    } else {
      assert Lookup(t.entries, Dec(10)) == Some(children[10]);
      LookupAbsent(t.entries, Dec(10));
      var i :| 0 <= i < |t.entries| && t.entries[i].key == Dec(10);
      TenIsNoIndexName(t.entries, i);
    }
  }

  lemma TenIsNoIndexName(es: seq<Entry>, i: nat)
    requires Sorted(es) && i < |es| && es[i].key == Dec(10)
    ensures !IndexNamed(es)
  {
    if IndexNamed(es) {
      DecInjective(i, 10);
      IndexNamedIsShort(es);
    }
  }

  // ----- the free index of a map that is no list -----

  function KeySet(es: seq<Entry>): set<string> {
    set e | e in es :: e.key
  }

  lemma {:induction false} KeySetIsSmall(es: seq<Entry>)
    ensures |KeySet(es)| <= |es|
  {
    if es != [] {
      KeySetIsSmall(es[1..]);
      assert es == [es[0]] + es[1..];
      assert KeySet(es) == {es[0].key} + KeySet(es[1..]);
    }
  }

  /** `FreeIndex` finds what the search loop of `push` finds: the least index,
      from the stored one on, that no entry is named by. */
  lemma {:induction false} FreeIndexIsLeast(es: seq<Entry>, from: nat, fuel: nat, left: set<string>)
    requires |left| <= fuel
    requires forall k: nat | k >= from && Lookup(es, Dec(k)) != None :: Dec(k) in left
    ensures var at := FreeIndex(es, from, fuel);
      from <= at && Lookup(es, Dec(at)) == None && forall k: nat | from <= k < at :: Lookup(es, Dec(k)) != None
    decreases fuel
  {
    if Lookup(es, Dec(from)) != None {
      assert left != {};
      forall k: nat | k >= from + 1 && Lookup(es, Dec(k)) != None ensures Dec(k) in left - {Dec(from)} {
        if Dec(k) == Dec(from) { DecInjective(k, from); }
      }
      assert fuel > 0;
      FreeIndexIsLeast(es, from + 1, fuel - 1, left - {Dec(from)});
    }
  }

  lemma FreeIndexFound(es: seq<Entry>, from: nat)
    ensures var at := FreeIndex(es, from, |es|);
      from <= at && Lookup(es, Dec(at)) == None && forall k: nat | from <= k < at :: Lookup(es, Dec(k)) != None
  {
    hide Dec, FreeIndex, Lookup;
    var left := KeySet(es);
    forall k: nat | Lookup(es, Dec(k)) != None ensures Dec(k) in left { LookupAbsent(es, Dec(k)); }
    KeySetIsSmall(es);
    FreeIndexIsLeast(es, from, |es|, left);
  }

  // ----- the object -----

  datatype Kind = StringKind | NumberKind | BoolKind | MapKind

  /** `struct DTree` without references and pointers. */
  class DTree {
    var kind: Kind
    var text: string
    var negative: bool
    var micros: nat
    var flag: bool
    var entries: seq<Entry>
    var listMode: bool
    var arrayIndex: nat

    /** What a copy of the object carries. */
    function Value(): Tree
      reads this
    {
      match kind
      case StringKind => Str(text)
      case NumberKind => Num(negative, micros)
      case BoolKind => Bool(flag)
      case MapKind => Map(entries, listMode, arrayIndex)
    }

    constructor ()
      ensures Value() == EMPTY_TREE
    {
      kind, text, negative, micros, flag := StringKind, "", false, 0, false;
      entries, listMode, arrayIndex := [], false, 0;
    }

    method SetTypeMap()
      modifies this
      ensures Value() == AsMap(old(Value()))
    {
      if kind != MapKind {
        kind, entries, arrayIndex, listMode := MapKind, [], 0, false;
      }
    }

    method SetString(s: string)
      modifies this
      ensures Value() == Str(s)
    {
      kind, text, listMode := StringKind, s, false;
    }

    method SetBool(b: bool)
      modifies this
      ensures Value() == Bool(b)
    {
      kind, flag, listMode := BoolKind, b, false;
    }

    method SetArray()
      modifies this
      ensures Value() == Map([], true, 0)
    {
      kind, entries, arrayIndex, listMode := MapKind, [], 0, true;
    }

    /** `clear` empties the map but leaves the list flag of a map as it was. */
    method Clear()
      modifies this
      ensures Value() == Map([], AsMap(old(Value())).listMode, 0)
    {
      SetTypeMap();
      entries, arrayIndex := [], 0;
    }

    method Put(key: string, value: Tree)
      modifies this
      ensures Value() == SetKey(old(Value()), key, value)
    {
      SetTypeMap();
      if listMode && !IsIndexKey(key) { listMode := false; }
      entries := MapPut(entries, key, value);
    }

    method IsListNow() returns (r: bool)
      ensures r == IsList(Value())
    {
      if kind != MapKind { return false; }
      if |entries| == 0 { return listMode; }
      var expected := 0;
      while expected < |entries|
        invariant 0 <= expected <= |entries|
        invariant forall i | 0 <= i < expected :: entries[i].key == Dec(i)
      {
        if entries[expected].key != Dec(expected) { return false; }
        expected := expected + 1;
      }
      return true;
    }

    /** The index moves on while there is an entry named by it. */
    method SkipTaken()
      modifies this`arrayIndex
      ensures arrayIndex == FreeIndex(entries, old(arrayIndex), |entries|)
    {
      ghost var from := arrayIndex;
      FreeIndexFound(entries, from);
      while Lookup(entries, Dec(arrayIndex)) != None
        invariant from <= arrayIndex <= FreeIndex(entries, from, |entries|)
        decreases FreeIndex(entries, from, |entries|) - arrayIndex
      {
        arrayIndex := arrayIndex + 1;
      }
    }

    method Push(child: Tree)
      modifies this
      ensures Value() == PushValue(old(Value()), child)
    {
      SetTypeMap();
      if |entries| == 0 {
        listMode, arrayIndex := true, 0;
      } else {
        var isList := IsListNow();
        if isList {
          listMode, arrayIndex := true, |entries|;
        } else {
          listMode := false;
          SkipTaken();
        }
      }
      entries := MapPut(entries, Dec(arrayIndex), child);
      arrayIndex := arrayIndex + 1;
    }
  }
}
