/** The order in which a pushed list is walked: that of the decimal names of its
    entries (src/lib/dtree.cpp:143-180, 698-728).  Up to ten that is the order of
    the pushes; beyond, entry 10 comes third. */
module PushOrder {
  import opened Text
  import opened DTreeModel

  function InsertKey(order: seq<nat>, k: nat): (r: seq<nat>)
    ensures |r| == |order| + 1
  {
    if order == [] then [k]
    else if Less(Dec(k), Dec(order[0])) then [k] + order
    else [order[0]] + InsertKey(order[1..], k)
  }

  /** The numbers below `n`, by their decimal names. */
  function KeyOrder(n: nat): (r: seq<nat>)
    ensures |r| == n
  {
    if n == 0 then [] else InsertKey(KeyOrder(n - 1), n - 1)
  }

  lemma {:induction false} InsertKeepsBelow(order: seq<nat>, k: nat, n: nat)
    requires k < n && forall i | 0 <= i < |order| :: order[i] < n
    ensures forall i | 0 <= i < |order| + 1 :: InsertKey(order, k)[i] < n
  {
    if order != [] { InsertKeepsBelow(order[1..], k, n); }
  }

  lemma {:induction false} KeyOrderBelow(n: nat)
    ensures forall i | 0 <= i < n :: KeyOrder(n)[i] < n
  {
    if n > 0 {
      KeyOrderBelow(n - 1);
      InsertKeepsBelow(KeyOrder(n - 1), n - 1, n);
    }
  }

  function InKeyOrder<T>(xs: seq<T>): (r: seq<T>)
    ensures |r| == |xs|
  {
    KeyOrderBelow(|xs|);
    seq(|xs|, i requires 0 <= i < |xs| => xs[KeyOrder(|xs|)[i]])
  }

  function EntriesBy(order: seq<nat>, trees: seq<Tree>): (r: seq<Entry>)
    requires forall i | 0 <= i < |order| :: order[i] < |trees|
    ensures |r| == |order|
  {
    seq(|order|, i requires 0 <= i < |order| => Entry(Dec(order[i]), trees[order[i]]))
  }

  lemma {:induction false} PutByKey(order: seq<nat>, k: nat, trees: seq<Tree>)
    requires k < |trees| && forall i | 0 <= i < |order| :: order[i] < |trees| && order[i] != k
    ensures forall i | 0 <= i < |order| + 1 :: InsertKey(order, k)[i] < |trees|
    ensures MapPut(EntriesBy(order, trees), Dec(k), trees[k]) == EntriesBy(InsertKey(order, k), trees)
  {
    InsertKeepsBelow(order, k, |trees|);
    FirstEntry(InsertKey(order, k), trees);
    if order == [] {
      assert InsertKey(order, k)[1..] == order;
    } else {
      hide Less, Dec, EntriesBy;
      FirstEntry(order, trees);
      if Dec(order[0]) == Dec(k) { DecInjective(order[0], k); }
      if Less(Dec(k), Dec(order[0])) {
        assert ([k] + order)[1..] == order;
      } else {
        PutByKey(order[1..], k, trees);
        assert InsertKey(order, k)[1..] == InsertKey(order[1..], k);
      }
    }
  }

  lemma FirstEntry(order: seq<nat>, trees: seq<Tree>)
    requires order != [] && forall i | 0 <= i < |order| :: order[i] < |trees|
    ensures EntriesBy(order, trees) == [Entry(Dec(order[0]), trees[order[0]])] + EntriesBy(order[1..], trees)
  {
    hide Dec;
  }

  /** A pushed list is held, and walked, in key order. */
  lemma {:induction false} PushedEntries(trees: seq<Tree>)
    ensures PushAll(Map([], true, 0), trees).Map?
    ensures (forall i | 0 <= i < |trees| :: KeyOrder(|trees|)[i] < |trees|)
      && PushAll(Map([], true, 0), trees).entries == EntriesBy(KeyOrder(|trees|), trees)
  {
    var n := |trees|;
    KeyOrderBelow(n);
    if n > 0 {
      hide MapPut, KeyOrder, InsertKey, Less, Dec;
      var front := trees[..n - 1];
      var t := PushAll(Map([], true, 0), front);
      PushedEntries(front);
      PushAllHoldsInOrder(front);
      KeyOrderBelow(n - 1);
      PushedNext(t, front, trees[n - 1]);
      assert EntriesBy(KeyOrder(n - 1), front) == EntriesBy(KeyOrder(n - 1), trees);
      PutByKey(KeyOrder(n - 1), n - 1, trees);
      assert KeyOrder(n) == InsertKey(KeyOrder(n - 1), n - 1) by { KeyOrderNext(n); }
    }
  }

  lemma KeyOrderNext(n: nat)
    requires n > 0
    ensures KeyOrder(n) == InsertKey(KeyOrder(n - 1), n - 1)
  {
  }

  lemma PushedNext(t: Tree, front: seq<Tree>, child: Tree)
    requires HoldsInOrder(t, front) && t.arrayIndex == |front|
    ensures PushValue(t, child).entries == MapPut(t.entries, Dec(|front|), child)
  {
    NextKeyIsFree(t, front);
    if t.entries != [] && IsList(t) { ListLength(t, front); }
    assert |front| > 0 ==> Lookup(t.entries, Dec(0)) == Some(front[0]);
  }

  // ----- up to ten, the order of the pushes -----

  lemma {:induction false} InsertAtEnd(order: seq<nat>, k: nat)
    requires k < 10 && forall i | 0 <= i < |order| :: order[i] < k
    ensures InsertKey(order, k) == order + [k]
  {
    if order != [] {
      IndexKeysAscend(order[0], k);
      LessIrreflexive(Dec(k));
      if Less(Dec(k), Dec(order[0])) { LessTransitive(Dec(k), Dec(order[0]), Dec(k)); }
      InsertAtEnd(order[1..], k);
      assert order == [order[0]] + order[1..];
    }
  }

  lemma {:induction false} ShortKeyOrder(n: nat)
    requires n <= 10
    ensures forall i | 0 <= i < n :: KeyOrder(n)[i] == i
  {
    if n > 0 {
      hide InsertKey;
      ShortKeyOrder(n - 1);
      InsertAtEnd(KeyOrder(n - 1), n - 1);
    }
  }

  lemma ShortInOrder<T>(xs: seq<T>)
    requires |xs| <= 10
    ensures InKeyOrder(xs) == xs
  {
    ShortKeyOrder(|xs|);
  }

  // ----- beyond ten, entry 10 is the third -----

  lemma {:induction false} DecStartsBig(k: nat)
    requires k >= 10
    ensures |Dec(k)| >= 2 && '1' <= Dec(k)[0]
  {
    if k >= 100 { DecStartsBig(k / 10); }
  }

  lemma InsertBehindThree(order: seq<nat>, k: nat)
    requires |order| >= 3 && order[..3] == [0, 1, 10] && k > 10
    ensures InsertKey(order, k)[..3] == [0, 1, 10]
  {
    hide Dec;
    DecStartsBig(k);
    SmallNames();
    var r1, r2 := order[1..], order[1..][1..];
    assert !Less(Dec(k), Dec(0)) && !Less(Dec(k), Dec(1));
    assert !Less(Dec(k), Dec(10)) by { NotBelowTen(Dec(k)); }
    assert order[0] == 0 && r1[0] == order[..3][1] == 1 && r2[0] == order[..3][2] == 10;
    assert InsertKey(order, k) == [0] + InsertKey(r1, k);
    assert InsertKey(r1, k) == [1] + InsertKey(r2, k);
    assert InsertKey(r2, k) == [10] + InsertKey(r2[1..], k);
  }

  lemma NotBelowTen(a: string)
    requires |a| >= 2 && '1' <= a[0] && IsDigit(a[1])
    ensures !Less(a, "10")
  {
    var b := a[1..];
    assert "10"[1..] == "0" && "0"[1..] == "" && b[0] == a[1];
    assert !Less(b[1..], "");
    assert !Less(b, "0");
  }

  lemma SmallNames()
    ensures Dec(0) == "0" && Dec(1) == "1" && Dec(10) == "10"
  {
    assert Dec(10) == Dec(1) + [Digit(0)];
  }

  lemma {:induction false} LongKeyOrder(n: nat)
    requires n > 10
    ensures KeyOrder(n)[..3] == [0, 1, 10]
  {
    if n == 11 {
      ElevenKeys();
    } else {
      LongKeyOrder(n - 1);
      InsertBehindThree(KeyOrder(n - 1), n - 1);
    }
  }

  lemma ElevenKeys()
    ensures KeyOrder(11)[..3] == [0, 1, 10]
  {
    hide Dec, KeyOrder, InsertKey, Less;
    var ten := KeyOrder(10);
    ShortKeyOrder(10);
    assert ten[..3] == [0, 1, 2];
    TenGoesThird(ten);
    KeyOrderNext(11);
  }

  lemma TenGoesThird(order: seq<nat>)
    requires |order| >= 3 && order[..3] == [0, 1, 2]
    ensures InsertKey(order, 10)[..3] == [0, 1, 10]
  {
    hide Dec, Less;
    SmallNames();
    TwoName();
    TenIsBetween();
    var r1, r2 := order[1..], order[1..][1..];
    assert order[0] == 0 && r1[0] == order[..3][1] == 1 && r2[0] == order[..3][2] == 2;
    assert InsertKey(order, 10) == [0] + InsertKey(r1, 10);
    assert InsertKey(r1, 10) == [1] + InsertKey(r2, 10);
    assert InsertKey(r2, 10) == [10] + r2;
  }

  lemma TenIsBetween()
    ensures !Less("10", "0") && !Less("10", "1") && Less("10", "2")
  {
    assert "10"[1..] == "0" && "1"[1..] == "";
  }

  lemma TwoName()
    ensures Dec(2) == "2"
  {
  }

  /** Beyond ten the third is the eleventh pushed. */
  lemma EleventhIsThird<T>(xs: seq<T>)
    requires |xs| > 10
    ensures InKeyOrder(xs)[2] == xs[10]
    ensures xs[10] != xs[2] ==> InKeyOrder(xs) != xs
  {
    hide KeyOrder;
    LongKeyOrder(|xs|);
    assert KeyOrder(|xs|)[2] == KeyOrder(|xs|)[..3][2] == 10;
  }

  /** Two pushed lists are equal only if the same was pushed. */
  lemma PushAllInjective(a: seq<Tree>, b: seq<Tree>)
    requires PushAll(Map([], true, 0), a) == PushAll(Map([], true, 0), b)
    ensures a == b
  {
    hide PushAll;
    PushAllHoldsInOrder(a);
    PushAllHoldsInOrder(b);
    var t := PushAll(Map([], true, 0), a);
    forall k: nat | k < |a| ensures a[k] == b[k] {
      assert Lookup(t.entries, Dec(k)) == Some(a[k]) == Some(b[k]);
    }
  }
}
