/** Children of a Markdown node render in parse order, however many there are: the
    renderer sorts the keys of the pushed list by number
    (src/lib/markdown.cpp:226-243, 1195-1201). */
module MarkdownOrder {
  import opened Text
  import opened DTreeModel
  import Markdown
  import Xml
  import PushOrder

  // ----- markdown_sorted_keys -----

  function NumberOf(key: string): nat {
    Xml.IntVal(key, 10)
  }

  /** The comparison that is passed to the sort. */
  predicate KeyBefore(a: string, b: string) {
    if Markdown.IsDigits(a) && Markdown.IsDigits(b) then NumberOf(a) < NumberOf(b)
    else if Markdown.IsDigits(a) != Markdown.IsDigits(b) then Markdown.IsDigits(a)
    else Less(a, b)
  }

  function InsertSorted(keys: seq<string>, k: string): (r: seq<string>)
    ensures |r| == |keys| + 1
  {
    if keys == [] then [k]
    else if KeyBefore(k, keys[0]) then [k] + keys
    else [keys[0]] + InsertSorted(keys[1..], k)
  }

  /** Sorting under that comparison. */
  function SortKeys(keys: seq<string>): (r: seq<string>)
    ensures |r| == |keys|
  {
    if keys == [] then [] else InsertSorted(SortKeys(keys[1..]), keys[0])
  }

  function KeysOf(es: seq<Entry>): seq<string> {
    seq(|es|, i requires 0 <= i < |es| => es[i].key)
  }

  function Names(order: seq<nat>): seq<string> {
    seq(|order|, i requires 0 <= i < |order| => Dec(order[i]))
  }

  function LookupEach(es: seq<Entry>, keys: seq<string>): seq<Option<Tree>> {
    seq(|keys|, i requires 0 <= i < |keys| => Lookup(es, keys[i]))
  }

  // ----- numbers sort as numbers -----

  const LONG_MAX := 0x7FFF_FFFF_FFFF_FFFF

  lemma {:induction false} RunOfDec(k: nat, tail: string)
    requires tail == "" || !IsDigit(tail[0])
    ensures Xml.DigitRun(Dec(k) + tail, 10, 0) == k
  {
    RunAppends(Dec(k), tail, 0);
    DecReadsBack(k);
    RunIsValue(Dec(k));
  }

  lemma {:induction false} RunAppends(s: string, tail: string, value: nat)
    requires (forall i | 0 <= i < |s| :: IsDigit(s[i])) && (tail == "" || !IsDigit(tail[0]))
    ensures Xml.DigitRun(s + tail, 10, value) == Xml.DigitRun(s, 10, value)
  {
    if s == "" {
      assert s + tail == tail;
    } else {
      assert (s + tail)[1..] == s[1..] + tail;
      RunAppends(s[1..], tail, value * 10 + Xml.HexDigitValue(s[0]));
    }
  }

  lemma {:induction false} RunSplits(s: string, c: char, value: nat)
    requires (forall i | 0 <= i < |s| :: IsDigit(s[i])) && IsDigit(c)
    ensures Xml.DigitRun(s + [c], 10, value) == Xml.DigitRun(s, 10, value) * 10 + DigitOf(c)
  {
    if s == "" {
      assert s + [c] == [c] && [c][1..] == "";
    } else {
      assert (s + [c])[1..] == s[1..] + [c];
      RunSplits(s[1..], c, value * 10 + Xml.HexDigitValue(s[0]));
    }
  }

  lemma {:induction false} RunIsValue(s: string)
    requires forall i | 0 <= i < |s| :: IsDigit(s[i])
    ensures Xml.DigitRun(s, 10, 0) == DigitsValue(s)
  {
    if s != "" {
      RunIsValue(s[..|s| - 1]);
      RunSplits(s[..|s| - 1], s[|s| - 1], 0);
      assert s == s[..|s| - 1] + [s[|s| - 1]];
    }
  }

  lemma NumberOfName(k: nat)
    requires k <= LONG_MAX
    ensures NumberOf(Dec(k)) == k && Markdown.IsDigits(Dec(k))
  {
    RunOfDec(k, "");
    assert Dec(k) + "" == Dec(k);
    assert IsDigit(Dec(k)[0]);
  }

  lemma NamesBefore(a: nat, b: nat)
    requires a <= LONG_MAX && b <= LONG_MAX
    ensures KeyBefore(Dec(a), Dec(b)) <==> a < b
  {
    NumberOfName(a);
    NumberOfName(b);
  }

  function InsertNumber(ns: seq<nat>, k: nat): (r: seq<nat>)
    ensures |r| == |ns| + 1
  {
    if ns == [] then [k] else if k < ns[0] then [k] + ns else [ns[0]] + InsertNumber(ns[1..], k)
  }

  function SortNumbers(ns: seq<nat>): (r: seq<nat>)
    ensures |r| == |ns|
  {
    if ns == [] then [] else InsertNumber(SortNumbers(ns[1..]), ns[0])
  }

  ghost predicate Small(ns: seq<nat>) {
    forall i | 0 <= i < |ns| :: ns[i] <= LONG_MAX
  }

  lemma {:induction false} InsertNames(ns: seq<nat>, k: nat)
    requires Small(ns) && k <= LONG_MAX
    ensures InsertSorted(Names(ns), Dec(k)) == Names(InsertNumber(ns, k)) && Small(InsertNumber(ns, k))
  {
    hide KeyBefore, Dec;
    if ns != [] {
      NamesBefore(k, ns[0]);
      InsertNames(ns[1..], k);
      assert Names(ns)[1..] == Names(ns[1..]);
    }
  }

  lemma {:induction false} SortNames(ns: seq<nat>)
    requires Small(ns)
    ensures SortKeys(Names(ns)) == Names(SortNumbers(ns)) && Small(SortNumbers(ns))
  {
    hide InsertSorted, InsertNumber, Dec;
    if ns != [] {
      SortNames(ns[1..]);
      assert Names(ns)[1..] == Names(ns[1..]);
      InsertNames(SortNumbers(ns[1..]), ns[0]);
    }
  }

  // ----- distinct numbers below their count, sorted, are 0, 1, 2 and so on -----

  ghost predicate Ascending(ns: seq<nat>) {
    forall i, j | 0 <= i < j < |ns| :: ns[i] < ns[j]
  }

  lemma {:induction false} InsertHolds(ns: seq<nat>, k: nat, x: nat)
    ensures x in InsertNumber(ns, k) <==> x in ns || x == k
  {
    if ns != [] {
      InsertHolds(ns[1..], k, x);
      assert ns == [ns[0]] + ns[1..];
    }
  }

  lemma {:induction false} InsertAscends(ns: seq<nat>, k: nat)
    requires Ascending(ns) && k !in ns
    ensures Ascending(InsertNumber(ns, k))
  {
    if ns != [] && k > ns[0] {
      InsertAscends(ns[1..], k);
      var tail := InsertNumber(ns[1..], k);
      forall j | 0 <= j < |tail| ensures ns[0] < tail[j] {
        InsertHolds(ns[1..], k, tail[j]);
      }
    }
  }

  ghost predicate AllDifferent(ns: seq<nat>) {
    forall i, j | 0 <= i < j < |ns| :: ns[i] != ns[j]
  }

  lemma {:induction false} SortAscends(ns: seq<nat>)
    requires AllDifferent(ns)
    ensures Ascending(SortNumbers(ns)) && forall x: nat :: x in SortNumbers(ns) <==> x in ns
  {
    if ns != [] {
      SortAscends(ns[1..]);
      var sorted := SortNumbers(ns[1..]);
      assert ns == [ns[0]] + ns[1..];
      assert ns[0] !in ns[1..];
      InsertAscends(sorted, ns[0]);
      forall x: nat ensures x in SortNumbers(ns) <==> x in ns { InsertHolds(sorted, ns[0], x); }
    }
  }

  lemma {:induction false} AscendingAtLeast(ns: seq<nat>, i: nat)
    requires Ascending(ns) && i < |ns|
    ensures ns[i] >= i
  {
    if i > 0 { AscendingAtLeast(ns, i - 1); }
  }

  lemma {:induction false} AscendingAtMost(ns: seq<nat>, i: nat, n: nat)
    requires Ascending(ns) && i < |ns| == n && forall x: nat | x in ns :: x < n
    ensures ns[i] <= i
    decreases n - i
  {
    assert ns[i] in ns;
    if i + 1 < n { AscendingAtMost(ns, i + 1, n); }
  }

  lemma {:induction false} OrderDiffers(n: nat)
    ensures AllDifferent(PushOrder.KeyOrder(n)) && forall x: nat :: x in PushOrder.KeyOrder(n) <==> x < n
  {
    if n > 0 {
      OrderDiffers(n - 1);
      InsertDiffers(PushOrder.KeyOrder(n - 1), n - 1);
    }
  }

  lemma {:induction false} InsertDiffers(order: seq<nat>, k: nat)
    requires AllDifferent(order) && k !in order
    ensures AllDifferent(PushOrder.InsertKey(order, k))
    ensures forall x: nat :: x in PushOrder.InsertKey(order, k) <==> x in order || x == k
  {
    hide Less, Dec;
    if order != [] {
      InsertDiffers(order[1..], k);
      assert forall x: nat :: x in order <==> x == order[0] || x in order[1..];
      if !Less(Dec(k), Dec(order[0])) {
        var tail := PushOrder.InsertKey(order[1..], k);
        forall j | 0 <= j < |tail| ensures order[0] != tail[j] {
          assert tail[j] in tail;
        }
      }
    }
  }

  /** The children of a node, taken by sorted key, are the children as they were
      pushed: also beyond ten, where the keys themselves are in another order. */
  lemma ChildrenInParseOrder(children: seq<Tree>)
    requires |children| <= LONG_MAX
    ensures PushAll(Map([], true, 0), children).Map?
    ensures var es := PushAll(Map([], true, 0), children).entries;
      LookupEach(es, SortKeys(KeysOf(es))) == seq(|children|, i requires 0 <= i < |children| => Some(children[i]))
  {
    hide *;
    var n := |children|;
    var order := PushOrder.KeyOrder(n);
    var t := PushAll(Map([], true, 0), children);
    PushOrder.PushedEntries(children);
    PushAllHoldsInOrder(children);
    OrderDiffers(n);
    OrderIsSmall(n);
    KeysAreNames(t.entries, order, children);
    SortNames(order);
    SortIsCount(order, n);
    EachIsHeld(t, children, SortKeys(KeysOf(t.entries)));
  }

  lemma OrderIsSmall(n: nat)
    requires n <= LONG_MAX && forall x: nat :: x in PushOrder.KeyOrder(n) <==> x < n
    ensures Small(PushOrder.KeyOrder(n))
  {
    hide PushOrder.KeyOrder;
    var order := PushOrder.KeyOrder(n);
    forall i | 0 <= i < |order| ensures order[i] <= LONG_MAX {
      assert order[i] in order;
    }
  }

  lemma KeysAreNames(es: seq<Entry>, order: seq<nat>, trees: seq<Tree>)
    requires (forall i | 0 <= i < |order| :: order[i] < |trees|) && es == PushOrder.EntriesBy(order, trees)
    ensures KeysOf(es) == Names(order)
  {
  }

  lemma SortIsCount(order: seq<nat>, n: nat)
    requires |order| == n && AllDifferent(order) && forall x: nat :: x in order <==> x < n
    ensures forall i | 0 <= i < n :: SortNumbers(order)[i] == i
  {
    hide SortNumbers;
    SortAscends(order);
    forall i | 0 <= i < n ensures SortNumbers(order)[i] == i {
      AscendingAtLeast(SortNumbers(order), i);
      AscendingAtMost(SortNumbers(order), i, n);
    }
  }

  lemma EachIsHeld(t: Tree, children: seq<Tree>, keys: seq<string>)
    requires HoldsInOrder(t, children) && keys == Names(SortNumbers(PushOrder.KeyOrder(|children|)))
    requires forall i | 0 <= i < |children| :: SortNumbers(PushOrder.KeyOrder(|children|))[i] == i
    ensures LookupEach(t.entries, keys) == seq(|children|, i requires 0 <= i < |children| => Some(children[i]))
  {
    hide SortNumbers, PushOrder.KeyOrder, Lookup, Dec;
  }
}
