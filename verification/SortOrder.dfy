/** The order that ORDER BY puts on rows. */
module SortOrder {
  import opened Common
  import opened Expressions
  import opened JoinExecutors

  datatype Direction = Asc | Desc

  datatype Order = Order(direction: Direction, e: Expr)

  type Key = seq<Value>

  /** The value of a sort expression, for rows on which it raises nothing. */
  function ValueOf(e: Expr, row: Row): Value {
    var v := Eval(e, OneRow(row));
    if v.Val? then v.value else Null
  }

  /** The comparator: the first sort expression that tells two rows apart decides. */
  predicate Before(a: Row, b: Row, os: seq<Order>) {
    os != [] &&
    var x, y := ValueOf(os[0].e, a), ValueOf(os[0].e, b);
    if x == y then Before(a, b, os[1..])
    else if os[0].direction == Asc then Less(x, y) else Less(y, x)
  }

  function KeyOf(row: Row, os: seq<Order>): (key: Key)
    ensures |key| == |os| && forall i :: 0 <= i < |os| ==> key[i] == ValueOf(os[i].e, row)
  {
    seq(|os|, i requires 0 <= i < |os| => ValueOf(os[i].e, row))
  }

  predicate KeyBefore(x: Key, y: Key, os: seq<Order>)
    requires |x| == |y| == |os|
  {
    os != [] &&
    if x[0] == y[0] then KeyBefore(x[1..], y[1..], os[1..])
    else if os[0].direction == Asc then Less(x[0], y[0]) else Less(y[0], x[0])
  }

  lemma {:induction false} BeforeIsKeyBefore(a: Row, b: Row, os: seq<Order>)
    ensures Before(a, b, os) <==> KeyBefore(KeyOf(a, os), KeyOf(b, os), os)
  {
    if os != [] {
      BeforeIsKeyBefore(a, b, os[1..]);
      assert KeyOf(a, os)[1..] == KeyOf(a, os[1..]) && KeyOf(b, os)[1..] == KeyOf(b, os[1..]);
    }
  }

  // ---- Values of one type are totally ordered -----------------------------

  lemma {:induction false} StringOrder(s: string, t: string)
    ensures !(StringLess(s, t) && StringLess(t, s))
    ensures s == t || StringLess(s, t) || StringLess(t, s)
    ensures s == t ==> !StringLess(s, t)
  {
    if s != [] && t != [] && s[0] == t[0] {
      StringOrder(s[1..], t[1..]);
      assert s == [s[0]] + s[1..] && t == [t[0]] + t[1..];
    }
  }

  lemma {:induction false} StringTransitive(s: string, t: string, u: string)
    requires StringLess(s, t) && StringLess(t, u)
    ensures StringLess(s, u)
  {
    if s != [] && s[0] == t[0] && t[0] == u[0] {
      StringTransitive(s[1..], t[1..], u[1..]);
    }
  }

  ghost predicate Comparable(a: Value, b: Value) {
    SameType(a, b) && !a.Null?
  }

  lemma ValueOrder(a: Value, b: Value)
    requires Comparable(a, b)
    ensures !(Less(a, b) && Less(b, a)) && (a == b || Less(a, b) || Less(b, a)) && (a == b ==> !Less(a, b))
  {
    if a.Varchar? {
      StringOrder(a.s, b.s);
    }
  }

  lemma ValueTransitive(a: Value, b: Value, c: Value)
    requires Comparable(a, b) && Comparable(b, c) && Less(a, b) && Less(b, c)
    ensures Less(a, c)
  {
    if a.Varchar? {
      StringTransitive(a.s, b.s, c.s);
    }
  }

  // ---- Keys are totally ordered ------------------------------------------

  /** The keys have values of the same types, and none is NULL. */
  ghost predicate SameKinds(x: Key, y: Key) {
    |x| == |y| && forall k :: 0 <= k < |x| ==> Comparable(x[k], y[k])
  }

  ghost predicate AtMost(x: Key, y: Key, os: seq<Order>)
    requires |x| == |y| == |os|
  {
    !KeyBefore(y, x, os)
  }

  lemma TailKinds(x: Key, y: Key)
    requires SameKinds(x, y) && x != []
    ensures Comparable(x[0], y[0]) && SameKinds(x[1..], y[1..])
  {
  }

  lemma {:induction false} KeysTotal(x: Key, y: Key, os: seq<Order>)
    requires SameKinds(x, y) && |x| == |os|
    ensures AtMost(x, y, os) || AtMost(y, x, os)
    ensures AtMost(x, y, os) && AtMost(y, x, os) <==> x == y
  {
    if os != [] {
      TailKinds(x, y);
      KeysTotal(x[1..], y[1..], os[1..]);
      ValueOrder(x[0], y[0]);
      assert x == [x[0]] + x[1..] && y == [y[0]] + y[1..];
    }
  }

  lemma {:induction false} KeysTransitive(x: Key, y: Key, z: Key, os: seq<Order>)
    requires SameKinds(x, y) && SameKinds(y, z) && |x| == |os|
    requires AtMost(x, y, os) && AtMost(y, z, os)
    ensures AtMost(x, z, os)
  {
    if os != [] {
      TailKinds(x, y);
      TailKinds(y, z);
      ValueOrder(x[0], y[0]);
      ValueOrder(y[0], z[0]);
      ValueOrder(x[0], z[0]);
      if x[0] == y[0] && y[0] == z[0] {
        KeysTransitive(x[1..], y[1..], z[1..], os[1..]);
      } else if x[0] != y[0] && y[0] != z[0] {
        if os[0].direction == Asc {
          ValueTransitive(x[0], y[0], z[0]);
        } else {
          ValueTransitive(z[0], y[0], x[0]);
        }
      }
    }
  }

  // ---- Sequences of rows -------------------------------------------------

  function Keys(s: seq<Item>, os: seq<Order>): (keys: seq<Key>)
    ensures |keys| == |s| && forall i :: 0 <= i < |s| ==> keys[i] == KeyOf(s[i].row, os)
  {
    seq(|s|, i requires 0 <= i < |s| => KeyOf(s[i].row, os))
  }

  /** No key of `s` is NULL, and column by column all have one type. */
  ghost predicate Sortable(s: seq<Item>, os: seq<Order>) {
    forall a, b {:trigger SameItemKinds(a, b, os)} :: a in s && b in s ==> SameItemKinds(a, b, os)
  }

  ghost predicate SameItemKinds(a: Item, b: Item, os: seq<Order>) {
    SameKinds(KeyOf(a.row, os), KeyOf(b.row, os))
  }

  ghost predicate ItemAtMost(a: Item, b: Item, os: seq<Order>) {
    AtMost(KeyOf(a.row, os), KeyOf(b.row, os), os)
  }

  lemma PartSortable(s: seq<Item>, t: seq<Item>, os: seq<Order>)
    requires Sortable(s, os) && forall a :: a in t ==> a in s
    ensures Sortable(t, os)
  {
  }

  lemma ItemsTotal(a: Item, b: Item, os: seq<Order>)
    requires SameItemKinds(a, b, os)
    ensures ItemAtMost(a, b, os) <==> !Before(b.row, a.row, os)
    ensures ItemAtMost(a, b, os) || ItemAtMost(b, a, os)
    ensures ItemAtMost(a, b, os) && ItemAtMost(b, a, os) <==> KeyOf(a.row, os) == KeyOf(b.row, os)
  {
    BeforeIsKeyBefore(b.row, a.row, os);
    KeysTotal(KeyOf(a.row, os), KeyOf(b.row, os), os);
  }

  lemma KeysDiffer(a: Item, b: Item, os: seq<Order>)
    requires SameItemKinds(b, a, os) && Before(a.row, b.row, os)
    ensures KeyOf(a.row, os) != KeyOf(b.row, os)
  {
    ItemsTotal(b, a, os);
  }

  lemma ItemsTransitive(a: Item, b: Item, c: Item, os: seq<Order>)
    requires SameItemKinds(a, b, os) && SameItemKinds(b, c, os) && ItemAtMost(a, b, os) && ItemAtMost(b, c, os)
    ensures ItemAtMost(a, c, os)
  {
    KeysTransitive(KeyOf(a.row, os), KeyOf(b.row, os), KeyOf(c.row, os), os);
  }

  ghost predicate Ordered(s: seq<Item>, os: seq<Order>) {
    forall i, j :: 0 <= i < j < |s| ==> ItemAtMost(s[i], s[j], os)
  }

  lemma RemoveOne<T>(s: seq<T>, j: nat)
    requires j < |s|
    ensures multiset(s[..j] + s[j + 1..]) == multiset(s) - multiset{s[j]}
    ensures j == 0 ==> multiset(s[1..]) == multiset(s) - multiset{s[0]}
  {
    assert s == s[..j] + [s[j]] + s[j + 1..];
    if j == 0 {
      assert s[..0] + s[1..] == s[1..];
    }
  }

  /** Sequences with the same elements have the same keys, counted with repetition. */
  lemma {:induction false} SameKeyCounts(s: seq<Item>, t: seq<Item>, os: seq<Order>)
    requires multiset(s) == multiset(t)
    ensures multiset(Keys(s, os)) == multiset(Keys(t, os))
  {
    assert |s| == |multiset(s)| == |multiset(t)| == |t|;
    if s != [] {
      var j := FindIn(s, t);
      var rest, u := s[..0] + s[1..], t[..j] + t[j + 1..];
      RemoveOne(t, j);
      RemoveOne(s, 0);
      SameKeyCounts(rest, u, os);
      KeyCountWithout(s, 0, os);
      KeyCountWithout(t, j, os);
    }
  }

  lemma FindIn(s: seq<Item>, t: seq<Item>) returns (j: nat)
    requires s != [] && multiset(s) == multiset(t)
    ensures j < |t| && t[j] == s[0]
  {
    assert s[0] in multiset(t);
    j :| 0 <= j < |t| && t[j] == s[0];
  }

  lemma KeyCountWithout(s: seq<Item>, j: nat, os: seq<Order>)
    requires j < |s|
    ensures multiset(Keys(s, os)) == multiset(Keys(s[..j] + s[j + 1..], os)) + multiset{KeyOf(s[j].row, os)}
  {
    var ks := Keys(s, os);
    RemoveOne(ks, j);
    assert ks[j] in multiset(ks);
    assert Keys(s[..j] + s[j + 1..], os) == ks[..j] + ks[j + 1..];
  }

  ghost predicate KeysOrdered(ks: seq<Key>, os: seq<Order>) {
    && (forall i :: 0 <= i < |ks| ==> |ks[i]| == |os|)
    && (forall i, j :: 0 <= i < |ks| && 0 <= j < |ks| ==> SameKinds(ks[i], ks[j]))
    && (forall i, j :: 0 <= i < j < |ks| ==> AtMost(ks[i], ks[j], os))
  }

  /** An ordered sequence of keys is determined by what it contains. */
  lemma {:induction false} OrderedKeysUnique(ks: seq<Key>, ls: seq<Key>, os: seq<Order>)
    requires KeysOrdered(ks, os) && KeysOrdered(ls, os) && multiset(ks) == multiset(ls)
    ensures ks == ls
  {
    assert |ks| == |multiset(ks)| == |multiset(ls)| == |ls|;
    if ks != [] {
      FirstKeyUnique(ks, ls, os);
      RemoveOne(ks, 0);
      RemoveOne(ls, 0);
      TailOrdered(ks, os);
      TailOrdered(ls, os);
      OrderedKeysUnique(ks[1..], ls[1..], os);
    }
  }

  lemma TailOrdered(ks: seq<Key>, os: seq<Order>)
    requires KeysOrdered(ks, os) && ks != []
    ensures KeysOrdered(ks[1..], os)
  {
  }

  lemma FirstKeyUnique(ks: seq<Key>, ls: seq<Key>, os: seq<Order>)
    requires KeysOrdered(ks, os) && KeysOrdered(ls, os) && multiset(ks) == multiset(ls) && ks != [] && ls != []
    ensures ks[0] == ls[0]
  {
    assert ks[0] in multiset(ls) && ls[0] in multiset(ks);
    var i :| 0 <= i < |ls| && ls[i] == ks[0];
    var j :| 0 <= j < |ks| && ks[j] == ls[0];
    KeysTotal(ks[0], ls[0], os);
  }

  lemma KeysOfOrdered(s: seq<Item>, os: seq<Order>)
    requires Ordered(s, os) && Sortable(s, os)
    ensures KeysOrdered(Keys(s, os), os)
  {
    var ks := Keys(s, os);
    forall i, j | 0 <= i < |ks| && 0 <= j < |ks|
      ensures SameKinds(ks[i], ks[j])
    {
      assert SameItemKinds(s[i], s[j], os);
    }
    forall i, j | 0 <= i < j < |ks|
      ensures AtMost(ks[i], ks[j], os)
    {
      assert ItemAtMost(s[i], s[j], os);
    }
  }

  /** Two orderings of the same rows show the same keys. */
  lemma OrderingsAgree(s: seq<Item>, t: seq<Item>, os: seq<Order>)
    requires Ordered(s, os) && Ordered(t, os) && Sortable(s, os) && multiset(s) == multiset(t)
    ensures Keys(s, os) == Keys(t, os)
  {
    SameKeyCounts(s, t, os);
    forall i | 0 <= i < |t|
      ensures t[i] in s
    {
      assert t[i] in multiset(t);
    }
    KeysOfOrdered(s, os);
    forall a, b | a in t && b in t
      ensures SameItemKinds(a, b, os)
    {
    }
    KeysOfOrdered(t, os);
    OrderedKeysUnique(Keys(s, os), Keys(t, os), os);
  }

  // ---- What the order says about rows --------------------------------------

  /** All sort expressions have values on the two rows, not NULL and of one type each. */
  ghost predicate RowsComparable(a: Row, b: Row, os: seq<Order>) {
    forall k :: 0 <= k < |os| ==>
      && Eval(os[k].e, OneRow(a)).Val? && Eval(os[k].e, OneRow(b)).Val?
      && Comparable(Eval(os[k].e, OneRow(a)).value, Eval(os[k].e, OneRow(b)).value)
  }

  /** `k` is the first sort expression that tells the rows apart. */
  ghost predicate DifferFirstAt(a: Row, b: Row, os: seq<Order>, k: int) {
    && 0 <= k < |os| && Eval(os[k].e, OneRow(a)) != Eval(os[k].e, OneRow(b))
    && forall j :: 0 <= j < k ==> Eval(os[j].e, OneRow(a)) == Eval(os[j].e, OneRow(b))
  }

  /** `a` may stand before `b`: where they first differ, the smaller value comes first if the
      direction is ASC, the greater one if it is DESC. */
  ghost predicate InOrderBy(a: Row, b: Row, os: seq<Order>) {
    forall k :: DifferFirstAt(a, b, os, k) ==>
      var x, y := Eval(os[k].e, OneRow(a)), Eval(os[k].e, OneRow(b));
      && x.Val? && y.Val?
      && if os[k].direction == Asc then Less(x.value, y.value) else Less(y.value, x.value)
  }

  lemma ComparableKeys(a: Item, b: Item, os: seq<Order>)
    requires RowsComparable(a.row, b.row, os)
    ensures SameItemKinds(a, b, os)
  {
  }

  /** The comparator never puts a row behind another against that order. */
  lemma {:induction false} AtMostMeans(a: Row, b: Row, os: seq<Order>)
    requires RowsComparable(a, b, os) && !Before(b, a, os)
    ensures InOrderBy(a, b, os)
  {
    if os != [] {
      var x, y := Eval(os[0].e, OneRow(a)), Eval(os[0].e, OneRow(b));
      ValueOrder(x.value, y.value);
      var rest := os[1..];
      assert forall k :: 0 <= k < |rest| ==> rest[k] == os[k + 1];
      if x == y {
        AtMostMeans(a, b, rest);
        forall k | DifferFirstAt(a, b, os, k)
          ensures DifferFirstAt(a, b, rest, k - 1)
        {
        }
      }
    }
  }

  /** Every row stands where ORDER BY wants it. */
  ghost predicate OrderedRows(s: seq<Item>, os: seq<Order>) {
    forall i, j :: 0 <= i < j < |s| ==> InOrderBy(s[i].row, s[j].row, os)
  }

  ghost predicate AllComparable(s: seq<Item>, os: seq<Order>) {
    forall a, b :: a in s && b in s ==> RowsComparable(a.row, b.row, os)
  }

  /** Rows with comparable values can be sorted, and what the comparator calls ordered is in that order. */
  lemma OrderedMeans(s: seq<Item>, os: seq<Order>)
    requires AllComparable(s, os)
    ensures Sortable(s, os) && (Ordered(s, os) ==> OrderedRows(s, os))
  {
    forall a, b | a in s && b in s
      ensures SameItemKinds(a, b, os)
    {
      ComparableKeys(a, b, os);
    }
    if Ordered(s, os) {
      forall i, j | 0 <= i < j < |s|
        ensures InOrderBy(s[i].row, s[j].row, os)
      {
        assert s[i] in s && s[j] in s;
        ComparableKeys(s[i], s[j], os);
        ItemsTotal(s[i], s[j], os);
        AtMostMeans(s[i].row, s[j].row, os);
      }
    }
  }

  lemma PartComparable(s: seq<Item>, t: seq<Item>, os: seq<Order>)
    requires AllComparable(s, os) && multiset(t) <= multiset(s)
    ensures AllComparable(t, os)
  {
    forall a | a in t
      ensures a in s
    {
      assert a in multiset(t) && a in multiset(s);
    }
  }
}
