/** The ordering the `sort` and `sort_natural` filters use, and a stable
    insertion sort over it. Each value is mapped to a sort key; keys are totally
    ordered: nil first, then booleans, integers, strings, and last every array
    or object (all equal to one another). */
module Sorting {
  import opened Values
  import opened Text

  datatype SortKey = KNil | KBool(b: bool) | KInt(i: int) | KStr(s: string) | KOther

  function Rank(k: SortKey): nat
  {
    match k
    case KNil => 0
    case KBool(_) => 1
    case KInt(_) => 2
    case KStr(_) => 3
    case KOther => 4
  }

  /** `a` sorts no later than `b`. */
  predicate KeyLe(a: SortKey, b: SortKey)
  {
    if Rank(a) != Rank(b) then Rank(a) < Rank(b)
    else match a
      case KBool(x) => !x || b.b
      case KInt(x) => x <= b.i
      case KStr(x) => LexLe(x, b.s)
      case _ => true
  }

  lemma KeyLeTotal(a: SortKey, b: SortKey)
    ensures KeyLe(a, b) || KeyLe(b, a)
  {
    if a.KStr? && b.KStr? { LexLeTotal(a.s, b.s); }
  }

  lemma KeyLeReflexive(a: SortKey)
    ensures KeyLe(a, a)
  {
    if a.KStr? { LexLeReflexive(a.s); }
  }

  lemma KeyLeAntisymmetric(a: SortKey, b: SortKey)
    requires KeyLe(a, b) && KeyLe(b, a)
    ensures a == b
  {
    if a.KStr? && b.KStr? { LexLeAntisymmetric(a.s, b.s); }
  }

  lemma KeyLeTransitive(a: SortKey, b: SortKey, c: SortKey)
    requires KeyLe(a, b) && KeyLe(b, c)
    ensures KeyLe(a, c)
  {
    if a.KStr? && b.KStr? && c.KStr? { LexLeTransitive(a.s, b.s, c.s); }
  }

  /** How a sort compares elements: case-insensitively or not, and either the
      elements themselves or one property of each. */
  datatype Order = Order(natural: bool, property: Option<string>)

  /** The key of a value; a natural order folds strings to lower case. */
  function KeyOf(v: Value, natural: bool): SortKey
  {
    match v
    case Nil => KNil
    case Bool(b) => KBool(b)
    case Int(i) => KInt(i)
    case Str(s) => KStr(if natural then Lowercase(s) else s)
    case _ => KOther
  }

  /** The key an element is sorted by: its own, or that of its property (a missing
      property is nil). */
  function ElemKey(v: Value, o: Order): SortKey
  {
    KeyOf(if o.property.Some? then Property(v, o.property.value) else v, o.natural)
  }

  predicate Precedes(x: Value, y: Value, o: Order)
  {
    KeyLe(ElemKey(x, o), ElemKey(y, o))
  }

  /** Every element sorts no later than every element after it. */
  predicate SortedBy(s: seq<Value>, o: Order)
  {
    forall i, j :: 0 <= i < j < |s| ==> Precedes(s[i], s[j], o)
  }

  lemma ConsSorted(y: Value, t: seq<Value>, o: Order)
    requires SortedBy(t, o)
    requires forall k :: 0 <= k < |t| ==> Precedes(y, t[k], o)
    ensures SortedBy([y] + t, o)
  {
    var r := [y] + t;
    forall i, j | 0 <= i < j < |r| ensures Precedes(r[i], r[j], o) {
      if i > 0 { assert r[i] == t[i - 1] && r[j] == t[j - 1]; }
    }
  }

  lemma PrecedesAllOf(y: Value, x: Value, t: seq<Value>, r: seq<Value>, o: Order)
    requires multiset(r) == multiset(t) + multiset{x}
    requires Precedes(y, x, o)
    requires forall k :: 0 <= k < |t| ==> Precedes(y, t[k], o)
    ensures forall k :: 0 <= k < |r| ==> Precedes(y, r[k], o)
  {
    forall k | 0 <= k < |r| ensures Precedes(y, r[k], o) {
      assert r[k] in multiset(r);
      if r[k] != x {
        assert r[k] in multiset(t);
        var m :| 0 <= m < |t| && t[m] == r[k];
      }
    }
  }

  /** `x` placed into the sorted `s` before the first element it does not sort after. */
  function Insert(x: Value, s: seq<Value>, o: Order): (r: seq<Value>)
    requires SortedBy(s, o)
    ensures multiset(r) == multiset(s) + multiset{x}
    ensures SortedBy(r, o)
  {
    if s == [] then [x]
    else if Precedes(x, s[0], o) then
      InsertFront(x, s, o);
      [x] + s
    else
      var t := Insert(x, s[1..], o);
      KeyLeTotal(ElemKey(x, o), ElemKey(s[0], o));
      assert s == [s[0]] + s[1..];
      PrecedesAllOf(s[0], x, s[1..], t, o);
      ConsSorted(s[0], t, o);
      [s[0]] + t
  }

  lemma InsertFront(x: Value, s: seq<Value>, o: Order)
    requires SortedBy(s, o) && s != [] && Precedes(x, s[0], o)
    ensures SortedBy([x] + s, o)
  {
    forall k | 0 <= k < |s| ensures Precedes(x, s[k], o) {
      if k > 0 { KeyLeTransitive(ElemKey(x, o), ElemKey(s[0], o), ElemKey(s[k], o)); }
    }
    ConsSorted(x, s, o);
  }

  /** A stable sort of `s`: its elements, rearranged into ascending key order. */
  function SortBy(s: seq<Value>, o: Order): (r: seq<Value>)
    ensures multiset(r) == multiset(s)
    ensures SortedBy(r, o)
  {
    if s == [] then []
    else
      assert s == [s[0]] + s[1..];
      Insert(s[0], SortBy(s[1..], o), o)
  }

  /** The elements of `s` whose key is `k`, in their order in `s`. */
  function WithKey(s: seq<Value>, o: Order, k: SortKey): seq<Value>
  {
    if s == [] then []
    else (if ElemKey(s[0], o) == k then [s[0]] else []) + WithKey(s[1..], o, k)
  }

  lemma WithKeyCons(y: Value, t: seq<Value>, o: Order, k: SortKey)
    ensures WithKey([y] + t, o, k) == (if ElemKey(y, o) == k then [y] else []) + WithKey(t, o, k)
  {
    assert ([y] + t)[1..] == t;
  }

  /** Insertion past the head of `s`, whose key then differs from that of `x`. */
  lemma InsertPast(x: Value, s: seq<Value>, o: Order)
    requires SortedBy(s, o) && s != [] && !Precedes(x, s[0], o)
    ensures SortedBy(s[1..], o)
    ensures Insert(x, s, o) == [s[0]] + Insert(x, s[1..], o)
    ensures ElemKey(s[0], o) != ElemKey(x, o)
  {
    KeyLeReflexive(ElemKey(x, o));
  }

  lemma {:induction false} InsertStable(x: Value, s: seq<Value>, o: Order, k: SortKey)
    requires SortedBy(s, o)
    ensures WithKey(Insert(x, s, o), o, k) == (if ElemKey(x, o) == k then [x] else []) + WithKey(s, o, k)
  {
    if s == [] || Precedes(x, s[0], o) {
      InsertSmallest(x, s, o);
      WithKeyCons(x, s, o, k);
    } else {
      InsertPast(x, s, o);
      InsertStable(x, s[1..], o, k);
      WithKeyPastOther(s[0], x, Insert(x, s[1..], o), s[1..], o, k);
      assert s == [s[0]] + s[1..];
    }
  }

  /** Putting an element of another key in front of two sequences keeps the
      relation between what the two hold of key `k`. */
  lemma WithKeyPastOther(y: Value, x: Value, t: seq<Value>, rest: seq<Value>, o: Order, k: SortKey)
    requires ElemKey(y, o) != ElemKey(x, o)
    requires WithKey(t, o, k) == (if ElemKey(x, o) == k then [x] else []) + WithKey(rest, o, k)
    ensures WithKey([y] + t, o, k) == (if ElemKey(x, o) == k then [x] else []) + WithKey([y] + rest, o, k)
  {
    WithKeyCons(y, t, o, k);
    WithKeyCons(y, rest, o, k);
    var hx := if ElemKey(x, o) == k then [x] else [];
    var hy := if ElemKey(y, o) == k then [y] else [];
    SwapWhenOneEmpty(hy, hx, WithKey(rest, o, k));
  }

  lemma SwapWhenOneEmpty(a: seq<Value>, b: seq<Value>, c: seq<Value>)
    requires a == [] || b == []
    ensures a + (b + c) == b + (a + c)
  {
    if a == [] {
      assert a + (b + c) == b + c == b + (a + c);
    } else {
      assert a + (b + c) == a + c == b + (a + c);
    }
  }

  /** The sort is stable: for every key, the elements with that key appear in
      the output in the same order as in the input. */
  lemma {:induction false} SortByStable(s: seq<Value>, o: Order, k: SortKey)
    ensures WithKey(SortBy(s, o), o, k) == WithKey(s, o, k)
  {
    if s != [] {
      SortByStable(s[1..], o, k);
      InsertStable(s[0], SortBy(s[1..], o), o, k);
    }
  }

  /** An already sorted sequence is left exactly as it is. */
  lemma {:induction false} SortBySortedIsIdentity(s: seq<Value>, o: Order)
    requires SortedBy(s, o)
    ensures SortBy(s, o) == s
  {
    if s != [] {
      assert SortedBy(s[1..], o);
      SortBySortedIsIdentity(s[1..], o);
      InsertSmallest(s[0], s[1..], o);
      assert s == [s[0]] + s[1..];
    }
  }

  /** An element that sorts no later than the head goes in front. */
  lemma InsertSmallest(x: Value, s: seq<Value>, o: Order)
    requires SortedBy(s, o)
    requires s != [] ==> Precedes(x, s[0], o)
    ensures Insert(x, s, o) == [x] + s
  {
  }

  /** Sorting twice is sorting once. */
  lemma SortByIdempotent(s: seq<Value>, o: Order)
    ensures SortBy(SortBy(s, o), o) == SortBy(s, o)
  {
    SortBySortedIsIdentity(SortBy(s, o), o);
  }
}
