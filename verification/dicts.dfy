/** Python strings as sequences of code points (lone surrogates included), their
    order, and insertion-ordered dictionaries with string keys. */
module Dicts {
  import opened Text

  type PyStr = seq<int>

  /** The Python string with the characters of a literal. */
  function Codes(s: string): PyStr { seq(|s|, i requires 0 <= i < |s| => s[i] as int) }

  lemma CodesInjective(a: string, b: string)
    ensures Codes(a) == Codes(b) <==> a == b
  {
    if Codes(a) == Codes(b) {
      assert |a| == |Codes(a)| == |b|;
      forall i | 0 <= i < |a|
        ensures a[i] == b[i]
      {
        assert Codes(a)[i] == Codes(b)[i];
      }
    }
  }

  // -------------------------------------------------------- lexicographic order

  predicate Less(a: PyStr, b: PyStr) {
    b != [] && (a == [] || a[0] < b[0] || (a[0] == b[0] && Less(a[1..], b[1..])))
  }

  lemma {:induction false} LessIrreflexive(a: PyStr)
    ensures !Less(a, a)
  {
    if a != [] {
      LessIrreflexive(a[1..]);
    }
  }

  lemma {:induction false} LessTransitive(a: PyStr, b: PyStr, c: PyStr)
    requires Less(a, b) && Less(b, c)
    ensures Less(a, c)
  {
    if a != [] && a[0] == b[0] && b[0] == c[0] {
      LessTransitive(a[1..], b[1..], c[1..]);
    }
  }

  lemma {:induction false} LessTotal(a: PyStr, b: PyStr)
    ensures Less(a, b) || a == b || Less(b, a)
  {
    if a != [] && b != [] && a[0] == b[0] {
      LessTotal(a[1..], b[1..]);
      assert a == [a[0]] + a[1..] && b == [b[0]] + b[1..];
    }
  }

  lemma LessAsymmetric(a: PyStr, b: PyStr)
    requires Less(a, b)
    ensures !Less(b, a) && a != b
  {
    LessIrreflexive(a);
    if Less(b, a) {
      LessTransitive(a, b, a);
    }
  }

  // --------------------------------------------------------------- dictionaries

  datatype Dict<V> = Nil | Cons(key: PyStr, value: V, tail: Dict<V>)

  function Keys<V>(d: Dict<V>): set<PyStr> {
    match d
    case Nil => {}
    case Cons(k, _, t) => {k} + Keys(t)
  }

  function Size<V>(d: Dict<V>): nat {
    match d
    case Nil => 0
    case Cons(_, _, t) => 1 + Size(t)
  }

  predicate Distinct<V>(d: Dict<V>) {
    match d
    case Nil => true
    case Cons(k, _, t) => k !in Keys(t) && Distinct(t)
  }

  function Lookup<V>(d: Dict<V>, k: PyStr): (r: Option<V>)
    ensures r.Some? <==> k in Keys(d)
  {
    match d
    case Nil => None
    case Cons(k', v, t) => if k == k' then Some(v) else Lookup(t, k)
  }

  lemma {:induction false} SizeIsKeyCount<V>(d: Dict<V>)
    requires Distinct(d)
    ensures |Keys(d)| == Size(d)
  {
    match d
    case Nil =>
    case Cons(k, v, t) => SizeIsKeyCount(t);
  }

  ghost predicate SameLookups<V>(a: Dict<V>, b: Dict<V>) { forall k :: Lookup(a, k) == Lookup(b, k) }

  // -------------------------------------------------------------------- sorting

  predicate Sorted<V>(d: Dict<V>) {
    d.Nil? || ((d.tail.Nil? || Less(d.key, d.tail.key)) && Sorted(d.tail))
  }

  function Insert<V>(k: PyStr, v: V, d: Dict<V>): Dict<V> {
    if d.Nil? || Less(k, d.key) then Cons(k, v, d) else Cons(d.key, d.value, Insert(k, v, d.tail))
  }

  /** sorted(d.items()): the keys are distinct, so values are never compared. */
  function Sort<V>(d: Dict<V>): Dict<V> {
    match d
    case Nil => Nil
    case Cons(k, v, t) => Insert(k, v, Sort(t))
  }

  lemma {:induction false} InsertKeys<V>(k: PyStr, v: V, d: Dict<V>)
    ensures Keys(Insert(k, v, d)) == Keys(d) + {k} && Size(Insert(k, v, d)) == Size(d) + 1
  {
    if !(d.Nil? || Less(k, d.key)) {
      InsertKeys(k, v, d.tail);
    }
  }

  lemma {:induction false} InsertSorted<V>(k: PyStr, v: V, d: Dict<V>)
    requires Sorted(d) && k !in Keys(d)
    ensures Sorted(Insert(k, v, d))
  {
    if !(d.Nil? || Less(k, d.key)) {
      LessTotal(k, d.key);
      InsertSorted(k, v, d.tail);
    }
  }

  lemma {:induction false} InsertLookup<V>(k: PyStr, v: V, d: Dict<V>, q: PyStr)
    requires k !in Keys(d)
    ensures Lookup(Insert(k, v, d), q) == if q == k then Some(v) else Lookup(d, q)
  {
    if !(d.Nil? || Less(k, d.key)) {
      InsertLookup(k, v, d.tail, q);
    }
  }

  lemma {:induction false} SortProperties<V>(d: Dict<V>)
    requires Distinct(d)
    ensures Sorted(Sort(d)) && Keys(Sort(d)) == Keys(d) && Size(Sort(d)) == Size(d)
    ensures forall q :: Lookup(Sort(d), q) == Lookup(d, q)
  {
    match d
    case Nil =>
    case Cons(k, v, t) =>
      SortProperties(t);
      InsertKeys(k, v, Sort(t));
      InsertSorted(k, v, Sort(t));
      forall q
        ensures Lookup(Sort(d), q) == Lookup(d, q)
      {
        InsertLookup(k, v, Sort(t), q);
      }
  }

  lemma {:induction false} SortedAbove<V>(d: Dict<V>, q: PyStr)
    requires Sorted(d) && d.Cons? && q in Keys(d.tail)
    ensures Less(d.key, q)
  {
    if q != d.tail.key {
      SortedAbove(d.tail, q);
      LessTransitive(d.key, d.tail.key, q);
    }
  }

  lemma {:induction false} SortedDistinct<V>(d: Dict<V>)
    requires Sorted(d)
    ensures Distinct(d)
  {
    if d.Cons? {
      SortedDistinct(d.tail);
      if d.key in Keys(d.tail) {
        SortedAbove(d, d.key);
        LessIrreflexive(d.key);
      }
    }
  }

  /** A sorted dictionary is determined by what its lookups answer. */
  lemma {:induction false} SortedUnique<V>(a: Dict<V>, b: Dict<V>)
    requires Sorted(a) && Sorted(b) && SameLookups(a, b)
    ensures a == b
  {
    assert a.Cons? ==> Lookup(a, a.key) == Lookup(b, a.key);
    assert b.Cons? ==> Lookup(a, b.key) == Lookup(b, b.key);
    if a.Cons? && b.Cons? {
      SameHead(a, b);
      SortedDistinct(a);
      SortedDistinct(b);
      forall k
        ensures Lookup(a.tail, k) == Lookup(b.tail, k)
      {
        assert Lookup(a, k) == Lookup(b, k);
      }
      SortedUnique(a.tail, b.tail);
    }
  }

  lemma SameHead<V>(a: Dict<V>, b: Dict<V>)
    requires Sorted(a) && Sorted(b) && SameLookups(a, b) && a.Cons? && b.Cons?
    ensures a.key == b.key && a.value == b.value
  {
    assert Lookup(a, a.key) == Lookup(b, a.key);
    assert Lookup(a, b.key) == Lookup(b, b.key);
    if a.key != b.key {
      SortedAbove(b, a.key);
      SortedAbove(a, b.key);
      LessAsymmetric(a.key, b.key);
    }
  }

  lemma {:induction false} SortOfSorted<V>(d: Dict<V>)
    requires Sorted(d)
    ensures Sort(d) == d
  {
    if d.Cons? {
      SortOfSorted(d.tail);
    }
  }
}
