/** The values json.dumps and json.loads exchange, and when two of them are the
    same content: dictionaries compare without regard to insertion order. */
module JsonValues {
  import opened Text
  import opened Dicts

  datatype Json =
    | JNull
    | JBool(b: bool)
    | JInt(n: int)
    | JFloat(text: string)
    | JStr(s: PyStr)
    | JArr(items: Items)
    | JObj(members: Dict<Json>)

  datatype Items = End | More(head: Json, rest: Items)

  // ------------------------------------------------------------ well-formedness

  predicate IsCode(c: int) { 0 <= c < 0x11_0000 }

  predicate IsPyStr(s: PyStr) { forall i :: 0 <= i < |s| ==> IsCode(s[i]) }

  /** Strings hold code points, and there are no floats. */
  predicate Printable(j: Json) {
    match j
    case JStr(s) => IsPyStr(s)
    case JFloat(_) => false
    case JArr(items) => PrintableItems(items)
    case JObj(ms) => PrintableMembers(ms)
    case _ => true
  }

  predicate PrintableItems(items: Items) {
    items.More? ==> Printable(items.head) && PrintableItems(items.rest)
  }

  predicate PrintableMembers(ms: Dict<Json>) {
    ms.Cons? ==> IsPyStr(ms.key) && Printable(ms.value) && PrintableMembers(ms.tail)
  }

  /** No object has a key twice: true of every value built of Python dictionaries. */
  predicate DistinctKeys(j: Json) {
    match j
    case JArr(items) => DistinctItems(items)
    case JObj(ms) => Distinct(ms) && DistinctMembers(ms)
    case _ => true
  }

  predicate DistinctItems(items: Items) {
    items.More? ==> DistinctKeys(items.head) && DistinctItems(items.rest)
  }

  predicate DistinctMembers(ms: Dict<Json>) {
    ms.Cons? ==> DistinctKeys(ms.value) && DistinctMembers(ms.tail)
  }

  predicate WellFormed(j: Json) { Printable(j) && DistinctKeys(j) }

  // --------------------------------------------------------------- same content

  /** The same content: equal scalars of one kind, equal lists, and dictionaries of
      equal size whose entries agree key by key. Finer than Python's ==, which takes
      True for 1; the written text tells them apart as well. */
  predicate Same(a: Json, b: Json)
    decreases a
  {
    match a
    case JArr(items) => b.JArr? && SameItems(items, b.items)
    case JObj(ms) => b.JObj? && Size(ms) == Size(b.members) && SameMembers(ms, b.members)
    case _ => a == b
  }

  predicate SameItems(a: Items, b: Items)
    decreases a
  {
    if a.End? then b.End? else b.More? && Same(a.head, b.head) && SameItems(a.rest, b.rest)
  }

  predicate SameMembers(a: Dict<Json>, b: Dict<Json>)
    decreases a
  {
    a.Cons? ==>
      && var v := Lookup(b, a.key);
      && v.Some?
      && Same(a.value, v.value)
      && SameMembers(a.tail, b)
  }

  // ------------------------------------------------------------- sorting by key

  /** The value with the members of every object in key order (sort_keys=True). */
  function SortKeys(j: Json): Json {
    match j
    case JArr(items) => JArr(SortItems(items))
    case JObj(ms) => JObj(Sort(SortValues(ms)))
    case _ => j
  }

  function SortItems(items: Items): Items {
    match items
    case End => End
    case More(h, t) => More(SortKeys(h), SortItems(t))
  }

  function SortValues(ms: Dict<Json>): (r: Dict<Json>)
    ensures Keys(r) == Keys(ms) && Size(r) == Size(ms)
    ensures Distinct(ms) ==> Distinct(r)
  {
    match ms
    case Nil => Nil
    case Cons(k, v, t) => Cons(k, SortKeys(v), SortValues(t))
  }

  function MapSort(v: Option<Json>): Option<Json> {
    if v.None? then None else Some(SortKeys(v.value))
  }

  lemma {:induction false} SortValuesLookup(ms: Dict<Json>, k: PyStr)
    ensures Lookup(SortValues(ms), k) == MapSort(Lookup(ms, k))
  {
    if ms.Cons? {
      SortValuesLookup(ms.tail, k);
    }
  }

  lemma SortedObjectLookup(ms: Dict<Json>, k: PyStr)
    requires Distinct(ms)
    ensures Lookup(Sort(SortValues(ms)), k) == MapSort(Lookup(ms, k))
  {
    SortProperties(SortValues(ms));
    SortValuesLookup(ms, k);
  }

  lemma {:induction false} LookupDistinctKeys(ms: Dict<Json>, k: PyStr)
    requires DistinctMembers(ms) && k in Keys(ms)
    ensures DistinctKeys(Lookup(ms, k).value)
  {
    if k != ms.key {
      LookupDistinctKeys(ms.tail, k);
    }
  }

  /** Content equality is exactly equality of the sorted forms. */
  lemma {:induction false} SameIffSortedEqual(a: Json, b: Json)
    requires DistinctKeys(a) && DistinctKeys(b)
    ensures Same(a, b) <==> SortKeys(a) == SortKeys(b)
    decreases a
  {
    match a
    case JArr(items) =>
      if b.JArr? {
        SameItemsIffSorted(items, b.items);
      }
    case JObj(ms) =>
      if b.JObj? {
        SameObjects(ms, b.members);
      }
    case _ =>
  }

  lemma {:induction false} SameItemsIffSorted(a: Items, b: Items)
    requires DistinctItems(a) && DistinctItems(b)
    ensures SameItems(a, b) <==> SortItems(a) == SortItems(b)
    decreases a
  {
    if a.More? && b.More? {
      SameIffSortedEqual(a.head, b.head);
      SameItemsIffSorted(a.rest, b.rest);
    }
  }

  lemma {:induction false} SameObjects(a: Dict<Json>, b: Dict<Json>)
    requires Distinct(a) && Distinct(b) && DistinctMembers(a) && DistinctMembers(b)
    ensures Size(a) == Size(b) && SameMembers(a, b) <==> Sort(SortValues(a)) == Sort(SortValues(b))
    decreases a, 1
  {
    hide Sort, SortValues, SameMembers, Covered, MapSort;
    SameMembersLookups(a, b);
    if Size(a) == Size(b) && Covered(a, b) {
      CoveredSortsEqual(a, b);
    }
    if Sort(SortValues(a)) == Sort(SortValues(b)) {
      SortsEqualCovered(a, b);
    }
  }

  lemma CoveredSortsEqual(a: Dict<Json>, b: Dict<Json>)
    requires Distinct(a) && Distinct(b) && Size(a) == Size(b) && Covered(a, b)
    ensures Sort(SortValues(a)) == Sort(SortValues(b))
  {
    hide Sort, SortValues, MapSort, Sorted;
    SizeIsKeyCount(a);
    SizeIsKeyCount(b);
    assert forall k :: k in Keys(a) ==> CoveredAt(a, b, k);
    SubsetOfSameSize(Keys(a), Keys(b));
    var sa, sb := Sort(SortValues(a)), Sort(SortValues(b));
    forall k
      ensures Lookup(sa, k) == Lookup(sb, k)
    {
      SortedObjectLookup(a, k);
      SortedObjectLookup(b, k);
      assert k in Keys(a) ==> CoveredAt(a, b, k);
    }
    SortProperties(SortValues(a));
    SortProperties(SortValues(b));
    SortedUnique(sa, sb);
  }

  lemma SortsEqualCovered(a: Dict<Json>, b: Dict<Json>)
    requires Distinct(a) && Distinct(b) && Sort(SortValues(a)) == Sort(SortValues(b))
    ensures Size(a) == Size(b) && Covered(a, b)
  {
    hide Sort, SortValues, Sorted;
    SortProperties(SortValues(a));
    SortProperties(SortValues(b));
    forall k | k in Keys(a)
      ensures CoveredAt(a, b, k)
    {
      SortedObjectLookup(a, k);
      SortedObjectLookup(b, k);
    }
  }

  /** Every key of a is in b, with the same sorted value. */
  ghost predicate Covered(a: Dict<Json>, b: Dict<Json>) {
    forall k :: k in Keys(a) ==> CoveredAt(a, b, k)
  }

  predicate CoveredAt(a: Dict<Json>, b: Dict<Json>, k: PyStr) {
    k in Keys(b) && MapSort(Lookup(a, k)) == MapSort(Lookup(b, k))
  }

  lemma {:induction false} SameMembersLookups(a: Dict<Json>, b: Dict<Json>)
    requires Distinct(a) && DistinctMembers(a) && DistinctMembers(b)
    ensures SameMembers(a, b) <==> Covered(a, b)
    decreases a, 0
  {
    if a.Cons? {
      SameMembersLookups(a.tail, b);
      if a.key in Keys(b) {
        LookupDistinctKeys(b, a.key);
        SameIffSortedEqual(a.value, Lookup(b, a.key).value);
      }
      CoveredCons(a, b);
    }
  }

  lemma CoveredCons(a: Dict<Json>, b: Dict<Json>)
    requires a.Cons? && Distinct(a)
    ensures Covered(a, b) <==> CoveredAt(a, b, a.key) && Covered(a.tail, b)
  {
    assert forall k :: k in Keys(a.tail) ==> Lookup(a, k) == Lookup(a.tail, k);
    assert forall k :: k in Keys(a.tail) ==> (CoveredAt(a, b, k) <==> CoveredAt(a.tail, b, k));
    assert a.key in Keys(a);
  }

  lemma SubsetOfSameSize(a: set<PyStr>, b: set<PyStr>)
    requires a <= b && |a| == |b|
    ensures a == b
  {
    assert |b - a| == |b| - |a|;
  }
}
