/** repair/transaction.py, part one: the canonical text hashed into a transaction
    id, and what two transactions with the same text have in common. */
module Transactions {
  import opened Dicts
  import opened JsonValues
  import opened JsonText
  import opened JsonRoundTrip

  // ------------------------------------------------------------- canonical text

  lemma {:induction false} SortPrintable(j: Json)
    requires Printable(j)
    ensures Printable(SortKeys(j))
    decreases j
  {
    match j
    case JArr(items) => SortItemsPrintable(items);
    case JObj(ms) => SortValuesPrintable(ms); SortMembersPrintable(SortValues(ms));
    case _ =>
  }

  lemma {:induction false} SortItemsPrintable(items: Items)
    requires PrintableItems(items)
    ensures PrintableItems(SortItems(items))
    decreases items
  {
    if items.More? {
      SortPrintable(items.head);
      SortItemsPrintable(items.rest);
    }
  }

  lemma {:induction false} SortValuesPrintable(ms: Dict<Json>)
    requires PrintableMembers(ms)
    ensures PrintableMembers(SortValues(ms))
    decreases ms
  {
    if ms.Cons? {
      SortPrintable(ms.value);
      SortValuesPrintable(ms.tail);
    }
  }

  lemma {:induction false} InsertPrintable(k: PyStr, v: Json, ms: Dict<Json>)
    requires IsPyStr(k) && Printable(v) && PrintableMembers(ms)
    ensures PrintableMembers(Insert(k, v, ms))
  {
    hide IsPyStr, Printable;
    if !(ms.Nil? || Less(k, ms.key)) {
      InsertPrintable(k, v, ms.tail);
    }
  }

  lemma {:induction false} SortMembersPrintable(ms: Dict<Json>)
    requires PrintableMembers(ms)
    ensures PrintableMembers(Sort(ms))
  {
    if ms.Cons? {
      SortMembersPrintable(ms.tail);
      InsertPrintable(ms.key, ms.value, Sort(ms.tail));
    }
  }

  /** json.dumps(obj, sort_keys=True, separators=(",", ":"), ensure_ascii=True). */
  function Canonical(j: Json): string
    requires Printable(j)
  {
    SortPrintable(j);
    Write(SortKeys(j), Compact)
  }

  /** The four dictionaries of a transaction. */
  datatype Parts = Parts(before: Json, change: Json, after: Json, rollback: Json)

  predicate PrintableParts(p: Parts) {
    Printable(p.before) && Printable(p.change) && Printable(p.after) && Printable(p.rollback)
  }

  predicate DistinctParts(p: Parts) {
    DistinctKeys(p.before) && DistinctKeys(p.change) && DistinctKeys(p.after) && DistinctKeys(p.rollback)
  }

  /** The text hashed into the id: the four canonical parts joined with "|". */
  function Payload(p: Parts): string
    requires PrintableParts(p)
  {
    Canonical(p.before) + ("|" + (Canonical(p.change) + ("|" + (Canonical(p.after) + ("|" + Canonical(p.rollback))))))
  }

  // ------------------------------------------- joined surrogates print the same

  lemma EscapeOfPair(hi: int, lo: int)
    requires IsHigh(hi) && IsLow(lo)
    ensures EscapeCode(JoinPair(hi, lo)) == EscapeCode(hi) + EscapeCode(lo)
  {
    var c := JoinPair(hi, lo);
    assert (c - 0x1_0000) / 0x400 == hi - 0xD800 && (c - 0x1_0000) % 0x400 == lo - 0xDC00;
    hide Hex4;
  }

  lemma EscapeCons(c: int, s: PyStr)
    requires IsCode(c) && IsPyStr(s)
    ensures IsPyStr([c] + s) && Escape([c] + s) == EscapeCode(c) + Escape(s)
  {
    hide EscapeCode;
    assert ([c] + s)[1..] == s;
  }

  lemma EscapeTwo(s: PyStr)
    requires IsPyStr(s) && |s| >= 2
    ensures IsPyStr(s[2..]) && Escape(s) == (EscapeCode(s[0]) + EscapeCode(s[1])) + Escape(s[2..])
  {
    hide EscapeCode;
    assert s[1..][1..] == s[2..];
    assert Escape(s) == EscapeCode(s[0]) + (EscapeCode(s[1]) + Escape(s[2..]));
  }

  lemma {:induction false} EscapeOfJoined(s: PyStr)
    requires IsPyStr(s)
    ensures IsPyStr(JoinPairs(s)) && Escape(JoinPairs(s)) == Escape(s)
    decreases |s|
  {
    hide EscapeCode, Escape, JoinPair;
    if |s| >= 2 && IsHigh(s[0]) && IsLow(s[1]) {
      EscapeTwo(s);
      EscapeOfJoined(s[2..]);
      EscapeOfPair(s[0], s[1]);
      EscapeCons(JoinPair(s[0], s[1]), JoinPairs(s[2..]));
    } else if s != [] {
      EscapeOfJoined(s[1..]);
      EscapeCons(s[0], JoinPairs(s[1..]));
      EscapeCons(s[0], s[1..]);
      assert [s[0]] + s[1..] == s;
    }
  }

  lemma {:induction false} WriteOfJoined(j: Json, st: Style)
    requires Printable(j)
    ensures Printable(Joined(j)) && Write(Joined(j), st) == Write(j, st)
    decreases j
  {
    match j
    case JStr(s) => EscapeOfJoined(s);
    case JArr(items) => WriteOfJoinedItems(items, st);
    case JObj(ms) => WriteOfJoinedMembers(ms, st);
    case _ =>
  }

  lemma {:induction false} WriteOfJoinedItems(items: Items, st: Style)
    requires PrintableItems(items)
    ensures PrintableItems(JoinedItems(items)) && WriteItems(JoinedItems(items), st) == WriteItems(items, st)
    decreases items
  {
    if items.More? {
      WriteOfJoined(items.head, st);
      WriteOfJoinedItems(items.rest, st);
      hide Write, Joined, Printable;
    }
  }

  lemma {:induction false} WriteOfJoinedMembers(ms: Dict<Json>, st: Style)
    requires PrintableMembers(ms)
    ensures PrintableMembers(JoinedMembers(ms)) && WriteMembers(JoinedMembers(ms), st) == WriteMembers(ms, st)
    decreases ms
  {
    if ms.Cons? {
      WriteOfJoined(ms.value, st);
      WriteOfJoinedMembers(ms.tail, st);
      EscapeOfJoined(ms.key);
      hide Write, Joined, Printable, JoinPairs, Escape, IsPyStr;
    }
  }

  // ------------------------------------------------ what the payload determines

  /** Content up to key order and up to joining adjacent surrogates. */
  ghost predicate SameText(a: Json, b: Json) { Joined(SortKeys(a)) == Joined(SortKeys(b)) }

  lemma SameTextSameCanonical(a: Json, b: Json)
    requires Printable(a) && Printable(b) && SameText(a, b)
    ensures Canonical(a) == Canonical(b)
  {
    hide Joined, SortKeys, Write;
    SortPrintable(a);
    SortPrintable(b);
    WriteOfJoined(SortKeys(a), Compact);
    WriteOfJoined(SortKeys(b), Compact);
  }

  lemma CanonicalReadsBack(j: Json, rest: string)
    requires Printable(j) && EndsNumber(rest)
    ensures ParseValue(Canonical(j) + rest) == Ok(Joined(SortKeys(j)), rest)
  {
    hide Joined, SortKeys, Write, ParseValue;
    SortPrintable(j);
    ValueRoundTrip(SortKeys(j), Compact, rest);
  }

  /** A canonical text followed by a bar, or by nothing, can be cut off in one way only. */
  lemma CanonicalFraming(a: Json, b: Json, x: string, y: string)
    requires Printable(a) && Printable(b) && EndsNumber(x) && EndsNumber(y)
    requires Canonical(a) + x == Canonical(b) + y
    ensures SameText(a, b) && x == y
  {
    hide Joined, SortKeys, Canonical, ParseValue;
    CanonicalReadsBack(a, x);
    CanonicalReadsBack(b, y);
  }

  lemma BarFraming(a: Json, b: Json, x: string, y: string)
    requires Printable(a) && Printable(b)
    ensures Canonical(a) + ("|" + x) == Canonical(b) + ("|" + y) <==> SameText(a, b) && x == y
  {
    hide Canonical, SameText;
    if Canonical(a) + ("|" + x) == Canonical(b) + ("|" + y) {
      CanonicalFraming(a, b, "|" + x, "|" + y);
      assert ("|" + x)[1..] == x && ("|" + y)[1..] == y;
    }
    if SameText(a, b) {
      SameTextSameCanonical(a, b);
    }
  }

  lemma LastFraming(a: Json, b: Json)
    requires Printable(a) && Printable(b)
    ensures Canonical(a) == Canonical(b) <==> SameText(a, b)
  {
    hide Canonical, SameText;
    assert Canonical(a) + "" == Canonical(a) && Canonical(b) + "" == Canonical(b);
    if Canonical(a) == Canonical(b) {
      CanonicalFraming(a, b, "", "");
    }
    if SameText(a, b) {
      SameTextSameCanonical(a, b);
    }
  }

  ghost predicate SameTextParts(p: Parts, q: Parts) {
    SameText(p.before, q.before) && SameText(p.change, q.change) && SameText(p.after, q.after)
    && SameText(p.rollback, q.rollback)
  }

  /** Two transactions hash the same text exactly when they agree part by part, so
      no bar inside a string can shift a boundary between the parts. */
  lemma PayloadExact(p: Parts, q: Parts)
    requires PrintableParts(p) && PrintableParts(q)
    ensures Payload(p) == Payload(q) <==> SameTextParts(p, q)
  {
    hide Canonical, SameText, Printable;
    var x3, y3 := Canonical(p.after) + ("|" + Canonical(p.rollback)), Canonical(q.after) + ("|" + Canonical(q.rollback));
    BarFraming(p.before, q.before, Canonical(p.change) + ("|" + x3), Canonical(q.change) + ("|" + y3));
    BarFraming(p.change, q.change, x3, y3);
    BarFraming(p.after, q.after, Canonical(p.rollback), Canonical(q.rollback));
    LastFraming(p.rollback, q.rollback);
  }

  // ------------------------------------------- contents without surrogate pairs

  /** No high surrogate directly before a low one. */
  predicate PairFreeStr(s: PyStr) {
    |s| >= 2 ==> !(IsHigh(s[0]) && IsLow(s[1])) && PairFreeStr(s[1..])
  }

  predicate PairFree(j: Json) {
    match j
    case JStr(s) => PairFreeStr(s)
    case JArr(items) => PairFreeItems(items)
    case JObj(ms) => PairFreeMembers(ms)
    case _ => true
  }

  predicate PairFreeItems(items: Items) {
    items.More? ==> PairFree(items.head) && PairFreeItems(items.rest)
  }

  predicate PairFreeMembers(ms: Dict<Json>) {
    ms.Cons? ==> PairFreeStr(ms.key) && PairFree(ms.value) && PairFreeMembers(ms.tail)
  }

  lemma {:induction false} JoinNothing(s: PyStr)
    requires PairFreeStr(s)
    ensures JoinPairs(s) == s
  {
    if s != [] {
      JoinNothing(s[1..]);
      assert [s[0]] + s[1..] == s;
    }
  }

  lemma {:induction false} JoinedNothing(j: Json)
    requires PairFree(j)
    ensures Joined(j) == j
    decreases j
  {
    match j
    case JStr(s) => JoinNothing(s);
    case JArr(items) => JoinedNoItems(items);
    case JObj(ms) => JoinedNoMembers(ms);
    case _ =>
  }

  lemma {:induction false} JoinedNoItems(items: Items)
    requires PairFreeItems(items)
    ensures JoinedItems(items) == items
    decreases items
  {
    if items.More? {
      JoinedNothing(items.head);
      JoinedNoItems(items.rest);
    }
  }

  lemma {:induction false} JoinedNoMembers(ms: Dict<Json>)
    requires PairFreeMembers(ms)
    ensures JoinedMembers(ms) == ms
    decreases ms
  {
    if ms.Cons? {
      JoinNothing(ms.key);
      JoinedNothing(ms.value);
      JoinedNoMembers(ms.tail);
    }
  }

  lemma {:induction false} SortPairFree(j: Json)
    ensures PairFree(SortKeys(j)) <==> PairFree(j)
    decreases j
  {
    match j
    case JArr(items) => SortItemsPairFree(items);
    case JObj(ms) => SortValuesPairFree(ms); SortMembersPairFree(SortValues(ms));
    case _ =>
  }

  lemma {:induction false} SortItemsPairFree(items: Items)
    ensures PairFreeItems(SortItems(items)) <==> PairFreeItems(items)
    decreases items
  {
    if items.More? {
      SortPairFree(items.head);
      SortItemsPairFree(items.rest);
    }
  }

  lemma {:induction false} SortValuesPairFree(ms: Dict<Json>)
    ensures PairFreeMembers(SortValues(ms)) <==> PairFreeMembers(ms)
    decreases ms
  {
    if ms.Cons? {
      SortPairFree(ms.value);
      SortValuesPairFree(ms.tail);
    }
  }

  lemma {:induction false} InsertPairFree(k: PyStr, v: Json, ms: Dict<Json>)
    ensures PairFreeMembers(Insert(k, v, ms)) <==> PairFreeStr(k) && PairFree(v) && PairFreeMembers(ms)
  {
    hide PairFree, PairFreeStr;
    if !(ms.Nil? || Less(k, ms.key)) {
      InsertPairFree(k, v, ms.tail);
    }
  }

  lemma {:induction false} SortMembersPairFree(ms: Dict<Json>)
    ensures PairFreeMembers(Sort(ms)) <==> PairFreeMembers(ms)
  {
    if ms.Cons? {
      SortMembersPairFree(ms.tail);
      InsertPairFree(ms.key, ms.value, Sort(ms.tail));
    }
  }

  predicate PairFreeParts(p: Parts) {
    PairFree(p.before) && PairFree(p.change) && PairFree(p.after) && PairFree(p.rollback)
  }

  predicate SameParts(p: Parts, q: Parts) {
    Same(p.before, q.before) && Same(p.change, q.change) && Same(p.after, q.after) && Same(p.rollback, q.rollback)
  }

  lemma SameTextIsSame(a: Json, b: Json)
    requires DistinctKeys(a) && DistinctKeys(b)
    ensures Same(a, b) ==> SameText(a, b)
    ensures PairFree(a) && PairFree(b) && SameText(a, b) ==> Same(a, b)
  {
    hide Joined, SortKeys, PairFree, Same;
    SameIffSortedEqual(a, b);
    if PairFree(a) && PairFree(b) {
      SortPairFree(a);
      SortPairFree(b);
      JoinedNothing(SortKeys(a));
      JoinedNothing(SortKeys(b));
    }
  }

  /** Key order, at any level, never changes the hashed text. */
  lemma PayloadIgnoresKeyOrder(p: Parts, q: Parts)
    requires PrintableParts(p) && PrintableParts(q) && DistinctParts(p) && DistinctParts(q) && SameParts(p, q)
    ensures Payload(p) == Payload(q)
  {
    hide Payload, SameText, Same, Printable, DistinctKeys;
    PayloadExact(p, q);
    SameTextIsSame(p.before, q.before);
    SameTextIsSame(p.change, q.change);
    SameTextIsSame(p.after, q.after);
    SameTextIsSame(p.rollback, q.rollback);
  }

  /** On contents without surrogate pairs the hashed text determines all four
      parts, up to key order. */
  lemma PayloadDetermines(p: Parts, q: Parts)
    requires PrintableParts(p) && PrintableParts(q) && DistinctParts(p) && DistinctParts(q)
    requires PairFreeParts(p) && PairFreeParts(q)
    ensures Payload(p) == Payload(q) <==> SameParts(p, q)
  {
    hide Payload, SameText, Same, Printable, DistinctKeys, PairFree;
    PayloadExact(p, q);
    SameTextIsSame(p.before, q.before);
    SameTextIsSame(p.change, q.change);
    SameTextIsSame(p.after, q.after);
    SameTextIsSame(p.rollback, q.rollback);
  }

  /** The condition is needed: two different strings, one text. */
  lemma SurrogatePairsCollide()
    ensures var split, whole := JObj(Cons(Codes("k"), JStr([0xD83D, 0xDE00]), Nil)), JObj(Cons(Codes("k"), JStr([0x1F600]), Nil));
            && WellFormed(split) && WellFormed(whole) && !Same(split, whole)
            && Canonical(split) == Canonical(whole)
  {
    var split, whole := JObj(Cons(Codes("k"), JStr([0xD83D, 0xDE00]), Nil)), JObj(Cons(Codes("k"), JStr([0x1F600]), Nil));
    assert [0xD83D, 0xDE00][2..] == [];
    assert JoinPairs([0xD83D, 0xDE00]) == [0x1F600] by {
      assert JoinPair(0xD83D, 0xDE00) == 0x1F600;
    }
    assert JoinPairs([0x1F600]) == [0x1F600] by {
      assert [0x1F600][1..] == [];
    }
    assert SameText(split, whole);
    SameTextSameCanonical(split, whole);
    assert [0xD83D, 0xDE00] != [0x1F600];
  }
}
