/** What comes back from the journal: over any run of appends, the records in
    order, each one as it was written except for adjacent surrogates. */
module JournalRoundTrip {
  import opened Text
  import opened Dicts
  import opened JsonValues
  import opened JsonText
  import opened JsonRoundTrip
  import opened Transactions
  import opened Journal

  /** What a written value reads back as. */
  function Restored(j: Json): Json { Dictify(Joined(SortKeys(j))) }

  function RestoredRecord(r: Record): Record {
    Record(Restored(r.id), Parts(Restored(r.parts.before), Restored(r.parts.change),
                                 Restored(r.parts.after), Restored(r.parts.rollback)))
  }

  function RestoredAll(rs: seq<Record>): seq<Record> { seq(|rs|, i requires 0 <= i < |rs| => RestoredRecord(rs[i])) }

  // ----------------------------------------------------- dictionaries of members

  function Append(a: Dict<Json>, b: Dict<Json>): Dict<Json> {
    match a
    case Nil => b
    case Cons(k, v, t) => Cons(k, v, Append(t, b))
  }

  lemma {:induction false} AppendAssoc(a: Dict<Json>, b: Dict<Json>, c: Dict<Json>)
    ensures Append(Append(a, b), c) == Append(a, Append(b, c))
  {
    if a.Cons? {
      AppendAssoc(a.tail, b, c);
    }
  }

  lemma {:induction false} PutNew(d: Dict<Json>, k: PyStr, v: Json)
    requires k !in Keys(d)
    ensures Put(d, k, v) == Append(d, Cons(k, v, Nil)) && Keys(Put(d, k, v)) == Keys(d) + {k}
  {
    if d.Cons? {
      PutNew(d.tail, k, v);
    }
  }

  lemma {:induction false} PutAllNew(acc: Dict<Json>, ms: Dict<Json>)
    requires Distinct(ms) && Keys(acc) !! Keys(ms)
    ensures PutAll(acc, ms) == Append(acc, ms)
    decreases ms
  {
    match ms
    case Nil => AppendNil(acc);
    case Cons(k, v, t) =>
      assert k in Keys(ms);
      PutNew(acc, k, v);
      PutAllNew(Put(acc, k, v), t);
      AppendAssoc(acc, Cons(k, v, Nil), t);
  }

  lemma {:induction false} AppendNil(a: Dict<Json>)
    ensures Append(a, Nil) == a
  {
    if a.Cons? {
      AppendNil(a.tail);
    }
  }

  lemma DistinctMembersStay(ms: Dict<Json>)
    requires Distinct(ms)
    ensures PutAll(Nil, ms) == ms
  {
    PutAllNew(Nil, ms);
  }

  function MapDictify(v: Option<Json>): Option<Json> { if v.None? then None else Some(Dictify(v.value)) }

  function MapJoined(v: Option<Json>): Option<Json> { if v.None? then None else Some(Joined(v.value)) }

  lemma {:induction false} DictifyLookup(ms: Dict<Json>, k: PyStr)
    ensures Lookup(DictifyMembers(ms), k) == MapDictify(Lookup(ms, k))
  {
    if ms.Cons? {
      DictifyLookup(ms.tail, k);
    }
  }

  ghost predicate PairFreeKeys(ms: Dict<Json>) { forall k :: k in Keys(ms) ==> PairFreeStr(k) }

  lemma {:induction false} JoinedLookup(ms: Dict<Json>, k: PyStr)
    requires PairFreeKeys(ms)
    ensures Keys(JoinedMembers(ms)) == Keys(ms) && Lookup(JoinedMembers(ms), k) == MapJoined(Lookup(ms, k))
    ensures Distinct(ms) ==> Distinct(JoinedMembers(ms))
  {
    hide PairFreeStr, JoinPairs, Joined;
    if ms.Cons? {
      assert ms.key in Keys(ms);
      JoinNothing(ms.key);
      assert PairFreeKeys(ms.tail);
      JoinedLookup(ms.tail, k);
    }
  }

  /** Under a key that holds no pair, a restored object holds the restored value. */
  lemma RestoredLookup(ms: Dict<Json>, k: PyStr)
    requires Distinct(ms) && PairFreeKeys(ms) && k in Keys(ms)
    ensures Restored(JObj(ms)).JObj? && Lookup(Restored(JObj(ms)).members, k) == Some(Restored(Lookup(ms, k).value))
  {
    var z := Sort(SortValues(ms));
    SortProperties(SortValues(ms));
    SortedObjectLookup(ms, k);
    SortedDistinct(z);
    hide Sort, SortValues, SortKeys, Distinct, Sorted, Lookup, Keys;
    assert PairFreeKeys(z);
    JoinedLookup(z, k);
    DictifyLookup(JoinedMembers(z), k);
    DistinctMembersStay(DictifyMembers(JoinedMembers(z)));
  }

  // ------------------------------------------------------------------- one record

  lemma ToDictLookups(r: Record)
    ensures var ms := ToDict(r).members;
            && Keys(ms) == {IdKey(), BeforeKey(), ChangeKey(), AfterKey(), RollbackKey()}
            && Lookup(ms, IdKey()) == Some(r.id) && Lookup(ms, BeforeKey()) == Some(r.parts.before)
            && Lookup(ms, ChangeKey()) == Some(r.parts.change) && Lookup(ms, AfterKey()) == Some(r.parts.after)
            && Lookup(ms, RollbackKey()) == Some(r.parts.rollback)
            && Distinct(ms)
  {
    KeysDiffer();
    hide Codes, IdKey, BeforeKey, ChangeKey, AfterKey, RollbackKey, IsPyStr;
    var p := r.parts;
    var m5 := Cons(RollbackKey(), p.rollback, Nil);
    var m4 := Cons(AfterKey(), p.after, m5);
    var m3 := Cons(ChangeKey(), p.change, m4);
    var m2 := Cons(BeforeKey(), p.before, m3);
    ConsLookups(RollbackKey(), p.rollback, Nil);
    ConsLookups(AfterKey(), p.after, m5);
    ConsLookups(ChangeKey(), p.change, m4);
    ConsLookups(BeforeKey(), p.before, m3);
    ConsLookups(IdKey(), r.id, m2);
  }

  lemma ConsLookups(k: PyStr, v: Json, t: Dict<Json>)
    requires k !in Keys(t) && Distinct(t)
    ensures var d := Cons(k, v, t);
            && Distinct(d) && Keys(d) == {k} + Keys(t) && Lookup(d, k) == Some(v)
            && forall q :: q in Keys(t) ==> Lookup(d, q) == Lookup(t, q)
  {
  }

  lemma RecordKeysPairFree()
    ensures PairFreeStr(IdKey()) && PairFreeStr(BeforeKey()) && PairFreeStr(ChangeKey())
            && PairFreeStr(AfterKey()) && PairFreeStr(RollbackKey())
  {
    CodesAreText("transaction_id");
    CodesAreText("before_state");
    CodesAreText("change");
    CodesAreText("after_state");
    CodesAreText("rollback_action");
  }

  lemma DocumentLoads(r: Record)
    requires WellFormedRecord(r)
    ensures Loads(Document(r)) == Some(Restored(ToDict(r)))
  {
    hide ToDict, SortKeys, Joined, Write, Dictify, ParseValue;
    ToDictWellFormed(r);
    var j := SortKeys(ToDict(r));
    ValueRoundTrip(j, Spaced, "");
    assert Write(j, Spaced) + "" == Write(j, Spaced);
    WriteStart(j, Spaced);
    CloserOrStart(Write(j, Spaced)[0]);
    SkipNothing(Write(j, Spaced));
    SkipNothing("");
  }

  lemma RestoredDictLookups(r: Record)
    ensures var d := Restored(ToDict(r));
            && d.JObj?
            && Lookup(d.members, IdKey()) == Some(Restored(r.id))
            && Lookup(d.members, BeforeKey()) == Some(Restored(r.parts.before))
            && Lookup(d.members, ChangeKey()) == Some(Restored(r.parts.change))
            && Lookup(d.members, AfterKey()) == Some(Restored(r.parts.after))
            && Lookup(d.members, RollbackKey()) == Some(Restored(r.parts.rollback))
  {
    hide ToDict, Restored, IdKey, BeforeKey, ChangeKey, AfterKey, RollbackKey, PairFreeStr, Lookup, Keys, Distinct;
    ToDictIsObject(r);
    var ms := ToDict(r).members;
    ToDictLookups(r);
    RecordKeysPairFree();
    assert PairFreeKeys(ms);
    RestoredLookup(ms, IdKey());
    RestoredLookup(ms, BeforeKey());
    RestoredLookup(ms, ChangeKey());
    RestoredLookup(ms, AfterKey());
    RestoredLookup(ms, RollbackKey());
  }

  lemma ToDictIsObject(r: Record)
    ensures ToDict(r).JObj? && ToDict(r) == JObj(ToDict(r).members)
  {
  }

  /** A written line reads back as the restored record. */
  lemma DocumentIsRecord(r: Record)
    requires WellFormedRecord(r)
    ensures Loads(Document(r)).Some? && RecordOf(Loads(Document(r)).value) == Some(RestoredRecord(r))
  {
    hide ToDict, Restored, WellFormedRecord, Document, Loads, IdKey, BeforeKey, ChangeKey, AfterKey, RollbackKey, Lookup;
    DocumentLoads(r);
    RestoredDictLookups(r);
  }

  // ------------------------------------------------------------- runs of appends

  predicate WellFormedRecords(rs: seq<Record>) { forall i :: 0 <= i < |rs| ==> WellFormedRecord(rs[i]) }

  function Documents(rs: seq<Record>): seq<string>
    requires WellFormedRecords(rs)
  {
    if rs == [] then [] else [Document(rs[0])] + Documents(rs[1..])
  }

  lemma {:induction false} SplitAppended(rs: seq<Record>)
    requires WellFormedRecords(rs)
    ensures SplitLines(Lines(rs)) == Documents(rs)
  {
    hide SplitLines, Line, Document, WellFormedRecord;
    if rs == [] {
      NoLines();
    } else {
      SplitAppended(rs[1..]);
      SplitOneLine(rs[0], Lines(rs[1..]));
    }
  }

  /** The lines ys behind lines that load as l. */
  function Continued(l: Loaded, more: Loaded): Loaded {
    if l.Records? then Prefixed(l.records, more) else l
  }

  lemma ConsumeContinued(line: string, number: nat, l: Loaded, more: Loaded)
    ensures Consume(line, number, Continued(l, more)) == Continued(Consume(line, number, l), more)
  {
    hide IsBlank, Loads, RecordOf;
    if l.Records? && more.Records? {
      assert forall r: Record :: [r] + (l.records + more.records) == ([r] + l.records) + more.records;
    }
  }

  lemma ContinuedNothing(more: Loaded)
    ensures Continued(Records([]), more) == more
  {
    PrefixedNothing(more);
  }

  lemma {:induction false} LoadLinesConcat(xs: seq<string>, ys: seq<string>, number: nat)
    ensures LoadLines(xs + ys, number) == Continued(LoadLines(xs, number), LoadLines(ys, number + |xs|))
  {
    hide Consume, Continued;
    if xs == [] {
      assert xs + ys == ys;
      ContinuedNothing(LoadLines(ys, number));
    } else {
      LoadLinesConcat(xs[1..], ys, number + 1);
      assert (xs + ys)[0] == xs[0] && (xs + ys)[1..] == xs[1..] + ys;
      ConsumeContinued(xs[0], number, LoadLines(xs[1..], number + 1), LoadLines(ys, number + |xs|));
    }
  }

  lemma LoadOneDocument(d: string, r: Record, rest: seq<string>, number: nat)
    requires !IsBlank(d) && Loads(d).Some? && RecordOf(Loads(d).value) == Some(r)
    ensures LoadLines([d] + rest, number) == Prefixed([r], LoadLines(rest, number + 1))
  {
    hide IsBlank, Loads, RecordOf;
    assert ([d] + rest)[1..] == rest;
  }

  lemma {:induction false} LoadDocuments(rs: seq<Record>, number: nat)
    requires WellFormedRecords(rs)
    ensures LoadLines(Documents(rs), number) == Records(RestoredAll(rs))
  {
    hide *;
    if rs == [] {
      NoDocuments(number);
    } else {
      RecordsTail(rs);
      DocumentShape(rs[0]);
      DocumentIsRecord(rs[0]);
      LoadDocuments(rs[1..], number + 1);
      LoadOneDocument(Document(rs[0]), RestoredRecord(rs[0]), Documents(rs[1..]), number);
      PrefixedOne(RestoredRecord(rs[0]), RestoredAll(rs[1..]));
    }
  }

  lemma RecordsTail(rs: seq<Record>)
    requires WellFormedRecords(rs) && rs != []
    ensures WellFormedRecord(rs[0]) && WellFormedRecords(rs[1..])
    ensures Documents(rs) == [Document(rs[0])] + Documents(rs[1..])
    ensures RestoredAll(rs) == [RestoredRecord(rs[0])] + RestoredAll(rs[1..])
  {
    hide WellFormedRecord, Document, RestoredRecord;
  }

  lemma PrefixedOne(r: Record, rs: seq<Record>)
    ensures Prefixed([r], Records(rs)) == Records([r] + rs)
  {
  }

  lemma NoDocuments(number: nat)
    ensures Documents([]) == [] && LoadLines([], number) == Records(RestoredAll([]))
  {
  }

  /** Appending to any file that is empty or ends in a newline: whatever load said
      before, it says the same and then the appended records, in order. */
  lemma LoadAfterAppends(text: string, rs: seq<Record>)
    requires WellFormedRecords(rs) && (text == "" || text[|text| - 1] == '\n')
    ensures LoadText(text + Lines(rs)) ==
              if LoadText(text).Records? then Records(LoadText(text).records + RestoredAll(rs)) else LoadText(text)
  {
    hide SplitLines, LoadLines, Lines, WellFormedRecord, RestoredAll;
    SplitLinesConcat(text, Lines(rs));
    SplitAppended(rs);
    LoadLinesConcat(SplitLines(text), Documents(rs), 1);
    LoadDocuments(rs, 1 + |SplitLines(text)|);
  }

  // ---------------------------------- when a value is given back as it was written

  lemma {:induction false} SortKeysIdempotent(j: Json)
    requires DistinctKeys(j)
    ensures SortKeys(SortKeys(j)) == SortKeys(j) && DistinctKeys(SortKeys(j))
    decreases j
  {
    match j
    case JArr(items) => SortItemsIdempotent(items);
    case JObj(ms) =>
      var vs := SortValues(ms);
      SortValuesIdempotent(ms);
      SortProperties(vs);
      SortOfSortValues(vs);
      SortedDistinct(Sort(vs));
      SortOfSorted(Sort(vs));
      DistinctSortMembers(vs);
    case _ =>
  }

  lemma {:induction false} SortItemsIdempotent(items: Items)
    requires DistinctItems(items)
    ensures SortItems(SortItems(items)) == SortItems(items) && DistinctItems(SortItems(items))
    decreases items
  {
    if items.More? {
      SortKeysIdempotent(items.head);
      SortItemsIdempotent(items.rest);
    }
  }

  lemma {:induction false} SortValuesIdempotent(ms: Dict<Json>)
    requires DistinctMembers(ms)
    ensures SortValues(SortValues(ms)) == SortValues(ms) && DistinctMembers(SortValues(ms))
    decreases ms
  {
    if ms.Cons? {
      SortKeysIdempotent(ms.value);
      SortValuesIdempotent(ms.tail);
    }
  }

  lemma {:induction false} SortValuesOfInsert(k: PyStr, v: Json, ms: Dict<Json>)
    ensures SortValues(Insert(k, v, ms)) == Insert(k, SortKeys(v), SortValues(ms))
  {
    hide SortKeys;
    if !(ms.Nil? || Less(k, ms.key)) {
      SortValuesOfInsert(k, v, ms.tail);
    }
  }

  lemma {:induction false} SortOfSortValues(ms: Dict<Json>)
    ensures SortValues(Sort(ms)) == Sort(SortValues(ms))
  {
    hide SortKeys;
    if ms.Cons? {
      SortOfSortValues(ms.tail);
      SortValuesOfInsert(ms.key, ms.value, Sort(ms.tail));
    }
  }

  lemma {:induction false} DistinctInsert(k: PyStr, v: Json, ms: Dict<Json>)
    requires DistinctKeys(v) && DistinctMembers(ms)
    ensures DistinctMembers(Insert(k, v, ms))
  {
    hide DistinctKeys;
    if !(ms.Nil? || Less(k, ms.key)) {
      DistinctInsert(k, v, ms.tail);
    }
  }

  lemma {:induction false} DistinctSortMembers(ms: Dict<Json>)
    requires DistinctMembers(ms)
    ensures DistinctMembers(Sort(ms))
  {
    hide DistinctKeys;
    if ms.Cons? {
      DistinctSortMembers(ms.tail);
      DistinctInsert(ms.key, ms.value, Sort(ms.tail));
    }
  }

  lemma {:induction false} DictifyDistinct(j: Json)
    requires DistinctKeys(j)
    ensures Dictify(j) == j
    decreases j
  {
    match j
    case JArr(items) => DictifyDistinctItems(items);
    case JObj(ms) => DictifyDistinctMembers(ms); DistinctMembersStay(ms);
    case _ =>
  }

  lemma {:induction false} DictifyDistinctItems(items: Items)
    requires DistinctItems(items)
    ensures DictifyItems(items) == items
    decreases items
  {
    if items.More? {
      DictifyDistinct(items.head);
      DictifyDistinctItems(items.rest);
    }
  }

  lemma {:induction false} DictifyDistinctMembers(ms: Dict<Json>)
    requires DistinctMembers(ms)
    ensures DictifyMembers(ms) == ms
    decreases ms
  {
    if ms.Cons? {
      DictifyDistinct(ms.value);
      DictifyDistinctMembers(ms.tail);
    }
  }

  lemma RestoredPairFree(j: Json)
    requires DistinctKeys(j) && PairFree(j)
    ensures Restored(j) == SortKeys(j) && Same(Restored(j), j)
  {
    hide SortKeys, Joined, Dictify, DistinctKeys, PairFree, Same;
    SortKeysIdempotent(j);
    SortPairFree(j);
    JoinedNothing(SortKeys(j));
    DictifyDistinct(SortKeys(j));
    SameIffSortedEqual(SortKeys(j), j);
  }

  // ------------------------------------ a joined pair is never the same content

  /** Code points in all strings of a value, keys included. */
  function CodeCount(j: Json): nat {
    match j
    case JStr(s) => |s|
    case JArr(items) => ItemsCount(items)
    case JObj(ms) => MembersCount(ms)
    case _ => 0
  }

  function ItemsCount(items: Items): nat {
    if items.End? then 0 else CodeCount(items.head) + ItemsCount(items.rest)
  }

  function MembersCount(ms: Dict<Json>): nat {
    if ms.Nil? then 0 else |ms.key| + CodeCount(ms.value) + MembersCount(ms.tail)
  }

  lemma {:induction false} InsertCount(k: PyStr, v: Json, ms: Dict<Json>)
    ensures MembersCount(Insert(k, v, ms)) == |k| + CodeCount(v) + MembersCount(ms)
  {
    hide CodeCount;
    if !(ms.Nil? || Less(k, ms.key)) {
      InsertCount(k, v, ms.tail);
    }
  }

  lemma {:induction false} SortCount(ms: Dict<Json>)
    ensures MembersCount(Sort(ms)) == MembersCount(ms)
  {
    hide CodeCount;
    if ms.Cons? {
      SortCount(ms.tail);
      InsertCount(ms.key, ms.value, Sort(ms.tail));
    }
  }

  lemma {:induction false} SortKeysCount(j: Json)
    ensures CodeCount(SortKeys(j)) == CodeCount(j)
    decreases j
  {
    match j
    case JArr(items) => SortItemsCount(items);
    case JObj(ms) => SortValuesCount(ms); SortCount(SortValues(ms));
    case _ =>
  }

  lemma {:induction false} SortItemsCount(items: Items)
    ensures ItemsCount(SortItems(items)) == ItemsCount(items)
    decreases items
  {
    if items.More? {
      SortKeysCount(items.head);
      SortItemsCount(items.rest);
    }
  }

  lemma {:induction false} SortValuesCount(ms: Dict<Json>)
    ensures MembersCount(SortValues(ms)) == MembersCount(ms)
    decreases ms
  {
    if ms.Cons? {
      SortKeysCount(ms.value);
      SortValuesCount(ms.tail);
    }
  }

  lemma {:induction false} JoinPairsCount(s: PyStr)
    ensures |JoinPairs(s)| <= |s| && (!PairFreeStr(s) ==> |JoinPairs(s)| < |s|)
    decreases |s|
  {
    if |s| >= 2 && IsHigh(s[0]) && IsLow(s[1]) {
      JoinPairsCount(s[2..]);
    } else if s != [] {
      JoinPairsCount(s[1..]);
    }
  }

  lemma {:induction false} JoinedCount(j: Json)
    ensures CodeCount(Joined(j)) <= CodeCount(j) && (!PairFree(j) ==> CodeCount(Joined(j)) < CodeCount(j))
    decreases j
  {
    match j
    case JStr(s) => JoinPairsCount(s);
    case JArr(items) => JoinedItemsCount(items);
    case JObj(ms) => JoinedMembersCount(ms);
    case _ =>
  }

  lemma {:induction false} JoinedItemsCount(items: Items)
    ensures ItemsCount(JoinedItems(items)) <= ItemsCount(items)
    ensures !PairFreeItems(items) ==> ItemsCount(JoinedItems(items)) < ItemsCount(items)
    decreases items
  {
    if items.More? {
      JoinedCount(items.head);
      JoinedItemsCount(items.rest);
    }
  }

  lemma {:induction false} JoinedMembersCount(ms: Dict<Json>)
    ensures MembersCount(JoinedMembers(ms)) <= MembersCount(ms)
    ensures !PairFreeMembers(ms) ==> MembersCount(JoinedMembers(ms)) < MembersCount(ms)
    decreases ms
  {
    if ms.Cons? {
      JoinPairsCount(ms.key);
      JoinedCount(ms.value);
      JoinedMembersCount(ms.tail);
      hide JoinPairs, Joined, PairFree, PairFreeStr, CodeCount;
    }
  }

  lemma {:induction false} PutCount(d: Dict<Json>, k: PyStr, v: Json)
    ensures MembersCount(Put(d, k, v)) <= MembersCount(d) + |k| + CodeCount(v)
  {
    hide CodeCount;
    if d.Cons? && d.key != k {
      PutCount(d.tail, k, v);
    }
  }

  lemma {:induction false} PutAllCount(acc: Dict<Json>, ms: Dict<Json>)
    ensures MembersCount(PutAll(acc, ms)) <= MembersCount(acc) + MembersCount(ms)
    decreases ms
  {
    hide CodeCount;
    if ms.Cons? {
      PutCount(acc, ms.key, ms.value);
      PutAllCount(Put(acc, ms.key, ms.value), ms.tail);
    }
  }

  lemma {:induction false} DictifyCount(j: Json)
    ensures CodeCount(Dictify(j)) <= CodeCount(j)
    decreases j
  {
    match j
    case JArr(items) => DictifyItemsCount(items);
    case JObj(ms) => DictifyMembersCount(ms); PutAllCount(Nil, DictifyMembers(ms));
    case _ =>
  }

  lemma {:induction false} DictifyItemsCount(items: Items)
    ensures ItemsCount(DictifyItems(items)) <= ItemsCount(items)
    decreases items
  {
    if items.More? {
      DictifyCount(items.head);
      DictifyItemsCount(items.rest);
    }
  }

  lemma {:induction false} DictifyMembersCount(ms: Dict<Json>)
    ensures MembersCount(DictifyMembers(ms)) <= MembersCount(ms)
    decreases ms
  {
    if ms.Cons? {
      DictifyCount(ms.value);
      DictifyMembersCount(ms.tail);
    }
  }

  lemma {:induction false} PutDistinct(d: Dict<Json>, k: PyStr, v: Json)
    requires Distinct(d) && DistinctMembers(d) && DistinctKeys(v)
    ensures Distinct(Put(d, k, v)) && DistinctMembers(Put(d, k, v)) && Keys(Put(d, k, v)) == Keys(d) + {k}
  {
    hide DistinctKeys;
    if d.Cons? && d.key != k {
      PutDistinct(d.tail, k, v);
    }
  }

  lemma {:induction false} PutAllDistinct(acc: Dict<Json>, ms: Dict<Json>)
    requires Distinct(acc) && DistinctMembers(acc) && DistinctMembers(ms)
    ensures Distinct(PutAll(acc, ms)) && DistinctMembers(PutAll(acc, ms))
    decreases ms
  {
    if ms.Cons? {
      PutDistinct(acc, ms.key, ms.value);
      PutAllDistinct(Put(acc, ms.key, ms.value), ms.tail);
    }
  }

  lemma {:induction false} DictifyHasDistinctKeys(j: Json)
    ensures DistinctKeys(Dictify(j))
    decreases j
  {
    match j
    case JArr(items) => DictifyItemsDistinct(items);
    case JObj(ms) => DictifyMembersDistinct(ms); PutAllDistinct(Nil, DictifyMembers(ms));
    case _ =>
  }

  lemma {:induction false} DictifyItemsDistinct(items: Items)
    ensures DistinctItems(DictifyItems(items))
    decreases items
  {
    if items.More? {
      DictifyHasDistinctKeys(items.head);
      DictifyItemsDistinct(items.rest);
    }
  }

  lemma {:induction false} DictifyMembersDistinct(ms: Dict<Json>)
    ensures DistinctMembers(DictifyMembers(ms))
    decreases ms
  {
    if ms.Cons? {
      DictifyHasDistinctKeys(ms.value);
      DictifyMembersDistinct(ms.tail);
    }
  }

  /** The journal gives a value back, up to key order, exactly when no string in
      it has a high surrogate directly before a low one. */
  lemma RestoredIffPairFree(j: Json)
    requires DistinctKeys(j)
    ensures Same(Restored(j), j) <==> PairFree(j)
  {
    hide SortKeys, Joined, Dictify, DistinctKeys, PairFree, Same, CodeCount;
    if PairFree(j) {
      RestoredPairFree(j);
    } else {
      var s := SortKeys(j);
      SortPairFree(j);
      SortKeysCount(j);
      JoinedCount(s);
      DictifyCount(Joined(s));
      DictifyHasDistinctKeys(Joined(s));
      SortKeysCount(Restored(j));
      SameIffSortedEqual(Restored(j), j);
    }
  }

  lemma RecordRestoredIffPairFree(r: Record)
    requires WellFormedRecord(r)
    ensures SameRecord(RestoredRecord(r), r) <==> PairFreeRecord(r)
  {
    hide Restored, Same, PairFree, DistinctKeys, Printable;
    RestoredIffPairFree(r.id);
    RestoredIffPairFree(r.parts.before);
    RestoredIffPairFree(r.parts.change);
    RestoredIffPairFree(r.parts.after);
    RestoredIffPairFree(r.parts.rollback);
  }

  // --------------------------------------- when the id can be recomputed

  /** No key, at any level, has a high surrogate directly before a low one. */
  predicate KeysPairFree(j: Json) {
    match j
    case JArr(items) => ItemKeysPairFree(items)
    case JObj(ms) => MemberKeysPairFree(ms)
    case _ => true
  }

  predicate ItemKeysPairFree(items: Items) {
    items.More? ==> KeysPairFree(items.head) && ItemKeysPairFree(items.rest)
  }

  predicate MemberKeysPairFree(ms: Dict<Json>) {
    ms.Cons? ==> PairFreeStr(ms.key) && KeysPairFree(ms.value) && MemberKeysPairFree(ms.tail)
  }

  lemma {:induction false} InsertKeysPairFree(k: PyStr, v: Json, ms: Dict<Json>)
    requires PairFreeStr(k) && KeysPairFree(v) && MemberKeysPairFree(ms)
    ensures MemberKeysPairFree(Insert(k, v, ms))
  {
    hide KeysPairFree, PairFreeStr;
    if !(ms.Nil? || Less(k, ms.key)) {
      InsertKeysPairFree(k, v, ms.tail);
    }
  }

  lemma {:induction false} SortMemberKeysPairFree(ms: Dict<Json>)
    requires MemberKeysPairFree(ms)
    ensures MemberKeysPairFree(Sort(ms))
  {
    hide KeysPairFree, PairFreeStr;
    if ms.Cons? {
      SortMemberKeysPairFree(ms.tail);
      InsertKeysPairFree(ms.key, ms.value, Sort(ms.tail));
    }
  }

  lemma {:induction false} SortKeysPairFree(j: Json)
    requires KeysPairFree(j)
    ensures KeysPairFree(SortKeys(j))
    decreases j
  {
    match j
    case JArr(items) => SortItemKeysPairFree(items);
    case JObj(ms) => SortValueKeysPairFree(ms); SortMemberKeysPairFree(SortValues(ms));
    case _ =>
  }

  lemma {:induction false} SortItemKeysPairFree(items: Items)
    requires ItemKeysPairFree(items)
    ensures ItemKeysPairFree(SortItems(items))
    decreases items
  {
    if items.More? {
      SortKeysPairFree(items.head);
      SortItemKeysPairFree(items.rest);
    }
  }

  lemma {:induction false} SortValueKeysPairFree(ms: Dict<Json>)
    requires MemberKeysPairFree(ms)
    ensures MemberKeysPairFree(SortValues(ms))
    decreases ms
  {
    if ms.Cons? {
      SortKeysPairFree(ms.value);
      SortValueKeysPairFree(ms.tail);
    }
  }

  lemma {:induction false} JoinedInsert(k: PyStr, v: Json, ms: Dict<Json>)
    requires PairFreeStr(k) && MemberKeysPairFree(ms)
    ensures JoinedMembers(Insert(k, v, ms)) == Insert(k, Joined(v), JoinedMembers(ms))
  {
    hide Joined, JoinPairs, KeysPairFree, PairFreeStr;
    JoinNothing(k);
    if ms.Cons? {
      JoinNothing(ms.key);
      if !Less(k, ms.key) {
        JoinedInsert(k, v, ms.tail);
      }
    }
  }

  lemma {:induction false} JoinedSort(ms: Dict<Json>)
    requires MemberKeysPairFree(ms)
    ensures JoinedMembers(Sort(ms)) == Sort(JoinedMembers(ms))
  {
    hide Joined, JoinPairs, KeysPairFree, PairFreeStr;
    if ms.Cons? {
      JoinNothing(ms.key);
      JoinedSort(ms.tail);
      SortMemberKeysPairFree(ms.tail);
      JoinedInsert(ms.key, ms.value, Sort(ms.tail));
    }
  }

  /** Joining pairs in the values commutes with sorting by keys that have none. */
  lemma {:induction false} JoinedSortKeys(j: Json)
    requires KeysPairFree(j)
    ensures Joined(SortKeys(j)) == SortKeys(Joined(j))
    decreases j
  {
    match j
    case JArr(items) => JoinedSortItems(items);
    case JObj(ms) =>
      JoinedSortValues(ms);
      SortValueKeysPairFree(ms);
      JoinedSort(SortValues(ms));
    case _ =>
  }

  lemma {:induction false} JoinedSortItems(items: Items)
    requires ItemKeysPairFree(items)
    ensures JoinedItems(SortItems(items)) == SortItems(JoinedItems(items))
    decreases items
  {
    if items.More? {
      JoinedSortKeys(items.head);
      JoinedSortItems(items.rest);
    }
  }

  lemma {:induction false} JoinedSortValues(ms: Dict<Json>)
    requires MemberKeysPairFree(ms)
    ensures JoinedMembers(SortValues(ms)) == SortValues(JoinedMembers(ms))
    decreases ms
  {
    if ms.Cons? {
      JoinedSortKeys(ms.value);
      JoinedSortValues(ms.tail);
    }
  }

  lemma {:induction false} JoinedDistinct(j: Json)
    requires KeysPairFree(j) && DistinctKeys(j)
    ensures DistinctKeys(Joined(j))
    decreases j
  {
    match j
    case JArr(items) => JoinedDistinctItems(items);
    case JObj(ms) => JoinedDistinctMembers(ms);
    case _ =>
  }

  lemma {:induction false} JoinedDistinctItems(items: Items)
    requires ItemKeysPairFree(items) && DistinctItems(items)
    ensures DistinctItems(JoinedItems(items))
    decreases items
  {
    if items.More? {
      JoinedDistinct(items.head);
      JoinedDistinctItems(items.rest);
    }
  }

  lemma {:induction false} JoinedDistinctMembers(ms: Dict<Json>)
    requires MemberKeysPairFree(ms) && DistinctMembers(ms)
    ensures Keys(JoinedMembers(ms)) == Keys(ms) && DistinctMembers(JoinedMembers(ms))
    ensures Distinct(ms) ==> Distinct(JoinedMembers(ms))
    decreases ms
  {
    if ms.Cons? {
      JoinNothing(ms.key);
      JoinedDistinct(ms.value);
      JoinedDistinctMembers(ms.tail);
    }
  }

  // ------------------------------------------------- exactly when it can be

  /** The keys of every object, at every level, are in ascending order. */
  predicate KeysAscend(j: Json) {
    match j
    case JArr(items) => ItemKeysAscend(items)
    case JObj(ms) => Sorted(ms) && MemberKeysAscend(ms)
    case _ => true
  }

  predicate ItemKeysAscend(items: Items) {
    items.More? ==> KeysAscend(items.head) && ItemKeysAscend(items.rest)
  }

  predicate MemberKeysAscend(ms: Dict<Json>) {
    ms.Cons? ==> KeysAscend(ms.value) && MemberKeysAscend(ms.tail)
  }

  lemma {:induction false} InsertAscends(k: PyStr, v: Json, ms: Dict<Json>)
    requires KeysAscend(v) && MemberKeysAscend(ms)
    ensures MemberKeysAscend(Insert(k, v, ms))
  {
    hide KeysAscend;
    if !(ms.Nil? || Less(k, ms.key)) {
      InsertAscends(k, v, ms.tail);
    }
  }

  lemma {:induction false} SortMembersAscend(ms: Dict<Json>)
    requires MemberKeysAscend(ms)
    ensures MemberKeysAscend(Sort(ms))
  {
    hide KeysAscend;
    if ms.Cons? {
      SortMembersAscend(ms.tail);
      InsertAscends(ms.key, ms.value, Sort(ms.tail));
    }
  }

  lemma {:induction false} SortKeysAscends(j: Json)
    requires DistinctKeys(j)
    ensures KeysAscend(SortKeys(j))
    decreases j
  {
    match j
    case JArr(items) => SortItemsAscend(items);
    case JObj(ms) =>
      SortValuesAscend(ms);
      SortProperties(SortValues(ms));
      SortMembersAscend(SortValues(ms));
    case _ =>
  }

  lemma {:induction false} SortItemsAscend(items: Items)
    requires DistinctItems(items)
    ensures ItemKeysAscend(SortItems(items))
    decreases items
  {
    if items.More? {
      SortKeysAscends(items.head);
      SortItemsAscend(items.rest);
    }
  }

  lemma {:induction false} SortValuesAscend(ms: Dict<Json>)
    requires DistinctMembers(ms)
    ensures MemberKeysAscend(SortValues(ms))
    decreases ms
  {
    if ms.Cons? {
      SortKeysAscends(ms.value);
      SortValuesAscend(ms.tail);
    }
  }

  /** What ascends has distinct keys, and sorting leaves it alone. */
  lemma {:induction false} AscendingIsSorted(j: Json)
    requires KeysAscend(j)
    ensures DistinctKeys(j) && SortKeys(j) == j
    decreases j
  {
    match j
    case JArr(items) => AscendingItemsAreSorted(items);
    case JObj(ms) =>
      AscendingMembersAreSorted(ms);
      SortedDistinct(ms);
      SortOfSorted(ms);
    case _ =>
  }

  lemma {:induction false} AscendingItemsAreSorted(items: Items)
    requires ItemKeysAscend(items)
    ensures DistinctItems(items) && SortItems(items) == items
    decreases items
  {
    if items.More? {
      AscendingIsSorted(items.head);
      AscendingItemsAreSorted(items.rest);
    }
  }

  lemma {:induction false} AscendingMembersAreSorted(ms: Dict<Json>)
    requires MemberKeysAscend(ms)
    ensures DistinctMembers(ms) && SortValues(ms) == ms
    decreases ms
  {
    if ms.Cons? {
      AscendingIsSorted(ms.value);
      AscendingMembersAreSorted(ms.tail);
    }
  }

  /** The canonical text is that of the same content with its keys in ascending order,
      written without white space. */
  lemma CanonicalIsSorted(j: Json)
    requires WellFormed(j)
    ensures exists z :: Printable(z) && Same(z, j) && KeysAscend(z) && Canonical(j) == Write(z, Compact)
  {
    hide SortKeys, Printable, DistinctKeys, Write, KeysAscend, Same;
    var z := SortKeys(j);
    SortKeysIdempotent(j);
    SortKeysAscends(j);
    SameIffSortedEqual(z, j);
    SortPrintable(j);
    assert Canonical(j) == Write(z, Compact);
  }

  lemma {:induction false} JoinPairsLeavesNone(s: PyStr)
    ensures PairFreeStr(JoinPairs(s))
    ensures s == [] <==> JoinPairs(s) == []
    ensures s != [] && !(|s| >= 2 && IsHigh(s[0]) && IsLow(s[1])) ==> JoinPairs(s)[0] == s[0]
    decreases |s|
  {
    if |s| >= 2 && IsHigh(s[0]) && IsLow(s[1]) {
      JoinPairsLeavesNone(s[2..]);
      ConsPairFree(JoinPair(s[0], s[1]), JoinPairs(s[2..]));
    } else if s != [] {
      JoinPairsLeavesNone(s[1..]);
      ConsPairFree(s[0], JoinPairs(s[1..]));
    }
  }

  lemma ConsPairFree(c: int, t: PyStr)
    requires PairFreeStr(t) && (t == [] || !IsHigh(c) || !IsLow(t[0]))
    ensures PairFreeStr([c] + t)
  {
    assert ([c] + t)[1..] == t;
  }

  lemma {:induction false} JoinedLeavesNoPair(j: Json)
    ensures PairFree(Joined(j))
    decreases j
  {
    match j
    case JStr(s) => JoinPairsLeavesNone(s);
    case JArr(items) => JoinedItemsLeaveNoPair(items);
    case JObj(ms) => JoinedMembersLeaveNoPair(ms);
    case _ =>
  }

  lemma {:induction false} JoinedItemsLeaveNoPair(items: Items)
    ensures PairFreeItems(JoinedItems(items))
    decreases items
  {
    if items.More? {
      JoinedLeavesNoPair(items.head);
      JoinedItemsLeaveNoPair(items.rest);
    }
  }

  lemma {:induction false} JoinedMembersLeaveNoPair(ms: Dict<Json>)
    ensures PairFreeMembers(JoinedMembers(ms))
    decreases ms
  {
    if ms.Cons? {
      JoinPairsLeavesNone(ms.key);
      JoinedLeavesNoPair(ms.value);
      JoinedMembersLeaveNoPair(ms.tail);
      hide JoinPairs, PairFreeStr, Joined, PairFree;
    }
  }

  /** Dictionaries are built of the parsed members: what holds of those stays. */
  lemma {:induction false} PutKeeps(d: Dict<Json>, k: PyStr, v: Json)
    ensures PairFreeMembers(d) && PairFreeStr(k) && PairFree(v) ==> PairFreeMembers(Put(d, k, v))
    ensures PrintableMembers(d) && IsPyStr(k) && Printable(v) ==> PrintableMembers(Put(d, k, v))
  {
    hide PairFree, PairFreeStr, Printable, IsPyStr;
    if d.Cons? && d.key != k {
      PutKeeps(d.tail, k, v);
    }
  }

  lemma {:induction false} PutAllKeeps(acc: Dict<Json>, ms: Dict<Json>)
    ensures PairFreeMembers(acc) && PairFreeMembers(ms) ==> PairFreeMembers(PutAll(acc, ms))
    ensures PrintableMembers(acc) && PrintableMembers(ms) ==> PrintableMembers(PutAll(acc, ms))
    decreases ms
  {
    hide PairFree, PairFreeStr, Printable, IsPyStr;
    if ms.Cons? {
      PutKeeps(acc, ms.key, ms.value);
      PutAllKeeps(Put(acc, ms.key, ms.value), ms.tail);
    }
  }

  lemma {:induction false} DictifyKeeps(j: Json)
    ensures PairFree(j) ==> PairFree(Dictify(j))
    ensures Printable(j) ==> Printable(Dictify(j))
    decreases j
  {
    match j
    case JArr(items) => DictifyItemsKeep(items);
    case JObj(ms) => DictifyMembersKeep(ms); PutAllKeeps(Nil, DictifyMembers(ms));
    case _ =>
  }

  lemma {:induction false} DictifyItemsKeep(items: Items)
    ensures PairFreeItems(items) ==> PairFreeItems(DictifyItems(items))
    ensures PrintableItems(items) ==> PrintableItems(DictifyItems(items))
    decreases items
  {
    if items.More? {
      DictifyKeeps(items.head);
      DictifyItemsKeep(items.rest);
    }
  }

  lemma {:induction false} DictifyMembersKeep(ms: Dict<Json>)
    ensures PairFreeMembers(ms) ==> PairFreeMembers(DictifyMembers(ms))
    ensures PrintableMembers(ms) ==> PrintableMembers(DictifyMembers(ms))
    decreases ms
  {
    if ms.Cons? {
      DictifyKeeps(ms.value);
      DictifyMembersKeep(ms.tail);
    }
  }

  /** The keys of the written text stay distinct and in order once their pairs are
      joined, as reading the text joins them. */
  predicate KeysStayInOrder(j: Json) { KeysAscend(Joined(SortKeys(j))) }

  lemma RestoredIsPrintable(j: Json)
    requires Printable(j)
    ensures Printable(Restored(j))
  {
    hide SortKeys, Joined, Dictify, Printable, Write;
    SortPrintable(j);
    WriteOfJoined(SortKeys(j), Compact);
    DictifyKeeps(Joined(SortKeys(j)));
  }

  /** A restored value prints what the written one printed exactly when its keys stay
      distinct and in order once joined. */
  lemma RestoredTextExact(j: Json)
    requires WellFormed(j)
    ensures Printable(Restored(j)) && (Canonical(Restored(j)) == Canonical(j) <==> KeysStayInOrder(j))
  {
    hide SortKeys, Joined, Dictify, DistinctKeys, Printable, Write, KeysAscend, PairFree, Canonical;
    var w := Joined(SortKeys(j));
    var back := Dictify(w);
    RestoredIsPrintable(j);
    LastFraming(back, j);
    if KeysAscend(w) {
      AscendingIsSorted(w);
      DictifyDistinct(w);
      JoinedLeavesNoPair(SortKeys(j));
      JoinedNothing(w);
    }
    if SameText(back, j) {
      JoinedLeavesNoPair(SortKeys(j));
      DictifyKeeps(w);
      SortPairFree(back);
      JoinedNothing(SortKeys(back));
      DictifyHasDistinctKeys(w);
      SortKeysAscends(back);
    }
  }

  lemma PairFreeKeysStayInOrder(j: Json)
    requires DistinctKeys(j) && KeysPairFree(j)
    ensures KeysStayInOrder(j)
  {
    hide SortKeys, Joined, DistinctKeys, KeysPairFree, KeysAscend;
    JoinedSortKeys(j);
    JoinedDistinct(j);
    SortKeysAscends(Joined(j));
  }

  predicate KeysStayInOrderParts(p: Parts) {
    KeysStayInOrder(p.before) && KeysStayInOrder(p.change) && KeysStayInOrder(p.after) && KeysStayInOrder(p.rollback)
  }

  predicate KeysPairFreeParts(p: Parts) {
    KeysPairFree(p.before) && KeysPairFree(p.change) && KeysPairFree(p.after) && KeysPairFree(p.rollback)
  }

  /** When the id can be recomputed from the journal: a restored record hashes the very
      text its id was made of exactly when the keys of all four parts stay distinct and
      in order once their pairs are joined; what other strings hold does not matter. */
  lemma IdSurvivesExactly(r: Record)
    requires WellFormedRecord(r)
    ensures var back := RestoredRecord(r);
            && PrintableParts(back.parts)
            && (Payload(back.parts) == Payload(r.parts) <==> KeysStayInOrderParts(r.parts))
            && (Same(back.id, r.id) <==> PairFree(r.id))
  {
    hide Restored, Same, PairFree, DistinctKeys, Printable, Canonical, SameText, KeysStayInOrder, Payload;
    var back, p := RestoredRecord(r).parts, r.parts;
    RestoredIffPairFree(r.id);
    RestoredTextExact(p.before);
    RestoredTextExact(p.change);
    RestoredTextExact(p.after);
    RestoredTextExact(p.rollback);
    PayloadExact(back, p);
    LastFraming(back.before, p.before);
    LastFraming(back.change, p.change);
    LastFraming(back.after, p.after);
    LastFraming(back.rollback, p.rollback);
  }

  /** So the id survives when no key has a pair. */
  lemma IdSurvivesJournal(r: Record)
    requires WellFormedRecord(r) && KeysPairFreeParts(r.parts)
    ensures var back := RestoredRecord(r);
            && PrintableParts(back.parts) && Payload(back.parts) == Payload(r.parts)
            && (Same(back.id, r.id) <==> PairFree(r.id))
  {
    hide Restored, Same, PairFree, DistinctKeys, Printable, Payload, KeysPairFree, KeysStayInOrder;
    IdSurvivesExactly(r);
    PairFreeKeysStayInOrder(r.parts.before);
    PairFreeKeysStayInOrder(r.parts.change);
    PairFreeKeysStayInOrder(r.parts.after);
    PairFreeKeysStayInOrder(r.parts.rollback);
  }

  /** An instance where it does not: two keys that join to one lose a member. */
  lemma PairedKeysLoseTheId()
    ensures var j := JObj(Cons([0xD83D, 0xDE00], JNull, Cons([0x1F600], JNull, Nil)));
            WellFormed(j) && Printable(Restored(j)) && Canonical(Restored(j)) != Canonical(j)
  {
    var split, whole: PyStr := [0xD83D, 0xDE00], [0x1F600];
    var rest := Cons(whole, JNull, Nil);
    var ms := Cons(split, JNull, rest);
    PairJoins();
    hide JoinPairs, Canonical, Restored;
    assert split != whole && IsPyStr(split) && IsPyStr(whole);
    assert Sort(rest) == rest && Sort(ms) == ms;
    assert Joined(SortKeys(JObj(ms))) == JObj(Cons(whole, JNull, rest));
    LessIrreflexive(whole);
    RestoredTextExact(JObj(ms));
  }

  /** A paired key alone does no harm. */
  lemma PairedKeyMayKeepTheId()
    ensures var j := JObj(Cons([0xD83D, 0xDE00], JNull, Nil));
            WellFormed(j) && Printable(Restored(j)) && Canonical(Restored(j)) == Canonical(j)
  {
    var split: PyStr := [0xD83D, 0xDE00];
    var ms := Cons(split, JNull, Nil);
    hide JoinPairs, Canonical, Restored;
    assert IsPyStr(split);
    assert Joined(SortKeys(JObj(ms))) == JObj(Cons(JoinPairs(split), JNull, Nil));
    RestoredTextExact(JObj(ms));
  }

  lemma PairJoins()
    ensures JoinPairs([0xD83D, 0xDE00]) == [0x1F600] && JoinPairs([0x1F600]) == [0x1F600]
  {
    assert [0xD83D, 0xDE00][2..] == [] && [0x1F600][1..] == [];
    assert JoinPair(0xD83D, 0xDE00) == 0x1F600;
  }
}
