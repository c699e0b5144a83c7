/** Exactly which lines the journal's reader takes, what a line spells, and what becomes
    of torn and glued lines. */
module JournalLines {
  import opened Text
  import opened Dicts
  import opened JsonValues
  import opened JsonText
  import opened JsonRoundTrip
  import opened JsonGrammar
  import opened JsonWriter
  import opened Transactions
  import opened Journal
  import opened JournalRoundTrip

  // ------------------------------------------------------------- the reader's lines

  /** A line is read exactly when it is a JSON text, and then as its value with
      dictionaries made of its objects. */
  lemma LoadsExact(line: string, value: Json)
    ensures Loads(line) == Some(value) <==> exists j :: IsText(line, j) && value == Dictify(j)
  {
    hide ParseDocument, IsText, Dictify;
    if Loads(line) == Some(value) {
      var j := ParseDocument(line).value;
      DocumentExact(line, j);
    }
    if j :| IsText(line, j) && value == Dictify(j) {
      DocumentExact(line, j);
    }
  }

  lemma {:induction false} PutKeys(d: Dict<Json>, k: PyStr, v: Json, q: PyStr)
    ensures Keys(Put(d, k, v)) == Keys(d) + {k}
    ensures Lookup(Put(d, k, v), q) == if q == k then Some(v) else Lookup(d, q)
  {
    if d.Cons? && d.key != k {
      PutKeys(d.tail, k, v, q);
    }
  }

  /** The value behind the last occurrence of a key. */
  function LastOf(ms: Dict<Json>, k: PyStr): Json
    requires k in Keys(ms)
  {
    if k in Keys(ms.tail) then LastOf(ms.tail, k) else ms.value
  }

  lemma {:induction false} PutAllKeys(acc: Dict<Json>, ms: Dict<Json>, q: PyStr)
    ensures Keys(PutAll(acc, ms)) == Keys(acc) + Keys(ms)
    ensures Lookup(PutAll(acc, ms), q) == if q in Keys(ms) then Some(LastOf(ms, q)) else Lookup(acc, q)
    decreases ms
  {
    if ms.Cons? {
      PutKeys(acc, ms.key, ms.value, q);
      PutAllKeys(Put(acc, ms.key, ms.value), ms.tail, q);
    }
  }

  lemma {:induction false} DictifyLastOf(ms: Dict<Json>, k: PyStr)
    requires k in Keys(ms)
    ensures LastOf(DictifyMembers(ms), k) == Dictify(LastOf(ms, k))
  {
    hide Dictify;
    if k in Keys(ms.tail) {
      DictifyLastOf(ms.tail, k);
    }
  }

  /** A dictionary has the keys of its object, and under a repeated key the last value. */
  lemma LastValueWins(ms: Dict<Json>, k: PyStr)
    ensures Dictify(JObj(ms)).JObj? && Keys(Dictify(JObj(ms)).members) == Keys(ms)
    ensures k in Keys(ms) ==> Lookup(Dictify(JObj(ms)).members, k) == Some(Dictify(LastOf(ms, k)))
  {
    PutAllKeys(Nil, DictifyMembers(ms), k);
    if k in Keys(ms) {
      DictifyLastOf(ms, k);
    }
    hide PutAll;
  }

  predicate HasFiveKeys(ms: Dict<Json>) {
    {Codes("transaction_id"), Codes("before_state"), Codes("change"), Codes("after_state"), Codes("rollback_action")}
      <= Keys(ms)
  }

  lemma RecordNeedsKeys(j: Json)
    ensures RecordOf(j).Some? <==> j.JObj? && HasFiveKeys(j.members)
  {
    hide Codes;
  }

  /** A line is taken exactly when it is blank, or the text of an object with the five
      keys of a record. */
  lemma GoodLineExact(line: string)
    ensures IsGoodLine(line) <==>
              All(line, IsSpace) || exists ms :: IsText(line, JObj(ms)) && HasFiveKeys(ms)
  {
    hide IsText, Loads, RecordOf, HasFiveKeys, IsSpace;
    if Loads(line).Some? && RecordOf(Loads(line).value).Some? {
      var value := Loads(line).value;
      LoadsExact(line, value);
      RecordNeedsKeys(value);
      var j :| IsText(line, j) && value == Dictify(j);
      ObjectOfDict(j);
      LastValueWins(j.members, []);
      SameFiveKeys(j.members, value.members);
    }
    if ms :| IsText(line, JObj(ms)) && HasFiveKeys(ms) {
      LoadsExact(line, Dictify(JObj(ms)));
      LastValueWins(ms, []);
      SameFiveKeys(ms, Dictify(JObj(ms)).members);
      RecordNeedsKeys(Dictify(JObj(ms)));
    }
  }

  lemma ObjectOfDict(j: Json)
    ensures Dictify(j).JObj? ==> j.JObj? && j == JObj(j.members)
  {
  }

  lemma SameFiveKeys(a: Dict<Json>, b: Dict<Json>)
    requires Keys(a) == Keys(b)
    ensures HasFiveKeys(a) <==> HasFiveKeys(b)
  {
  }

  // ----------------------------------------------------- what a written line spells

  lemma DocumentIsObject(r: Record) returns (j: Json)
    requires WellFormedRecord(r)
    ensures j.JObj? && IsValue(Document(r), j) && ParseValue(Document(r)) == Ok(j, "")
    ensures Document(r) != "" && Document(r)[0] == '{'
  {
    DocumentShape(r);
    ToDictWellFormed(r);
    ToDictIsObject(r);
    var z := SortKeys(ToDict(r));
    var d := Document(r);
    SortedIsObject(ToDict(r));
    hide ToDict, SortKeys, Joined, Write, IsValue, ParseValue;
    ValueRoundTrip(z, Spaced, "");
    assert d + "" == d;
    j := Joined(z);
    JoinedIsObject(z);
    var v := ValueSound(d);
    assert v + "" == v;
  }

  lemma SortedIsObject(j: Json)
    ensures j.JObj? ==> SortKeys(j).JObj?
  {
  }

  lemma JoinedIsObject(j: Json)
    ensures j.JObj? ==> Joined(j).JObj?
  {
  }

  lemma {:induction false} SkipsToEnd(s: string)
    ensures SkipWs(s) == "" <==> All(s, IsWs)
  {
    var w := Skipped(s);
    if SkipWs(s) == "" {
      assert s == w;
    } else {
      var k := |w|;
      assert s[k] == SkipWs(s)[0];
    }
  }

  /** Text behind a record on its line makes the line unreadable, unless it is white space. */
  lemma DocumentAndMore(r: Record, rest: string)
    requires WellFormedRecord(r)
    ensures Loads(Document(r) + rest).Some? <==> All(rest, IsWs)
  {
    hide Document, IsValue, ParseValue, WellFormedRecord, Dictify;
    var j := DocumentIsObject(r);
    var s := Document(r) + rest;
    assert s[0] == '{';
    SkipNothing(s);
    ValueComplete(Document(r), j, rest);
    SkipsToEnd(rest);
    hide SkipWs;
  }

  /** No part of a record's line cut off at the front is readable. */
  lemma TornDocument(r: Record, k: nat)
    requires WellFormedRecord(r) && k < |Document(r)|
    ensures Loads(Document(r)[..k]) == None
  {
    hide Document, IsValue, ParseValue, WellFormedRecord, Dictify, IsNumber;
    var j := DocumentIsObject(r);
    var d := Document(r);
    var p := d[..k];
    if p == "" {
      NothingParses();
    } else {
      assert p[0] == '{';
      SkipNothing(p);
      if ParseValue(p).Ok? {
        var v := ValueSound(p);
        var rest := ParseValue(p).rest;
        BraceIsObject(p);
        ObjectIsNoNumber(ParseValue(p).value);
        assert d == p + d[k..];
        assert v + (rest + d[k..]) == d;
        ValueComplete(v, ParseValue(p).value, rest + d[k..]);
        assert false;
      }
    }
  }

  lemma NothingParses()
    ensures Loads("") == None
  {
  }

  lemma BraceIsObject(s: string)
    requires s != "" && s[0] == '{' && ParseValue(s).Ok?
    ensures ParseValue(s).value.JObj?
  {
    hide ParseMembers, SkipWs;
  }

  lemma ObjectIsNoNumber(j: Json)
    requires j.JObj?
    ensures !IsNumber(j)
  {
  }

  // ------------------------------------------------------- torn and glued lines

  lemma OneUnreadable(line: string, number: nat)
    requires !IsBlank(line) && Loads(line) == None
    ensures LoadLines([line], number) == Corrupt(number)
  {
    hide IsBlank, Loads;
  }

  lemma LoadWithLine(text: string, piece: string, line: string)
    requires (text == "" || text[|text| - 1] == '\n') && SplitLines(piece) == [line]
    requires !IsBlank(line) && Loads(line) == None
    ensures LoadText(text + piece) == if LoadText(text).Records? then Corrupt(|SplitLines(text)| + 1) else LoadText(text)
  {
    hide SplitLines, LoadLines, IsBlank, Loads;
    SplitLinesConcat(text, piece);
    OneUnreadable(line, |SplitLines(text)| + 1);
    LoadLinesConcat(SplitLines(text), [line], 1);
  }

  /** What load answers when one unreadable line stands behind whole ones. */
  lemma UnreadableLine(text: string, line: string)
    requires text == "" || text[|text| - 1] == '\n'
    requires All(line, NotLineBreak) && !IsBlank(line) && Loads(line) == None
    ensures LoadText(text + line) == LoadText(text + (line + "\n"))
    ensures LoadText(text + line) == if LoadText(text).Records? then Corrupt(|SplitLines(text)| + 1) else LoadText(text)
  {
    BlankNothing();
    hide *;
    LineAlone(line);
    LoadWithLine(text, line, line);
    LoadWithLine(text, line + "\n", line);
  }

  lemma BlankNothing()
    ensures IsBlank("")
  {
  }

  lemma LineAlone(line: string)
    requires line != "" && All(line, NotLineBreak)
    ensures SplitLines(line) == [line] && SplitLines(line + "\n") == [line]
  {
    SplitLinesStep(line, "");
    assert line + "\n" + "" == line + "\n";
    SpanUnique(line, "", NotLineBreak);
    assert line + "" == line;
    hide All, NotLineBreak, Span;
    assert SplitLines("") == [];
  }

  /** A line the writer was interrupted in is reported, under its own number. */
  lemma TornLineIsReported(text: string, r: Record, k: nat)
    requires (text == "" || text[|text| - 1] == '\n') && WellFormedRecord(r) && 0 < k < |Document(r)|
    ensures LoadText(text + Document(r)[..k]) ==
              if LoadText(text).Records? then Corrupt(|SplitLines(text)| + 1) else LoadText(text)
  {
    DocumentShape(r);
    hide LoadText, WellFormedRecord, Document, Loads;
    var p := Document(r)[..k];
    TornDocument(r, k);
    BraceIsNotBlank(p);
    UnreadableLine(text, p);
  }

  lemma BraceIsNotBlank(s: string)
    requires s != "" && s[0] == '{'
    ensures !IsBlank(s)
  {
    assert !IsSpace('{');
  }

  /** So are two records on one line, as after a lost newline; neither is read. */
  lemma GluedLineIsReported(text: string, r: Record, q: Record)
    requires (text == "" || text[|text| - 1] == '\n') && WellFormedRecord(r) && WellFormedRecord(q)
    ensures LoadText(text + (Document(r) + Line(q))) ==
              if LoadText(text).Records? then Corrupt(|SplitLines(text)| + 1) else LoadText(text)
  {
    DocumentShape(r);
    DocumentShape(q);
    hide LoadText, WellFormedRecord, Document, Line, Loads, IsWs;
    var line := Document(r) + Document(q);
    DocumentAndMore(r, Document(q));
    BraceIsNoWs(Document(q));
    assert line[0] == '{';
    BraceIsNotBlank(line);
    AllConcat(Document(r), Document(q), NotLineBreak);
    UnreadableLine(text, line);
    assert Document(r) + Line(q) == line + "\n";
  }

  lemma BraceIsNoWs(s: string)
    requires s != "" && s[0] == '{'
    ensures !All(s, IsWs)
  {
    assert !IsWs('{');
  }

  // ---------------------------------------------------------- the text of a line

  function Part(j: Json): string
    requires Printable(j)
  {
    SortPrintable(j);
    Write(SortKeys(j), Spaced)
  }

  lemma FirstDecides(a: PyStr, b: PyStr)
    requires a != [] && b != [] && a[0] < b[0]
    ensures Less(a, b) && !Less(b, a)
  {
  }

  lemma KeyStarts()
    ensures AfterKey() != [] && AfterKey()[0] == 0x61 && BeforeKey() != [] && BeforeKey()[0] == 0x62
    ensures ChangeKey() != [] && ChangeKey()[0] == 0x63 && RollbackKey() != [] && RollbackKey()[0] == 0x72
    ensures IdKey() != [] && IdKey()[0] == 0x74
  {
  }

  lemma {:induction false} InsertHere(k: PyStr, v: Json, ms: Dict<Json>)
    requires k != [] && (ms.Cons? ==> ms.key != [])
    ensures ms.Nil? || k[0] < ms.key[0] ==> Insert(k, v, ms) == Cons(k, v, ms)
    ensures ms.Cons? && ms.key[0] < k[0] ==> Insert(k, v, ms) == Cons(ms.key, ms.value, Insert(k, v, ms.tail))
  {
    if ms.Cons? && k[0] < ms.key[0] {
      FirstDecides(k, ms.key);
    } else if ms.Cons? && ms.key[0] < k[0] {
      FirstDecides(ms.key, k);
    }
    hide Less;
  }

  lemma SortedDict(r: Record)
    ensures SortKeys(ToDict(r)) ==
              JObj(Cons(AfterKey(), SortKeys(r.parts.after), Cons(BeforeKey(), SortKeys(r.parts.before),
                Cons(ChangeKey(), SortKeys(r.parts.change), Cons(RollbackKey(), SortKeys(r.parts.rollback),
                  Cons(IdKey(), SortKeys(r.id), Nil))))))
  {
    KeyStarts();
    hide AfterKey, BeforeKey, ChangeKey, RollbackKey, IdKey, Less, Insert, SortKeys;
    var p := r.parts;
    var a, b, c, d, i := SortKeys(p.after), SortKeys(p.before), SortKeys(p.change), SortKeys(p.rollback), SortKeys(r.id);
    SortedValues(r);
    var n5 := Cons(RollbackKey(), d, Nil);
    var n4 := Cons(AfterKey(), a, n5);
    var n3 := Cons(AfterKey(), a, Cons(ChangeKey(), c, n5));
    var n2 := Cons(AfterKey(), a, Cons(BeforeKey(), b, Cons(ChangeKey(), c, n5)));
    InsertHere(RollbackKey(), d, Nil);
    InsertHere(AfterKey(), a, n5);
    InsertHere(ChangeKey(), c, n4);
    InsertHere(ChangeKey(), c, n5);
    InsertHere(BeforeKey(), b, n3);
    InsertHere(BeforeKey(), b, n3.tail);
    InsertHere(IdKey(), i, n2);
    InsertHere(IdKey(), i, n2.tail);
    InsertHere(IdKey(), i, n2.tail.tail);
    InsertHere(IdKey(), i, n5);
    InsertHere(IdKey(), i, Nil);
    var m5 := Cons(RollbackKey(), d, Nil);
    var m4 := Cons(AfterKey(), a, m5);
    var m3 := Cons(ChangeKey(), c, m4);
    var m2 := Cons(BeforeKey(), b, m3);
    SortStep(RollbackKey(), d, Nil);
    SortStep(AfterKey(), a, m5);
    SortStep(ChangeKey(), c, m4);
    SortStep(BeforeKey(), b, m3);
    SortStep(IdKey(), i, m2);
    hide Sort;
    SortedObject(ToDict(r));
  }

  lemma SortStep(k: PyStr, v: Json, ms: Dict<Json>)
    ensures Sort(Cons(k, v, ms)) == Insert(k, v, Sort(ms)) && Sort(Cons(k, v, Nil)) == Insert(k, v, Nil)
  {
    hide Insert;
  }

  lemma SortedObject(j: Json)
    ensures j.JObj? ==> SortKeys(j) == JObj(Sort(SortValues(j.members)))
  {
  }

  lemma SortedValues(r: Record)
    ensures ToDict(r).JObj?
    ensures SortValues(ToDict(r).members) ==
              Cons(IdKey(), SortKeys(r.id), Cons(BeforeKey(), SortKeys(r.parts.before), Cons(ChangeKey(), SortKeys(r.parts.change),
                Cons(AfterKey(), SortKeys(r.parts.after), Cons(RollbackKey(), SortKeys(r.parts.rollback), Nil)))))
  {
    hide AfterKey, BeforeKey, ChangeKey, RollbackKey, IdKey, SortKeys;
    var p := r.parts;
    var m5 := Cons(RollbackKey(), p.rollback, Nil);
    var m4 := Cons(AfterKey(), p.after, m5);
    var m3 := Cons(ChangeKey(), p.change, m4);
    var m2 := Cons(BeforeKey(), p.before, m3);
    assert SortValues(m5) == Cons(RollbackKey(), SortKeys(p.rollback), Nil);
    assert SortValues(m4) == Cons(AfterKey(), SortKeys(p.after), SortValues(m5));
    assert SortValues(m3) == Cons(ChangeKey(), SortKeys(p.change), SortValues(m4));
    assert SortValues(m2) == Cons(BeforeKey(), SortKeys(p.before), SortValues(m3));
  }

  lemma AfterKeyText()
    ensures IsPyStr(AfterKey()) && Quote(AfterKey()) == "\"" + ("after_state" + "\"")
  {
    PlainQuoted("after_state");
    hide Quote, Codes;
  }

  lemma BeforeKeyText()
    ensures IsPyStr(BeforeKey()) && Quote(BeforeKey()) == "\"" + ("before_state" + "\"")
  {
    PlainQuoted("before_state");
    hide Quote, Codes;
  }

  lemma ChangeKeyText()
    ensures IsPyStr(ChangeKey()) && Quote(ChangeKey()) == "\"" + ("change" + "\"")
  {
    PlainQuoted("change");
    hide Quote, Codes;
  }

  lemma RollbackKeyText()
    ensures IsPyStr(RollbackKey()) && Quote(RollbackKey()) == "\"" + ("rollback_action" + "\"")
  {
    PlainQuoted("rollback_action");
    hide Quote, Codes;
  }

  lemma IdKeyText()
    ensures IsPyStr(IdKey()) && Quote(IdKey()) == "\"" + ("transaction_id" + "\"")
  {
    PlainQuoted("transaction_id");
    hide Quote, Codes;
  }

  lemma KeyTexts()
    ensures IsPyStr(AfterKey()) && IsPyStr(BeforeKey()) && IsPyStr(ChangeKey()) && IsPyStr(RollbackKey()) && IsPyStr(IdKey())
    ensures Quote(AfterKey()) == "\"" + ("after_state" + "\"") && Quote(BeforeKey()) == "\"" + ("before_state" + "\"")
    ensures Quote(ChangeKey()) == "\"" + ("change" + "\"") && Quote(RollbackKey()) == "\"" + ("rollback_action" + "\"")
    ensures Quote(IdKey()) == "\"" + ("transaction_id" + "\"")
  {
    hide *;
    AfterKeyText();
    BeforeKeyText();
    ChangeKeyText();
    RollbackKeyText();
    IdKeyText();
  }

  /** A journal line, spelled out. */
  function LineText(id: string, before: string, change: string, after: string, rollback: string): string {
    "{" + (("\"" + ("after_state" + "\"") + (": " + after)) + (", "
      + (("\"" + ("before_state" + "\"") + (": " + before)) + (", "
      + (("\"" + ("change" + "\"") + (": " + change)) + (", "
      + (("\"" + ("rollback_action" + "\"") + (": " + rollback)) + (", "
      + ("\"" + ("transaction_id" + "\"") + (": " + id))))))))) + "}")
  }

  /** What append writes: the five fields under their names, in the order of the names. */
  lemma DocumentText(r: Record)
    requires WellFormedRecord(r)
    ensures Document(r) ==
              LineText(Part(r.id), Part(r.parts.before), Part(r.parts.change), Part(r.parts.after), Part(r.parts.rollback))
    ensures Line(r) == Document(r) + "\n"
  {
    ToDictWellFormed(r);
    SortedDict(r);
    KeyTexts();
    Separators(Spaced);
    PartsPrintable(r);
    hide AfterKey, BeforeKey, ChangeKey, RollbackKey, IdKey, SortKeys, ToDict, Quote, KeySeparator, ItemSeparator, Printable,
         IsPyStr, Pad;
    var p := r.parts;
    var m1 := Cons(IdKey(), SortKeys(r.id), Nil);
    var m2 := Cons(RollbackKey(), SortKeys(p.rollback), m1);
    var m3 := Cons(ChangeKey(), SortKeys(p.change), m2);
    var m4 := Cons(BeforeKey(), SortKeys(p.before), m3);
    var m5 := Cons(AfterKey(), SortKeys(p.after), m4);
    MemberStep(m5);
    MemberStep(m4);
    MemberStep(m3);
    MemberStep(m2);
    MemberStep(m1);
    ObjectStep(m5);
    hide WriteMembers, Write;
  }

  lemma PartsPrintable(r: Record)
    requires WellFormedRecord(r)
    ensures Printable(SortKeys(r.id)) && Printable(SortKeys(r.parts.before)) && Printable(SortKeys(r.parts.change))
    ensures Printable(SortKeys(r.parts.after)) && Printable(SortKeys(r.parts.rollback))
  {
    hide SortKeys, Printable;
    SortPrintable(r.id);
    SortPrintable(r.parts.before);
    SortPrintable(r.parts.change);
    SortPrintable(r.parts.after);
    SortPrintable(r.parts.rollback);
  }

  lemma MemberStep(ms: Dict<Json>)
    requires ms.Cons? && PrintableMembers(ms)
    ensures WriteMembers(ms, Spaced) ==
              var member := Quote(ms.key) + (": " + Write(ms.value, Spaced));
              if ms.tail.Nil? then member else member + (", " + WriteMembers(ms.tail, Spaced))
  {
    Separators(Spaced);
    hide Write, Quote, KeySeparator, ItemSeparator;
  }

  lemma ObjectStep(ms: Dict<Json>)
    requires PrintableMembers(ms)
    ensures Write(JObj(ms), Spaced) == "{" + (WriteMembers(ms, Spaced) + "}")
  {
    hide WriteMembers;
  }
}
