/** repair/transaction.py, part two: the append-only journal of JSON lines. */
module Journal {
  import opened Text
  import opened Dicts
  import opened JsonValues
  import opened JsonText
  import opened JsonRoundTrip
  import opened Transactions

  /** A record as the journal holds it: the id a transaction was created with is a
      string, but a line of the file may carry any JSON value in its place. */
  datatype Record = Record(id: Json, parts: Parts)

  function IdKey(): PyStr { Codes("transaction_id") }
  function BeforeKey(): PyStr { Codes("before_state") }
  function ChangeKey(): PyStr { Codes("change") }
  function AfterKey(): PyStr { Codes("after_state") }
  function RollbackKey(): PyStr { Codes("rollback_action") }

  /** TransactionRecord.to_dict(). */
  function ToDict(r: Record): Json {
    JObj(Cons(IdKey(), r.id, Cons(BeforeKey(), r.parts.before, Cons(ChangeKey(), r.parts.change,
      Cons(AfterKey(), r.parts.after, Cons(RollbackKey(), r.parts.rollback, Nil))))))
  }

  predicate WellFormedRecord(r: Record) {
    WellFormed(r.id) && PrintableParts(r.parts) && DistinctParts(r.parts)
  }

  predicate PairFreeRecord(r: Record) { PairFree(r.id) && PairFreeParts(r.parts) }

  predicate SameRecord(a: Record, b: Record) { Same(a.id, b.id) && SameParts(a.parts, b.parts) }

  lemma CodesAreText(s: string)
    ensures IsPyStr(Codes(s)) && PairFreeStr(Codes(s))
  {
    NoSurrogates(Codes(s));
  }

  lemma {:induction false} NoSurrogates(s: PyStr)
    requires forall i :: 0 <= i < |s| ==> !IsHigh(s[i])
    ensures PairFreeStr(s)
  {
    if s != [] {
      NoSurrogates(s[1..]);
    }
  }

  lemma KeysDiffer()
    ensures |IdKey()| == 14 && |BeforeKey()| == 12 && |ChangeKey()| == 6 && |AfterKey()| == 11 && |RollbackKey()| == 15
    ensures IsPyStr(IdKey()) && IsPyStr(BeforeKey()) && IsPyStr(ChangeKey()) && IsPyStr(AfterKey()) && IsPyStr(RollbackKey())
  {
    CodesAreText("transaction_id");
    CodesAreText("before_state");
    CodesAreText("change");
    CodesAreText("after_state");
    CodesAreText("rollback_action");
  }

  lemma ConsWellFormed(k: PyStr, v: Json, t: Dict<Json>)
    requires IsPyStr(k) && WellFormed(v) && WellFormed(JObj(t)) && k !in Keys(t)
    ensures WellFormed(JObj(Cons(k, v, t)))
  {
  }

  lemma ToDictWellFormed(r: Record)
    requires WellFormedRecord(r)
    ensures WellFormed(ToDict(r)) && Printable(SortKeys(ToDict(r)))
  {
    KeysDiffer();
    hide Codes, IdKey, BeforeKey, ChangeKey, AfterKey, RollbackKey, IsPyStr, SortKeys;
    var p := r.parts;
    var m5 := Cons(RollbackKey(), p.rollback, Nil);
    var m4 := Cons(AfterKey(), p.after, m5);
    var m3 := Cons(ChangeKey(), p.change, m4);
    var m2 := Cons(BeforeKey(), p.before, m3);
    assert WellFormed(JObj(Nil));
    ConsWellFormed(RollbackKey(), p.rollback, Nil);
    ConsWellFormed(AfterKey(), p.after, m5);
    ConsWellFormed(ChangeKey(), p.change, m4);
    ConsWellFormed(BeforeKey(), p.before, m3);
    ConsWellFormed(IdKey(), r.id, m2);
    SortPrintable(ToDict(r));
  }

  /** What append writes: json.dumps(rec.to_dict(), sort_keys=True) and a newline. */
  function Line(r: Record): string
    requires WellFormedRecord(r)
  {
    ToDictWellFormed(r);
    Write(SortKeys(ToDict(r)), Spaced) + "\n"
  }

  function Lines(rs: seq<Record>): string
    requires forall i :: 0 <= i < |rs| ==> WellFormedRecord(rs[i])
  {
    if rs == [] then "" else Line(rs[0]) + Lines(rs[1..])
  }

  // --------------------------------------------------------------------- loading

  /** dict assignment: an existing key keeps its place and takes the new value. */
  function Put(d: Dict<Json>, k: PyStr, v: Json): Dict<Json> {
    if d.Nil? then Cons(k, v, Nil)
    else if d.key == k then Cons(k, v, d.tail)
    else Cons(d.key, d.value, Put(d.tail, k, v))
  }

  function PutAll(acc: Dict<Json>, ms: Dict<Json>): Dict<Json>
    decreases ms
  {
    match ms
    case Nil => acc
    case Cons(k, v, t) => PutAll(Put(acc, k, v), t)
  }

  /** The Python value of a parsed document: in every object, the last value of a
      repeated key wins. */
  function Dictify(j: Json): Json {
    match j
    case JArr(items) => JArr(DictifyItems(items))
    case JObj(ms) => JObj(PutAll(Nil, DictifyMembers(ms)))
    case _ => j
  }

  function DictifyItems(items: Items): Items {
    match items
    case End => End
    case More(h, t) => More(Dictify(h), DictifyItems(t))
  }

  function DictifyMembers(ms: Dict<Json>): (r: Dict<Json>)
    ensures Keys(r) == Keys(ms)
    ensures Distinct(ms) ==> Distinct(r)
  {
    match ms
    case Nil => Nil
    case Cons(k, v, t) => Cons(k, Dictify(v), DictifyMembers(t))
  }

  function Loads(line: string): Option<Json> {
    var d := ParseDocument(line);
    if d.None? then None else Some(Dictify(d.value))
  }

  /** The five subscripts of load; None when one of them raises. */
  function RecordOf(j: Json): Option<Record> {
    if !j.JObj? then None
    else
      var id := Lookup(j.members, IdKey());
      var b := Lookup(j.members, BeforeKey());
      var c := Lookup(j.members, ChangeKey());
      var a := Lookup(j.members, AfterKey());
      var r := Lookup(j.members, RollbackKey());
      if id.Some? && b.Some? && c.Some? && a.Some? && r.Some?
      then Some(Record(id.value, Parts(b.value, c.value, a.value, r.value)))
      else None
  }

  /** load's outcome: the records, or the number of the line it stops at, either
      because it is not JSON (ValueError) or because it is not a record (KeyError
      or TypeError). */
  datatype Loaded = Records(records: seq<Record>) | Corrupt(line: nat) | NotARecord(line: nat)

  predicate IsBlank(line: string) { All(line, IsSpace) }

  function Prefixed(rs: seq<Record>, l: Loaded): Loaded {
    if l.Records? then Records(rs + l.records) else l
  }

  /** What one line contributes in front of the outcome of the lines behind it. */
  function Consume(line: string, number: nat, rest: Loaded): Loaded {
    if IsBlank(line) then rest
    else
      var j := Loads(line);
      if j.None? then Corrupt(number)
      else
        var r := RecordOf(j.value);
        if r.None? then NotARecord(number) else Prefixed([r.value], rest)
  }

  function LoadLines(lines: seq<string>, number: nat): Loaded {
    if lines == [] then Records([]) else Consume(lines[0], number, LoadLines(lines[1..], number + 1))
  }

  function LoadText(text: string): Loaded { LoadLines(SplitLines(text), 1) }

  lemma PrefixedNothing(l: Loaded)
    ensures Prefixed([], l) == l
  {
    if l.Records? {
      assert [] + l.records == l.records;
    }
  }

  lemma PrefixedTwice(rs: seq<Record>, r: Record, l: Loaded)
    ensures Prefixed(rs, Prefixed([r], l)) == Prefixed(rs + [r], l)
  {
    if l.Records? {
      assert rs + ([r] + l.records) == rs + [r] + l.records;
    }
  }

  // ---------------------------------------------------------- verdict of a load

  predicate IsGoodLine(line: string) {
    IsBlank(line) || (Loads(line).Some? && RecordOf(Loads(line).value).Some?)
  }

  /** Where load stops: at the first line that is neither blank nor a record, and
      the number it reports counts every line before it, blank ones included. */
  lemma {:induction false} LoadStopsAtFirstBadLine(lines: seq<string>, number: nat, k: nat)
    requires k < |lines| && !IsGoodLine(lines[k])
    requires forall i :: 0 <= i < k ==> IsGoodLine(lines[i])
    ensures LoadLines(lines, number) == if Loads(lines[k]).None? then Corrupt(number + k) else NotARecord(number + k)
  {
    hide IsBlank, Loads, RecordOf;
    if k > 0 {
      assert IsGoodLine(lines[0]);
      LoadStopsAtFirstBadLine(lines[1..], number + 1, k - 1);
    }
  }

  lemma {:induction false} LoadSucceeds(lines: seq<string>, number: nat)
    ensures LoadLines(lines, number).Records? <==> forall i :: 0 <= i < |lines| ==> IsGoodLine(lines[i])
  {
    hide IsBlank, Loads, RecordOf;
    if lines != [] {
      LoadSucceeds(lines[1..], number + 1);
      assert (forall i :: 0 <= i < |lines| ==> IsGoodLine(lines[i])) <==>
               IsGoodLine(lines[0]) && forall i :: 0 <= i < |lines[1..]| ==> IsGoodLine(lines[1..][i]) by {
        assert forall i :: 1 <= i < |lines| ==> lines[i] == lines[1..][i - 1];
      }
    }
  }

  // ------------------------------------------------------------- written lines

  /** Every character the writer emits is printable ASCII: all others, line breaks
      among them, are escaped. */
  predicate IsPrintableAscii(c: char) { ' ' <= c <= '~' }

  lemma AllConcat(a: string, b: string, p: char -> bool)
    requires All(a, p) && All(b, p)
    ensures All(a + b, p)
  {
  }

  lemma EscapeUnitAscii(n: nat)
    requires n < 0x1_0000
    ensures All(EscapeUnit(n), IsPrintableAscii)
  {
    HexCharAscii(n / 0x1000);
    HexCharAscii(n / 0x100 % 16);
    HexCharAscii(n / 0x10 % 16);
    HexCharAscii(n % 16);
    hide HexChar;
  }

  lemma HexCharAscii(n: nat)
    requires n < 16
    ensures IsPrintableAscii(HexChar(n))
  {
  }

  lemma EscapeCodeAscii(c: int)
    requires IsCode(c)
    ensures All(EscapeCode(c), IsPrintableAscii)
  {
    if c >= 0x1_0000 {
      EscapeUnitAscii(0xD800 + (c - 0x1_0000) / 0x400);
      EscapeUnitAscii(0xDC00 + (c - 0x1_0000) % 0x400);
      hide EscapeUnit;
    } else {
      EscapeUnitAscii(c);
      hide EscapeUnit;
    }
  }

  lemma {:induction false} EscapeAscii(s: PyStr)
    requires IsPyStr(s)
    ensures All(Escape(s), IsPrintableAscii)
  {
    hide EscapeCode;
    if s != [] {
      EscapeCodeAscii(s[0]);
      EscapeAscii(s[1..]);
      AllConcat(EscapeCode(s[0]), Escape(s[1..]), IsPrintableAscii);
    }
  }

  lemma QuoteAscii(s: PyStr)
    requires IsPyStr(s)
    ensures All(Quote(s), IsPrintableAscii)
  {
    EscapeAscii(s);
    hide Escape;
  }

  lemma SeparatorsAscii(st: Style)
    ensures All(ItemSeparator(st), IsPrintableAscii) && All(KeySeparator(st), IsPrintableAscii)
  {
  }

  lemma IntTextAscii(n: int)
    ensures All(IntText(n), IsPrintableAscii)
  {
    hide Decimal;
  }

  lemma {:induction false} WriteAscii(j: Json, st: Style)
    requires Printable(j)
    ensures All(Write(j, st), IsPrintableAscii)
    decreases j
  {
    match j
    case JInt(n) => IntTextAscii(n);
    case JStr(s) => QuoteAscii(s);
    case JArr(items) => WriteItemsAscii(items, st);
    case JObj(ms) => WriteMembersAscii(ms, st);
    case _ =>
  }

  lemma {:induction false} WriteItemsAscii(items: Items, st: Style)
    requires PrintableItems(items)
    ensures All(WriteItems(items, st), IsPrintableAscii)
    decreases items
  {
    if items.More? {
      WriteAscii(items.head, st);
      WriteItemsAscii(items.rest, st);
      SeparatorsAscii(st);
      hide Write, All;
      AllConcat(ItemSeparator(st), WriteItems(items.rest, st), IsPrintableAscii);
      AllConcat(Write(items.head, st), ItemSeparator(st) + WriteItems(items.rest, st), IsPrintableAscii);
    } else {
      NoItems(st);
    }
  }

  lemma {:induction false} WriteMembersAscii(ms: Dict<Json>, st: Style)
    requires PrintableMembers(ms)
    ensures All(WriteMembers(ms, st), IsPrintableAscii)
    decreases ms
  {
    if ms.Cons? {
      QuoteAscii(ms.key);
      WriteAscii(ms.value, st);
      WriteMembersAscii(ms.tail, st);
      SeparatorsAscii(st);
      hide Write, Quote, All;
      var v := Write(ms.value, st);
      var member := Quote(ms.key) + (KeySeparator(st) + v);
      AllConcat(KeySeparator(st), v, IsPrintableAscii);
      AllConcat(Quote(ms.key), KeySeparator(st) + v, IsPrintableAscii);
      AllConcat(ItemSeparator(st), WriteMembers(ms.tail, st), IsPrintableAscii);
      AllConcat(member, ItemSeparator(st) + WriteMembers(ms.tail, st), IsPrintableAscii);
    } else {
      NoItems(st);
    }
  }

  lemma AsciiHasNoBreaks(s: string)
    requires All(s, IsPrintableAscii)
    ensures All(s, NotLineBreak)
  {
  }

  function Document(r: Record): string
    requires WellFormedRecord(r)
  {
    ToDictWellFormed(r);
    Write(SortKeys(ToDict(r)), Spaced)
  }

  lemma DocumentShape(r: Record)
    requires WellFormedRecord(r)
    ensures All(Document(r), NotLineBreak) && Document(r) != "" && Document(r)[0] == '{'
    ensures !IsBlank(Document(r)) && Line(r) == Document(r) + "\n"
  {
    ToDictWellFormed(r);
    hide ToDict, SortKeys, Write, Printable, DistinctKeys;
    var j := SortKeys(ToDict(r));
    WriteAscii(j, Spaced);
    AsciiHasNoBreaks(Write(j, Spaced));
    ObjectBrace(j, Spaced);
  }

  lemma ObjectBrace(j: Json, st: Style)
    requires Printable(j) && j.JObj?
    ensures Write(j, st) != "" && Write(j, st)[0] == '{'
  {
    hide WriteMembers;
  }

  lemma SplitFirst(line: string, brk: string)
    requires All(line, NotLineBreak) && brk != "" && IsLineBreak(brk[0])
    ensures SplitLines(line + brk) == [line] + SplitLines(brk[BreakLength(brk)..])
  {
    hide BreakLength, All, NotLineBreak, IsLineBreak;
    BreakIsNoText(brk);
    SpanUnique(line, brk, NotLineBreak);
    assert (line + brk)[..|line|] == line && (line + brk)[|line|..] == brk;
  }

  lemma BreakIsNoText(brk: string)
    requires brk != "" && IsLineBreak(brk[0])
    ensures !NotLineBreak(brk[0])
  {
  }

  lemma BreakLengthConcat(brk: string, u: string)
    requires brk != "" && brk[|brk| - 1] == '\n'
    ensures BreakLength(brk + u) == BreakLength(brk)
    ensures (brk + u)[BreakLength(brk)..] == brk[BreakLength(brk)..] + u
    ensures var rest := brk[BreakLength(brk)..]; rest == "" || rest[|rest| - 1] == '\n'
  {
    assert (brk + u)[0] == brk[0];
    if |brk| >= 2 {
      assert (brk + u)[1] == brk[1];
    }
  }

  /** Splitting is compositional behind a newline. */
  lemma {:induction false} SplitLinesConcat(t: string, u: string)
    requires t == "" || t[|t| - 1] == '\n'
    ensures SplitLines(t + u) == SplitLines(t) + SplitLines(u)
    decreases |t|
  {
    hide SplitLines, Span, BreakLength, All, IsLineBreak, NotLineBreak;
    if t == "" {
      NoLines();
      assert t + u == u;
    } else {
      var n := Span(t, NotLineBreak);
      BreakBeforeEnd(t, n);
      var line, brk := t[..n], t[n..];
      assert t == line + brk && t + u == line + (brk + u);
      BreakLengthConcat(brk, u);
      SplitFirst(line, brk);
      SplitFirst(line, brk + u);
      SplitLinesConcat(brk[BreakLength(brk)..], u);
    }
  }

  lemma NoLines()
    ensures SplitLines("") == []
  {
  }

  lemma BreakBeforeEnd(t: string, n: nat)
    requires t != "" && t[|t| - 1] == '\n' && n == Span(t, NotLineBreak)
    ensures n < |t| && IsLineBreak(t[n]) && All(t[..n], NotLineBreak)
  {
    hide Span, IsSpace;
    assert n == |t| ==> t[..n] == t && NotLineBreak(t[|t| - 1]);
  }

  lemma SplitOneLine(r: Record, rest: string)
    requires WellFormedRecord(r)
    ensures SplitLines(Line(r) + rest) == [Document(r)] + SplitLines(rest)
  {
    hide Line, Document, SplitLines;
    DocumentShape(r);
    SplitLinesStep(Document(r), rest);
  }
}
