/** Reading back what was written: the parser inverts the writer up to the joining
    of adjacent surrogates, whatever legal text follows the value. */
module JsonRoundTrip {
  import opened Text
  import opened Dicts
  import opened JsonValues
  import opened JsonText

  function Joined(j: Json): Json {
    match j
    case JStr(s) => JStr(JoinPairs(s))
    case JArr(items) => JArr(JoinedItems(items))
    case JObj(ms) => JObj(JoinedMembers(ms))
    case _ => j
  }

  function JoinedItems(items: Items): Items {
    match items
    case End => End
    case More(h, t) => More(Joined(h), JoinedItems(t))
  }

  function JoinedMembers(ms: Dict<Json>): Dict<Json> {
    match ms
    case Nil => Nil
    case Cons(k, v, t) => Cons(JoinPairs(k), Joined(v), JoinedMembers(t))
  }

  // --------------------------------------------------------------------- strings

  lemma HexCharRoundTrip(n: nat)
    requires n < 16
    ensures IsHex(HexChar(n)) && HexDigitValue(HexChar(n)) == n
  {
  }

  lemma DigitsOfUnit(n: nat)
    requires n < 0x1_0000
    ensures n / 0x1000 < 16
    ensures UnitOfDigits(n / 0x1000, n / 0x100 % 16, n / 0x10 % 16, n % 16) == n
  {
    assert n / 0x10 == n / 0x100 * 16 + n / 0x10 % 16;
    assert n / 0x100 == n / 0x1000 * 16 + n / 0x100 % 16;
  }

  lemma UnitRoundTrip(n: nat, rest: string)
    requires n < 0x1_0000
    ensures UnitAt(EscapeUnit(n) + rest) == Some(n) && (EscapeUnit(n) + rest)[6..] == rest
    ensures |EscapeUnit(n)| == 6 && EscapeUnit(n)[0] == '\\' && EscapeUnit(n)[1] == 'u'
  {
    DigitsOfUnit(n);
    HexCharRoundTrip(n / 0x1000);
    HexCharRoundTrip(n / 0x100 % 16);
    HexCharRoundTrip(n / 0x10 % 16);
    HexCharRoundTrip(n % 16);
    hide IsHex, HexChar, HexDigitValue, UnitOfDigits;
    var e := EscapeUnit(n);
    assert e[0] == '\\' && e[1] == 'u';
    assert e[2] == HexChar(n / 0x1000) && e[3] == HexChar(n / 0x100 % 16);
    assert e[4] == HexChar(n / 0x10 % 16) && e[5] == HexChar(n % 16);
  }

  predicate StartsLow(s: string) { UnitAt(s).Some? && IsLow(UnitAt(s).value) }

  lemma NextOfUnit(s: string, u: nat, rest: string)
    requires |s| >= 6 && s[0] == '\\' && s[1] == 'u' && UnitAt(s) == Some(u) && s[6..] == rest
    ensures !(IsHigh(u) && StartsLow(rest)) ==> NextCode(s) == Ok(u, rest)
    ensures IsHigh(u) && StartsLow(rest) ==> NextCode(s) == Ok(JoinPair(u, UnitAt(rest).value), rest[6..])
  {
    hide UnitAt, JoinPair;
    if IsHigh(u) && StartsLow(rest) {
      assert s[12..] == rest[6..];
    }
  }

  lemma NextOfPair(hi: nat, lo: nat, rest: string)
    requires IsHigh(hi) && IsLow(lo)
    ensures NextCode(EscapeUnit(hi) + (EscapeUnit(lo) + rest)) == Ok(JoinPair(hi, lo), rest)
  {
    hide UnitAt, EscapeUnit, NextCode;
    UnitRoundTrip(lo, rest);
    UnitRoundTrip(hi, EscapeUnit(lo) + rest);
    NextOfUnit(EscapeUnit(hi) + (EscapeUnit(lo) + rest), hi, EscapeUnit(lo) + rest);
  }

  lemma AstralUnits(c: int)
    requires 0x1_0000 <= c < 0x11_0000
    ensures var hi, lo := 0xD800 + (c - 0x1_0000) / 0x400, 0xDC00 + (c - 0x1_0000) % 0x400;
            IsHigh(hi) && IsLow(lo) && JoinPair(hi, lo) == c
  {
  }

  /** One escaped code point is read back, unless it is a high surrogate about to
      be joined with a low one. */
  lemma NextOfCode(c: int, rest: string)
    requires IsCode(c) && !(IsHigh(c) && StartsLow(rest))
    ensures EscapeCode(c) != "" && EscapeCode(c)[0] != '"'
    ensures NextCode(EscapeCode(c) + rest) == Ok(c, rest)
  {
    hide UnitAt, JoinPair, EscapeUnit;
    var e := EscapeCode(c);
    if c >= 0x1_0000 {
      var hi, lo := 0xD800 + (c - 0x1_0000) / 0x400, 0xDC00 + (c - 0x1_0000) % 0x400;
      AstralUnits(c);
      NextOfPair(hi, lo, rest);
      UnitRoundTrip(hi, "");
      assert EscapeUnit(hi) + EscapeUnit(lo) + rest == EscapeUnit(hi) + (EscapeUnit(lo) + rest);
    } else if IsPlainOrShort(c) {
      ShortRoundTrip(c, rest);
    } else {
      UnitRoundTrip(c, rest);
      NextOfUnit(e + rest, c, rest);
    }
  }

  predicate IsPlainOrShort(c: int) {
    0x20 <= c < 0x7F || c == 8 || c == 9 || c == 10 || c == 12 || c == 13
  }

  lemma ShortRoundTrip(c: int, rest: string)
    requires IsPlainOrShort(c)
    ensures EscapeCode(c) != "" && EscapeCode(c)[0] != '"'
    ensures NextCode(EscapeCode(c) + rest) == Ok(c, rest)
  {
    hide UnitAt, EscapeUnit, JoinPair;
    var e := EscapeCode(c);
    assert (e + rest)[0] == e[0] && (e + rest)[|e|..] == rest;
    if |e| == 2 {
      assert (e + rest)[1] == e[1];
    }
  }

  /** An escaped string body starts with a low-surrogate escape only when the
      string starts with a low surrogate. */
  lemma StartsLowOnlyFromLow(s: PyStr, rest: string)
    requires IsPyStr(s) && (s == [] || !IsLow(s[0]))
    ensures !StartsLow(Escape(s) + ("\"" + rest))
  {
    if s == [] {
      assert (Escape(s) + ("\"" + rest))[0] == '"';
    } else {
      EscapeHead(s, "\"" + rest);
      FirstUnit(s[0], Escape(s[1..]) + ("\"" + rest));
    }
  }

  lemma EscapeHead(s: PyStr, tail: string)
    requires IsPyStr(s) && s != []
    ensures IsCode(s[0]) && IsPyStr(s[1..]) && Escape(s) + tail == EscapeCode(s[0]) + (Escape(s[1..]) + tail)
  {
    hide EscapeCode;
  }

  lemma FirstUnit(c: int, rest: string)
    requires IsCode(c) && !IsLow(c)
    ensures !StartsLow(EscapeCode(c) + rest)
  {
    hide EscapeUnit;
    var e := EscapeCode(c);
    if c >= 0x1_0000 {
      hide UnitAt;
      var hi, lo := 0xD800 + (c - 0x1_0000) / 0x400, 0xDC00 + (c - 0x1_0000) % 0x400;
      AstralUnits(c);
      UnitRoundTrip(hi, EscapeUnit(lo) + rest);
      assert e + rest == EscapeUnit(hi) + (EscapeUnit(lo) + rest);
    } else if IsPlainOrShort(c) {
      assert (e + rest)[0] == e[0];
      assert |e| == 2 ==> (e + rest)[1] == e[1];
    } else {
      hide UnitAt;
      UnitRoundTrip(c, rest);
    }
  }

  lemma StringStep(c: int, code: int, s: string, after: string, t: PyStr, rest: string)
    requires IsCode(c) && s == EscapeCode(c) + after
    requires exists r :: NextCode(s) == Ok(code, r) && ParseString(r) == Ok(t, rest)
    ensures ParseString(s) == Ok([code] + t, rest)
  {
    hide EscapeCode, NextCode;
    NotQuote(c, after);
  }

  lemma {:induction false} StringRoundTrip(s: PyStr, rest: string)
    requires IsPyStr(s)
    ensures ParseString(Escape(s) + ("\"" + rest)) == Ok(JoinPairs(s), rest)
    decreases |s|
  {
    hide EscapeCode, NextCode, StartsLow, JoinPair, ParseString, Escape, IsPyStr;
    var tail := "\"" + rest;
    if s == [] {
      EmptyString(rest);
    } else {
      EscapeHead(s, tail);
      if |s| >= 2 && IsHigh(s[0]) && IsLow(s[1]) {
        EscapeHead(s[1..], tail);
        var body := Escape(s[1..][1..]) + tail;
        StringRoundTrip(s[1..][1..], rest);
        SurrogateEscapes(s[0]);
        SurrogateEscapes(s[1]);
        NextOfPair(s[0], s[1], body);
        StringStep(s[0], JoinPair(s[0], s[1]), Escape(s) + tail, EscapeCode(s[1]) + body, JoinPairs(s[1..][1..]), rest);
        assert s[1..][1..] == s[2..];
      } else {
        var body := Escape(s[1..]) + tail;
        StringRoundTrip(s[1..], rest);
        if |s| == 1 || !IsLow(s[1]) {
          StartsLowOnlyFromLow(s[1..], rest);
        }
        NextOfCode(s[0], body);
        StringStep(s[0], s[0], Escape(s) + tail, body, JoinPairs(s[1..]), rest);
      }
    }
  }

  lemma EmptyString(rest: string)
    ensures ParseString(Escape([]) + ("\"" + rest)) == Ok(JoinPairs([]), rest)
  {
    var t := "\"" + rest;
    assert Escape([]) + t == t && t[1..] == rest;
  }

  lemma SurrogateEscapes(c: int)
    requires IsHigh(c) || IsLow(c)
    ensures IsCode(c) && EscapeCode(c) == EscapeUnit(c)
  {
  }

  lemma NotQuote(c: int, rest: string)
    requires IsCode(c)
    ensures EscapeCode(c) + rest != "" && (EscapeCode(c) + rest)[0] != '"'
  {
    hide Hex4;
  }

  // --------------------------------------------------------------------- numbers

  /** Text that cannot continue a number. */
  predicate EndsNumber(rest: string) {
    rest == "" || !(IsDigit(rest[0]) || rest[0] == '.' || rest[0] == 'e' || rest[0] == 'E')
  }

  lemma DigitsAsAll(s: string)
    requires AllDigits(s)
    ensures All(s, IsDigit)
  {
  }

  lemma WholePart(m: nat, rest: string)
    requires EndsNumber(rest)
    ensures var t := Decimal(m) + rest;
            && t != "" && IsDigit(t[0]) && WholeLength(t) == |Decimal(m)|
            && t[..|Decimal(m)|] == Decimal(m) && t[|Decimal(m)|..] == rest
  {
    hide Span;
    var d := Decimal(m);
    DigitsAsAll(d);
    SpanUnique(d, rest, IsDigit);
    assert (d + rest)[0] == d[0];
  }

  lemma NothingMore(rest: string)
    requires EndsNumber(rest)
    ensures FractionLength(rest) == 0 && ExponentLength(rest) == 0 && rest[0..] == rest && rest[..0] == ""
  {
  }

  lemma UnsignedRoundTrip(s: string, sign: nat, m: nat, rest: string)
    requires EndsNumber(rest) && sign <= 1 && sign <= |s| && s[sign..] == Decimal(m) + rest && (sign == 1 ==> s[0] == '-')
    ensures ParseUnsigned(s, sign) == Ok(JInt(if sign == 1 then -(m as int) else m), rest)
  {
    WholePart(m, rest);
    DecimalRoundTrip(m);
    NothingMore(rest);
    hide Span, Decimal, FractionLength, ExponentLength, DecimalValue, EndsNumber, AllDigits, IsDigit, WholeLength;
    assert sign == 1 ==> s[..sign] == "-";
    assert sign == 0 ==> s[..sign] == "";
  }

  lemma NumberRoundTrip(n: int, rest: string)
    requires EndsNumber(rest)
    ensures ParseNumber(IntText(n) + rest) == Ok(JInt(n), rest)
  {
    hide Decimal, ParseUnsigned, EndsNumber;
    var m := if n < 0 then -n else n;
    var s := IntText(n) + rest;
    if n < 0 {
      assert s[0] == '-' && s[1..] == Decimal(m) + rest;
      UnsignedRoundTrip(s, 1, m, rest);
    } else {
      assert s[0..] == Decimal(m) + rest && s[0] == Decimal(m)[0];
      UnsignedRoundTrip(s, 0, m, rest);
    }
  }

  // ---------------------------------------------------------------------- values

  /** What a written value starts with: never white space, never a closer. */
  predicate IsValueStart(c: char) {
    c == '"' || c == '{' || c == '[' || c == 'n' || c == 't' || c == 'f' || c == '-' || IsDigit(c)
  }

  lemma WriteStart(j: Json, st: Style)
    requires Printable(j)
    ensures Write(j, st) != "" && IsValueStart(Write(j, st)[0])
  {
  }

  lemma SkipPad(st: Style, s: string)
    requires s != "" && !IsWs(s[0])
    ensures SkipWs(Pad(st) + s) == s
  {
    assert Pad(st) + s == if st.Compact? then s else " " + s;
    assert (" " + s)[1..] == s;
  }

  lemma SkipNothing(s: string)
    requires s == "" || !IsWs(s[0])
    ensures SkipWs(s) == s
  {
  }

  lemma IntDispatch(n: int, rest: string)
    requires EndsNumber(rest)
    ensures ParseValue(IntText(n) + rest) == Ok(JInt(n), rest)
  {
    hide ParseNumber, Keyword, Decimal;
    NumberRoundTrip(n, rest);
    var s := IntText(n) + rest;
    assert s[0] == IntText(n)[0];
    if n < 0 {
      assert s[1] == Decimal(-n)[0];
      assert !("-I" <= s);
    }
  }

  lemma KeywordRoundTrip(word: string, rest: string, j: Json)
    requires word != ""
    ensures Keyword(word + rest, word, j) == Ok(j, rest)
  {
    assert (word + rest)[..|word|] == word;
  }

  lemma StringDispatch(s: PyStr, rest: string)
    requires IsPyStr(s)
    ensures ParseValue(Quote(s) + rest) == Ok(JStr(JoinPairs(s)), rest)
  {
    hide ParseString, Escape, JoinPairs;
    StringRoundTrip(s, rest);
    QuoteParts(s, rest);
  }

  lemma QuoteParts(s: PyStr, rest: string)
    requires IsPyStr(s)
    ensures Quote(s) + rest != "" && (Quote(s) + rest)[0] == '"'
    ensures (Quote(s) + rest)[1..] == Escape(s) + ("\"" + rest)
  {
    hide Escape;
  }

  /** The parser reads a written value back and stops right behind it. */
  lemma {:induction false} ValueRoundTrip(j: Json, st: Style, rest: string)
    requires Printable(j) && EndsNumber(rest)
    ensures ParseValue(Write(j, st) + rest) == Ok(Joined(j), rest)
    decreases j, 1
  {
    match j
    case JNull => AtomRoundTrip(j, st, rest);
    case JBool(_) => AtomRoundTrip(j, st, rest);
    case JInt(n) => AtomRoundTrip(j, st, rest);
    case JStr(s) => AtomRoundTrip(j, st, rest);
    case JArr(items) =>
      if items.More? {
        ItemsRoundTrip(items, st, rest);
      }
      ArrayDispatch(items, st, rest);
    case JObj(ms) =>
      if ms.Cons? {
        MembersRoundTrip(ms, st, rest);
      }
      ObjectDispatch(ms, st, rest);
  }

  lemma AtomRoundTrip(j: Json, st: Style, rest: string)
    requires Printable(j) && EndsNumber(rest) && !j.JArr? && !j.JObj?
    ensures ParseValue(Write(j, st) + rest) == Ok(Joined(j), rest)
  {
    hide Keyword, ParseString, ParseNumber, Quote, IntText, JoinPairs;
    match j
    case JNull => KeywordRoundTrip("null", rest, JNull);
    case JBool(b) => KeywordRoundTrip(if b then "true" else "false", rest, j);
    case JInt(n) =>
      IntDispatch(n, rest);
    case JStr(s) =>
      StringDispatch(s, rest);
  }

  lemma BracketStep(body: string)
    requires body != "" && !IsWs(body[0])
    ensures ParseValue("[" + body) == ParseArray(body) && ParseValue("{" + body) == ParseObject(body)
  {
    hide ParseArray, ParseObject, ParseNumber, ParseString, Keyword;
    SkipNothing(body);
    assert ("[" + body)[1..] == body && ("{" + body)[1..] == body;
  }

  lemma ArrayDispatch(items: Items, st: Style, rest: string)
    requires PrintableItems(items)
    requires items.More? ==> ParseItems(WriteItems(items, st) + ("]" + rest)) == Ok(JoinedItems(items), rest)
    ensures ParseValue(Write(JArr(items), st) + rest) == Ok(Joined(JArr(items)), rest)
  {
    hide WriteItems, ParseItems, ParseValue, IsWs;
    var body := WriteItems(items, st) + ("]" + rest);
    assert Write(JArr(items), st) + rest == "[" + body;
    if items.End? {
      NoItems(st);
      assert body == "]" + rest;
      assert ("]" + rest)[1..] == rest;
    } else {
      ItemsStart(items, st, "]" + rest);
    }
    CloserOrStart(body[0]);
    BracketStep(body);
  }

  lemma CloserOrStart(c: char)
    ensures IsValueStart(c) ==> !IsWs(c) && c != ']' && c != '}'
    ensures c == ']' || c == '}' || c == '"' ==> !IsWs(c)
  {
  }

  lemma NoItems(st: Style)
    ensures WriteItems(End, st) == "" && WriteMembers(Nil, st) == ""
  {
  }

  lemma ItemsStart(items: Items, st: Style, rest: string)
    requires PrintableItems(items) && items.More?
    ensures var s := WriteItems(items, st) + rest; s != "" && IsValueStart(s[0])
  {
    WriteStart(items.head, st);
    hide Write;
    assert (WriteItems(items, st) + rest)[0] == Write(items.head, st)[0];
  }

  lemma ItemsStep(s: string, v: Json, w: string)
    requires ParseValue(s) == Ok(v, w) && w != "" && SkipWs(w) == w
    ensures w[0] == ']' ==> ParseItems(s) == Ok(More(v, End), w[1..])
    ensures w[0] == ',' ==>
              var u := ParseItems(SkipWs(w[1..]));
              ParseItems(s) == if u.Fail? then Fail else Ok(More(v, u.value), u.rest)
  {
    hide ParseValue;
  }

  lemma ItemsText(items: Items, st: Style, tail: string)
    requires PrintableItems(items) && items.More?
    ensures WriteItems(items, st) + tail ==
              Write(items.head, st) + (if items.rest.End? then tail else ItemSeparator(st) + (WriteItems(items.rest, st) + tail))
  {
    hide Write, ItemSeparator;
    if items.rest.More? {
      Reassociate(Write(items.head, st), ItemSeparator(st), WriteItems(items.rest, st), tail);
    }
  }

  lemma {:induction false} ItemsRoundTrip(items: Items, st: Style, rest: string)
    requires PrintableItems(items) && items.More?
    ensures ParseItems(WriteItems(items, st) + ("]" + rest)) == Ok(JoinedItems(items), rest)
    decreases items, 0
  {
    hide Write, WriteItems, ParseValue, ParseItems, Joined, Pad;
    var h, tail := Write(items.head, st), "]" + rest;
    ItemsText(items, st, tail);
    if items.rest.End? {
      ValueRoundTrip(items.head, st, tail);
      SkipNothing(tail);
      ItemsStep(h + tail, Joined(items.head), tail);
      assert tail[1..] == rest;
    } else {
      var next := WriteItems(items.rest, st) + tail;
      ItemsRoundTrip(items.rest, st, rest);
      ValueRoundTrip(items.head, st, ItemSeparator(st) + next);
      ItemsStart(items.rest, st, tail);
      AfterSeparator(",", st, next);
      ItemsStep(h + (ItemSeparator(st) + next), Joined(items.head), ItemSeparator(st) + next);
    }
  }

  lemma AfterSeparator(sep: string, st: Style, next: string)
    requires |sep| == 1 && !IsWs(sep[0]) && next != "" && IsValueStart(next[0])
    ensures var s := (sep + Pad(st)) + next; SkipWs(s) == s && s[0] == sep[0] && SkipWs(s[1..]) == next
  {
    var s := (sep + Pad(st)) + next;
    assert s[0] == sep[0] && s[1..] == Pad(st) + next;
    SkipNothing(s);
    SkipPad(st, next);
  }

  lemma ObjectDispatch(ms: Dict<Json>, st: Style, rest: string)
    requires PrintableMembers(ms)
    requires ms.Cons? ==> ParseMembers(WriteMembers(ms, st) + ("}" + rest)) == Ok(JoinedMembers(ms), rest)
    ensures ParseValue(Write(JObj(ms), st) + rest) == Ok(Joined(JObj(ms)), rest)
  {
    hide WriteMembers, ParseMembers, ParseValue, IsWs;
    var body := WriteMembers(ms, st) + ("}" + rest);
    assert Write(JObj(ms), st) + rest == "{" + body;
    if ms.Nil? {
      NoItems(st);
      assert body == "}" + rest;
      assert ("}" + rest)[1..] == rest;
    } else {
      MembersStart(ms, st, "}" + rest);
    }
    CloserOrStart(body[0]);
    BracketStep(body);
  }

  lemma MembersStart(ms: Dict<Json>, st: Style, rest: string)
    requires PrintableMembers(ms) && ms.Cons?
    ensures var s := WriteMembers(ms, st) + rest; s != "" && s[0] == '"'
  {
    hide Write, Escape;
    assert Quote(ms.key)[0] == '"';
    assert (WriteMembers(ms, st) + rest)[0] == Quote(ms.key)[0];
  }

  lemma MembersStep(s: string, k: PyStr, t: string, v: Json, w: string)
    requires s != "" && s[0] == '"' && ParseString(s[1..]) == Ok(k, t)
    requires SkipWs(t) == t && t != "" && t[0] == ':'
    requires ParseValue(SkipWs(t[1..])) == Ok(v, w) && w != "" && SkipWs(w) == w
    ensures w[0] == '}' ==> ParseMembers(s) == Ok(Cons(k, v, Nil), w[1..])
    ensures w[0] == ',' ==>
              var u := ParseMembers(SkipWs(w[1..]));
              ParseMembers(s) == if u.Fail? then Fail else Ok(Cons(k, v, u.value), u.rest)
  {
    hide ParseValue, ParseString;
  }

  lemma {:induction false} MembersRoundTrip(ms: Dict<Json>, st: Style, rest: string)
    requires PrintableMembers(ms) && ms.Cons?
    ensures ParseMembers(WriteMembers(ms, st) + ("}" + rest)) == Ok(JoinedMembers(ms), rest)
    decreases ms, 0
  {
    hide Write, ParseValue, ParseMembers, Joined, Quote, JoinPairs, ParseString, Pad;
    var tail := "}" + rest;
    if ms.tail.Nil? {
      ValueRoundTrip(ms.value, st, tail);
      SkipNothing(tail);
      MemberText(ms, st, tail);
      MemberParts(ms.key, ms.value, st, tail);
      assert tail[1..] == rest;
    } else {
      var next := WriteMembers(ms.tail, st) + tail;
      var more := ItemSeparator(st) + next;
      MembersRoundTrip(ms.tail, st, rest);
      ValueRoundTrip(ms.value, st, more);
      MemberText(ms, st, tail);
      MembersStart(ms.tail, st, tail);
      AfterSeparator(",", st, next);
      MemberParts(ms.key, ms.value, st, more);
    }
  }

  lemma MemberText(ms: Dict<Json>, st: Style, tail: string)
    requires PrintableMembers(ms) && ms.Cons?
    ensures var after := if ms.tail.Nil? then tail else ItemSeparator(st) + (WriteMembers(ms.tail, st) + tail);
            WriteMembers(ms, st) + tail == Quote(ms.key) + (KeySeparator(st) + (Write(ms.value, st) + after))
  {
    hide Write, Quote, KeySeparator, ItemSeparator;
    var q, ks, v := Quote(ms.key), KeySeparator(st), Write(ms.value, st);
    if ms.tail.Nil? {
      Reassociate(q, ks, v, tail);
    } else {
      var sep, next := ItemSeparator(st), WriteMembers(ms.tail, st);
      Reassociate(q, ks, v, (sep + next) + tail);
      Reassociate("", sep, next, tail);
      assert (q + (ks + v) + (sep + next)) + tail == (q + (ks + v)) + ((sep + next) + tail);
    }
  }

  lemma Reassociate(a: string, b: string, c: string, d: string)
    ensures (a + (b + c)) + d == a + (b + (c + d))
    ensures (b + c) + d == b + (c + d)
  {
  }

  lemma MemberParts(k: PyStr, v: Json, st: Style, w: string)
    requires IsPyStr(k) && Printable(v) && ParseValue(Write(v, st) + w) == Ok(Joined(v), w) && w != "" && SkipWs(w) == w
    ensures var s := Quote(k) + (KeySeparator(st) + (Write(v, st) + w));
            && (w[0] == '}' ==> ParseMembers(s) == Ok(Cons(JoinPairs(k), Joined(v), Nil), w[1..]))
            && (w[0] == ',' ==>
                  var u := ParseMembers(SkipWs(w[1..]));
                  ParseMembers(s) == if u.Fail? then Fail else Ok(Cons(JoinPairs(k), Joined(v), u.value), u.rest))
  {
    hide Write, ParseValue, ParseMembers, Joined, Quote, JoinPairs, ParseString, KeySeparator, SkipWs;
    MemberHead(k, v, st, w);
    MembersStep(Quote(k) + (KeySeparator(st) + (Write(v, st) + w)), JoinPairs(k),
                KeySeparator(st) + (Write(v, st) + w), Joined(v), w);
  }

  lemma MemberHead(k: PyStr, v: Json, st: Style, rest: string)
    requires IsPyStr(k) && Printable(v)
    ensures var s := Quote(k) + (KeySeparator(st) + (Write(v, st) + rest));
            && s != "" && s[0] == '"'
            && ParseString(s[1..]) == Ok(JoinPairs(k), KeySeparator(st) + (Write(v, st) + rest))
            && SkipWs(KeySeparator(st) + (Write(v, st) + rest)) == KeySeparator(st) + (Write(v, st) + rest)
            && (KeySeparator(st) + (Write(v, st) + rest))[0] == ':'
            && SkipWs((KeySeparator(st) + (Write(v, st) + rest))[1..]) == Write(v, st) + rest
  {
    WriteStart(v, st);
    hide Write, Quote, ParseString, JoinPairs, Escape;
    var body := Write(v, st) + rest;
    QuoteParts(k, KeySeparator(st) + body);
    StringRoundTrip(k, KeySeparator(st) + body);
    assert body[0] == Write(v, st)[0];
    AfterSeparator(":", st, body);
  }

  // ------------------------------------------------------------ the format itself

  /** An escape is \u and four hexadecimal digits, most significant first. */
  lemma UnitSpelled(n: nat, a: nat, b: nat, c: nat, d: nat)
    requires a < 16 && b < 16 && c < 16 && d < 16 && n == a * 0x1000 + b * 0x100 + c * 0x10 + d
    ensures EscapeUnit(n) == ['\\', 'u', HexChar(a), HexChar(b), HexChar(c), HexChar(d)]
  {
    assert n / 0x1000 == a && n / 0x100 == a * 16 + b && n / 0x10 == (a * 16 + b) * 16 + c;
  }
}
