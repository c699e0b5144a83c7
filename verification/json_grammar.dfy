/** The grammar of JSON texts (sections 2 to 7 of RFC 8259, with Python's three extra
    number words) as a relation between a text and a value, and the parser against it. */
module JsonGrammar {
  import opened Text
  import opened Dicts
  import opened JsonValues
  import opened JsonText
  import opened JsonRoundTrip

  predicate AllWs(s: string) { All(s, IsWs) }

  // --------------------------------------------------------------------- strings

  predicate IsPlainPiece(piece: string, c: int) {
    |piece| == 1 && ' ' <= piece[0] && piece[0] != '"' && piece[0] != '\\' && c == piece[0] as int
  }

  predicate IsShortPiece(piece: string, c: int) {
    || (piece == "\\\"" && c == 0x22) || (piece == "\\\\" && c == 0x5C) || (piece == "\\/" && c == 0x2F)
    || (piece == "\\b" && c == 8) || (piece == "\\f" && c == 12) || (piece == "\\n" && c == 10)
    || (piece == "\\r" && c == 13) || (piece == "\\t" && c == 9)
  }

  predicate IsUnitPiece(piece: string, c: int) {
    && |piece| == 6 && piece[0] == '\\' && piece[1] == 'u'
    && IsHex(piece[2]) && IsHex(piece[3]) && IsHex(piece[4]) && IsHex(piece[5])
    && c == HexDigitValue(piece[2]) * 0x1000 + HexDigitValue(piece[3]) * 0x100
            + HexDigitValue(piece[4]) * 0x10 + HexDigitValue(piece[5])
  }

  /** One character of a string as it stands between the quotes, and its code. */
  predicate IsPiece(piece: string, c: int) { IsPlainPiece(piece, c) || IsShortPiece(piece, c) || IsUnitPiece(piece, c) }

  ghost predicate IsUnits(body: string, us: PyStr)
    decreases |us|
  {
    if us == [] then body == ""
    else exists piece, rest :: body == piece + rest && IsPiece(piece, us[0]) && IsUnits(rest, us[1..])
  }

  /** A quoted string; adjacent surrogates stand for the code point they encode. */
  ghost predicate IsQuoted(q: string, s: PyStr) {
    |q| >= 2 && q[0] == '"' && q[|q| - 1] == '"' &&
    exists us :: IsUnits(q[1..|q| - 1], us) && s == JoinPairs(us)
  }

  // --------------------------------------------------------------------- numbers

  predicate IsWhole(t: string) { t == "0" || (t != "" && t[0] != '0' && All(t, IsDigit)) }

  predicate IsFraction(t: string) { t == "" || (|t| >= 2 && t[0] == '.' && All(t[1..], IsDigit)) }

  predicate IsExponent(t: string) {
    t == "" || (|t| >= 2 && (t[0] == 'e' || t[0] == 'E') && IsSignedDigits(t[1..]))
  }

  predicate IsSignedDigits(t: string) {
    var digits := if t != "" && (t[0] == '+' || t[0] == '-') then t[1..] else t;
    digits != "" && All(digits, IsDigit)
  }

  /** A number without a fraction or an exponent. */
  predicate IsIntegerText(v: string, n: int) {
    if v != "" && v[0] == '-' then IsWhole(v[1..]) && n == -(WholeValue(v[1..]) as int)
    else IsWhole(v) && n == WholeValue(v)
  }

  function WholeValue(t: string): nat
    requires IsWhole(t)
  {
    DecimalValue(t)
  }

  /** A number with one of them. */
  ghost predicate IsFloatText(v: string) {
    exists minus, whole, frac, exp ::
      && v == minus + (whole + (frac + exp)) && (minus == "" || minus == "-")
      && IsWhole(whole) && IsFraction(frac) && IsExponent(exp) && frac + exp != ""
  }

  // ---------------------------------------------------------------------- values

  /** s is v between white space, with after behind it. */
  predicate SplitsAs(s: string, left: string, v: string, right: string, after: string) {
    s == left + (v + (right + after)) && AllWs(left) && AllWs(right)
  }

  ghost predicate IsValue(v: string, j: Json)
    decreases j
  {
    match j
    case JNull => v == "null"
    case JBool(b) => v == if b then "true" else "false"
    case JInt(n) => IsIntegerText(v, n)
    case JFloat(text) => v == text && (IsFloatText(v) || v == "NaN" || v == "Infinity" || v == "-Infinity")
    case JStr(s) => IsQuoted(v, s)
    case JArr(items) => |v| >= 2 && v[0] == '[' && v[|v| - 1] == ']' && IsItems(v[1..|v| - 1], items)
    case JObj(ms) => |v| >= 2 && v[0] == '{' && v[|v| - 1] == '}' && IsMembers(v[1..|v| - 1], ms)
  }

  /** What stands between brackets: values set apart by commas, white space anywhere. */
  ghost predicate IsItems(s: string, items: Items)
    decreases items
  {
    if items.End? then AllWs(s)
    else
      exists left, v, right, after ::
        && SplitsAs(s, left, v, right, after) && IsValue(v, items.head)
        && if items.rest.End? then after == ""
           else after != "" && after[0] == ',' && IsItems(after[1..], items.rest)
  }

  ghost predicate IsMembers(s: string, ms: Dict<Json>)
    decreases ms, 1
  {
    if ms.Nil? then AllWs(s)
    else
      exists left, q, right, colon ::
        && SplitsAs(s, left, q, right, colon) && IsQuoted(q, ms.key)
        && colon != "" && colon[0] == ':' && IsMemberValue(colon[1..], ms)
  }

  /** What stands behind the colon of a first member. */
  ghost predicate IsMemberValue(s: string, ms: Dict<Json>)
    requires ms.Cons?
    decreases ms, 0
  {
    exists left, v, right, after ::
      && SplitsAs(s, left, v, right, after) && IsValue(v, ms.value)
      && if ms.tail.Nil? then after == ""
         else after != "" && after[0] == ',' && IsMembers(after[1..], ms.tail)
  }

  /** A JSON text: a value between white space. */
  ghost predicate IsText(s: string, j: Json) {
    exists left, v, right :: SplitsAs(s, left, v, right, "") && IsValue(v, j)
  }

  // ---------------------------------------------------------------- white space

  lemma {:induction false} SkipAll(w: string, t: string)
    requires AllWs(w) && (t == "" || !IsWs(t[0]))
    ensures SkipWs(w + t) == t
  {
    if w == "" {
      assert w + t == t;
      SkipNothing(t);
    } else {
      assert (w + t)[1..] == w[1..] + t;
      SkipAll(w[1..], t);
    }
  }

  lemma {:induction false} Skipped(s: string) returns (w: string)
    ensures s == w + SkipWs(s) && AllWs(w)
    ensures SkipWs(s) == "" || !IsWs(SkipWs(s)[0])
  {
    if s != "" && IsWs(s[0]) {
      var more := Skipped(s[1..]);
      w := [s[0]] + more;
      assert s == [s[0]] + s[1..];
    } else {
      w := "";
    }
  }

  // ------------------------------------------------------------- strings, parsed

  lemma ConsUnits(piece: string, rest: string, c: int, us: PyStr)
    requires IsPiece(piece, c) && IsUnits(rest, us)
    ensures IsUnits(piece + rest, [c] + us)
  {
    hide IsPiece;
    assert ([c] + us)[1..] == us;
  }

  lemma UnitOfPiece(piece: string, rest: string)
    ensures |piece| == 6 && UnitAt(piece + rest).Some? ==> IsUnitPiece(piece, UnitAt(piece + rest).value)
    ensures forall c :: IsUnitPiece(piece, c) ==> UnitAt(piece + rest) == Some(c)
  {
    hide IsHex, HexDigitValue;
    var s := piece + rest;
    assert forall k :: 0 <= k < |piece| ==> s[k] == piece[k];
  }

  /** A body that starts with the escape of a low surrogate has that unit first. */
  lemma FirstIsLow(body: string, us: PyStr, rest: string)
    requires IsUnits(body, us)
    ensures StartsLow(body + ("\"" + rest)) <==> us != [] && IsLow(us[0])
  {
    hide *;
    var end := "\"" + rest;
    if us == [] {
      EmptyUnits(body);
      assert body + end == end && end[0] == '"';
      NoUnit(end);
      LowStart(end);
    } else {
      var piece, more := UnitsHead(body, us);
      assert body + end == piece + (more + end);
      LowPiece(piece, us[0], more + end);
    }
  }

  lemma EmptyUnits(body: string)
    ensures IsUnits(body, []) <==> body == ""
  {
  }

  lemma UnitsHead(body: string, us: PyStr) returns (piece: string, more: string)
    requires IsUnits(body, us) && us != []
    ensures body == piece + more && IsPiece(piece, us[0]) && IsUnits(more, us[1..])
  {
    hide IsPiece;
    piece, more :| body == piece + more && IsPiece(piece, us[0]) && IsUnits(more, us[1..]);
  }

  lemma LowStart(t: string)
    ensures StartsLow(t) <==> UnitAt(t).Some? && IsLow(UnitAt(t).value)
  {
  }

  lemma LowPiece(piece: string, c: int, after: string)
    requires IsPiece(piece, c)
    ensures StartsLow(piece + after) <==> IsLow(c)
  {
    OtherPiece(piece, c, after);
    UnitOfPiece(piece, after);
    LowStart(piece + after);
    hide UnitAt, StartsLow, IsUnitPiece, IsPiece;
  }

  lemma NoUnit(t: string)
    requires t == "" || t[0] != '\\' || |t| < 2 || t[1] != 'u'
    ensures UnitAt(t) == None
  {
  }

  lemma OtherPiece(piece: string, c: int, after: string)
    requires IsPiece(piece, c)
    ensures piece != "" && piece[0] != '"'
    ensures !IsUnitPiece(piece, c) ==> UnitAt(piece + after) == None && !IsHigh(c) && !IsLow(c)
  {
    assert IsUnitPiece(piece, c) ==> piece[0] == '\\';
    hide IsUnitPiece;
    var t := piece + after;
    if !IsUnitPiece(piece, c) {
      assert t[0] == piece[0];
      assert |piece| == 2 ==> t[1] == piece[1];
      NoUnit(t);
      assert IsPlainPiece(piece, c) ==> !IsHigh(c) && !IsLow(c);
    }
  }

  /** One piece is read as its code, unless it is half of a pair. */
  lemma NextOfPiece(piece: string, c: int, rest: string)
    requires IsPiece(piece, c) && !(IsHigh(c) && StartsLow(rest))
    ensures piece + rest != "" && (piece + rest)[0] != '"' && NextCode(piece + rest) == Ok(c, rest)
  {
    var s := piece + rest;
    assert s[|piece|..] == rest;
    assert forall k :: 0 <= k < |piece| ==> s[k] == piece[k];
    OtherPiece(piece, c, rest);
    if IsUnitPiece(piece, c) {
      UnitOfPiece(piece, rest);
      hide UnitAt;
      NextOfUnit(s, c, rest);
    } else {
      hide IsUnitPiece, UnitAt;
    }
  }

  lemma NextOfPieces(p: string, hi: int, q: string, lo: int, rest: string)
    requires IsPiece(p, hi) && IsPiece(q, lo) && IsHigh(hi) && IsLow(lo)
    ensures var s := p + (q + rest);
            s != "" && s[0] != '"' && NextCode(s) == Ok(JoinPair(hi, lo), rest)
  {
    OtherPiece(p, hi, q + rest);
    OtherPiece(q, lo, rest);
    UnitOfPiece(p, q + rest);
    UnitOfPiece(q, rest);
    hide UnitAt, JoinPair, IsHex, HexDigitValue;
    var s := p + (q + rest);
    assert s[0] == p[0] && s[1] == p[1] && s[6..] == q + rest && (q + rest)[6..] == rest;
    NextOfUnit(s, hi, q + rest);
  }

  lemma ParseStringStep(s: string, c: int, r: string)
    requires s != "" && s[0] != '"' && NextCode(s) == Ok(c, r)
    ensures ParseString(s) == var t := ParseString(r); if t.Fail? then Fail else Ok([c] + t.value, t.rest)
  {
    hide NextCode;
  }

  lemma EndOfString(rest: string)
    ensures ParseString("\"" + rest) == Ok([], rest)
  {
    assert ("\"" + rest)[1..] == rest;
  }

  /** Every spelled-out body is read, up to its closing quote. */
  lemma {:induction false} StringComplete(body: string, us: PyStr, rest: string)
    requires IsUnits(body, us)
    ensures ParseString(body + ("\"" + rest)) == Ok(JoinPairs(us), rest)
    decreases |us|
  {
    hide ParseString, NextCode, StartsLow, JoinPair, IsPiece, IsUnits;
    var end := "\"" + rest;
    if us == [] {
      EmptyUnits(body);
      assert body + end == end;
      EndOfString(rest);
    } else {
      var piece, more := UnitsHead(body, us);
      assert body + end == piece + (more + end);
      FirstIsLow(more, us[1..], rest);
      if IsHigh(us[0]) && |us| >= 2 && IsLow(us[1]) {
        var q, last := UnitsHead(more, us[1..]);
        assert us[1..][1..] == us[2..];
        StringComplete(last, us[2..], rest);
        NextOfPieces(piece, us[0], q, us[1], last + end);
        assert more + end == q + (last + end);
        ParseStringStep(body + end, JoinPair(us[0], us[1]), last + end);
      } else {
        StringComplete(more, us[1..], rest);
        NextOfPiece(piece, us[0], more + end);
        ParseStringStep(body + end, us[0], more + end);
      }
    }
  }

  /** What was read as one code: a piece, or the two pieces of a pair. */
  lemma CodeIsSpelled(s: string) returns (piece: string, c: int, second: string, d: int)
    requires s != "" && s[0] != '"' && NextCode(s).Ok?
    ensures IsPiece(piece, c)
    ensures second == "" ==> s == piece + NextCode(s).rest && NextCode(s).value == c
                             && !(IsHigh(c) && StartsLow(NextCode(s).rest))
    ensures second != "" ==> s == piece + (second + NextCode(s).rest) && IsPiece(second, d)
                             && IsHigh(c) && IsLow(d) && NextCode(s).value == JoinPair(c, d)
  {
    second, d := "", 0;
    if s[0] != '\\' {
      piece, c := s[..1], s[0] as int;
      assert !IsHigh(c);
      assert s == piece + s[1..];
    } else if s[1] != 'u' {
      piece, c := s[..2], NextCode(s).value;
      assert IsShortPiece(piece, c);
      assert s == piece + s[2..];
    } else {
      hide JoinPair;
      piece, c := s[..6], UnitAt(s).value;
      assert s == piece + s[6..];
      UnitOfPiece(piece, s[6..]);
      if IsHigh(c) && StartsLow(s[6..]) {
        second, d := s[6..12], UnitAt(s[6..]).value;
        assert s[6..] == second + s[12..];
        UnitOfPiece(second, s[12..]);
      }
    }
  }

  lemma JoinOne(c: int, us: PyStr)
    requires !(IsHigh(c) && us != [] && IsLow(us[0]))
    ensures JoinPairs([c] + us) == [c] + JoinPairs(us)
  {
    hide JoinPair;
    assert ([c] + us)[1..] == us;
    assert us != [] ==> ([c] + us)[1] == us[0];
  }

  lemma JoinTwo(c: int, d: int, us: PyStr)
    requires IsHigh(c) && IsLow(d)
    ensures JoinPairs([c] + ([d] + us)) == [JoinPair(c, d)] + JoinPairs(us)
  {
    hide JoinPair;
    assert ([c] + ([d] + us))[2..] == us;
  }

  /** And nothing else is. */
  lemma {:induction false} StringSound(s: string) returns (body: string, us: PyStr)
    requires ParseString(s).Ok?
    ensures s == body + ("\"" + ParseString(s).rest) && IsUnits(body, us) && ParseString(s).value == JoinPairs(us)
    decreases |s|
  {
    hide NextCode, StartsLow, JoinPair, IsPiece, JoinPairs, IsUnits;
    var end := "\"" + ParseString(s).rest;
    if s[0] == '"' {
      body, us := "", [];
      NoUnits();
      assert s == "\"" + s[1..];
      assert s == body + end;
    } else {
      var piece, c, second, d := CodeIsSpelled(s);
      var next := NextCode(s);
      var more, vs := StringSound(next.rest);
      hide ParseString;
      ParseStringStep(s, next.value, next.rest);
      if second == "" {
        FirstIsLow(more, vs, ParseString(s).rest);
        ConsUnits(piece, more, c, vs);
        JoinOne(c, vs);
        body, us := piece + more, [c] + vs;
        assert s == piece + (more + end);
      } else {
        ConsUnits(second, more, d, vs);
        ConsUnits(piece, second + more, c, [d] + vs);
        JoinTwo(c, d, vs);
        body, us := piece + (second + more), [c] + ([d] + vs);
        assert s == piece + (second + (more + end));
      }
    }
  }

  lemma NoUnits()
    ensures IsUnits("", []) && JoinPairs([]) == []
  {
  }

  // ------------------------------------------------------------- numbers, parsed

  lemma FractionComplete(frac: string, rest: string)
    requires IsFraction(frac) && (rest == "" || (!IsDigit(rest[0]) && (frac == "" ==> rest[0] != '.')))
    ensures FractionLength(frac + rest) == |frac| && (frac + rest)[|frac|..] == rest
  {
    var s := frac + rest;
    if frac == "" {
      assert s == rest;
    } else {
      assert s[1..] == frac[1..] + rest && s[1] == frac[1] && s[0] == frac[0];
      SpanUnique(frac[1..], rest, IsDigit);
    }
  }

  lemma ExponentComplete(exp: string, rest: string)
    requires IsExponent(exp) && EndsNumber(rest)
    ensures ExponentLength(exp + rest) == |exp| && (exp + rest)[|exp|..] == rest
  {
    var s := exp + rest;
    if exp == "" {
      assert s == rest;
    } else {
      var sign := if exp[1] == '+' || exp[1] == '-' then 1 else 0;
      assert s[0] == exp[0] && s[1] == exp[1];
      var digits := exp[1 + sign..];
      assert exp[1..][sign..] == digits;
      assert s[1 + sign..] == digits + rest;
      SpanUnique(digits, rest, IsDigit);
    }
  }

  lemma WholeComplete(whole: string, rest: string)
    requires IsWhole(whole) && (rest == "" || !IsDigit(rest[0]))
    ensures var t := whole + rest;
            && IsDigit(t[0]) && WholeLength(t) == |whole| && t[..|whole|] == whole && t[|whole|..] == rest
  {
    SpanUnique(whole, rest, IsDigit);
    assert (whole + rest)[0] == whole[0];
    hide Span;
  }

  predicate IsNumberParts(minus: string, whole: string, frac: string, exp: string) {
    (minus == "" || minus == "-") && IsWhole(whole) && IsFraction(frac) && IsExponent(exp)
  }

  lemma PartsFollow(frac: string, exp: string, rest: string)
    requires IsFraction(frac) && IsExponent(exp) && EndsNumber(rest)
    ensures exp + rest == "" || (!IsDigit((exp + rest)[0]) && (exp + rest)[0] != '.')
    ensures frac + (exp + rest) == "" || !IsDigit((frac + (exp + rest))[0])
  {
    assert exp != "" ==> (exp + rest)[0] == exp[0];
    assert exp == "" ==> exp + rest == rest;
    assert frac != "" ==> (frac + (exp + rest))[0] == frac[0];
    assert frac == "" ==> frac + (exp + rest) == exp + rest;
  }

  lemma WholeDigits(whole: string)
    requires IsWhole(whole)
    ensures whole != "" && IsDigit(whole[0]) && AllDigits(whole)
  {
  }

  lemma UnsignedComplete(minus: string, whole: string, frac: string, exp: string, rest: string)
    requires IsNumberParts(minus, whole, frac, exp) && EndsNumber(rest)
    ensures AllDigits(whole)
    ensures var s := minus + (whole + (frac + (exp + rest)));
            ParseUnsigned(s, |minus|) == Ok(NumberOf(minus, whole, frac, exp), rest)
  {
    PartsFollow(frac, exp, rest);
    WholeDigits(whole);
    WholeComplete(whole, frac + (exp + rest));
    FractionComplete(frac, exp + rest);
    ExponentComplete(exp, rest);
    hide WholeLength, FractionLength, ExponentLength, IsFraction, IsExponent, NumberOf, IsWhole, IsDigit, AllDigits;
    var t := whole + (frac + (exp + rest));
    var s := minus + t;
    assert s[..|minus|] == minus && s[|minus|..] == t;
    assert (frac + (exp + rest))[..|frac|] == frac && (exp + rest)[..|exp|] == exp;
  }

  lemma NumberDispatch(minus: string, t: string)
    requires (minus == "" || minus == "-") && t != "" && IsDigit(t[0])
    ensures ParseValue(minus + t) == ParseUnsigned(minus + t, |minus|)
  {
    hide ParseUnsigned, Keyword;
    var s := minus + t;
    if minus == "" {
      assert s == t;
    } else {
      assert s[0] == '-' && s[1] == t[0];
      assert !("-I" <= s);
    }
  }

  lemma NumberComplete(minus: string, whole: string, frac: string, exp: string, rest: string)
    requires IsNumberParts(minus, whole, frac, exp) && EndsNumber(rest)
    ensures AllDigits(whole)
    ensures ParseValue(minus + (whole + (frac + (exp + rest)))) == Ok(NumberOf(minus, whole, frac, exp), rest)
  {
    UnsignedComplete(minus, whole, frac, exp, rest);
    WholeDigits(whole);
    hide ParseUnsigned, ParseValue, IsFraction, IsExponent, IsWhole, NumberOf, IsDigit, AllDigits;
    var t := whole + (frac + (exp + rest));
    assert t[0] == whole[0];
    NumberDispatch(minus, t);
  }

  lemma UnsignedSound(s: string, sign: nat) returns (whole: string, frac: string, exp: string)
    requires sign <= 1 && sign <= |s| && (sign == 1 ==> s[0] == '-') && ParseUnsigned(s, sign).Ok?
    ensures IsNumberParts(s[..sign], whole, frac, exp) && AllDigits(whole)
    ensures s == s[..sign] + (whole + (frac + (exp + ParseUnsigned(s, sign).rest)))
    ensures ParseUnsigned(s, sign).value == NumberOf(s[..sign], whole, frac, exp)
  {
    var t := s[sign..];
    var n := WholeLength(t);
    WholeSound(t);
    hide FractionLength, ExponentLength, WholeLength, IsFraction, IsExponent, IsWhole, NumberOf, AllDigits, IsDigit;
    var t1 := t[n..];
    var m := FractionLength(t1);
    var t2 := t1[m..];
    var k := ExponentLength(t2);
    FractionSound(t1);
    ExponentSound(t2);
    whole, frac, exp := t[..n], t1[..m], t2[..k];
    assert sign == 1 ==> s[..sign] == "-";
    SplitFour(s, sign, n, m, k);
  }

  lemma SplitFour(s: string, sign: nat, n: nat, m: nat, k: nat)
    requires sign <= |s| && n <= |s[sign..]| && m <= |s[sign..][n..]| && k <= |s[sign..][n..][m..]|
    ensures var t := s[sign..]; var t1 := t[n..]; var t2 := t1[m..];
            s == s[..sign] + (t[..n] + (t1[..m] + (t2[..k] + t2[k..])))
  {
    var t := s[sign..];
    var t1 := t[n..];
    var t2 := t1[m..];
    assert t2 == t2[..k] + t2[k..];
    assert t1 == t1[..m] + t2;
    assert t == t[..n] + t1;
  }

  lemma WholeSound(t: string)
    requires t != "" && IsDigit(t[0])
    ensures IsWhole(t[..WholeLength(t)])
  {
    if t[0] == '0' {
      assert t[..1] == "0";
    } else {
      hide Span;
    }
  }

  lemma FractionSound(s: string)
    ensures IsFraction(s[..FractionLength(s)])
  {
    var n := FractionLength(s);
    if n > 0 {
      assert s[..n][1..] == s[1..][..n - 1];
    }
  }

  lemma ExponentSound(s: string)
    ensures IsExponent(s[..ExponentLength(s)])
  {
    var n := ExponentLength(s);
    if n > 0 {
      var sign := if |s| >= 2 && (s[1] == '+' || s[1] == '-') then 1 else 0;
      var digits := Span(s[1 + sign..], IsDigit);
      var e := s[..n];
      assert e[1..][sign..] == s[1 + sign..][..digits];
      assert sign == 0 ==> e[1..] == s[1..][..digits] && e[1] == s[1];
      assert sign == 0 ==> IsDigit(s[1..][..digits][0]);
    }
  }

  lemma PartsAreNumber(minus: string, whole: string, frac: string, exp: string)
    requires IsNumberParts(minus, whole, frac, exp) && AllDigits(whole)
    ensures IsValue(minus + (whole + (frac + exp)), NumberOf(minus, whole, frac, exp))
  {
    WholeDigits(whole);
    assert whole[0] != '-';
    hide IsFraction, IsExponent, IsWhole, DecimalValue, IsDigit, AllDigits;
    var v := minus + (whole + (frac + exp));
    if frac == "" && exp == "" {
      assert v == minus + whole;
      if minus == "" {
        assert v == whole && v[0] != '-';
      } else {
        assert v[0] == '-' && v[1..] == whole;
      }
    } else {
      assert frac + exp != "";
      assert IsFloatText(v);
    }
  }

  lemma IntegerParts(v: string, n: int) returns (minus: string, whole: string)
    requires IsIntegerText(v, n)
    ensures IsNumberParts(minus, whole, "", "") && AllDigits(whole) && v == minus + (whole + ("" + ""))
    ensures NumberOf(minus, whole, "", "") == JInt(n)
  {
    minus, whole := if v != "" && v[0] == '-' then "-" else "", if v != "" && v[0] == '-' then v[1..] else v;
    WholeDigits(whole);
    hide IsWhole, DecimalValue, AllDigits, IsDigit;
    assert v[0] == '-' ==> v == "-" + v[1..];
    assert whole + ("" + "") == whole;
  }

  // -------------------------------------------------------------- values, parsed

  /** What a value starts with: never white space, never a closer or a comma. */
  lemma ValueStart(v: string, j: Json)
    requires IsValue(v, j)
    ensures v != "" && IsGrammarStart(v[0])
  {
    hide IsItems, IsMembers, IsQuoted, IsWhole, IsFraction, IsExponent;
    match j
    case JInt(n) =>
      var minus, whole := IntegerParts(v, n);
      WholeDigits(whole);
      assert minus == "" ==> v == whole;
    case JFloat(_) =>
      if IsFloatText(v) {
        var minus, whole, frac, exp :| v == minus + (whole + (frac + exp)) && (minus == "" || minus == "-")
          && IsWhole(whole) && IsFraction(frac) && IsExponent(exp) && frac + exp != "";
        WholeDigits(whole);
        assert minus == "" ==> v[0] == whole[0];
        assert minus == "-" ==> v[0] == '-';
      }
    case JStr(s) => QuotedStart(v, s);
    case _ =>
  }

  predicate IsGrammarStart(c: char) { IsValueStart(c) || c == 'N' || c == 'I' }

  lemma StartIsNoWs(c: char)
    ensures IsGrammarStart(c) ==> !IsWs(c) && c != ']' && c != '}' && c != ',' && c != ':'
    ensures IsWs(c) ==> c != ',' && c != ']' && c != '}' && c != ':' && c != '"' && c != '.' && c != 'e' && c != 'E' && !IsDigit(c)
  {
  }

  /** Behind a value in a text: white space, or the mark that ends it. */
  lemma SeparatorEnds(right: string, c: char, rest: string)
    requires AllWs(right) && (c == ',' || c == ']' || c == '}')
    ensures EndsNumber(right + ([c] + rest)) && SkipWs(right + ([c] + rest)) == [c] + rest
  {
    var t := [c] + rest;
    SkipAll(right, t);
    if right == "" {
      assert right + t == t;
    } else {
      assert (right + t)[0] == right[0];
      StartIsNoWs(right[0]);
    }
  }

  predicate IsNumber(j: Json) { j.JInt? || j.JFloat? }

  lemma KeywordComplete(v: string, j: Json, rest: string)
    requires IsValue(v, j) && (j.JNull? || j.JBool? || (j.JFloat? && (v == "NaN" || v == "Infinity" || v == "-Infinity")))
    ensures ParseValue(v + rest) == Ok(j, rest)
  {
    hide ParseNumber, ParseString, ParseArray, ParseObject;
    assert (v + rest)[..|v|] == v && (v + rest)[|v|..] == rest && (v + rest)[0] == v[0];
    if v == "-Infinity" {
      assert (v + rest)[1] == 'I';
    }
  }

  lemma NumberValueComplete(v: string, j: Json, rest: string)
    requires IsValue(v, j) && IsNumber(j) && EndsNumber(rest)
    ensures ParseValue(v + rest) == Ok(j, rest)
  {
    hide ParseValue, IsWhole, IsFraction, IsExponent, EndsNumber;
    if j.JInt? {
      var minus, whole := IntegerParts(v, j.n);
      NumberComplete(minus, whole, "", "", rest);
      assert v + rest == minus + (whole + ("" + ("" + rest)));
    } else if IsFloatText(v) {
      var minus, whole, frac, exp :| v == minus + (whole + (frac + exp)) && (minus == "" || minus == "-")
        && IsWhole(whole) && IsFraction(frac) && IsExponent(exp) && frac + exp != "";
      NumberComplete(minus, whole, frac, exp, rest);
      assert v + rest == minus + (whole + (frac + (exp + rest)));
    } else {
      KeywordComplete(v, j, rest);
    }
  }

  lemma QuotedComplete(q: string, s: PyStr, rest: string)
    requires IsQuoted(q, s)
    ensures q + rest != "" && (q + rest)[0] == '"' && ParseString((q + rest)[1..]) == Ok(s, rest)
  {
    hide IsUnits, ParseString, JoinPairs;
    var body := q[1..|q| - 1];
    var us :| IsUnits(body, us) && s == JoinPairs(us);
    StringComplete(body, us, rest);
    assert (q + rest)[1..] == body + ("\"" + rest);
  }

  /** Every spelled-out value is read, whatever follows, unless that continues a number. */
  lemma {:induction false} ValueComplete(v: string, j: Json, rest: string)
    requires IsValue(v, j) && (IsNumber(j) ==> EndsNumber(rest))
    ensures ParseValue(v + rest) == Ok(j, rest)
    decreases j, 1
  {
    match j
    case JNull => KeywordComplete(v, j, rest);
    case JBool(_) => KeywordComplete(v, j, rest);
    case JInt(_) => NumberValueComplete(v, j, rest);
    case JFloat(_) => NumberValueComplete(v, j, rest);
    case JStr(s) =>
      QuotedComplete(v, s, rest);
      QuotedDispatch(v + rest);
    case JArr(items) =>
      var inner := v[1..|v| - 1];
      BracketParts(v, rest, '[', ']');
      if items.End? {
        EmptyBrackets(inner, rest);
      } else {
        ItemsComplete(inner, items, rest);
      }
      ArrayComplete(v + rest, inner, items, rest);
    case JObj(ms) =>
      var inner := v[1..|v| - 1];
      BracketParts(v, rest, '{', '}');
      if ms.Nil? {
        EmptyBrackets(inner, rest);
      } else {
        MembersComplete(inner, ms, rest);
      }
      ObjectComplete(v + rest, inner, ms, rest);
  }

  lemma QuotedDispatch(s: string)
    requires s != "" && s[0] == '"'
    ensures ParseValue(s) == var t := ParseString(s[1..]); if t.Fail? then Fail else Ok(JStr(t.value), t.rest)
  {
    hide ParseString;
  }

  lemma BracketParts(v: string, rest: string, open: char, close: char)
    requires |v| >= 2 && v[0] == open && v[|v| - 1] == close
    ensures (v + rest) != "" && (v + rest)[0] == open && (v + rest)[1..] == v[1..|v| - 1] + ([close] + rest)
  {
  }

  lemma EmptyBrackets(inner: string, rest: string)
    requires AllWs(inner)
    ensures SkipWs(inner + ("]" + rest)) == "]" + rest && SkipWs(inner + ("}" + rest)) == "}" + rest
  {
    SkipAll(inner, "]" + rest);
    SkipAll(inner, "}" + rest);
  }

  lemma ArrayComplete(s: string, inner: string, items: Items, rest: string)
    requires s != "" && s[0] == '[' && s[1..] == inner + ("]" + rest)
    requires items.End? ==> SkipWs(inner + ("]" + rest)) == "]" + rest
    requires items.More? ==> ParseItems(SkipWs(inner + ("]" + rest))) == Ok(items, rest)
    requires items.More? ==> SkipWs(inner + ("]" + rest)) == "" || SkipWs(inner + ("]" + rest))[0] != ']'
    ensures ParseValue(s) == Ok(JArr(items), rest)
  {
    hide ParseItems, ParseMembers, ParseString, ParseNumber, Keyword, SkipWs;
    assert ("]" + rest)[1..] == rest;
  }

  lemma ObjectComplete(s: string, inner: string, ms: Dict<Json>, rest: string)
    requires s != "" && s[0] == '{' && s[1..] == inner + ("}" + rest)
    requires ms.Nil? ==> SkipWs(inner + ("}" + rest)) == "}" + rest
    requires ms.Cons? ==> ParseMembers(SkipWs(inner + ("}" + rest))) == Ok(ms, rest)
    requires ms.Cons? ==> SkipWs(inner + ("}" + rest)) == "" || SkipWs(inner + ("}" + rest))[0] != '}'
    ensures ParseValue(s) == Ok(JObj(ms), rest)
  {
    hide ParseItems, ParseMembers, ParseString, ParseNumber, Keyword, SkipWs;
    assert ("}" + rest)[1..] == rest;
  }

  lemma {:induction false} ItemsComplete(s: string, items: Items, rest: string)
    requires items.More? && IsItems(s, items)
    ensures var t := SkipWs(s + ("]" + rest));
            ParseItems(t) == Ok(items, rest) && (t == "" || t[0] != ']')
    decreases items, 0
  {
    hide IsValue, ParseItems, ParseValue, IsGrammarStart, IsWs, SkipWs;
    var left, v, right, after :| SplitsAs(s, left, v, right, after) && IsValue(v, items.head)
      && if items.rest.End? then after == ""
         else after != "" && after[0] == ',' && IsItems(after[1..], items.rest);
    var tail := if items.rest.End? then "" + ("]" + rest) else after + ("]" + rest);
    var next := after[if after == "" then 0 else 1..] + ("]" + rest);
    ValueStart(v, items.head);
    StartIsNoWs(v[0]);
    if items.rest.End? {
      SeparatorEnds(right, ']', rest);
    } else {
      SeparatorEnds(right, ',', next);
      ItemsComplete(after[1..], items.rest, rest);
    }
    ItemText(s, left, v, right, after, "]" + rest);
    SkipAll(left, v + (right + (after + ("]" + rest))));
    ValueComplete(v, items.head, right + (after + ("]" + rest)));
    NextItem(v + (right + (after + ("]" + rest))), items.head, right + (after + ("]" + rest)));
    assert after == "" ==> after + ("]" + rest) == "]" + rest;
    assert after != "" ==> after + ("]" + rest) == [after[0]] + next;
  }

  lemma ItemText(s: string, left: string, v: string, right: string, after: string, end: string)
    requires SplitsAs(s, left, v, right, after) && v != ""
    ensures s + end == left + (v + (right + (after + end)))
    ensures (v + (right + (after + end))) != "" && (v + (right + (after + end)))[0] == v[0]
  {
  }

  lemma NextItem(s: string, v: Json, w: string)
    requires ParseValue(s) == Ok(v, w)
    ensures SkipWs(w) != "" && SkipWs(w)[0] == ']' ==> ParseItems(s) == Ok(More(v, End), SkipWs(w)[1..])
    ensures SkipWs(w) != "" && SkipWs(w)[0] == ',' ==>
              ParseItems(s) == var u := ParseItems(SkipWs(SkipWs(w)[1..]));
                               if u.Fail? then Fail else Ok(More(v, u.value), u.rest)
  {
    hide ParseValue, SkipWs;
  }

  lemma {:induction false} MembersComplete(s: string, ms: Dict<Json>, rest: string)
    requires ms.Cons? && IsMembers(s, ms)
    ensures var t := SkipWs(s + ("}" + rest));
            ParseMembers(t) == Ok(ms, rest) && (t == "" || t[0] != '}')
    decreases ms, 1
  {
    hide IsMemberValue, IsQuoted, ParseMembers, ParseString, IsWs, SkipWs;
    var end := "}" + rest;
    var left, q, right, colon :| SplitsAs(s, left, q, right, colon) && IsQuoted(q, ms.key)
      && colon != "" && colon[0] == ':' && IsMemberValue(colon[1..], ms);
    QuotedStart(q, ms.key);
    ItemText(s, left, q, right, colon, end);
    SkipAll(left, q + (right + (colon + end)));
    QuotedComplete(q, ms.key, right + (colon + end));
    StartIsNoWs(':');
    assert (colon + end)[0] == ':' && (colon + end)[1..] == colon[1..] + end;
    SkipAll(right, colon + end);
    MemberValueComplete(colon[1..], ms, rest);
    NextMember(q + (right + (colon + end)), ms.key, right + (colon + end));
  }

  lemma QuotedStart(q: string, s: PyStr)
    requires IsQuoted(q, s)
    ensures q != "" && q[0] == '"' && !IsWs('"') && !IsWs(':')
  {
  }

  /** What ParseMembers makes of the text behind a key's colon. */
  function AfterColon(k: PyStr, s: string): Parsed<Dict<Json>> {
    var v := ParseValue(SkipWs(s));
    if v.Fail? then Fail
    else
      var w := SkipWs(v.rest);
      if w == [] then Fail
      else if w[0] == '}' then Ok(Cons(k, v.value, Nil), w[1..])
      else if w[0] != ',' then Fail
      else
        var u := ParseMembers(SkipWs(w[1..]));
        if u.Fail? then Fail else Ok(Cons(k, v.value, u.value), u.rest)
  }

  lemma NextMember(s: string, k: PyStr, t: string)
    requires s != "" && s[0] == '"' && ParseString(s[1..]) == Ok(k, t)
    requires SkipWs(t) != "" && SkipWs(t)[0] == ':'
    ensures ParseMembers(s) == AfterColon(k, SkipWs(t)[1..])
  {
    hide ParseValue, SkipWs, ParseString;
  }

  lemma {:induction false} MemberValueComplete(s: string, ms: Dict<Json>, rest: string)
    requires ms.Cons? && IsMemberValue(s, ms)
    ensures AfterColon(ms.key, s + ("}" + rest)) == Ok(ms, rest)
    decreases ms, 0
  {
    hide IsValue, ParseMembers, ParseValue, IsGrammarStart, IsWs, SkipWs;
    var end := "}" + rest;
    var left, v, right, after :| SplitsAs(s, left, v, right, after) && IsValue(v, ms.value)
      && if ms.tail.Nil? then after == ""
         else after != "" && after[0] == ',' && IsMembers(after[1..], ms.tail);
    var next := after[if after == "" then 0 else 1..] + end;
    ValueStart(v, ms.value);
    StartIsNoWs(v[0]);
    if ms.tail.Nil? {
      SeparatorEnds(right, '}', rest);
    } else {
      SeparatorEnds(right, ',', next);
      MembersComplete(after[1..], ms.tail, rest);
    }
    ItemText(s, left, v, right, after, end);
    SkipAll(left, v + (right + (after + end)));
    ValueComplete(v, ms.value, right + (after + end));
    assert after == "" ==> after + end == end;
    assert after != "" ==> after + end == [after[0]] + next;
  }

  // ------------------------------------------------------- nothing else is read

  lemma {:induction false} ItemsAfterWs(w: string, s: string, items: Items)
    requires AllWs(w) && IsItems(s, items) && items.More?
    ensures IsItems(w + s, items)
  {
    hide IsValue;
    var left, v, right, after :| SplitsAs(s, left, v, right, after) && IsValue(v, items.head)
      && if items.rest.End? then after == ""
         else after != "" && after[0] == ',' && IsItems(after[1..], items.rest);
    assert w + s == (w + left) + (v + (right + after));
    assert SplitsAs(w + s, w + left, v, right, after);
  }

  lemma MembersAfterWs(w: string, s: string, ms: Dict<Json>)
    requires AllWs(w) && IsMembers(s, ms) && ms.Cons?
    ensures IsMembers(w + s, ms)
  {
    hide IsQuoted, IsMemberValue;
    var left, q, right, colon :| SplitsAs(s, left, q, right, colon) && IsQuoted(q, ms.key)
      && colon != "" && colon[0] == ':' && IsMemberValue(colon[1..], ms);
    assert w + s == (w + left) + (q + (right + colon));
    assert SplitsAs(w + s, w + left, q, right, colon);
  }

  lemma ConsItem(left: string, v: string, right: string, j: Json, after: string, items: Items)
    requires AllWs(left) && AllWs(right) && IsValue(v, j)
    requires if items.End? then after == "" else after != "" && after[0] == ',' && IsItems(after[1..], items)
    ensures IsItems(left + (v + (right + after)), More(j, items))
  {
    hide IsValue;
    assert SplitsAs(left + (v + (right + after)), left, v, right, after);
  }

  lemma ConsMemberValue(left: string, v: string, right: string, after: string, ms: Dict<Json>)
    requires ms.Cons? && AllWs(left) && AllWs(right) && IsValue(v, ms.value)
    requires if ms.tail.Nil? then after == "" else after != "" && after[0] == ',' && IsMembers(after[1..], ms.tail)
    ensures IsMemberValue(left + (v + (right + after)), ms)
  {
    hide IsValue, IsMembers;
    assert SplitsAs(left + (v + (right + after)), left, v, right, after);
  }

  lemma ConsMember(q: string, right: string, more: string, ms: Dict<Json>)
    requires ms.Cons? && AllWs(right) && IsQuoted(q, ms.key) && IsMemberValue(more, ms)
    ensures IsMembers(q + (right + (":" + more)), ms)
  {
    hide IsQuoted, IsMemberValue;
    var s, colon := q + (right + (":" + more)), ":" + more;
    assert colon[1..] == more && s == "" + (q + (right + colon));
    assert SplitsAs(s, "", q, right, colon);
  }

  lemma QuotedSound(s: string) returns (q: string)
    requires s != "" && s[0] == '"' && ParseString(s[1..]).Ok?
    ensures s == q + ParseString(s[1..]).rest && IsQuoted(q, ParseString(s[1..]).value)
  {
    hide ParseString, IsUnits, JoinPairs;
    var body, us := StringSound(s[1..]);
    q := "\"" + (body + "\"");
    assert s == "\"" + s[1..];
    assert q[1..|q| - 1] == body;
  }

  lemma NumberSound(s: string) returns (v: string)
    requires ParseNumber(s).Ok?
    ensures s == v + ParseNumber(s).rest && IsValue(v, ParseNumber(s).value)
  {
    hide ParseUnsigned, IsFraction, IsExponent, IsWhole, NumberOf, AllDigits;
    var sign := if s != "" && s[0] == '-' then 1 else 0;
    assert s != "" || sign == 0;
    NumberNeedsText(s, sign);
    var whole, frac, exp := UnsignedSound(s, sign);
    PartsAreNumber(s[..sign], whole, frac, exp);
    v := s[..sign] + (whole + (frac + exp));
    hide IsValue;
  }

  lemma NumberNeedsText(s: string, sign: nat)
    requires sign <= 1 && sign <= |s| && ParseUnsigned(s, sign).Ok?
    ensures s != ""
  {
  }

  lemma KeywordSound(s: string, word: string, j: Json)
    requires word != "" && Keyword(s, word, j).Ok?
    ensures s == word + Keyword(s, word, j).rest && Keyword(s, word, j).value == j
  {
  }

  /** Whatever is read as a value is spelled as one. */
  lemma {:induction false} ValueSound(s: string) returns (v: string)
    requires ParseValue(s).Ok?
    ensures s == v + ParseValue(s).rest && IsValue(v, ParseValue(s).value)
    decreases |s|, 2
  {
    hide ParseString, ParseArray, ParseObject, ParseNumber, Keyword, IsQuoted, IsItems, IsMembers, IsFloatText, IsIntegerText;
    if s[0] == '"' {
      v := QuotedSound(s);
    } else if s[0] == '{' {
      v := ObjectSound(s);
    } else if s[0] == '[' {
      v := ArraySound(s);
    } else if s[0] == 'n' {
      KeywordSound(s, "null", JNull);
      v := "null";
    } else if s[0] == 't' {
      KeywordSound(s, "true", JBool(true));
      v := "true";
    } else if s[0] == 'f' {
      KeywordSound(s, "false", JBool(false));
      v := "false";
    } else if s[0] == 'N' {
      KeywordSound(s, "NaN", JFloat("NaN"));
      v := "NaN";
    } else if s[0] == 'I' {
      KeywordSound(s, "Infinity", JFloat("Infinity"));
      v := "Infinity";
    } else if "-I" <= s {
      KeywordSound(s, "-Infinity", JFloat("-Infinity"));
      v := "-Infinity";
    } else {
      v := NumberSound(s);
    }
  }

  lemma Bracketed(open: char, inner: string, close: char, rest: string)
    ensures var v := [open] + (inner + [close]);
            && |v| >= 2 && v[0] == open && v[|v| - 1] == close && v[1..|v| - 1] == inner
            && v + rest == [open] + (inner + ([close] + rest))
  {
  }

  lemma {:induction false} ArraySound(s: string) returns (v: string)
    requires s != "" && s[0] == '[' && ParseArray(SkipWs(s[1..])).Ok?
    ensures var r := ParseArray(SkipWs(s[1..])); s == v + r.rest && IsValue(v, r.value)
    decreases |s|, 1
  {
    hide ParseItems, SkipWs, IsItems;
    var w := Skipped(s[1..]);
    var t := SkipWs(s[1..]);
    var r := ParseArray(t);
    assert s == "[" + s[1..];
    if t != "" && t[0] == ']' {
      Bracketed('[', w, ']', r.rest);
      EmptyItems(w);
      v := "[" + (w + "]");
      assert t == "]" + t[1..];
    } else {
      var inner := ItemsSound(t);
      ItemsAfterWs(w, inner, ParseItems(t).value);
      Bracketed('[', w + inner, ']', r.rest);
      v := "[" + ((w + inner) + "]");
      assert w + (inner + ("]" + r.rest)) == (w + inner) + ("]" + r.rest);
    }
  }

  lemma EmptyItems(w: string)
    requires AllWs(w)
    ensures IsItems(w, End) && IsMembers(w, Nil)
  {
  }

  lemma {:induction false} ObjectSound(s: string) returns (v: string)
    requires s != "" && s[0] == '{' && ParseObject(SkipWs(s[1..])).Ok?
    ensures var r := ParseObject(SkipWs(s[1..])); s == v + r.rest && IsValue(v, r.value)
    decreases |s|, 1
  {
    hide ParseMembers, SkipWs, IsMembers;
    var w := Skipped(s[1..]);
    var t := SkipWs(s[1..]);
    var r := ParseObject(t);
    assert s == "{" + s[1..];
    if t != "" && t[0] == '}' {
      Bracketed('{', w, '}', r.rest);
      EmptyItems(w);
      v := "{" + (w + "}");
      assert t == "}" + t[1..];
    } else {
      var inner := MembersSound(t);
      MembersAfterWs(w, inner, ParseMembers(t).value);
      Bracketed('{', w + inner, '}', r.rest);
      v := "{" + ((w + inner) + "}");
      assert w + (inner + ("}" + r.rest)) == (w + inner) + ("}" + r.rest);
    }
  }

  lemma {:induction false} ItemsSound(s: string) returns (inner: string)
    requires ParseItems(s).Ok?
    ensures var r := ParseItems(s); r.value.More? && s == inner + ("]" + r.rest) && IsItems(inner, r.value)
    decreases |s|, 3
  {
    hide ParseValue, SkipWs, IsValue, IsItems;
    var r := ParseItems(s);
    var v := ValueSound(s);
    var j := ParseValue(s);
    var right := Skipped(j.rest);
    var t := SkipWs(j.rest);
    assert t == [t[0]] + t[1..];
    if t[0] == ']' {
      ConsItem("", v, right, j.value, "", End);
      inner := "" + (v + (right + ""));
      assert s == inner + ("]" + r.rest);
    } else {
      var w := Skipped(t[1..]);
      var u := SkipWs(t[1..]);
      var more := ItemsSound(u);
      ItemsAfterWs(w, more, ParseItems(u).value);
      var after := "," + (w + more);
      assert after[1..] == w + more;
      ConsItem("", v, right, j.value, after, ParseItems(u).value);
      inner := "" + (v + (right + after));
      assert t == "," + (w + (more + ("]" + r.rest)));
      Reglue(v, right, w, more, "]" + r.rest);
    }
  }

  lemma Reglue(v: string, right: string, w: string, more: string, end: string)
    ensures v + (right + ("," + (w + (more + end)))) == ("" + (v + (right + ("," + (w + more))))) + end
  {
  }

  lemma {:induction false} MembersSound(s: string) returns (inner: string)
    requires ParseMembers(s).Ok?
    ensures var r := ParseMembers(s); r.value.Cons? && s == inner + ("}" + r.rest) && IsMembers(inner, r.value)
    decreases |s|, 3
  {
    hide ParseValue, ParseString, SkipWs, IsMembers, IsMemberValue, IsQuoted;
    var r := ParseMembers(s);
    var q := QuotedSound(s);
    var k := ParseString(s[1..]);
    var right := Skipped(k.rest);
    var t := SkipWs(k.rest);
    assert t == ":" + t[1..];
    NextMember(s, k.value, k.rest);
    var more := AfterColonSound(k.value, t[1..]);
    ConsMember(q, right, more, r.value);
    inner := q + (right + (":" + more));
    assert s == inner + ("}" + r.rest);
  }

  lemma {:induction false} AfterColonSound(k: PyStr, s: string) returns (inner: string)
    requires AfterColon(k, s).Ok?
    ensures var r := AfterColon(k, s);
            r.value.Cons? && r.value.key == k && s == inner + ("}" + r.rest) && IsMemberValue(inner, r.value)
    decreases |s|, 4
  {
    hide ParseValue, ParseMembers, SkipWs, IsMembers, IsMemberValue, IsValue;
    var r := AfterColon(k, s);
    var left := Skipped(s);
    var x := SkipWs(s);
    var v := ValueSound(x);
    var j := ParseValue(x);
    var right := Skipped(j.rest);
    var t := SkipWs(j.rest);
    assert t == [t[0]] + t[1..];
    if t[0] == '}' {
      ConsMemberValue(left, v, right, "", r.value);
      inner := left + (v + (right + ""));
      assert s == inner + ("}" + r.rest);
    } else {
      var w := Skipped(t[1..]);
      var u := SkipWs(t[1..]);
      var more := MembersSound(u);
      MembersAfterWs(w, more, ParseMembers(u).value);
      var after := "," + (w + more);
      assert after[1..] == w + more;
      ConsMemberValue(left, v, right, after, r.value);
      inner := left + (v + (right + after));
      assert t == "," + (w + (more + ("}" + r.rest)));
      Reglue(v, right, w, more, "}" + r.rest);
      assert s == left + (v + (right + ("," + (w + (more + ("}" + r.rest))))));
    }
  }

  // ---------------------------------------------------------------- whole texts

  /** The parser accepts exactly the JSON texts, and reads each as its value. */
  lemma DocumentExact(s: string, j: Json)
    ensures ParseDocument(s) == Some(j) <==> IsText(s, j)
  {
    hide ParseValue, IsValue, SkipWs;
    if ParseDocument(s) == Some(j) {
      var left := Skipped(s);
      var v := ValueSound(SkipWs(s));
      var right := Skipped(ParseValue(SkipWs(s)).rest);
      assert SplitsAs(s, left, v, right, "");
    }
    if left, v, right :| SplitsAs(s, left, v, right, "") && IsValue(v, j) {
      ValueStart(v, j);
      StartIsNoWs(v[0]);
      assert right + "" == right && (v + right)[0] == v[0];
      SkipAll(left, v + right);
      WsEnds(right);
      ValueComplete(v, j, right);
    }
  }

  lemma WsEnds(w: string)
    requires AllWs(w)
    ensures EndsNumber(w) && SkipWs(w) == ""
  {
    SkipAll(w, "");
    assert w + "" == w;
    if w != "" {
      StartIsNoWs(w[0]);
    }
  }
}
