/** The written text itself, character by character: separators, escapes, layout. */
module JsonWriter {
  import opened Text
  import opened Dicts
  import opened JsonValues
  import opened JsonText
  import opened JsonRoundTrip
  import opened JsonGrammar

  // --------------------------------------------------------------------- layout

  function ItemTexts(items: Items, st: Style): seq<string>
    requires PrintableItems(items)
    decreases items
  {
    if items.End? then [] else [Write(items.head, st)] + ItemTexts(items.rest, st)
  }

  function MemberTexts(ms: Dict<Json>, st: Style): seq<string>
    requires PrintableMembers(ms)
    decreases ms
  {
    if ms.Nil? then []
    else [Quote(ms.key) + ((if st.Compact? then ":" else ": ") + Write(ms.value, st))] + MemberTexts(ms.tail, st)
  }

  lemma {:induction false} ItemsAreJoined(items: Items, st: Style)
    requires PrintableItems(items)
    ensures WriteItems(items, st) == Join(ItemTexts(items, st), if st.Compact? then "," else ", ")
    decreases items
  {
    hide Write;
    if items.More? && items.rest.More? {
      ItemsAreJoined(items.rest, st);
      var h, more := Write(items.head, st), ItemTexts(items.rest, st);
      assert more != [] && ([h] + more)[1..] == more;
      Separators(st);
    } else if items.More? {
      assert ItemTexts(items.rest, st) == [];
    }
  }

  lemma Separators(st: Style)
    ensures ItemSeparator(st) == if st.Compact? then "," else ", "
    ensures KeySeparator(st) == if st.Compact? then ":" else ": "
  {
  }

  lemma {:induction false} MembersAreJoined(ms: Dict<Json>, st: Style)
    requires PrintableMembers(ms)
    ensures WriteMembers(ms, st) == Join(MemberTexts(ms, st), if st.Compact? then "," else ", ")
    decreases ms
  {
    hide Write, Quote;
    Separators(st);
    hide ItemSeparator, KeySeparator;
    if ms.Cons? && ms.tail.Cons? {
      MembersAreJoined(ms.tail, st);
      var more := MemberTexts(ms.tail, st);
      var all := MemberTexts(ms, st);
      assert more != [] && all[1..] == more;
    } else if ms.Cons? {
      assert MemberTexts(ms.tail, st) == [];
    }
  }

  /** Lists and dictionaries are their parts between brackets: in the hashed text with
      "," and ":" between them, in the journal with one space behind each. */
  lemma LayoutExact(items: Items, ms: Dict<Json>, st: Style)
    requires PrintableItems(items) && PrintableMembers(ms)
    ensures Write(JArr(items), st) == "[" + (Join(ItemTexts(items, st), if st.Compact? then "," else ", ") + "]")
    ensures Write(JObj(ms), st) == "{" + (Join(MemberTexts(ms, st), if st.Compact? then "," else ", ") + "}")
  {
    hide WriteItems, WriteMembers, ItemTexts, MemberTexts;
    ItemsAreJoined(items, st);
    MembersAreJoined(ms, st);
  }

  // --------------------------------------------------------------------- escapes

  predicate IsAscii(s: string) { forall i :: 0 <= i < |s| ==> ' ' <= s[i] <= '~' }

  predicate NoCapitalHex(s: string) { forall i :: 0 <= i < |s| ==> !('A' <= s[i] <= 'F') }

  lemma HexCharIsLower(n: nat)
    requires n < 16
    ensures ' ' <= HexChar(n) <= '~' && !('A' <= HexChar(n) <= 'F')
  {
  }

  lemma UnitIsPiece(n: nat)
    requires n < 0x1_0000
    ensures IsUnitPiece(EscapeUnit(n), n) && IsAscii(EscapeUnit(n)) && NoCapitalHex(EscapeUnit(n))
  {
    UnitRoundTrip(n, "");
    assert EscapeUnit(n) + "" == EscapeUnit(n);
    UnitOfPiece(EscapeUnit(n), "");
    hide UnitAt, IsUnitPiece;
    HexCharIsLower(n / 0x1000);
    HexCharIsLower(n / 0x100 % 16);
    HexCharIsLower(n / 0x10 % 16);
    HexCharIsLower(n % 16);
    hide HexChar;
  }

  /** A code point of the basic plane is written as the shortest ASCII spelling it has,
      with digits in lower case; any other one as its two surrogates. */
  lemma EscapeExact(c: int, piece: string)
    requires IsCode(c)
    ensures c < 0x1_0000 ==>
              && IsPiece(EscapeCode(c), c) && IsAscii(EscapeCode(c))
              && (|EscapeCode(c)| == 6 ==> NoCapitalHex(EscapeCode(c)))
              && (IsPiece(piece, c) && IsAscii(piece) ==> |EscapeCode(c)| <= |piece|)
    ensures c >= 0x1_0000 ==>
              exists hi, lo :: IsHigh(hi) && IsLow(lo) && JoinPair(hi, lo) == c && EscapeCode(c) == EscapeCode(hi) + EscapeCode(lo)
  {
    hide IsPiece, IsAscii, NoCapitalHex, JoinPair, EscapeUnit;
    if c >= 0x1_0000 {
      var hi, lo := 0xD800 + (c - 0x1_0000) / 0x400, 0xDC00 + (c - 0x1_0000) % 0x400;
      AstralUnits(c);
      SurrogateEscapes(hi);
      SurrogateEscapes(lo);
      assert EscapeCode(c) == EscapeCode(hi) + EscapeCode(lo);
    } else {
      EscapeIsPiece(c);
      if IsPiece(piece, c) && IsAscii(piece) {
        ShorterPieces(c, piece);
      }
      hide EscapeCode, IsPiece, IsAscii;
    }
  }

  lemma EscapeIsPiece(c: int)
    requires 0 <= c < 0x1_0000
    ensures IsPiece(EscapeCode(c), c) && IsAscii(EscapeCode(c))
    ensures |EscapeCode(c)| == 6 ==> NoCapitalHex(EscapeCode(c))
  {
    UnitIsPiece(c);
    hide EscapeUnit, IsUnitPiece;
  }

  lemma ShorterPieces(c: int, piece: string)
    requires 0 <= c < 0x1_0000 && IsPiece(piece, c) && IsAscii(piece)
    ensures |EscapeCode(c)| <= |piece|
  {
    UnitRoundTrip(c, "");
    hide EscapeUnit, IsUnitPiece;
    assert IsUnitPiece(piece, c) ==> |piece| == 6 by {
      hide IsHex, HexDigitValue;
      assert IsUnitPiece(piece, c) ==> |piece| == 6;
    }
  }

  predicate IsPlainText(s: string) {
    forall i :: 0 <= i < |s| ==> ' ' <= s[i] <= '~' && s[i] != '"' && s[i] != '\\'
  }

  /** Plain text is written as it is. */
  lemma PlainQuoted(s: string)
    requires IsPlainText(s)
    ensures IsPyStr(Codes(s)) && Quote(Codes(s)) == "\"" + (s + "\"")
  {
    PlainEscaped(s);
  }

  lemma {:induction false} PlainEscaped(s: string)
    requires IsPlainText(s)
    ensures IsPyStr(Codes(s)) && Escape(Codes(s)) == s
  {
    if s != "" {
      PlainEscaped(s[1..]);
      assert Codes(s)[1..] == Codes(s[1..]) && Codes(s)[0] == s[0] as int;
      assert EscapeCode(Codes(s)[0]) == [s[0]];
      assert s == [s[0]] + s[1..];
    }
  }
}
