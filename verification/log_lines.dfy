/** Exactly which log lines are read as a firmware failure, and as which one. */
module LogLines {
  import opened Text
  import opened JsonText
  import opened JsonRoundTrip
  import opened Diagnosing

  /** -?[0-9]+ */
  predicate IsNumberText(t: string) {
    var digits := if t != "" && t[0] == '-' then t[1..] else t;
    digits != "" && All(digits, IsDigit)
  }

  function NumberValue(t: string): int
    requires IsNumberText(t)
  {
    if t[0] == '-' then -(DecimalOf(t[1..]) as int) else DecimalOf(t)
  }

  lemma PrintedNumber(n: int)
    ensures IsNumberText(IntText(n)) && NumberValue(IntText(n)) == n
  {
    var m := if n < 0 then -n else n;
    DigitsAsAll(Decimal(m));
    DecimalRoundTrip(m);
    hide Decimal, DecimalValue;
    assert n < 0 ==> IntText(n)[1..] == Decimal(m);
    assert n >= 0 ==> IntText(n)[0] == Decimal(m)[0] && IsDigit(IntText(n)[0]);
  }

  lemma UnsignedRecovered(digits: string, post: string)
    requires digits != "" && All(digits, IsDigit) && (post == "" || !IsDigit(post[0]))
    ensures UnsignedNumber(digits + post) == Some(DecimalOf(digits))
  {
    SpanUnique(digits, post, IsDigit);
    hide Span, DecimalValue;
    assert (digits + post)[..|digits|] == digits;
  }

  lemma SignedRecovered(num: string, post: string)
    requires IsNumberText(num) && (post == "" || !IsDigit(post[0]))
    ensures SignedNumber(num + post) == Some(NumberValue(num))
  {
    hide UnsignedNumber, DecimalOf;
    var t := num + post;
    assert t[0] == num[0];
    if num[0] == '-' {
      UnsignedRecovered(num[1..], post);
      assert t[1..] == num[1..] + post;
    } else {
      UnsignedRecovered(num, post);
    }
  }

  /** And nothing else is read as a number: what was read stands at the start. */
  lemma NumberIsSpelled(t: string) returns (num: string, post: string)
    requires SignedNumber(t).Some?
    ensures t == num + post && IsNumberText(num) && SignedNumber(t) == Some(NumberValue(num))
    ensures post == "" || !IsDigit(post[0])
  {
    SignedNeedsDigits(t);
    hide *;
    var digits;
    if t[0] == '-' {
      digits, post := DigitsAreSpelled(t[1..]);
      num := "-" + digits;
      SplitMinus(t, digits, post);
    } else {
      digits, post := DigitsAreSpelled(t);
      num := digits;
    }
    NumberTexts(digits);
    SignedRecovered(num, post);
  }

  lemma SplitMinus(t: string, digits: string, post: string)
    requires t != "" && t[0] == '-' && t[1..] == digits + post
    ensures t == "-" + digits + post
  {
    assert t == [t[0]] + t[1..];
  }

  lemma SignedNeedsDigits(t: string)
    requires SignedNumber(t).Some?
    ensures t != "" && UnsignedNumber(if t[0] == '-' then t[1..] else t).Some?
  {
  }

  lemma NumberTexts(digits: string)
    requires digits != "" && All(digits, IsDigit)
    ensures IsNumberText(digits) && NumberValue(digits) == DecimalOf(digits)
    ensures IsNumberText("-" + digits) && NumberValue("-" + digits) == -(DecimalOf(digits) as int)
  {
    hide DecimalValue;
    assert IsDigit(digits[0]);
    assert ("-" + digits)[1..] == digits;
  }

  lemma DigitsAreSpelled(s: string) returns (digits: string, post: string)
    requires UnsignedNumber(s).Some?
    ensures s == digits + post && digits != "" && All(digits, IsDigit) && (post == "" || !IsDigit(post[0]))
    ensures UnsignedNumber(s) == Some(DecimalOf(digits))
  {
    hide DecimalValue;
    var n := Span(s, IsDigit);
    digits, post := s[..n], s[n..];
    hide Span;
  }

  lemma TailRecovered(name: string, num: string, post: string)
    requires IsNumberText(num) && (post == "" || !IsDigit(post[0]))
    ensures TailAt(name + (FailureTail() + (num + post)), |name|) == Some(NumberValue(num))
  {
    SignedRecovered(num, post);
    hide FailureTail, SignedNumber, IsNumberText;
    var t := num + post;
    var s := name + (FailureTail() + t);
    assert s[|name|..] == FailureTail() + t;
    assert (FailureTail() + t)[|FailureTail()|..] == t;
  }

  lemma {:induction false} FindTailAt(s: string, j: nat, k: nat, err: int)
    requires 1 <= j <= k <= |s| && TailAt(s, k) == Some(err)
    requires forall i :: j <= i < k ==> TailAt(s, i) == None
    requires '\n' !in s[..k]
    ensures FindTail(s, j) == Some((k, err))
    decreases k - j
  {
    hide TailAt;
    assert s[j - 1] == s[..k][j - 1];
    if j < k {
      FindTailAt(s, j + 1, k, err);
    }
  }

  lemma {:induction false} FoundTail(s: string, j: nat)
    requires 1 <= j && FindTail(s, j).Some? && (j <= |s| ==> '\n' !in s[..j - 1])
    ensures var (k, err) := FindTail(s, j).value;
            && j <= k <= |s| && TailAt(s, k) == Some(err) && '\n' !in s[..k]
            && forall i :: j <= i < k ==> TailAt(s, i) == None
    decreases |s| + 1 - j
  {
    hide TailAt;
    assert s[..j] == s[..j - 1] + [s[j - 1]];
    if TailAt(s, j).None? {
      FoundTail(s, j + 1);
    }
  }

  lemma {:induction false} FailureFromAt(line: string, i: nat, k: nat)
    requires i <= k < |line| && MatchAt(line, k).Some?
    requires forall p :: i <= p < k ==> MatchAt(line, p) == None
    ensures FailureFrom(line, i) == MatchAt(line, k)
    decreases k - i
  {
    hide MatchAt;
    if i < k {
      FailureFromAt(line, i + 1, k);
    }
  }

  lemma {:induction false} FoundFailure(line: string, i: nat) returns (k: nat)
    requires FailureFrom(line, i).Some?
    ensures i <= k < |line| && FailureFrom(line, i) == MatchAt(line, k)
    ensures forall p :: i <= p < k ==> MatchAt(line, p) == None
    decreases |line| - i
  {
    hide MatchAt;
    if MatchAt(line, i).Some? {
      k := i;
    } else {
      k := FoundFailure(line, i + 1);
    }
  }

  /** The failure message for a name and a number, spelled out, and how it stands in a
      line: nothing matches before it, and its name is as short as it can be. */
  function Message(name: string, num: string, post: string): string {
    FailureMark() + (name + (FailureTail() + (num + post)))
  }

  /** The two messages in the kernel's own words. */
  lemma MessageText(name: string, num: string, post: string, t: string)
    ensures Message(name, num, post) == "Direct firmware load for " + (name + (" failed with error " + (num + post)))
    ensures StartsTail(t) <==> exists num, post :: IsNumberText(num) && t == " failed with error " + (num + post)
  {
    hide IsNumberText;
  }

  /** An error tail begins the text. */
  ghost predicate StartsTail(t: string) {
    exists num, post :: IsNumberText(num) && t == FailureTail() + (num + post)
  }

  /** Some failure message begins the text. */
  ghost predicate StartsMessage(t: string) {
    exists name, num, post :: name != "" && '\n' !in name && IsNumberText(num) && t == Message(name, num, post)
  }

  ghost predicate IsMessageIn(line: string, pre: string, name: string, num: string, post: string) {
    && line == pre + Message(name, num, post)
    && name != "" && '\n' !in name && IsNumberText(num) && (post == "" || !IsDigit(post[0]))
    && (forall j :: 1 <= j < |name| ==> !StartsTail((name + (FailureTail() + (num + post)))[j..]))
    && (forall i :: 0 <= i < |pre| ==> !StartsMessage(line[i..]))
  }

  lemma TailStarts(s: string, k: nat)
    requires k <= |s|
    ensures TailAt(s, k).Some? <==> StartsTail(s[k..])
  {
    if TailAt(s, k).Some? {
      var num, post := TailIsSpelled(s, k);
    }
    if num, post :| IsNumberText(num) && s[k..] == FailureTail() + (num + post) {
      hide FailureTail, SignedNumber;
      assert s[k..][|FailureTail()|..] == num + post;
      NumberStarts(num, post);
    }
  }

  lemma NumberStarts(num: string, post: string)
    requires IsNumberText(num)
    ensures SignedNumber(num + post).Some?
  {
    var t := num + post;
    assert t[0] == num[0];
    if num[0] == '-' {
      assert t[1..] == num[1..] + post;
      assert IsDigit(t[1..][0]);
    } else {
      assert IsDigit(t[0]);
    }
  }

  lemma {:induction false} FindTailExists(s: string, j: nat, k: nat)
    requires 1 <= j <= k <= |s| && TailAt(s, k).Some? && '\n' !in s[..k]
    ensures FindTail(s, j).Some?
    decreases k - j
  {
    hide TailAt;
    assert s[j - 1] == s[..k][j - 1];
    if TailAt(s, j).None? {
      FindTailExists(s, j + 1, k);
    }
  }

  lemma MessageStarts(line: string, k: nat)
    requires k < |line|
    ensures MatchAt(line, k).Some? <==> StartsMessage(line[k..])
  {
    hide TailAt, FindTail, IsNumberText, FailureMark, FailureTail;
    if MatchAt(line, k).Some? {
      var name, num, post := MatchIsMessage(line, k);
    }
    if name, num, post :| name != "" && '\n' !in name && IsNumberText(num) && line[k..] == Message(name, num, post) {
      var s := name + (FailureTail() + (num + post));
      assert line[k..][|FailureMark()|..] == s;
      assert s[|name|..] == FailureTail() + (num + post) && s[..|name|] == name;
      TailStarts(s, |name|);
      FindTailExists(s, 1, |name|);
    }
  }

  lemma MessageMatches(pre: string, name: string, num: string, post: string)
    requires name != "" && '\n' !in name && IsNumberText(num) && (post == "" || !IsDigit(post[0]))
    requires forall j :: 1 <= j < |name| ==> TailAt(name + (FailureTail() + (num + post)), j) == None
    ensures |pre| < |pre + Message(name, num, post)|
    ensures MatchAt(pre + Message(name, num, post), |pre|) == Some((name, NumberValue(num)))
  {
    TailRecovered(name, num, post);
    hide FailureTail, TailAt, FindTail, IsNumberText, NumberValue;
    var s := name + (FailureTail() + (num + post));
    var line := pre + (FailureMark() + s);
    assert s[..|name|] == name;
    FindTailAt(s, 1, |name|, NumberValue(num));
    assert FailureMark() != "";
    hide FailureMark;
    assert line[|pre|..] == FailureMark() + s;
    assert (FailureMark() + s)[|FailureMark()|..] == s;
  }

  lemma MatchIsMessage(line: string, k: nat) returns (name: string, num: string, post: string)
    requires k < |line| && MatchAt(line, k).Some?
    ensures name != "" && '\n' !in name && IsNumberText(num) && (post == "" || !IsDigit(post[0]))
    ensures line[k..] == Message(name, num, post) && MatchAt(line, k) == Some((name, NumberValue(num)))
    ensures forall j :: 1 <= j < |name| ==> TailAt(name + (FailureTail() + (num + post)), j) == None
  {
    hide TailAt, FindTail, IsNumberText, FailureMark;
    var s := line[k..][|FailureMark()|..];
    FoundTail(s, 1);
    var n := FindTail(s, 1).value.0;
    name := s[..n];
    num, post := TailIsSpelled(s, n);
    assert s == name + s[n..];
  }

  lemma TailIsSpelled(s: string, n: nat) returns (num: string, post: string)
    requires n <= |s| && TailAt(s, n).Some?
    ensures s[n..] == FailureTail() + (num + post) && IsNumberText(num) && (post == "" || !IsDigit(post[0]))
    ensures TailAt(s, n) == Some(NumberValue(num))
  {
    hide FailureTail, SignedNumber, IsNumberText, NumberValue;
    num, post := NumberIsSpelled(s[n..][|FailureTail()|..]);
  }

  /** What a log line is read as: a name and an error number exactly when their message
      stands in it, leftmost and with the shortest name. */
  lemma LogLineNamesFile(line: string, name: string, err: int)
    ensures LineFailures(line) == [(name, err)] <==>
              exists pre, num, post :: IsMessageIn(line, pre, name, num, post) && NumberValue(num) == err
  {
    hide MatchAt, Message, FailureFrom, TailAt, IsNumberText, NumberValue, StartsTail, StartsMessage, FailureTail;
    if LineFailures(line) == [(name, err)] {
      var pre, num, post := ReadIsMessage(line, name, err);
    }
    if pre, num, post :| IsMessageIn(line, pre, name, num, post) && NumberValue(num) == err {
      MessageIsRead(line, pre, name, num, post);
    }
  }

  lemma ReadIsMessage(line: string, name: string, err: int) returns (pre: string, num: string, post: string)
    requires FailureFrom(line, 0) == Some((name, err))
    ensures IsMessageIn(line, pre, name, num, post) && NumberValue(num) == err
  {
    hide MatchAt, Message, FailureFrom, TailAt, IsNumberText, NumberValue, StartsTail, StartsMessage, FailureTail;
    var k := FoundFailure(line, 0);
    var n;
    n, num, post := MatchIsMessage(line, k);
    pre := line[..k];
    assert line == pre + line[k..];
    var s := name + (FailureTail() + (num + post));
    forall j | 1 <= j < |name|
      ensures !StartsTail(s[j..])
    {
      TailStarts(s, j);
    }
    forall i | 0 <= i < |pre|
      ensures !StartsMessage(line[i..])
    {
      MessageStarts(line, i);
    }
  }

  lemma MessageIsRead(line: string, pre: string, name: string, num: string, post: string)
    requires IsMessageIn(line, pre, name, num, post)
    ensures LineFailures(line) == [(name, NumberValue(num))]
  {
    hide MatchAt, Message, FailureFrom, TailAt, IsNumberText, NumberValue, StartsTail, StartsMessage, FailureTail;
    var s := name + (FailureTail() + (num + post));
    forall j | 1 <= j < |name|
      ensures TailAt(s, j) == None
    {
      TailStarts(s, j);
    }
    MessageMatches(pre, name, num, post);
    forall i | 0 <= i < |pre|
      ensures MatchAt(line, i) == None
    {
      MessageStarts(line, i);
    }
    FailureFromAt(line, 0, |pre|);
  }

  /** In particular what the kernel prints, for any error number. */
  lemma PrintedFailureIsRead(line: string, pre: string, name: string, err: int, post: string)
    requires IsMessageIn(line, pre, name, IntText(err), post)
    ensures LineFailures(line) == [(name, err)]
  {
    PrintedNumber(err);
    hide IsMessageIn, LineFailures, IsNumberText, NumberValue, IntText;
    LogLineNamesFile(line, name, err);
  }
}
