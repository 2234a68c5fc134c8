/** What an error of the JSON parser says about the text: each kind of error is given
  * only for a fault of that kind, at the place of the fault. */
module JsonErrors {
  import opened Json
  import opened JsonSyntax

  /** A character, with what follows it, that no string can hold. */
  predicate Unspellable(rest: string) {
    && rest != []
    && (|| rest[0] < 0x20 as char || rest[0] == 0x7F as char
        || (rest[0] == '\\' && (|rest| == 1 || !IsLetter(rest[1]))))
  }

  /** From i on there are only characters of a string, and then `rest`. */
  ghost predicate SpelledUpTo(t: Text, i: nat, rest: string) {
    exists s :: SpelledOk(s) && NoDel(s) && i <= |t| && t[i..] == SpelledText(s) + rest
  }

  ghost predicate SpelledThenBad(t: Text, i: nat) {
    exists rest :: Unspellable(rest) && SpelledUpTo(t, i, rest)
  }

  /** The comma at i has only white space between it and a closing bracket or brace. */
  ghost predicate CommaBeforeClosing(t: Text, i: nat) {
    && i < |t| && t[i] == ','
    && exists k :: i < k < |t| && AllSpace(t[i + 1..k]) && t[k] in [']', '}']
  }

  predicate AfterLiteral(c: char) { IsSpace(c) || c in [',', ']', '}', NUL] }

  predicate LiteralSits(t: Text, i: nat, literal: string) {
    Sits(t, i, literal) && AfterLiteral(At(t, i + |literal|))
  }

  predicate NoLiteral(t: Text, i: nat) {
    !LiteralSits(t, i, "true") && !LiteralSits(t, i, "false") && !LiteralSits(t, i, "null")
  }

  ghost predicate Diagnosed(t: Text, e: Err) {
    && e.index <= |t|
    && (e.expected != NUL ==> e.ty == UnexpectedChar)
    && var c := At(t, e.index);
       match e.ty
       case InvalidString => c == '"' && SpelledThenBad(t, e.index + 1)
       case MissingClosing => c == '"' && SpelledUpTo(t, e.index + 1, [])
       case InvalidNumber => IsNumeral(c) || c == '-' || c == '+'
       case TrailingComma => CommaBeforeClosing(t, e.index)
       case UnexpectedChar =>
         && e.expected in [',', ':', NUL] && (c == NUL ==> e.expected == ':')
         && (e.expected != NUL ==> c != e.expected && !IsSpace(c))
       case UnexpectedEof => e.index == |t|
       case ExpectedTruthy => c in ['t', 'f', 'n'] && NoLiteral(t, e.index)
       case ExpectedValue => c != '"'
  }

  // ---- strings ---------------------------------------------------------------------------

  lemma {:induction false} OneMoreSpelled(c: Spelling, s: seq<Spelling>)
    requires SpellingOk(c) && c != Plain(127 as char) && SpelledOk(s) && NoDel(s)
    ensures SpelledOk([c] + s) && NoDel([c] + s) && SpelledText([c] + s) == SpellingText(c) + SpelledText(s)
  {
    hide SpellingText, SpellingOk;
    assert ([c] + s)[1..] == s;
  }

  /** The scan goes on exactly over a character of a string. */
  lemma {:induction false} ScanStep(t: Text, i: nat) returns (c: Spelling)
    requires i < |t| && !Chars(t, i).Closed? && !Unspellable(t[i..])
    ensures SpellingOk(c) && c != Plain(127 as char)
    ensures var n := i + |SpellingText(c)|;
            i < n <= |t| && t[i..] == SpellingText(c) + t[n..] && !Chars(t, n).Closed? &&
            Chars(t, i).Open? == Chars(t, n).Open?
  {
    c := if t[i] == '\\' then Escape(t[i + 1]) else Plain(t[i]);
    assert t[i..][0] == t[i];
    assert t[i] == '\\' ==> t[i..][1] == t[i + 1];
  }

  lemma {:induction false} BadStops(t: Text, i: nat)
    requires i < |t| && Unspellable(t[i..])
    ensures Chars(t, i) == Invalid
  {
    assert t[i..][0] == t[i];
    assert |t[i..]| > 1 ==> t[i..][1] == t[i + 1];
  }

  /** A scan that does not reach a closing quote went over characters of a string. */
  lemma {:induction false} ScanStops(t: Text, i: nat) returns (s: seq<Spelling>, rest: string)
    requires i <= |t| && !Chars(t, i).Closed?
    ensures SpelledOk(s) && NoDel(s) && t[i..] == SpelledText(s) + rest
    ensures if Chars(t, i).Open? then rest == [] else Unspellable(rest)
    decreases |t| - i
  {
    s, rest := [], t[i..];
    if i == |t| {
    } else if Unspellable(t[i..]) {
      BadStops(t, i);
    } else {
      hide Chars, SpellingOk, SpellingText, SpelledText, SpelledOk, NoDel;
      var c := ScanStep(t, i);
      s, rest := ScanStops(t, i + |SpellingText(c)|);
      OneMoreSpelled(c, s);
      s := [c] + s;
    }
  }

  lemma {:induction false} StringFails(t: Text, open: nat)
    requires At(t, open) == '"' && StringAt(t, open).Fail?
    ensures Diagnosed(t, StringAt(t, open).err)
  {
    hide Chars, SpelledOk, SpelledText, NoDel, Unspellable;
    var s, rest := ScanStops(t, open + 1);
    assert SpelledUpTo(t, open + 1, rest);
  }

  // ---- the other errors -------------------------------------------------------------------

  lemma {:induction false} SkippedSpace(t: Text, i: nat)
    requires i <= |t|
    ensures AllSpace(t[i..SkipWhitespace(t, i)]) && !IsSpace(At(t, SkipWhitespace(t, i)))
    decreases |t| - i
  {
    if IsWhitespace(At(t, i)) {
      SkippedSpace(t, i + 1);
      assert t[i..SkipWhitespace(t, i)] == [t[i]] + t[i + 1..SkipWhitespace(t, i)];
    }
  }

  lemma {:induction false} NextFails(t: Text, i: nat, terminator: char)
    requires i <= |t| && terminator in [']', '}'] && NextValue(t, i, terminator).Fail?
    ensures Diagnosed(t, NextValue(t, i, terminator).err)
  {
    hide SkipWhitespace, AllSpace;
    var j := SkipWhitespace(t, i);
    SkippedSpace(t, i);
    if At(t, j) == ',' { SkippedSpace(t, j + 1); }
  }

  lemma {:induction false} LiteralFails(t: Text, i: nat, literal: string, value: Json)
    requires (literal, At(t, i)) in [("true", 't'), ("false", 'f'), ("null", 'n')]
    requires LiteralAt(t, i, literal, value).Fail?
    ensures Diagnosed(t, LiteralAt(t, i, literal, value).err)
  {
    assert !LiteralSits(t, i, literal);
    forall other | other in ["true", "false", "null"] && other != literal
      ensures !LiteralSits(t, i, other)
    {
      if LiteralSits(t, i, other) {
        SitsHead(t, i, other);
      }
    }
  }

  lemma {:induction false} ValueFails(t: Text, i: nat)
    requires i <= |t| && ValueAt(t, i).Fail?
    ensures Diagnosed(t, ValueAt(t, i).err)
    decreases |t| - i, 0
  {
    var c := At(t, i);
    hide Diagnosed, NumberAt, LiteralAt, StringAt, MembersFrom, ItemsFrom, SkipWhitespace;
    if IsDigit(c) || c == '+' || c == '-' {
      NumberFails(t, i);
    } else if c == '{' {
      MembersFail(t, i + 1);
    } else if c == '[' {
      ItemsFail(t, SkipWhitespace(t, i + 1));
    } else if c == '"' {
      StringFails(t, i);
    } else if c == 't' {
      LiteralFails(t, i, "true", True);
    } else if c == 'f' {
      LiteralFails(t, i, "false", False);
    } else if c == 'n' {
      LiteralFails(t, i, "null", Null);
    } else {
      NoValue(t, i);
    }
  }

  lemma {:induction false} NumberFails(t: Text, i: nat)
    requires IsDigit(At(t, i)) || At(t, i) == '+' || At(t, i) == '-'
    requires NumberAt(t, i).Fail?
    ensures Diagnosed(t, NumberAt(t, i).err)
  {
    hide NumberFrom;
  }

  lemma {:induction false} NoValue(t: Text, i: nat)
    requires i <= |t| && At(t, i) != '"'
    ensures Diagnosed(t, Err(ExpectedValue, i, NUL))
  {
  }

  lemma {:induction false} NoColon(t: Text, i: nat)
    requires i <= |t| && At(t, i) != ':' && !IsSpace(At(t, i))
    ensures Diagnosed(t, Err(UnexpectedChar, i, ':'))
  {
  }

  lemma {:induction false} AtEnd(t: Text, i: nat)
    requires i <= |t| && At(t, i) == NUL
    ensures Diagnosed(t, Err(UnexpectedEof, i, NUL))
  {
  }

  lemma {:induction false} MemberFails(t: Text, i: nat)
    requires i <= |t| && MemberAt(t, i).Fail?
    ensures Diagnosed(t, MemberAt(t, i).err)
    decreases |t| - i, 1
  {
    hide Diagnosed, StringAt, ValueAt, SkipWhitespace;
    if At(t, i) != '"' {
      NoValue(t, i);
    } else if StringAt(t, i).Fail? {
      StringFails(t, i);
    } else {
      var colon := SkipWhitespace(t, StringAt(t, i).next);
      SkippedSpace(t, StringAt(t, i).next);
      if At(t, colon) != ':' {
        NoColon(t, colon);
      } else {
        ValueFails(t, SkipWhitespace(t, colon + 1));
      }
    }
  }

  lemma {:induction false} MembersFail(t: Text, i: nat)
    requires i <= |t| && MembersFrom(t, i).Fail?
    ensures Diagnosed(t, MembersFrom(t, i).err)
    decreases |t| - i, 2
  {
    hide Diagnosed, MemberAt, NextValue, SkipWhitespace;
    var start := SkipWhitespace(t, i);
    if At(t, i) == NUL {
      AtEnd(t, i);
    } else if MemberAt(t, start).Fail? {
      MemberFails(t, start);
    } else {
      var n := MemberAt(t, start).next;
      if NextValue(t, n, '}').Fail? {
        NextFails(t, n, '}');
      } else {
        MembersFail(t, NextValue(t, n, '}').next);
      }
    }
  }

  lemma {:induction false} ItemsFail(t: Text, i: nat)
    requires i <= |t| && ItemsFrom(t, i).Fail?
    ensures Diagnosed(t, ItemsFrom(t, i).err)
    decreases |t| - i, 2
  {
    hide Diagnosed, ValueAt, NextValue;
    if At(t, i) == NUL {
      AtEnd(t, i);
    } else if ValueAt(t, i).Fail? {
      ValueFails(t, i);
    } else {
      var n := ValueAt(t, i).next;
      if NextValue(t, n, ']').Fail? {
        NextFails(t, n, ']');
      } else {
        ItemsFail(t, NextValue(t, n, ']').next);
      }
    }
  }

  /** Every error of the parser names a fault that the text has at that place. */
  lemma {:induction false} ErrorsDiagnose(t: Text)
    requires Parse(t).Failed?
    ensures Diagnosed(t, Parse(t).err)
  {
    hide ValueAt;
    if ValueAt(t, 0).Fail? { ValueFails(t, 0); }
  }

  // ---- one text for every error ------------------------------------------------------------

  lemma {:induction false} StringErrors()
    ensures Parse("[\"a]") == Failed(Err(MissingClosing, 1, NUL))
    ensures Parse("[\"\\x\"]") == Failed(Err(InvalidString, 1, NUL))
  {
    var open: Text := "[\"a]";
    assert Chars(open, 4) == Open && Chars(open, 3) == Open && Chars(open, 2) == Open;
    assert StringAt(open, 1) == Fail(Err(MissingClosing, 1, NUL));
    assert SkipWhitespace(open, 1) == 1 && ValueAt(open, 1) == Fail(Err(MissingClosing, 1, NUL));
    var bad: Text := "[\"\\x\"]";
    assert Chars(bad, 2) == Invalid;
    assert SkipWhitespace(bad, 1) == 1 && ValueAt(bad, 1) == Fail(Err(InvalidString, 1, NUL));
  }

  lemma {:induction false} ListErrors()
    ensures Parse("[1") == Failed(Err(UnexpectedEof, 2, NUL))
    ensures Parse("[1,]") == Failed(Err(TrailingComma, 2, NUL))
    ensures Parse("[1 2]") == Failed(Err(UnexpectedChar, 3, ','))
    ensures Parse("[]]") == Failed(Err(UnexpectedChar, 2, NUL))
    ensures Parse("[\n]") == Parsed(Array([]))
  {
    var eof: Text := "[1";
    OneDigit(eof);
    assert NextValue(eof, 2, ']') == Fail(Err(UnexpectedEof, 2, NUL));
    var comma: Text := "[1,]";
    OneDigit(comma);
    assert NextValue(comma, 2, ']') == Fail(Err(TrailingComma, 2, NUL)) by {
      assert SkipWhitespace(comma, 2) == 2 && SkipWhitespace(comma, 3) == 3;
    }
    var space: Text := "[1 2]";
    OneDigit(space);
    assert NextValue(space, 2, ']') == Fail(Err(UnexpectedChar, 3, ',')) by {
      assert SkipWhitespace(space, 3) == 3;
    }
    var twice: Text := "[]]";
    assert SkipWhitespace(twice, 1) == 1 && ItemsFrom(twice, 1) == Ok([], 2);
    var line: Text := "[\n]";
    assert SkipWhitespace(line, 2) == 2 && ItemsFrom(line, 2) == Ok([], 3);
  }

  /** A list whose first item is the digit 1 goes on behind it. */
  lemma {:induction false} OneDigit(t: Text)
    requires |t| >= 2 && t[..2] == "[1" && (|t| > 2 ==> t[2] in [' ', ',', ']'])
    ensures ValueAt(t, 1) == Ok(Number(false, "1"), 2) && SkipWhitespace(t, 1) == 1
    ensures NextValue(t, 2, ']').Fail? ==> Parse(t) == Failed(NextValue(t, 2, ']').err)
  {
    assert t[0] == t[..2][0] && t[1] == t[..2][1];
    assert SkipDigits(t, 2) == 2 && SkipDigits(t, 1) == 2;
    assert NumberFrom(t, 1) == Ok(false, 2);
    assert t[1..2] == "1";
    hide NextValue;
    assert NextValue(t, 2, ']').Fail? ==> ItemsFrom(t, 1) == Fail(NextValue(t, 2, ']').err);
  }

  lemma {:induction false} ValueErrors()
    ensures Parse("-") == Failed(Err(InvalidNumber, 0, NUL))
    ensures Parse("nul") == Failed(Err(ExpectedTruthy, 0, NUL))
    ensures Parse("?") == Failed(Err(ExpectedValue, 0, NUL))
    ensures Parse("{\"a\" 1}") == Failed(Err(UnexpectedChar, 5, ':'))
  {
    var t: Text := "{\"a\" 1}";
    assert Chars(t, 3) == Closed("", 4);
    assert Chars(t, 2) == Closed("a", 4);
    assert StringAt(t, 1) == Ok("a", 4);
    assert SkipWhitespace(t, 5) == 5 && SkipWhitespace(t, 4) == 5 && SkipWhitespace(t, 1) == 1;
    assert MemberAt(t, 1) == Fail(Err(UnexpectedChar, 5, ':'));
  }
}
