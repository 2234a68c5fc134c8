/** Which texts the JSON parser accepts. The grammar of RFC 8259 is given as trees
  * that record every choice it leaves to a writer: the white space in each gap, the
  * spelling of each character, the parts of each number. A text is accepted exactly
  * when it is the text of such a tree, with looser numbers than the RFC has and
  * without the three things the parser does not take. */
module JsonSyntax {
  import opened Json

  // ---- the grammar as trees --------------------------------------------------------------

  /** A character of a string: itself, or a backslash and a letter for it. */
  datatype Spelling = Plain(c: char) | Escape(c: char)

  /** The parts of a number, in their order; `decimals` follow a point, `power` an
    * exponent mark. */
  datatype Numeral = Numeral(sign: string, whole: string, point: bool, decimals: string, mark: string, power: string)

  datatype Doc =
    /** `gap` is the white space of an empty object. */
    | DocObject(members: seq<DocMember>, gap: string)
    | DocArray(items: seq<DocItem>, gap: string)
    | DocString(chars: seq<Spelling>)
    | DocNumber(numeral: Numeral)
    | DocTrue
    | DocFalse
    | DocNull

  datatype DocMember =
    DocMember(before: string, name: seq<Spelling>, beforeColon: string, afterColon: string, doc: Doc, after: string)

  datatype DocItem = DocItem(before: string, doc: Doc, after: string)

  // ---- the text of a tree ----------------------------------------------------------------

  function SpellingText(c: Spelling): string {
    if c.Plain? then [c.c] else ['\\', c.c]
  }

  function SpelledText(s: seq<Spelling>): string {
    if s == [] then [] else SpellingText(s[0]) + SpelledText(s[1..])
  }

  function Quote(s: seq<Spelling>): string { "\"" + (SpelledText(s) + "\"") }

  function PointText(n: Numeral): string { if n.point then "." + n.decimals else [] }

  function ExponentText(n: Numeral): string { n.mark + n.power }

  function NumeralText(n: Numeral): string {
    n.sign + (n.whole + (PointText(n) + ExponentText(n)))
  }

  function DocText(doc: Doc): string
    decreases doc, 0
  {
    match doc
    case DocObject(ms, gap) => "{" + if ms == [] then gap + "}" else MembersText(ms)
    case DocArray(vs, gap) => "[" + if vs == [] then gap + "]" else ItemsText(vs)
    case DocString(s) => Quote(s)
    case DocNumber(n) => NumeralText(n)
    case DocTrue => "true"
    case DocFalse => "false"
    case DocNull => "null"
  }

  /** A member from its name to the end of its value. */
  function MemberCore(m: DocMember): string
    decreases m, 0
  {
    Quote(m.name) + (m.beforeColon + (":" + (m.afterColon + DocText(m.doc))))
  }

  /** The members with the closing brace. */
  function MembersText(ms: seq<DocMember>): string
    requires ms != []
    decreases ms, 1
  {
    ms[0].before + (MemberCore(ms[0]) + (ms[0].after + MembersRest(ms)))
  }

  function MembersRest(ms: seq<DocMember>): string
    requires ms != []
    decreases ms, 0
  {
    if |ms| == 1 then "}" else "," + MembersText(ms[1..])
  }

  function ItemsText(vs: seq<DocItem>): string
    requires vs != []
    decreases vs, 1
  {
    vs[0].before + (DocText(vs[0].doc) + (vs[0].after + ItemsRest(vs)))
  }

  function ItemsRest(vs: seq<DocItem>): string
    requires vs != []
    decreases vs, 0
  {
    if |vs| == 1 then "]" else "," + ItemsText(vs[1..])
  }

  // ---- the value of a tree ---------------------------------------------------------------

  /** What a backslash and a letter stand for, by code points; the quote, the backslash and
    * the slash stand for themselves. */
  function Meaning(letter: char): char {
    match letter
    case 'b' => 8 as char
    case 't' => 9 as char
    case 'n' => 10 as char
    case 'f' => 12 as char
    case 'r' => 13 as char
    case _ => letter
  }

  function Spelled(s: seq<Spelling>): string {
    if s == [] then [] else [if s[0].Plain? then s[0].c else Meaning(s[0].c)] + Spelled(s[1..])
  }

  function Value(doc: Doc): Json
    decreases doc, 0
  {
    match doc
    case DocObject(ms, _) => Object(MemberValues(ms))
    case DocArray(vs, _) => Array(ItemValues(vs))
    case DocString(s) => String(Spelled(s))
    case DocNumber(n) => Number(n.point || NegativeExponent(n), NumeralText(n))
    case DocTrue => True
    case DocFalse => False
    case DocNull => Null
  }

  function MemberValue(m: DocMember): Member
    decreases m, 0
  {
    Member(Spelled(m.name), Value(m.doc))
  }

  function MemberValues(ms: seq<DocMember>): seq<Member>
    decreases ms, 1
  {
    if ms == [] then [] else [MemberValue(ms[0])] + MemberValues(ms[1..])
  }

  function ItemValues(vs: seq<DocItem>): seq<Json>
    decreases vs, 1
  {
    if vs == [] then [] else [Value(vs[0].doc)] + ItemValues(vs[1..])
  }

  // ---- the trees of the grammar ------------------------------------------------------------

  // Character sets are given here by their code points, not by the parser's predicates.

  /** Section 2 of RFC 8259: space, line feed, carriage return and tab. */
  predicate IsSpace(c: char) {
    c == 0x20 as char || c == 0x0A as char || c == 0x0D as char || c == 0x09 as char
  }

  predicate IsNumeral(c: char) { 0x30 as char <= c <= 0x39 as char }

  /** The letters that may follow a backslash. */
  predicate IsLetter(c: char) { c in ['"', '\\', '/', 'b', 'f', 'n', 'r', 't'] }

  predicate AllSpace(ws: string) { forall k | 0 <= k < |ws| :: IsSpace(ws[k]) }

  predicate AllDigits(s: string) { forall k | 0 <= k < |s| :: IsNumeral(s[k]) }

  /** Section 7 of RFC 8259 without \u. */
  predicate SpellingOk(c: Spelling) {
    if c.Plain? then c.c >= 0x20 as char && c.c != '"' && c.c != '\\' else IsLetter(c.c)
  }

  predicate SpelledOk(s: seq<Spelling>) { forall k | 0 <= k < |s| :: SpellingOk(s[k]) }

  predicate IsSign(s: string) { s == "" || s == "-" || s == "+" }

  predicate IsMark(s: string) { |s| > 0 && (s[0] == 'e' || s[0] == 'E') && IsSign(s[1..]) }

  predicate NegativeExponent(n: Numeral) { |n.mark| > 1 && n.mark[1] == '-' }

  /** The numbers the parser reads: any part may lack its digits. */
  predicate NumeralOk(n: Numeral) {
    && IsSign(n.sign) && AllDigits(n.whole) && AllDigits(n.decimals) && AllDigits(n.power)
    && (n.sign == "" ==> n.whole != [])
    && (!n.point ==> n.decimals == [])
    && (n.mark != "" ==> IsMark(n.mark))
    && (n.mark == "" ==> n.power == [])
  }

  predicate EndsInDigit(n: Numeral) {
    if n.mark != "" then n.power != [] else if n.point then n.decimals != [] else n.whole != []
  }

  /** The numbers of section 6 of RFC 8259. */
  predicate StrictNumeral(n: Numeral) {
    && NumeralOk(n)
    && n.sign != "+"
    && n.whole != [] && (n.whole[0] == '0' ==> |n.whole| == 1)
    && (n.point ==> n.decimals != [])
    && (n.mark != "" ==> n.power != [])
  }

  /** The grammar of RFC 8259, with its own numbers when strict, otherwise with those
    * the parser reads. */
  predicate Written(doc: Doc, strict: bool)
    decreases doc, 0
  {
    match doc
    case DocObject(ms, gap) => AllSpace(gap) && MembersWritten(ms, strict)
    case DocArray(vs, gap) => AllSpace(gap) && ItemsWritten(vs, strict)
    case DocString(s) => SpelledOk(s)
    case DocNumber(n) => if strict then StrictNumeral(n) else NumeralOk(n)
    case _ => true
  }

  predicate MemberWritten(m: DocMember, strict: bool)
    decreases m, 0
  {
    && AllSpace(m.before) && AllSpace(m.beforeColon) && AllSpace(m.afterColon) && AllSpace(m.after)
    && SpelledOk(m.name) && Written(m.doc, strict)
  }

  predicate MembersWritten(ms: seq<DocMember>, strict: bool)
    decreases ms, 1
  {
    ms != [] ==> MemberWritten(ms[0], strict) && MembersWritten(ms[1..], strict)
  }

  predicate ItemWritten(v: DocItem, strict: bool)
    decreases v, 0
  {
    AllSpace(v.before) && AllSpace(v.after) && Written(v.doc, strict)
  }

  predicate ItemsWritten(vs: seq<DocItem>, strict: bool)
    decreases vs, 1
  {
    vs != [] ==> ItemWritten(vs[0], strict) && ItemsWritten(vs[1..], strict)
  }

  // ---- what the parser does not take ---------------------------------------------------------

  /** DEL never stands for itself. */
  predicate NoDel(s: seq<Spelling>) { Plain(127 as char) !in s }

  /** No DEL as itself and no white space in an empty object. */
  predicate Clean(doc: Doc)
    decreases doc, 0
  {
    match doc
    case DocObject(ms, gap) => if ms == [] then gap == [] else MembersClean(ms)
    case DocArray(vs, _) => ItemsClean(vs)
    case DocString(s) => NoDel(s)
    case _ => true
  }

  predicate MemberClean(m: DocMember)
    decreases m, 0
  {
    NoDel(m.name) && Clean(m.doc)
  }

  predicate MembersClean(ms: seq<DocMember>)
    decreases ms, 1
  {
    ms != [] ==> MemberClean(ms[0]) && MembersClean(ms[1..])
  }

  predicate ItemsClean(vs: seq<DocItem>)
    decreases vs, 1
  {
    vs != [] ==> Clean(vs[0].doc) && ItemsClean(vs[1..])
  }

  /** What the end of the text asks of the last value. */
  predicate MayEnd(doc: Doc) { doc.DocNumber? ==> EndsInDigit(doc.numeral) }

  /** t is a text of v that the parser takes. */
  ghost predicate Writes(v: Json, t: Text) {
    exists doc :: Written(doc, false) && Clean(doc) && MayEnd(doc) && DocText(doc) == t && Value(doc) == v
  }

  // ---- text sitting in a text ------------------------------------------------------------

  predicate Sits(t: Text, i: nat, s: string) {
    i + |s| <= |t| && t[i..i + |s|] == s
  }

  lemma {:induction false} SitsBoth(t: Text, i: nat, a: string, b: string)
    requires Sits(t, i, a + b)
    ensures Sits(t, i, a) && Sits(t, i + |a|, b)
  {
    var s := t[i..i + |a + b|];
    assert s[..|a|] == a && s[|a|..] == b;
    assert t[i..i + |a|] == s[..|a|] && t[i + |a|..i + |a| + |b|] == s[|a|..];
  }

  lemma {:induction false} SitsHead(t: Text, i: nat, s: string)
    requires Sits(t, i, s) && s != []
    ensures At(t, i) == t[i] == s[0] && Sits(t, i + 1, s[1..])
  {
    assert s == [s[0]] + s[1..];
    SitsBoth(t, i, [s[0]], s[1..]);
    assert t[i] == t[i..i + |s|][0];
  }

  lemma {:induction false} SpaceSkipped(t: Text, i: nat, ws: string)
    requires Sits(t, i, ws) && AllSpace(ws) && !IsWhitespace(At(t, i + |ws|))
    ensures SkipWhitespace(t, i) == i + |ws|
    decreases |ws|
  {
    if ws != [] {
      SitsHead(t, i, ws);
      SpaceSkipped(t, i + 1, ws[1..]);
    }
  }

  lemma {:induction false} DigitsSkipped(t: Text, i: nat, ds: string)
    requires Sits(t, i, ds) && AllDigits(ds) && !IsDigit(At(t, i + |ds|))
    ensures SkipDigits(t, i) == i + |ds|
    decreases |ds|
  {
    if ds != [] {
      SitsHead(t, i, ds);
      DigitsSkipped(t, i + 1, ds[1..]);
    }
  }

  /** The result for a piece of text that is taken exactly when `taken`. */
  predicate Reads<T(==)>(r: Res<T>, taken: bool, value: T, next: nat) {
    if taken then r == Ok(value, next) else r.Fail?
  }

  // ---- strings -----------------------------------------------------------------------------

  lemma {:induction false} CharReads(t: Text, i: nat, c: Spelling)
    requires SpellingOk(c) && c != Plain(127 as char) && Sits(t, i, SpellingText(c))
    ensures Chars(t, i) == Prepend(Spelled([c]), Chars(t, i + |SpellingText(c)|))
  {
    var e := SpellingText(c);
    SitsHead(t, i, e);
    if c.Escape? { SitsHead(t, i + 1, e[1..]); }
    assert Spelled([c]) == [if c.Plain? then c.c else Meaning(c.c)];
  }

  lemma {:induction false} QuoteCloses(t: Text, i: nat)
    requires At(t, i) == '"'
    ensures Chars(t, i) == Closed([], i + 1)
  {
  }

  lemma {:induction false} DelStops(t: Text, i: nat)
    requires At(t, i) == 127 as char
    ensures Chars(t, i) == Invalid
  {
  }

  lemma {:induction false} CharsRead(t: Text, i: nat, s: seq<Spelling>)
    requires SpelledOk(s) && Sits(t, i, SpelledText(s) + "\"")
    ensures Chars(t, i) == if NoDel(s) then Closed(Spelled(s), i + |SpelledText(s)| + 1) else Invalid
    decreases |s|
  {
    hide Chars, SpellingOk, SpellingText;
    if s == [] {
      assert SpelledText(s) + "\"" == "\"";
      SitsHead(t, i, "\"");
      QuoteCloses(t, i);
    } else {
      var e := SpellingText(s[0]);
      assert SpelledText(s) + "\"" == e + (SpelledText(s[1..]) + "\"");
      SitsBoth(t, i, e, SpelledText(s[1..]) + "\"");
      if s[0] == Plain(127 as char) {
        PlainText(s[0]);
        SitsHead(t, i, e);
        DelStops(t, i);
      } else {
        CharReads(t, i, s[0]);
        CharsRead(t, i + |e|, s[1..]);
        assert NoDel(s) == NoDel(s[1..]);
        SpelledHead(s);
      }
    }
  }

  lemma {:induction false} PlainText(c: Spelling)
    requires c.Plain?
    ensures SpellingText(c) == [c.c]
  {
  }

  lemma {:induction false} SpelledHead(s: seq<Spelling>)
    requires s != []
    ensures Spelled(s) == Spelled([s[0]]) + Spelled(s[1..])
  {
    assert [s[0]][1..] == [];
  }

  /** A string in any notation of the grammar is read as its contents; a DEL in it
    * makes it invalid. */
  lemma {:induction false} StringReads(t: Text, i: nat, s: seq<Spelling>)
    requires SpelledOk(s) && Sits(t, i, Quote(s))
    ensures At(t, i) == '"' && Reads(StringAt(t, i), NoDel(s), Spelled(s), i + |Quote(s)|)
  {
    SitsBoth(t, i, "\"", SpelledText(s) + "\"");
    SitsHead(t, i, "\"");
    CharsRead(t, i + 1, s);
  }

  // ---- numbers -------------------------------------------------------------------------------

  lemma {:induction false} NothingMore(c: char)
    requires Follows(c)
    ensures !IsDigit(c) && c != '.' && c != 'e' && c != 'E' && c != '-' && c != '+'
  {
  }

  lemma {:induction false} MarkReads(t: Text, i: nat, n: Numeral)
    requires NumeralOk(n) && n.mark != ""
    requires Sits(t, i, n.mark) && Sits(t, i + |n.mark|, n.power) && Follows(At(t, i + |n.mark| + |n.power|))
    ensures At(t, i) == 'e' || At(t, i) == 'E'
    ensures |n.mark| == if At(t, i + 1) == '-' || At(t, i + 1) == '+' then 2 else 1
    ensures NegativeExponent(n) <==> At(t, i + 1) == '-'
  {
    hide Follows;
    NothingMore(At(t, i + |n.mark| + |n.power|));
    SitsHead(t, i, n.mark);
    if n.power != [] { SitsHead(t, i + |n.mark|, n.power); }
    if |n.mark| > 1 { SitsHead(t, i + 1, n.mark[1..]); }
  }

  lemma {:induction false} ExponentReads(t: Text, i: nat, n: Numeral, fraction: bool)
    requires NumeralOk(n) && Sits(t, i, ExponentText(n)) && Follows(At(t, i + |ExponentText(n)|))
    ensures var end := i + |ExponentText(n)|;
            Reads(ExponentFrom(t, i, fraction), n.mark == "" || n.power != [] || At(t, end) != NUL,
                  fraction || NegativeExponent(n), end)
  {
    hide Follows, NegativeExponent, SkipDigits, Sits, IsMark, IsSign;
    NothingMore(At(t, i + |ExponentText(n)|));
    if n.mark == "" {
      Unmarked(n);
    } else {
      var k := i + |n.mark|;
      SitsBoth(t, i, n.mark, n.power);
      MarkReads(t, i, n);
      DigitsSkipped(t, k, n.power);
      if n.power != [] { SitsHead(t, k, n.power); }
    }
  }

  lemma {:induction false} Unmarked(n: Numeral)
    requires NumeralOk(n) && n.mark == ""
    ensures ExponentText(n) == [] && !NegativeExponent(n)
  {
  }

  /** A point, if any, and an exponent, after the digits up to i. */
  lemma {:induction false} PointReads(t: Text, i: nat, n: Numeral)
    requires NumeralOk(n) && Sits(t, i, PointText(n) + ExponentText(n))
    requires Follows(At(t, i + |PointText(n) + ExponentText(n)|))
    ensures !IsDigit(At(t, i)) && (n.point <==> At(t, i) == '.')
    ensures n.point && At(t, i + 1) == NUL ==> n.decimals == [] && n.mark == ""
    ensures n.point ==> SkipDigits(t, i + 1) == i + |PointText(n)|
  {
    hide Follows;
    var p, e := PointText(n), ExponentText(n);
    NothingMore(At(t, i + |p + e|));
    SitsBoth(t, i, p, e);
    ExponentHead(t, i + |p|, n);
    if n.point {
      SitsBoth(t, i, ".", n.decimals);
      SitsHead(t, i, ".");
      DigitsSkipped(t, i + 1, n.decimals);
      if n.decimals != [] { SitsHead(t, i + 1, n.decimals); }
    }
  }

  lemma {:induction false} ExponentHead(t: Text, i: nat, n: Numeral)
    requires NumeralOk(n) && Sits(t, i, ExponentText(n)) && Follows(At(t, i + |ExponentText(n)|))
    ensures !IsDigit(At(t, i)) && At(t, i) != '.' && (n.mark != "" ==> At(t, i) != NUL)
  {
    if n.mark == "" {
      NothingMore(At(t, i));
    } else {
      SitsHead(t, i, ExponentText(n));
    }
  }

  lemma {:induction false} UnsignedReads(t: Text, i: nat, n: Numeral)
    requires NumeralOk(n)
    requires var w := n.whole + (PointText(n) + ExponentText(n)); Sits(t, i, w) && Follows(At(t, i + |w|))
    ensures var end := i + |n.whole + (PointText(n) + ExponentText(n))|;
            Reads(NumberFrom(t, i), EndsInDigit(n) || At(t, end) != NUL, n.point || NegativeExponent(n), end)
  {
    hide ExponentFrom, SkipDigits, Follows, NegativeExponent, ExponentText, Sits, IsMark, IsSign;
    var p, e := PointText(n), ExponentText(n);
    var j := i + |n.whole|;
    SitsBoth(t, i, n.whole, p + e);
    PointReads(t, j, n);
    SitsBoth(t, j, p, e);
    DigitsSkipped(t, i, n.whole);
    ExponentReads(t, j + |p|, n, n.point);
    ExponentHead(t, j + |p|, n);
    if n.whole != [] { SitsHead(t, i, n.whole); }
    MarkedText(n);
  }

  lemma {:induction false} MarkedText(n: Numeral)
    requires NumeralOk(n)
    ensures n.mark == "" <==> ExponentText(n) == []
  {
  }

  lemma {:induction false} SignRead(t: Text, i: nat, n: Numeral)
    requires NumeralOk(n) && Sits(t, i, NumeralText(n))
    ensures |n.sign| == if At(t, i) == '-' || At(t, i) == '+' then 1 else 0
    ensures n.sign == "" ==> IsDigit(At(t, i))
  {
    hide PointText, ExponentText, IsMark;
    SitsBoth(t, i, n.sign, n.whole + (PointText(n) + ExponentText(n)));
    if n.sign == "" {
      SitsBoth(t, i, n.whole, PointText(n) + ExponentText(n));
      SitsHead(t, i, n.whole);
    } else {
      SitsHead(t, i, n.sign);
    }
  }

  /** Before a separator a number is read to its end; at the end of the text only one
    * that ends in a digit is taken. */
  lemma {:induction false} NumberReads(t: Text, i: nat, n: Numeral)
    requires NumeralOk(n) && Sits(t, i, NumeralText(n)) && Follows(At(t, i + |NumeralText(n)|))
    ensures IsDigit(At(t, i)) || At(t, i) == '-' || At(t, i) == '+'
    ensures var end := i + |NumeralText(n)|;
            Reads(NumberAt(t, i), EndsInDigit(n) || At(t, end) != NUL, Value(DocNumber(n)), end)
  {
    hide NumberFrom, SkipDigits, Follows, NegativeExponent, EndsInDigit, PointText, ExponentText, NumeralOk;
    var w := n.whole + (PointText(n) + ExponentText(n));
    SignRead(t, i, n);
    SitsBoth(t, i, n.sign, w);
    UnsignedReads(t, i + |n.sign|, n);
  }

  // ---- values ----------------------------------------------------------------------------------

  /** The text of a value starts with a character that is neither white space nor the
    * end of a list. */
  lemma {:induction false} DocHead(doc: Doc)
    requires Written(doc, false)
    ensures DocText(doc) != []
    ensures var c := DocText(doc)[0]; !IsWhitespace(c) && c != ']' && c != '}' && c != ',' && c != NUL
  {
    if doc.DocNumber? { NumeralHead(doc.numeral); }
  }

  lemma {:induction false} NumeralHead(n: Numeral)
    requires NumeralOk(n)
    ensures NumeralText(n) != []
    ensures var c := NumeralText(n)[0]; IsDigit(c) || c == '-' || c == '+'
  {
    hide PointText, ExponentText;
  }

  lemma {:induction false} LiteralReads(t: Text, i: nat, literal: string, v: Json)
    requires Sits(t, i, literal) && literal != [] && Follows(At(t, i + |literal|))
    ensures LiteralAt(t, i, literal, v) == Ok(v, i + |literal|)
  {
  }

  /** White space and the character after it, where a value or a list ends. */
  lemma {:induction false} GapFollows(t: Text, i: nat, ws: string, rest: string)
    requires Sits(t, i, ws + rest) && AllSpace(ws) && rest != [] && rest[0] in {',', ']', '}'}
    ensures Follows(At(t, i)) && At(t, i) != NUL
    ensures SkipWhitespace(t, i) == i + |ws| && At(t, i + |ws|) == rest[0]
    ensures Sits(t, i + |ws|, rest) && Sits(t, i + |ws| + 1, rest[1..])
  {
    SitsBoth(t, i, ws, rest);
    SitsHead(t, i + |ws|, rest);
    SpaceSkipped(t, i, ws);
    if ws != [] { SitsHead(t, i, ws); }
  }

  /** White space, a comma, white space and the next element. */
  lemma {:induction false} NextReads(t: Text, i: nat, ws: string, gap: string, next: string, terminator: char)
    requires Sits(t, i, ws + ("," + (gap + next))) && AllSpace(ws) && AllSpace(gap) && terminator in {']', '}'}
    requires next != [] && !IsWhitespace(next[0]) && next[0] != terminator
    ensures Follows(At(t, i)) && At(t, i) != NUL
    ensures NextValue(t, i, terminator) == Ok((), i + |ws| + 1 + |gap|)
    ensures Sits(t, i + |ws| + 1, gap + next)
  {
    hide SkipWhitespace, Sits, AllSpace, Follows;
    var rest := "," + (gap + next);
    GapFollows(t, i, ws, rest);
    assert rest[1..] == gap + next;
    SitsBoth(t, i + |ws| + 1, gap, next);
    SitsHead(t, i + |ws| + 1 + |gap|, next);
    SpaceSkipped(t, i + |ws| + 1, gap);
  }

  lemma {:induction false} LastReads(t: Text, i: nat, ws: string, terminator: char)
    requires Sits(t, i, ws + [terminator]) && AllSpace(ws) && terminator in {']', '}'}
    ensures Follows(At(t, i)) && At(t, i) != NUL
    ensures NextValue(t, i, terminator) == Ok((), i + |ws|) && At(t, i + |ws|) == terminator
  {
    hide SkipWhitespace;
    GapFollows(t, i, ws, [terminator]);
  }

  /** The text of a tree is read as its value, up to its end, when the tree is clean;
    * otherwise it is an error. */
  lemma {:induction false} ValueReads(t: Text, i: nat, doc: Doc)
    requires Written(doc, false) && Sits(t, i, DocText(doc)) && Follows(At(t, i + |DocText(doc)|))
    ensures var end := i + |DocText(doc)|;
            Reads(ValueAt(t, i), Clean(doc) && (At(t, end) == NUL ==> MayEnd(doc)), Value(doc), end)
    decreases doc, 0
  {
    hide ValueAt, DocText, Value, Clean, Sits, Reads, Follows, MembersWritten, ItemsWritten;
    match doc
    case DocObject(ms, gap) => ObjectReads(t, i, ms, gap);
    case DocArray(vs, gap) => ArrayReads(t, i, vs, gap);
    case _ => LeafReads(t, i, doc);
  }

  lemma {:induction false} LeafReads(t: Text, i: nat, doc: Doc)
    requires !doc.DocObject? && !doc.DocArray?
    requires Written(doc, false) && Sits(t, i, DocText(doc)) && Follows(At(t, i + |DocText(doc)|))
    ensures var end := i + |DocText(doc)|;
            Reads(ValueAt(t, i), Clean(doc) && (At(t, end) == NUL ==> MayEnd(doc)), Value(doc), end)
  {
    hide NumberAt, StringAt, LiteralAt, MembersFrom, ItemsFrom, Quote, NumeralText, NumeralOk, SpelledOk, Sits, Follows;
    hide NoDel, EndsInDigit;
    match doc
    case DocString(s) => StringReads(t, i, s);
    case DocNumber(n) => NumberReads(t, i, n);
    case DocTrue => LiteralReads(t, i, "true", True); SitsHead(t, i, "true");
    case DocFalse => LiteralReads(t, i, "false", False); SitsHead(t, i, "false");
    case DocNull => LiteralReads(t, i, "null", Null); SitsHead(t, i, "null");
  }

  lemma {:induction false} ObjectReads(t: Text, i: nat, ms: seq<DocMember>, gap: string)
    requires AllSpace(gap) && MembersWritten(ms, false) && Sits(t, i, DocText(DocObject(ms, gap)))
    ensures var doc := DocObject(ms, gap); Reads(ValueAt(t, i), Clean(doc), Value(doc), i + |DocText(doc)|)
    decreases ms, 2
  {
    hide MembersFrom, MembersText, MembersWritten, MembersClean, MemberValues, Sits;
    if ms == [] {
      SitsBoth(t, i, "{", gap + "}");
      SitsHead(t, i, "{");
      EmptyObject(t, i + 1, gap);
      assert MemberValues([]) == [] by { NoValues(); }
    } else {
      SitsBoth(t, i, "{", MembersText(ms));
      SitsHead(t, i, "{");
      MembersRead(t, i + 1, ms);
    }
  }

  lemma {:induction false} NoValues()
    ensures MemberValues([]) == [] && ItemValues([]) == []
  {
  }

  /** White space is skipped before a member, so not in an empty object. */
  lemma {:induction false} EmptyObject(t: Text, i: nat, gap: string)
    requires AllSpace(gap) && Sits(t, i, gap + "}")
    ensures MembersFrom(t, i) ==
            if gap == [] then Ok([], i + 1) else Fail(Err(ExpectedValue, i + |gap|, NUL))
  {
    SitsBoth(t, i, gap, "}");
    SitsHead(t, i + |gap|, "}");
    SpaceSkipped(t, i, gap);
    if gap != [] { SitsHead(t, i, gap); }
  }

  lemma {:induction false} ArrayReads(t: Text, i: nat, vs: seq<DocItem>, gap: string)
    requires AllSpace(gap) && ItemsWritten(vs, false) && Sits(t, i, DocText(DocArray(vs, gap)))
    ensures var doc := DocArray(vs, gap); Reads(ValueAt(t, i), Clean(doc), Value(doc), i + |DocText(doc)|)
    decreases vs, 2
  {
    hide ItemsFrom, SkipWhitespace, ItemsText, ItemsWritten, ItemsClean, ItemValues, Sits;
    if vs == [] {
      SitsBoth(t, i, "[", gap + "]");
      SitsHead(t, i, "[");
      SitsBoth(t, i + 1, gap, "]");
      SitsHead(t, i + 1 + |gap|, "]");
      SpaceSkipped(t, i + 1, gap);
      NoItems(t, i + 1 + |gap|);
    } else {
      SitsBoth(t, i, "[", ItemsText(vs));
      SitsHead(t, i, "[");
      ItemsRead(t, i + 1, vs);
    }
  }

  lemma {:induction false} NoMembers(t: Text, i: nat)
    requires At(t, i) == '}'
    ensures MembersFrom(t, i) == Ok([], i + 1)
  {
  }

  lemma {:induction false} NoItems(t: Text, i: nat)
    requires At(t, i) == ']'
    ensures ItemsFrom(t, i) == Ok([], i + 1)
    ensures ItemValues([]) == [] && ItemsClean([])
  {
  }

  /** White space and what it comes before. */
  lemma {:induction false} GapSits(t: Text, i: nat, ws: string, next: string)
    requires Sits(t, i, ws + next) && AllSpace(ws) && next != [] && !IsWhitespace(next[0])
    ensures SkipWhitespace(t, i) == i + |ws| && At(t, i + |ws|) == next[0]
    ensures Sits(t, i + |ws|, next) && Sits(t, i + |ws| + 1, next[1..])
  {
    hide Sits, SkipWhitespace, AllSpace;
    SitsBoth(t, i, ws, next);
    SitsHead(t, i + |ws|, next);
    SpaceSkipped(t, i, ws);
  }

  lemma {:induction false} MemberSits(t: Text, i: nat, m: DocMember)
    requires MemberWritten(m, false) && Sits(t, i, MemberCore(m))
    ensures var colon := i + |Quote(m.name)| + |m.beforeColon|; var start := colon + 1 + |m.afterColon|;
            Sits(t, i, Quote(m.name)) && SkipWhitespace(t, i + |Quote(m.name)|) == colon && At(t, colon) == ':' &&
            SkipWhitespace(t, colon + 1) == start && Sits(t, start, DocText(m.doc)) &&
            start + |DocText(m.doc)| == i + |MemberCore(m)|
  {
    hide Quote, SkipWhitespace, DocText, Written, SpelledOk, Sits, AllSpace;
    var q, value := Quote(m.name), DocText(m.doc);
    var tail := m.afterColon + value;
    var rest := ":" + tail;
    assert rest[1..] == tail;
    SitsBoth(t, i, q, m.beforeColon + rest);
    GapSits(t, i + |q|, m.beforeColon, rest);
    DocHead(m.doc);
    GapSits(t, i + |q| + |m.beforeColon| + 1, m.afterColon, value);
  }

  /** A member up to the end of its value, before a separator. */
  lemma {:induction false} MemberReads(t: Text, i: nat, m: DocMember)
    requires MemberWritten(m, false) && Sits(t, i, MemberCore(m))
    requires Follows(At(t, i + |MemberCore(m)|)) && At(t, i + |MemberCore(m)|) != NUL
    ensures Reads(MemberAt(t, i), MemberClean(m), MemberValue(m), i + |MemberCore(m)|)
    decreases m, 0
  {
    hide StringAt, ValueAt, Quote, SkipWhitespace, DocText, Written, SpelledOk, Sits, Follows, AllSpace, Clean, NoDel;
    hide Value, Spelled, MayEnd, MemberCore;
    MemberSits(t, i, m);
    StringReads(t, i, m.name);
    var start := i + |MemberCore(m)| - |DocText(m.doc)|;
    ValueReads(t, start, m.doc);
  }

  lemma {:induction false} MembersHead(t: Text, i: nat, ms: seq<DocMember>)
    requires ms != [] && MemberWritten(ms[0], false) && Sits(t, i, MembersText(ms))
    ensures var j := i + |ms[0].before|;
            SkipWhitespace(t, i) == j && At(t, i) != NUL && At(t, i) != '}' && At(t, j) == '"' &&
            Sits(t, j, MemberCore(ms[0])) && Sits(t, j + |MemberCore(ms[0])|, ms[0].after + MembersRest(ms))
  {
    hide Sits, MembersRest, AllSpace, Written, SpelledOk, SpelledText, DocText;
    var m := ms[0];
    var j := i + |m.before|;
    SitsBoth(t, i, m.before, MemberCore(m) + (m.after + MembersRest(ms)));
    SitsBoth(t, j, MemberCore(m), m.after + MembersRest(ms));
    SitsHead(t, j, MemberCore(m));
    SpaceSkipped(t, i, m.before);
    if m.before != [] { SitsHead(t, i, m.before); SpaceHead(m.before); }
  }

  lemma {:induction false} SpaceHead(ws: string)
    requires AllSpace(ws) && ws != []
    ensures IsWhitespace(ws[0])
  {
  }

  /** White space before the next member makes no difference. */
  lemma {:induction false} MembersStart(t: Text, i: nat)
    requires At(t, i) != NUL && At(t, i) != '}' && At(t, SkipWhitespace(t, i)) == '"'
    ensures MembersFrom(t, SkipWhitespace(t, i)) == MembersFrom(t, i)
  {
    hide MemberAt, NextValue;
    var j := SkipWhitespace(t, i);
    assert SkipWhitespace(t, j) == j;
  }

  lemma {:induction false} MembersNext(t: Text, i: nat, ws: string, ms: seq<DocMember>)
    requires ms != [] && MemberWritten(ms[0], false) && AllSpace(ws) && Sits(t, i, ws + ("," + MembersText(ms)))
    ensures Follows(At(t, i)) && At(t, i) != NUL
    ensures NextValue(t, i, '}') == Ok((), i + |ws| + 1 + |ms[0].before|)
    ensures Sits(t, i + |ws| + 1, MembersText(ms))
  {
    hide NextValue, Sits, Follows, AllSpace, MembersRest, SpelledText, Written, SpelledOk, DocText;
    NextReads(t, i, ws, ms[0].before, MemberCore(ms[0]) + (ms[0].after + MembersRest(ms)), '}');
  }

  lemma {:induction false} MembersTextLength(ms: seq<DocMember>)
    requires ms != []
    ensures var front := |ms[0].before| + |MemberCore(ms[0])| + |ms[0].after| + 1;
            |MembersText(ms)| == if |ms| == 1 then front else front + |MembersText(ms[1..])|
  {
    hide MemberCore;
  }

  lemma {:induction false} MembersStep(t: Text, i: nat, taken: bool, m: Member, n: nat, j: nat)
    requires At(t, i) != NUL && At(t, i) != '}' && n <= |t| && j <= |t|
    requires Reads(MemberAt(t, SkipWhitespace(t, i)), taken, m, n) && NextValue(t, n, '}') == Ok((), j)
    ensures if taken then MembersFrom(t, i) == AndThen([m], MembersFrom(t, j)) else MembersFrom(t, i).Fail?
  {
    hide MemberAt, NextValue, SkipWhitespace;
  }

  /** The members of an object, wherever in the white space before them one starts. */
  lemma {:induction false} MembersRead(t: Text, i: nat, ms: seq<DocMember>)
    requires ms != [] && MembersWritten(ms, false) && Sits(t, i, MembersText(ms))
    ensures Reads(MembersFrom(t, i), MembersClean(ms), MemberValues(ms), i + |MembersText(ms)|)
    ensures MembersFrom(t, i + |ms[0].before|) == MembersFrom(t, i)
    decreases ms, 1
  {
    hide MemberAt, NextValue, MemberCore, MembersText, MemberClean, MemberValue, SkipWhitespace, Sits, Follows;
    hide SpelledOk, AllSpace, Written, MembersFrom;
    MembersHead(t, i, ms);
    MembersStart(t, i);
    MembersTextLength(ms);
    var m, j := ms[0], i + |ms[0].before|;
    var n := j + |MemberCore(m)|;
    if |ms| == 1 {
      LastReads(t, n, m.after, '}');
      MemberReads(t, j, m);
      NoMembers(t, n + |m.after|);
      MembersStep(t, i, MemberClean(m), MemberValue(m), n, n + |m.after|);
      assert ms[1..] == [];
    } else {
      MembersNext(t, n, m.after, ms[1..]);
      MemberReads(t, j, m);
      MembersRead(t, n + |m.after| + 1, ms[1..]);
      MembersStep(t, i, MemberClean(m), MemberValue(m), n, n + |m.after| + 1 + |ms[1].before|);
    }
  }

  lemma {:induction false} ItemsHead(t: Text, i: nat, vs: seq<DocItem>)
    requires vs != [] && ItemWritten(vs[0], false) && Sits(t, i, ItemsText(vs))
    ensures var j := i + |vs[0].before|; var n := j + |DocText(vs[0].doc)|;
            SkipWhitespace(t, i) == j && At(t, j) != NUL && At(t, j) != ']' &&
            Sits(t, j, DocText(vs[0].doc)) && Sits(t, n, vs[0].after + ItemsRest(vs))
  {
    hide Sits, ItemsRest, AllSpace, Written, DocText;
    var v := vs[0];
    var j := i + |v.before|;
    SitsBoth(t, i, v.before, DocText(v.doc) + (v.after + ItemsRest(vs)));
    SitsBoth(t, j, DocText(v.doc), v.after + ItemsRest(vs));
    DocHead(v.doc);
    SitsHead(t, j, DocText(v.doc));
    SpaceSkipped(t, i, v.before);
  }

  lemma {:induction false} ItemsNext(t: Text, i: nat, ws: string, vs: seq<DocItem>)
    requires vs != [] && ItemWritten(vs[0], false) && AllSpace(ws) && Sits(t, i, ws + ("," + ItemsText(vs)))
    ensures Follows(At(t, i)) && At(t, i) != NUL
    ensures NextValue(t, i, ']') == Ok((), i + |ws| + 1 + |vs[0].before|)
    ensures Sits(t, i + |ws| + 1, ItemsText(vs))
  {
    hide NextValue, Sits, Follows, AllSpace, ItemsRest, Written, DocText;
    DocHead(vs[0].doc);
    NextReads(t, i, ws, vs[0].before, DocText(vs[0].doc) + (vs[0].after + ItemsRest(vs)), ']');
  }

  lemma {:induction false} ItemsTextLength(vs: seq<DocItem>)
    requires vs != []
    ensures var front := |vs[0].before| + |DocText(vs[0].doc)| + |vs[0].after| + 1;
            |ItemsText(vs)| == if |vs| == 1 then front else front + |ItemsText(vs[1..])|
  {
    hide DocText;
  }

  /** The items of an array from the first one on. */
  lemma {:induction false} ItemsRead(t: Text, i: nat, vs: seq<DocItem>)
    requires vs != [] && ItemsWritten(vs, false) && Sits(t, i, ItemsText(vs))
    ensures SkipWhitespace(t, i) == i + |vs[0].before|
    ensures Reads(ItemsFrom(t, i + |vs[0].before|), ItemsClean(vs), ItemValues(vs), i + |ItemsText(vs)|)
    decreases vs, 1
  {
    hide ValueAt, NextValue, DocText, ItemsText, Clean, Value, SkipWhitespace, Sits, Follows, AllSpace, Written, MayEnd;
    ItemsHead(t, i, vs);
    ItemsTextLength(vs);
    var v, j := vs[0], i + |vs[0].before|;
    var n := j + |DocText(v.doc)|;
    if |vs| == 1 {
      LastReads(t, n, v.after, ']');
      ValueReads(t, j, v.doc);
      NoItems(t, n + |v.after|);
      assert vs[1..] == [];
    } else {
      ItemsNext(t, n, v.after, vs[1..]);
      ValueReads(t, j, v.doc);
      ItemsRead(t, n + |v.after| + 1, vs[1..]);
    }
  }

  // ---- what is read was written ----------------------------------------------------------------

  lemma {:induction false} SpaceTaken(t: Text, i: nat)
    requires i <= |t|
    ensures AllSpace(t[i..SkipWhitespace(t, i)])
    decreases |t| - i
  {
    if IsWhitespace(At(t, i)) {
      SpaceTaken(t, i + 1);
      assert t[i..SkipWhitespace(t, i)] == [t[i]] + t[i + 1..SkipWhitespace(t, i + 1)];
    }
  }

  lemma {:induction false} DigitsTaken(t: Text, i: nat)
    requires i <= |t|
    ensures AllDigits(t[i..SkipDigits(t, i)])
    decreases |t| - i
  {
    if IsDigit(At(t, i)) {
      DigitsTaken(t, i + 1);
      assert t[i..SkipDigits(t, i)] == [t[i]] + t[i + 1..SkipDigits(t, i + 1)];
    }
  }

  lemma {:induction false} Glue(t: Text, i: nat, j: nat, k: nat)
    requires i <= j <= k <= |t|
    ensures t[i..j] + t[j..k] == t[i..k]
  {
  }

  lemma {:induction false} CharWritten(t: Text, i: nat) returns (c: Spelling)
    requires i <= |t| && At(t, i) != '"' && Chars(t, i).Closed?
    ensures SpellingOk(c) && c != Plain(127 as char)
    ensures var n := i + |SpellingText(c)|;
            i < n <= |t| && t[i..n] == SpellingText(c) && Chars(t, n).Closed? && Chars(t, n).next == Chars(t, i).next &&
            Chars(t, i).chars == [if c.Plain? then c.c else Meaning(c.c)] + Chars(t, n).chars
  {
    c := if At(t, i) == '\\' then Escape(At(t, i + 1)) else Plain(At(t, i));
  }

  lemma {:induction false} CharsWritten(t: Text, i: nat) returns (s: seq<Spelling>)
    requires i <= |t| && Chars(t, i).Closed?
    ensures SpelledOk(s) && NoDel(s) && SpelledText(s) + "\"" == t[i..Chars(t, i).next]
    ensures Spelled(s) == Chars(t, i).chars
    decreases |t| - i
  {
    if At(t, i) == '"' {
      s := [];
    } else {
      var c := CharWritten(t, i);
      hide Chars, SpellingText, SpellingOk, Meaning;
      var rest := CharsWritten(t, i + |SpellingText(c)|);
      s := [c] + rest;
      assert s[1..] == rest;
      Glue(t, i, i + |SpellingText(c)|, Chars(t, i).next);
      assert SpelledText(s) + "\"" == SpellingText(c) + (SpelledText(rest) + "\"");
    }
  }

  lemma {:induction false} StringWritten(t: Text, i: nat) returns (s: seq<Spelling>)
    requires i < |t| && At(t, i) == '"' && StringAt(t, i).Ok?
    ensures SpelledOk(s) && NoDel(s) && Quote(s) == t[i..StringAt(t, i).next] && Spelled(s) == StringAt(t, i).value
  {
    hide Chars, SpelledText, SpelledOk, NoDel, Spelled;
    s := CharsWritten(t, i + 1);
    Glue(t, i, i + 1, StringAt(t, i).next);
    assert t[i..i + 1] == "\"";
  }

  lemma {:induction false} ExponentWritten(t: Text, i: nat, fraction: bool) returns (mark: string, power: string)
    requires i <= |t| && ExponentFrom(t, i, fraction).Ok?
    ensures mark + power == t[i..ExponentFrom(t, i, fraction).next] && AllDigits(power)
    ensures mark == "" ==> power == ""
    ensures mark != "" ==> IsMark(mark) && (At(t, ExponentFrom(t, i, fraction).next) == NUL ==> power != "")
    ensures ExponentFrom(t, i, fraction).value == (fraction || (|mark| > 1 && mark[1] == '-'))
  {
    if At(t, i) == 'e' || At(t, i) == 'E' {
      var k := if At(t, i + 1) == '-' || At(t, i + 1) == '+' then i + 2 else i + 1;
      mark, power := t[i..k], t[k..SkipDigits(t, k)];
      assert mark[1..] == if k == i + 1 then "" else [t[i + 1]];
      DigitsTaken(t, k);
      Glue(t, i, k, SkipDigits(t, k));
    } else {
      mark, power := "", "";
    }
  }

  /** The rest of a number from its point. */
  lemma {:induction false} PointWritten(t: Text, i: nat, sign: string, whole: string) returns (n: Numeral)
    requires At(t, i) == '.' && At(t, i + 1) != NUL && ExponentFrom(t, SkipDigits(t, i + 1), true).Ok?
    requires IsSign(sign) && AllDigits(whole) && (sign == "" ==> whole != [])
    ensures NumeralOk(n) && n.sign == sign && n.whole == whole && n.point
    ensures var end := ExponentFrom(t, SkipDigits(t, i + 1), true).next;
            PointText(n) + ExponentText(n) == t[i..end] && (At(t, end) == NUL ==> EndsInDigit(n))
    ensures ExponentFrom(t, SkipDigits(t, i + 1), true).value
  {
    hide IsMark, IsSign, ExponentFrom, AllDigits;
    var k := SkipDigits(t, i + 1);
    var end := ExponentFrom(t, k, true).next;
    DigitsTaken(t, i + 1);
    var mark, power := ExponentWritten(t, k, true);
    n := Numeral(sign, whole, true, t[i + 1..k], mark, power);
    Glue(t, i, k, end);
    Glue(t, i, i + 1, k);
    assert t[i..i + 1] == ".";
    if mark == "" { assert end == k; }
  }

  lemma {:induction false} PointlessWritten(t: Text, i: nat, sign: string, whole: string) returns (n: Numeral)
    requires i <= |t| && ExponentFrom(t, i, false).Ok?
    requires IsSign(sign) && AllDigits(whole) && (sign == "" ==> whole != [])
    ensures NumeralOk(n) && n.sign == sign && n.whole == whole && !n.point
    ensures var end := ExponentFrom(t, i, false).next;
            PointText(n) + ExponentText(n) == t[i..end] &&
            (At(t, end) == NUL && (end > i || whole != []) ==> EndsInDigit(n))
    ensures ExponentFrom(t, i, false).value == NegativeExponent(n)
  {
    hide IsMark, IsSign, ExponentFrom;
    var mark, power := ExponentWritten(t, i, false);
    n := Numeral(sign, whole, false, [], mark, power);
  }

  lemma {:induction false} UnsignedWritten(t: Text, i: nat, sign: string) returns (n: Numeral)
    requires i <= |t| && NumberFrom(t, i).Ok? && IsSign(sign) && (sign == "" ==> IsDigit(At(t, i)))
    ensures NumeralOk(n) && n.sign == sign
    ensures n.whole + (PointText(n) + ExponentText(n)) == t[i..NumberFrom(t, i).next]
    ensures NumberFrom(t, i).value == (n.point || NegativeExponent(n))
    ensures At(t, NumberFrom(t, i).next) == NUL ==> EndsInDigit(n)
  {
    hide ExponentFrom, AllDigits, IsSign, NumeralOk, EndsInDigit, PointText, ExponentText, NegativeExponent;
    var j := SkipDigits(t, i);
    DigitsTaken(t, i);
    Glue(t, i, j, NumberFrom(t, i).next);
    if At(t, j) == '.' {
      n := PointWritten(t, j, sign, t[i..j]);
    } else {
      n := PointlessWritten(t, j, sign, t[i..j]);
    }
  }

  lemma {:induction false} NumberWritten(t: Text, i: nat) returns (n: Numeral)
    requires i < |t| && (IsDigit(At(t, i)) || At(t, i) == '-' || At(t, i) == '+') && NumberAt(t, i).Ok?
    ensures NumeralOk(n) && NumeralText(n) == t[i..NumberAt(t, i).next]
    ensures NumberAt(t, i).value == Value(DocNumber(n))
    ensures At(t, NumberAt(t, i).next) == NUL ==> EndsInDigit(n)
  {
    hide NumberFrom, SkipDigits, PointText, ExponentText, NegativeExponent, EndsInDigit, NumeralOk;
    var j := if At(t, i) == '-' || At(t, i) == '+' then i + 1 else i;
    n := UnsignedWritten(t, j, t[i..j]);
    Glue(t, i, j, NumberAt(t, i).next);
  }

  lemma {:induction false} LiteralWritten(t: Text, i: nat, literal: string, v: Json)
    requires i < |t| && literal != [] && LiteralAt(t, i, literal, v).Ok?
    ensures LiteralAt(t, i, literal, v).value == v && literal == t[i..LiteralAt(t, i, literal, v).next]
  {
  }

  lemma {:induction false} Headed(t: Text, i: nat, k: nat)
    requires i < k <= |t|
    ensures [t[i]] + t[i + 1..k] == t[i..k]
  {
  }

  /** Whatever is read as a value is the text of a clean tree of that value. */
  lemma {:induction false} ValueWritten(t: Text, i: nat) returns (doc: Doc)
    requires i <= |t| && ValueAt(t, i).Ok?
    ensures Written(doc, false) && Clean(doc) && Value(doc) == ValueAt(t, i).value
    ensures DocText(doc) == t[i..ValueAt(t, i).next]
    ensures At(t, ValueAt(t, i).next) == NUL ==> MayEnd(doc)
    decreases |t| - i, 0
  {
    hide NumberAt, StringAt, LiteralAt, MembersFrom, ItemsFrom, Quote, NumeralText, NumeralOk, SpelledOk, Spelled;
    hide NoDel, EndsInDigit, SkipWhitespace, MembersText, ItemsText, MembersWritten, ItemsWritten, MembersClean;
    hide ItemsClean, MemberValues, ItemValues, NegativeExponent;
    var c := At(t, i);
    if IsDigit(c) || c == '+' || c == '-' {
      var n := NumberWritten(t, i);
      doc := DocNumber(n);
    } else if c == '{' {
      doc := ObjectWritten(t, i + 1);
      Headed(t, i, ValueAt(t, i).next);
    } else if c == '[' {
      doc := ArrayWritten(t, i + 1);
      Headed(t, i, ValueAt(t, i).next);
    } else if c == '"' {
      var s := StringWritten(t, i);
      doc := DocString(s);
    } else if c == 't' {
      LiteralWritten(t, i, "true", True);
      doc := DocTrue;
    } else if c == 'f' {
      LiteralWritten(t, i, "false", False);
      doc := DocFalse;
    } else {
      LiteralWritten(t, i, "null", Null);
      doc := DocNull;
    }
  }

  /** The object whose opening brace is before i. */
  lemma {:induction false} ObjectWritten(t: Text, i: nat) returns (doc: Doc)
    requires i <= |t| && MembersFrom(t, i).Ok?
    ensures Written(doc, false) && Clean(doc) && MayEnd(doc) && Value(doc) == Object(MembersFrom(t, i).value)
    ensures DocText(doc) == "{" + t[i..MembersFrom(t, i).next]
    decreases |t| - i, 3
  {
    hide MembersFrom, MembersText, MembersWritten, MembersClean, MemberValues;
    if At(t, i) == '}' {
      NoMembers(t, i);
      NoValues();
      NothingWritten();
      doc := DocObject([], []);
      assert t[i..i + 1] == [] + "}";
    } else {
      var ms := MembersWrittenFrom(t, i, i);
      doc := DocObject(ms, []);
    }
  }

  lemma {:induction false} NothingWritten()
    ensures MembersWritten([], false) && MembersClean([]) && ItemsWritten([], false) && ItemsClean([])
  {
  }

  /** The array whose opening bracket is before i. */
  lemma {:induction false} ArrayWritten(t: Text, i: nat) returns (doc: Doc)
    requires i <= |t| && ItemsFrom(t, SkipWhitespace(t, i)).Ok?
    ensures Written(doc, false) && Clean(doc) && MayEnd(doc)
    ensures Value(doc) == Array(ItemsFrom(t, SkipWhitespace(t, i)).value)
    ensures DocText(doc) == "[" + t[i..ItemsFrom(t, SkipWhitespace(t, i)).next]
    decreases |t| - i, 3
  {
    hide ItemsFrom, SkipWhitespace, ItemsText, ItemsWritten, ItemsClean, ItemValues;
    var j := SkipWhitespace(t, i);
    SpaceTaken(t, i);
    if At(t, j) == ']' {
      NoItems(t, j);
      NothingWritten();
      doc := DocArray([], t[i..j]);
      Glue(t, i, j, j + 1);
      assert t[j..j + 1] == "]";
    } else {
      var vs := ItemsWrittenFrom(t, i, j);
      doc := DocArray(vs, []);
    }
  }

  lemma {:induction false} MemberParts(t: Text, i: nat) returns (n: nat, colon: nat, start: nat, end: nat)
    requires i <= |t| && MemberAt(t, i).Ok?
    ensures i < n <= colon < start < end <= |t| && At(t, i) == '"' && At(t, colon) == ':'
    ensures colon == SkipWhitespace(t, n) && start == SkipWhitespace(t, colon + 1)
    ensures StringAt(t, i).Ok? && n == StringAt(t, i).next && ValueAt(t, start).Ok? && end == ValueAt(t, start).next
    ensures MemberAt(t, i) == Ok(Member(StringAt(t, i).value, ValueAt(t, start).value), end)
  {
    hide StringAt, ValueAt, SkipWhitespace;
    n := StringAt(t, i).next;
    colon := SkipWhitespace(t, n);
    start := SkipWhitespace(t, colon + 1);
    end := ValueAt(t, start).next;
  }

  lemma {:induction false} MemberGlue(t: Text, i: nat, n: nat, colon: nat, start: nat, end: nat)
    requires i <= n <= colon < start <= end <= |t| && At(t, colon) == ':'
    ensures t[i..n] + (t[n..colon] + (":" + (t[colon + 1..start] + t[start..end]))) == t[i..end]
  {
    Glue(t, colon + 1, start, end);
    assert t[colon..end] == ":" + t[colon + 1..end];
    Glue(t, n, colon, end);
    Glue(t, i, n, end);
  }

  lemma {:induction false} MemberOf(name: seq<Spelling>, a: string, b: string, doc: Doc) returns (m: DocMember)
    requires SpelledOk(name) && NoDel(name) && AllSpace(a) && AllSpace(b) && Written(doc, false) && Clean(doc)
    ensures m == DocMember([], name, a, b, doc, []) && MemberWritten(m, false) && MemberClean(m)
    ensures MemberValue(m) == Member(Spelled(name), Value(doc))
    ensures MemberCore(m) == Quote(name) + (a + (":" + (b + DocText(doc))))
  {
    assert AllSpace([]);
    hide Quote, DocText, SpelledOk, Spelled, NoDel, Written, Clean, Value, AllSpace;
    m := DocMember([], name, a, b, doc, []);
  }

  lemma {:induction false} MemberWrittenAt(t: Text, i: nat) returns (m: DocMember)
    requires i <= |t| && MemberAt(t, i).Ok?
    ensures MemberWritten(m, false) && MemberClean(m) && MemberValue(m) == MemberAt(t, i).value
    ensures m.before == m.after == [] && MemberCore(m) == t[i..MemberAt(t, i).next]
    decreases |t| - i, 1
  {
    hide *;
    var n, colon, start, end := MemberParts(t, i);
    var name := StringWritten(t, i);
    SpaceTaken(t, n);
    SpaceTaken(t, colon + 1);
    var doc := ValueWritten(t, start);
    m := MemberOf(name, t[n..colon], t[colon + 1..start], doc);
    MemberGlue(t, i, n, colon, start, end);
  }

  lemma {:induction false} MemberSpaced(m: DocMember, before: string, after: string)
    requires MemberWritten(m, false) && AllSpace(before) && AllSpace(after)
    ensures var s := m.(before := before, after := after);
            MemberWritten(s, false) && MemberClean(s) == MemberClean(m) && MemberValue(s) == MemberValue(m) &&
            MemberCore(s) == MemberCore(m)
  {
    hide Written, SpelledOk, AllSpace, DocText, Quote, Value, Spelled, Clean, NoDel;
  }

  lemma {:induction false} FirstWritten(m: DocMember, ms: seq<DocMember>)
    requires MemberWritten(m, false) && MemberClean(m) && MembersWritten(ms, false) && MembersClean(ms)
    ensures var all := [m] + ms;
            MembersWritten(all, false) && MembersClean(all) &&
            MemberValues(all) == [MemberValue(m)] + MemberValues(ms) &&
            MembersText(all) ==
            m.before + (MemberCore(m) + (m.after + if ms == [] then "}" else "," + MembersText(ms)))
  {
    hide MemberWritten, MemberClean, MemberValue, MemberCore;
    assert ([m] + ms)[1..] == ms;
  }

  /** From the end of a value over a comma to the next one. */
  lemma {:induction false} CommaTaken(t: Text, i: nat, terminator: char)
    requires i <= |t| && NextValue(t, i, terminator).Ok? && terminator != ','
    ensures var j, next := SkipWhitespace(t, i), NextValue(t, i, terminator).next;
            if At(t, next) == terminator then next == j
            else next == SkipWhitespace(t, j + 1) && j < |t| && AllSpace(t[j + 1..next]) && t[j..j + 1] == ","
    ensures AllSpace(t[i..SkipWhitespace(t, i)])
  {
    hide AllSpace, SkipWhitespace;
    SpaceTaken(t, i);
    var j := SkipWhitespace(t, i);
    if At(t, j) == ',' { SpaceTaken(t, j + 1); }
  }

  lemma {:induction false} MembersParts(t: Text, i: nat)
    returns (start: nat, n: nat, j: nat, next: nat, end: nat)
    requires i <= |t| && At(t, i) != '}' && MembersFrom(t, i).Ok?
    ensures start == SkipWhitespace(t, i) && AllSpace(t[i..start])
    ensures MemberAt(t, start).Ok? && i <= start < n == MemberAt(t, start).next && j == SkipWhitespace(t, n)
    ensures n <= j <= next <= |t| && next <= end <= |t| && AllSpace(t[n..j])
    ensures if At(t, next) == '}' then next == j && end == next + 1
            else j < next && AllSpace(t[j + 1..next]) && t[j..j + 1] == "," && MembersFrom(t, next).Ok? &&
                 end == MembersFrom(t, next).next
    ensures MembersFrom(t, i) ==
            Ok([MemberAt(t, start).value] + if At(t, next) == '}' then [] else MembersFrom(t, next).value, end)
  {
    hide MemberAt, NextValue, SkipWhitespace, AllSpace;
    start := SkipWhitespace(t, i);
    SpaceTaken(t, i);
    n := MemberAt(t, start).next;
    j, next, end := SkipWhitespace(t, n), NextValue(t, n, '}').next, MembersFrom(t, i).next;
    CommaTaken(t, n, '}');
  }

  lemma {:induction false} MembersWrittenFrom(t: Text, from: nat, i: nat) returns (ms: seq<DocMember>)
    requires from <= i <= |t| && AllSpace(t[from..i]) && At(t, i) != '}' && MembersFrom(t, i).Ok?
    ensures ms != [] && MembersWritten(ms, false) && MembersClean(ms)
    ensures MemberValues(ms) == MembersFrom(t, i).value && MembersText(ms) == t[from..MembersFrom(t, i).next]
    decreases |t| - i, 2
  {
    hide MemberAt, NextValue, SkipWhitespace, MemberWritten, MemberClean, MemberValue, MemberCore, AllSpace;
    hide MembersText, MembersWritten, MembersClean, MemberValues, MembersFrom;
    var start, n, j, next, end := MembersParts(t, i);
    SpaceGlue(t, from, i, start);
    var m := MemberWrittenAt(t, start);
    MemberSpaced(m, t[from..start], t[n..j]);
    m := m.(before := t[from..start], after := t[n..j]);
    Glue(t, from, start, end);
    Glue(t, start, n, end);
    Glue(t, n, j, end);
    if At(t, next) == '}' {
      NoMembers(t, next);
      NoValues();
      NothingWritten();
      assert t[j..end] == "}";
      FirstWritten(m, []);
      ms := [m] + [];
    } else {
      var rest := MembersWrittenFrom(t, j + 1, next);
      Glue(t, j, j + 1, end);
      FirstWritten(m, rest);
      ms := [m] + rest;
    }
  }

  lemma {:induction false} SpaceGlue(t: Text, i: nat, j: nat, k: nat)
    requires i <= j <= k <= |t| && AllSpace(t[i..j]) && AllSpace(t[j..k])
    ensures AllSpace(t[i..k])
  {
    Glue(t, i, j, k);
  }

  lemma {:induction false} FirstItemWritten(v: DocItem, vs: seq<DocItem>)
    requires ItemWritten(v, false) && Clean(v.doc) && ItemsWritten(vs, false) && ItemsClean(vs)
    ensures var all := [v] + vs;
            ItemsWritten(all, false) && ItemsClean(all) && ItemValues(all) == [Value(v.doc)] + ItemValues(vs) &&
            ItemsText(all) == v.before + (DocText(v.doc) + (v.after + if vs == [] then "]" else "," + ItemsText(vs)))
  {
    hide ItemWritten, Clean, Value, DocText;
    assert ([v] + vs)[1..] == vs;
  }

  lemma {:induction false} ItemsParts(t: Text, i: nat) returns (n: nat, j: nat, next: nat, end: nat)
    requires i <= |t| && At(t, i) != ']' && ItemsFrom(t, i).Ok?
    ensures ValueAt(t, i).Ok? && i < n == ValueAt(t, i).next && j == SkipWhitespace(t, n)
    ensures n <= j <= next <= |t| && next <= end <= |t| && AllSpace(t[n..j])
    ensures if At(t, next) == ']' then next == j && end == next + 1
            else j < next && AllSpace(t[j + 1..next]) && t[j..j + 1] == "," && ItemsFrom(t, next).Ok? &&
                 end == ItemsFrom(t, next).next
    ensures ItemsFrom(t, i) ==
            Ok([ValueAt(t, i).value] + if At(t, next) == ']' then [] else ItemsFrom(t, next).value, end)
  {
    hide ValueAt, NextValue, SkipWhitespace, AllSpace;
    n := ValueAt(t, i).next;
    j, next, end := SkipWhitespace(t, n), NextValue(t, n, ']').next, ItemsFrom(t, i).next;
    CommaTaken(t, n, ']');
  }

  lemma {:induction false} ItemsWrittenFrom(t: Text, from: nat, i: nat) returns (vs: seq<DocItem>)
    requires from <= i <= |t| && AllSpace(t[from..i]) && At(t, i) != ']' && ItemsFrom(t, i).Ok?
    ensures vs != [] && ItemsWritten(vs, false) && ItemsClean(vs)
    ensures ItemValues(vs) == ItemsFrom(t, i).value && ItemsText(vs) == t[from..ItemsFrom(t, i).next]
    decreases |t| - i, 2
  {
    hide ValueAt, NextValue, SkipWhitespace, Written, Clean, Value, DocText, AllSpace;
    hide ItemsText, ItemsWritten, ItemsClean, ItemValues, MayEnd, ItemsFrom;
    var n, j, next, end := ItemsParts(t, i);
    var doc := ValueWritten(t, i);
    var v := DocItem(t[from..i], doc, t[n..j]);
    Glue(t, from, i, end);
    Glue(t, i, n, end);
    Glue(t, n, j, end);
    if At(t, next) == ']' {
      NoItems(t, next);
      NothingWritten();
      assert t[j..end] == "]";
      FirstItemWritten(v, []);
      vs := [v] + [];
    } else {
      var rest := ItemsWrittenFrom(t, j + 1, next);
      Glue(t, j, j + 1, end);
      FirstItemWritten(v, rest);
      vs := [v] + rest;
    }
  }

  // ---- the texts of the grammar are C strings ------------------------------------------------------

  lemma {:induction false} SpelledPlain(s: seq<Spelling>)
    requires SpelledOk(s)
    ensures NUL !in SpelledText(s)
  {
    if s != [] { SpelledPlain(s[1..]); }
  }

  /** No text of the grammar holds the character that ends a C string. */
  lemma {:induction false} DocPlain(doc: Doc)
    requires Written(doc, false)
    ensures NUL !in DocText(doc)
    decreases doc, 0
  {
    hide SpelledText, SpelledOk, MembersText, ItemsText, NumeralOk, NumeralText;
    match doc
    case DocObject(ms, _) => if ms != [] { MembersPlain(ms); }
    case DocArray(vs, _) => if vs != [] { ItemsPlain(vs); }
    case DocString(s) => SpelledPlain(s);
    case DocNumber(n) => NumeralPlain(n);
    case _ =>
  }

  lemma {:induction false} NumeralPlain(n: Numeral)
    requires NumeralOk(n)
    ensures NUL !in NumeralText(n)
  {
    assert NUL !in n.sign && NUL !in n.whole && NUL !in n.decimals && NUL !in n.power;
    assert NUL !in n.mark by { if n.mark != "" { assert n.mark == [n.mark[0]] + n.mark[1..]; } }
    hide NumeralOk;
  }

  lemma {:induction false} MembersPlain(ms: seq<DocMember>)
    requires ms != [] && MembersWritten(ms, false)
    ensures NUL !in MembersText(ms)
    decreases ms, 1
  {
    hide SpelledText, SpelledOk, DocText, Written;
    SpelledPlain(ms[0].name);
    DocPlain(ms[0].doc);
    if |ms| > 1 { MembersPlain(ms[1..]); }
  }

  lemma {:induction false} ItemsPlain(vs: seq<DocItem>)
    requires vs != [] && ItemsWritten(vs, false)
    ensures NUL !in ItemsText(vs)
    decreases vs, 1
  {
    hide DocText, Written;
    DocPlain(vs[0].doc);
    if |vs| > 1 { ItemsPlain(vs[1..]); }
  }

  // ---- the accepted texts ------------------------------------------------------------------------

  /** A text is parsed to a value exactly when it is a text of that value. */
  lemma {:induction false} ParsesIffWritten(t: Text, v: Json)
    ensures Parse(t) == Parsed(v) <==> Writes(v, t)
  {
    hide ValueAt, DocText, Value, Written, Clean, MayEnd;
    if Parse(t) == Parsed(v) {
      var doc := ValueWritten(t, 0);
      assert DocText(doc) == t;
    }
    if Writes(v, t) {
      var doc :| Written(doc, false) && Clean(doc) && MayEnd(doc) && DocText(doc) == t && Value(doc) == v;
      assert t[0..0 + |t|] == t;
      ValueReads(t, 0, doc);
    }
  }

  lemma {:induction false} StrictIsWritten(doc: Doc)
    requires Written(doc, true)
    ensures Written(doc, false) && MayEnd(doc)
    decreases doc, 0
  {
    match doc
    case DocObject(ms, _) => StrictMembers(ms);
    case DocArray(vs, _) => StrictItems(vs);
    case _ =>
  }

  lemma {:induction false} StrictMembers(ms: seq<DocMember>)
    requires MembersWritten(ms, true)
    ensures MembersWritten(ms, false)
    decreases ms, 1
  {
    if ms != [] {
      StrictIsWritten(ms[0].doc);
      StrictMembers(ms[1..]);
    }
  }

  lemma {:induction false} StrictItems(vs: seq<DocItem>)
    requires ItemsWritten(vs, true)
    ensures ItemsWritten(vs, false)
    decreases vs, 1
  {
    if vs != [] {
      StrictIsWritten(vs[0].doc);
      StrictItems(vs[1..]);
    }
  }

  /** Every text of RFC 8259 without \u, in any spelling and with any white space, is
    * parsed to its value, unless there is white space around the root or in an empty
    * object, or a DEL stands for itself; then it is an error. */
  lemma {:induction false} StandardParsesIff(before: string, doc: Doc, after: string)
    requires Written(doc, true) && AllSpace(before) && AllSpace(after)
    ensures NUL !in before + (DocText(doc) + after)
    ensures var t := before + (DocText(doc) + after);
            var taken := before == [] && after == [] && Clean(doc);
            if taken then Parse(t) == Parsed(Value(doc)) else Parse(t).Failed?
  {
    hide DocText, Written, Value, Clean, MayEnd, AllSpace, ValueAt;
    StrictIsWritten(doc);
    DocPlain(doc);
    SpacePlain(before);
    SpacePlain(after);
    var t: Text := before + (DocText(doc) + after);
    if before != [] {
      SpaceHead(before);
      SpaceBeforeRoot(t);
    } else {
      assert t == DocText(doc) + after;
      RootReads(t, doc, after);
    }
  }

  lemma {:induction false} SpacePlain(ws: string)
    requires AllSpace(ws)
    ensures NUL !in ws
  {
  }

  lemma {:induction false} RootReads(t: Text, doc: Doc, after: string)
    requires Written(doc, false) && AllSpace(after) && t == DocText(doc) + after
    ensures Reads(ValueAt(t, 0), Clean(doc) && (after == [] ==> MayEnd(doc)), Value(doc), |DocText(doc)|)
  {
    hide DocText, Written, Value, Clean, MayEnd, ValueAt;
    assert t[0..|t|] == t;
    SitsBoth(t, 0, DocText(doc), after);
    if after != [] { SitsHead(t, |DocText(doc)|, after); }
    ValueReads(t, 0, doc);
  }

  // ---- where the parser departs from the grammar ----------------------------------------------

  /** An empty object must be written without white space inside. */
  lemma {:induction false} SpacedEmptyObject(t: Text, gap: string)
    requires AllSpace(gap) && gap != [] && t == "{" + (gap + "}")
    ensures Parse(t) == Failed(Err(ExpectedValue, 1 + |gap|, NUL))
  {
    assert t[0..|t|] == t;
    SitsBoth(t, 0, "{", gap + "}");
    EmptyObject(t, 1, gap);
  }

  /** White space around the root value is an error, before it and after it. */
  lemma {:induction false} SpaceBeforeRoot(t: Text)
    requires IsSpace(At(t, 0))
    ensures Parse(t) == Failed(Err(ExpectedValue, 0, NUL))
  {
  }

  lemma {:induction false} SpaceAfterRoot(t: Text, doc: Doc, after: string)
    requires Written(doc, false) && Clean(doc) && AllSpace(after) && after != [] && t == DocText(doc) + after
    ensures Parse(t) == Failed(Err(UnexpectedChar, |DocText(doc)|, NUL))
  {
    hide DocText, Written, Value, ValueAt, Clean, MayEnd;
    RootReads(t, doc, after);
  }

  /** DEL may stand for itself in the grammar; the parser takes it for a control
    * character, whatever comes after it. */
  lemma {:induction false} DelRejected(t: Text, s: seq<Spelling>, rest: string)
    requires SpelledOk(s) && t == "\"" + (SpelledText(s) + ([127 as char] + rest))
    ensures Parse(t) == Failed(Err(InvalidString, 0, NUL))
  {
    hide SpelledText, SpelledOk, Chars;
    assert t[0..|t|] == t;
    SitsBoth(t, 0, "\"", SpelledText(s) + ([127 as char] + rest));
    SitsHead(t, 0, "\"");
    DelInvalid(t, 1, s, rest);
  }

  lemma {:induction false} DelInvalid(t: Text, i: nat, s: seq<Spelling>, rest: string)
    requires SpelledOk(s) && Sits(t, i, SpelledText(s) + ([127 as char] + rest))
    ensures Chars(t, i) == Invalid
    decreases |s|
  {
    hide Chars, SpellingOk, SpellingText;
    var tail := [127 as char] + rest;
    if s == [] {
      assert SpelledText(s) + tail == tail;
      SitsHead(t, i, tail);
      DelStops(t, i);
    } else {
      var e := SpellingText(s[0]);
      assert SpelledText(s) + tail == e + (SpelledText(s[1..]) + tail);
      SitsBoth(t, i, e, SpelledText(s[1..]) + tail);
      if s[0] == Plain(127 as char) {
        PlainText(s[0]);
        SitsHead(t, i, e);
        DelStops(t, i);
      } else {
        CharReads(t, i, s[0]);
        DelInvalid(t, i + |e|, s[1..], rest);
      }
    }
  }
}
