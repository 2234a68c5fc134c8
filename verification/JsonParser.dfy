/** json.c's parser: it unescapes strings in place, over the text it is parsing,
  * and the tree it builds points into that buffer. It agrees with the parser over
  * an unchanging text. */
module JsonParser {
  import opened Json

  /** A parsed value; strings and names are offsets into the buffer. */
  datatype Item =
    | IObject(members: seq<Entry>)
    | IArray(items: seq<Item>)
    | IString(at: nat)
    | INumber(fraction: bool, text: string)
    | ITrue
    | IFalse
    | INull

  datatype Entry = Entry(name: nat, value: Item)

  // ---- what a tree means in a buffer ---------------------------------------------------

  /** The characters from an offset to the terminator. */
  function CString(s: string, at: nat): string
    decreases |s| - at
  {
    if at >= |s| || s[at] == NUL then [] else [s[at]] + CString(s, at + 1)
  }

  function Deref(s: string, item: Item): Json
    decreases item, 0
  {
    match item
    case IObject(es) => Object(DerefEntries(s, es))
    case IArray(items) => Array(DerefItems(s, items))
    case IString(at) => String(CString(s, at))
    case INumber(fraction, text) => Number(fraction, text)
    case ITrue => True
    case IFalse => False
    case INull => Null
  }

  function DerefItems(s: string, items: seq<Item>): (js: seq<Json>)
    decreases items, 1
  {
    if items == [] then [] else [Deref(s, items[0])] + DerefItems(s, items[1..])
  }

  function DerefEntries(s: string, es: seq<Entry>): (ms: seq<Member>)
    decreases es, 1
  {
    if es == [] then [] else [DerefEntry(s, es[0])] + DerefEntries(s, es[1..])
  }

  function DerefEntry(s: string, e: Entry): Member
    decreases e, 0
  {
    Member(CString(s, e.name), Deref(s, e.value))
  }

  /** A string that lies in [lo, hi), terminator and all. */
  predicate StringInside(s: string, at: nat, lo: nat, hi: nat) {
    lo <= at && at + |CString(s, at)| < hi <= |s|
  }

  /** Everything an item points to lies in [lo, hi). */
  predicate Inside(s: string, item: Item, lo: nat, hi: nat)
    decreases item, 0
  {
    match item
    case IObject(es) => EntriesInside(s, es, lo, hi)
    case IArray(items) => ItemsInside(s, items, lo, hi)
    case IString(at) => StringInside(s, at, lo, hi)
    case _ => true
  }

  predicate ItemsInside(s: string, items: seq<Item>, lo: nat, hi: nat)
    decreases items, 1
  {
    items == [] || (Inside(s, items[0], lo, hi) && ItemsInside(s, items[1..], lo, hi))
  }

  predicate EntriesInside(s: string, es: seq<Entry>, lo: nat, hi: nat)
    decreases es, 1
  {
    es == [] || (EntryInside(s, es[0], lo, hi) && EntriesInside(s, es[1..], lo, hi))
  }

  predicate EntryInside(s: string, e: Entry, lo: nat, hi: nat)
    decreases e, 0
  {
    StringInside(s, e.name, lo, hi) && Inside(s, e.value, lo, hi)
  }

  // ---- what is stored stays readable -----------------------------------------------------

  /** s' is s from lo to hi. */
  predicate Same(s: string, s': string, lo: nat, hi: nat) {
    |s'| == |s| && lo <= hi <= |s| && forall k | lo <= k < hi :: s'[k] == s[k]
  }

  lemma {:induction false} StringStays(s: string, s': string, at: nat, lo: nat, hi: nat, lo': nat, hi': nat)
    requires StringInside(s, at, lo, hi) && Same(s, s', lo, hi) && lo' <= lo && hi <= hi' <= |s|
    ensures CString(s', at) == CString(s, at) && StringInside(s', at, lo', hi')
    decreases |s| - at
  {
    if s[at] != NUL {
      StringStays(s, s', at + 1, lo, hi, lo', hi');
    }
  }

  /** Whatever is written outside [lo, hi), items inside still mean the same. */
  lemma {:induction false} Stays(s: string, s': string, item: Item, lo: nat, hi: nat, lo': nat, hi': nat)
    requires Inside(s, item, lo, hi) && Same(s, s', lo, hi) && lo' <= lo && hi <= hi' <= |s|
    ensures Deref(s', item) == Deref(s, item) && Inside(s', item, lo', hi')
    decreases item, 0
  {
    match item
    case IObject(es) => EntriesStay(s, s', es, lo, hi, lo', hi');
    case IArray(items) => ItemsStay(s, s', items, lo, hi, lo', hi');
    case IString(at) => StringStays(s, s', at, lo, hi, lo', hi');
    case _ =>
  }

  lemma {:induction false} ItemsStay(s: string, s': string, items: seq<Item>, lo: nat, hi: nat, lo': nat, hi': nat)
    requires ItemsInside(s, items, lo, hi) && Same(s, s', lo, hi) && lo' <= lo && hi <= hi' <= |s|
    ensures DerefItems(s', items) == DerefItems(s, items) && ItemsInside(s', items, lo', hi')
    decreases items, 1
  {
    if items != [] {
      Stays(s, s', items[0], lo, hi, lo', hi');
      ItemsStay(s, s', items[1..], lo, hi, lo', hi');
    }
  }

  lemma {:induction false} EntriesStay(s: string, s': string, es: seq<Entry>, lo: nat, hi: nat, lo': nat, hi': nat)
    requires EntriesInside(s, es, lo, hi) && Same(s, s', lo, hi) && lo' <= lo && hi <= hi' <= |s|
    ensures DerefEntries(s', es) == DerefEntries(s, es) && EntriesInside(s', es, lo', hi')
    decreases es, 1
  {
    if es != [] {
      EntryStays(s, s', es[0], lo, hi, lo', hi');
      EntriesStay(s, s', es[1..], lo, hi, lo', hi');
    }
  }

  lemma {:induction false} EntryStays(s: string, s': string, e: Entry, lo: nat, hi: nat, lo': nat, hi': nat)
    requires EntryInside(s, e, lo, hi) && Same(s, s', lo, hi) && lo' <= lo && hi <= hi' <= |s|
    ensures DerefEntry(s', e) == DerefEntry(s, e) && EntryInside(s', e, lo', hi')
    decreases e, 0
  {
    StringStays(s, s', e.name, lo, hi, lo', hi');
    Stays(s, s', e.value, lo, hi, lo', hi');
  }

  lemma {:induction false} ItemsSnoc(s: string, items: seq<Item>, item: Item, lo: nat, hi: nat)
    requires ItemsInside(s, items, lo, hi) && Inside(s, item, lo, hi)
    ensures DerefItems(s, items + [item]) == DerefItems(s, items) + [Deref(s, item)]
    ensures ItemsInside(s, items + [item], lo, hi)
  {
    if items == [] {
      assert [] + [item] == [item];
    } else {
      ItemsSnoc(s, items[1..], item, lo, hi);
      assert (items + [item])[1..] == items[1..] + [item];
    }
  }

  lemma {:induction false} EntriesSnoc(s: string, es: seq<Entry>, e: Entry, lo: nat, hi: nat)
    requires EntriesInside(s, es, lo, hi) && EntryInside(s, e, lo, hi)
    ensures DerefEntries(s, es + [e]) == DerefEntries(s, es) + [DerefEntry(s, e)]
    ensures EntriesInside(s, es + [e], lo, hi)
  {
    if es == [] {
      assert [] + [e] == [e];
    } else {
      EntriesSnoc(s, es[1..], e, lo, hi);
      assert (es + [e])[1..] == es[1..] + [e];
    }
  }

  // ---- the buffer while parsing -------------------------------------------------------------

  /** From i on the buffer still holds the text and its terminator. */
  ghost predicate Unread(s: string, t: Text, i: nat) {
    |s| == |t| + 1 && forall k | i <= k <= |t| :: s[k] == At(t, k)
  }

  /** What a parse from lo to p's end has done to the buffer and returned. */
  ghost predicate Stored(s0: string, s: string, t: Text, lo: nat, r: Res<Item>, p: Res<Json>) {
    && Same(s0, s, 0, lo)
    && match p
       case Fail(e) => r == Fail(e)
       case Ok(v, n) => r.Ok? && r.next == n && Unread(s, t, n) && Inside(s, r.value, lo, n) && Deref(s, r.value) == v
  }

  method SkipSpace(buf: array<char>, start: nat, ghost t: Text) returns (i: nat)
    requires start <= |t| && Unread(buf[..], t, start)
    ensures i == SkipWhitespace(t, start)
  {
    i := start;
    while buf[i] != NUL && IsWhitespace(buf[i])
      invariant start <= i <= |t| && SkipWhitespace(t, i) == SkipWhitespace(t, start)
      decreases |t| - i
    {
      i := i + 1;
    }
  }

  method ScanDigits(buf: array<char>, start: nat, ghost t: Text) returns (i: nat)
    requires start <= |t| && Unread(buf[..], t, start)
    ensures i == SkipDigits(t, start)
  {
    i := start;
    while IsDigit(buf[i]) && buf[i] != NUL
      invariant start <= i <= |t| && SkipDigits(t, i) == SkipDigits(t, start)
      decreases |t| - i
    {
      i := i + 1;
    }
  }

  // ---- strings -----------------------------------------------------------------------------

  lemma {:induction false} CStringOf(s: string, at: nat, cs: string)
    requires NUL !in cs && at + |cs| < |s| && s[at..at + |cs|] == cs && s[at + |cs|] == NUL
    ensures CString(s, at) == cs
    decreases |cs|
  {
    if cs != [] {
      assert s[at] == cs[0];
      assert s[at + 1..at + 1 + |cs[1..]|] == cs[1..];
      CStringOf(s, at + 1, cs[1..]);
    }
  }

  lemma {:induction false} PrependTwice(a: string, b: string, s: Scan)
    ensures Prepend(a, Prepend(b, s)) == Prepend(a + b, s)
  {
    if s.Closed? { assert a + (b + s.chars) == a + b + s.chars; }
  }

  /** Half way through a string: what was read is unescaped behind the opening
    * quote, and nothing beyond i has changed. */
  ghost predicate Halfway(s: string, t: Text, open: nat, i: nat, stringIdx: nat, done: string) {
    && open < stringIdx <= i <= |t| && Unread(s, t, i)
    && Chars(t, open + 1) == Prepend(done, Chars(t, i))
    && stringIdx == open + 1 + |done| && s[open + 1..stringIdx] == done && NUL !in done
  }

  lemma {:induction false} HalfwayStep(s: string, t: Text, open: nat, i: nat, i': nat, stringIdx: nat, done: string,
          c: char)
    requires Halfway(s, t, open, i, stringIdx, done) && i < i' <= |t| && c != NUL
    requires Chars(t, i) == Prepend([c], Chars(t, i'))
    ensures Halfway(s[stringIdx := c], t, open, i', stringIdx + 1, done + [c])
  {
    hide Chars;
    PrependTwice(done, [c], Chars(t, i'));
    var s' := s[stringIdx := c];
    assert s'[open + 1..stringIdx + 1] == s[open + 1..stringIdx] + [c];
  }

  lemma {:induction false} HalfwayDone(s: string, t: Text, open: nat, i: nat, stringIdx: nat, done: string)
    requires Halfway(s, t, open, i, stringIdx, done) && At(t, i) == '"'
    ensures StringAt(t, open) == Ok(done, i + 1)
    ensures var s' := s[stringIdx := NUL];
      Unread(s', t, i + 1) && CString(s', open + 1) == done && StringInside(s', open + 1, open + 1, i + 1)
  {
    assert done + [] == done;
    var s' := s[stringIdx := NUL];
    assert s'[open + 1..stringIdx] == done;
    CStringOf(s', open + 1, done);
  }

  /** parse_string: characters move down over the escapes already read, the write
    * position never passing the read position. */
  method ParseString(buf: array<char>, open: nat, ghost t: Text) returns (r: Res<nat>)
    requires open < |t| && Unread(buf[..], t, open)
    modifies buf
    ensures Same(old(buf[..]), buf[..], 0, open + 1)
    ensures match StringAt(t, open)
      case Fail(e) => r == Fail(e)
      case Ok(cs, n) => (
        && r == Ok(open + 1, n) && Unread(buf[..], t, n)
        && CString(buf[..], open + 1) == cs && StringInside(buf[..], open + 1, open + 1, n))
  {
    hide CString;
    var i := open + 1;
    var stringIdx := i;
    var valid := true;
    ghost var done: string := [];
    while valid && buf[i] != NUL && buf[i] != '"'
      invariant open < stringIdx <= i && Same(old(buf[..]), buf[..], 0, open + 1)
      invariant if valid then Halfway(buf[..], t, open, i, stringIdx, done) else Chars(t, open + 1) == Invalid
      decreases |t| + 1 - i, valid
    {
      var c: char;
      ghost var from, s := i, buf[..];
      if buf[i] == '\\' {
        i := i + 1;
        valid := IsEscape(buf[i]);
        c := Escaped(buf[i]);
        if valid {
          buf[stringIdx] := c;
        }
      } else {
        valid := !IsControl(buf[i]);
        c := buf[i];
        buf[stringIdx] := c;
      }
      i := i + 1;
      if valid {
        HalfwayStep(s, t, open, from, i, stringIdx, done, c);
        assert buf[..] == s[stringIdx := c];
        done := done + [c];
      }
      stringIdx := stringIdx + 1;
    }
    if !valid {
      r := Fail(Err(InvalidString, open, NUL));
    } else if buf[i] == NUL {
      r := Fail(Err(MissingClosing, open, NUL));
    } else {
      HalfwayDone(buf[..], t, open, i, stringIdx, done);
      ghost var s := buf[..];
      buf[stringIdx] := NUL;
      assert buf[..] == s[stringIdx := NUL];
      r := Ok(open + 1, i + 1);
    }
  }

  // ---- numbers and literals -------------------------------------------------------------------

  lemma {:induction false} DigitRun(t: Text, i: nat)
    requires i < |t| && IsDigit(t[i])
    ensures SkipDigits(t, i) > i
  {
  }

  /** is_valid_number, with the type it chooses. */
  method ParseNumber(buf: array<char>, start: nat, ghost t: Text) returns (r: Res<Item>)
    requires start < |t| && Unread(buf[..], t, start)
    requires IsDigit(buf[start]) || buf[start] == '-' || buf[start] == '+'
    ensures Stored(buf[..], buf[..], t, start, r, NumberAt(t, start))
  {
    hide SkipDigits, ExponentFrom;
    if IsDigit(buf[start]) { DigitRun(t, start); }
    var fraction := false;
    var i := start;
    if buf[i] == '-' || buf[i] == '+' {
      i := i + 1;
    }
    if buf[i] == NUL {
      return Fail(Err(InvalidNumber, start, NUL));
    }
    i := ScanDigits(buf, i, t);
    if buf[i] == '.' {
      fraction := true;
      i := i + 1;
      if buf[i] == NUL {
        return Fail(Err(InvalidNumber, start, NUL));
      }
      i := ScanDigits(buf, i, t);
    }
    r := ParseExponent(buf, start, i, fraction, t);
  }

  /** The rest of is_valid_number, and the value. */
  method ParseExponent(buf: array<char>, start: nat, mantissaEnd: nat, isFraction: bool, ghost t: Text)
    returns (r: Res<Item>)
    requires start < mantissaEnd <= |t| && Unread(buf[..], t, start)
    ensures match ExponentFrom(t, mantissaEnd, isFraction)
      case Fail(_) => r == Fail(Err(InvalidNumber, start, NUL))
      case Ok(fraction, n) => r == Ok(INumber(fraction, t[start..n]), n)
  {
    hide SkipDigits;
    var fraction, i := isFraction, mantissaEnd;
    if buf[i] == 'e' || buf[i] == 'E' {
      i := i + 1;
      if buf[i] == '-' {
        fraction := true;
        i := i + 1;
      } else if buf[i] == '+' {
        i := i + 1;
      }
      if buf[i] == NUL {
        return Fail(Err(InvalidNumber, start, NUL));
      }
      i := ScanDigits(buf, i, t);
      if buf[i] == '.' {
        return Fail(Err(InvalidNumber, start, NUL));
      }
    }
    assert buf[start..i] == t[start..i];
    r := Ok(INumber(fraction, buf[start..i]), i);
  }

  method ParseTruthy(buf: array<char>, i: nat, ghost t: Text) returns (r: Res<Item>)
    requires i < |t| && Unread(buf[..], t, i) && buf[i] in {'t', 'f', 'n'}
    ensures Stored(buf[..], buf[..], t, i, r, ValueAt(t, i))
  {
    var literal, item;
    if buf[i] == 't' {
      literal, item := "true", ITrue;
    } else if buf[i] == 'f' {
      literal, item := "false", IFalse;
    } else {
      literal, item := "null", INull;
    }
    var n := i + |literal|;
    assert n <= |t| ==> buf[i..n] == t[i..n];
    if n < buf.Length && buf[i..n] == literal && Follows(buf[n]) {
      r := Ok(item, n);
    } else {
      r := Fail(Err(ExpectedTruthy, i, NUL));
    }
  }

  // ---- values -----------------------------------------------------------------------------------

  method SkipToNextValue(buf: array<char>, end: nat, terminator: char, ghost t: Text) returns (r: Res<()>)
    requires end <= |t| && Unread(buf[..], t, end)
    ensures r == NextValue(t, end, terminator)
  {
    var i := SkipSpace(buf, end, t);
    if buf[i] == ',' {
      var comma := i;
      i := SkipSpace(buf, i + 1, t);
      if buf[i] == terminator {
        r := Fail(Err(TrailingComma, comma, NUL));
      } else {
        r := Ok((), i);
      }
    } else if buf[i] == NUL {
      r := Fail(Err(UnexpectedEof, i, NUL));
    } else if buf[i] != terminator {
      r := Fail(Err(UnexpectedChar, i, ','));
    } else {
      r := Ok((), i);
    }
  }

  method ParseValue(buf: array<char>, i: nat, ghost t: Text) returns (r: Res<Item>)
    requires i <= |t| && Unread(buf[..], t, i)
    modifies buf
    ensures Stored(old(buf[..]), buf[..], t, i, r, ValueAt(t, i))
    decreases |t| - i, 1
  {
    var c := buf[i];
    if IsDigit(c) || c == '+' || c == '-' {
      r := ParseNumber(buf, i, t);
    } else if c == '{' {
      r := ParseObject(buf, i, t);
    } else if c == '[' {
      r := ParseArray(buf, i, t);
    } else if c == '"' {
      var s := ParseString(buf, i, t);
      r := if s.Ok? then Ok(IString(s.value), s.next) else Fail(s.err);
    } else if c == 't' || c == 'f' || c == 'n' {
      r := ParseTruthy(buf, i, t);
    } else {
      r := Fail(Err(ExpectedValue, i, NUL));
    }
  }

  /** What a member parse has done to the buffer and returned. */
  ghost predicate StoredEntry(s0: string, s: string, t: Text, lo: nat, r: Res<Entry>, p: Res<Member>) {
    && Same(s0, s, 0, lo)
    && match p
       case Fail(e) => r == Fail(e)
       case Ok(m, n) =>
         && r.Ok? && r.next == n
         && Unread(s, t, n) && EntryInside(s, r.value, lo, n) && DerefEntry(s, r.value) == m
  }

  /** parse_member: the name stays readable while the value is parsed. */
  method ParseMember(buf: array<char>, i: nat, ghost t: Text) returns (r: Res<Entry>)
    requires i <= |t| && Unread(buf[..], t, i)
    modifies buf
    ensures StoredEntry(old(buf[..]), buf[..], t, i, r, MemberAt(t, i))
    decreases |t| - i, 2
  {
    hide CString, Deref, Inside, SkipWhitespace, ValueAt, StringAt;
    if buf[i] != '"' {
      return Fail(Err(ExpectedValue, i, NUL));
    }
    var name := ParseString(buf, i, t);
    if name.Fail? {
      return Fail(name.err);
    }
    var colon := SkipSpace(buf, name.next, t);
    if buf[colon] != ':' {
      return Fail(Err(UnexpectedChar, colon, ':'));
    }
    var start := SkipSpace(buf, colon + 1, t);
    ghost var s := buf[..];
    var v := ParseValue(buf, start, t);
    if v.Fail? {
      return Fail(v.err);
    }
    StringStays(s, buf[..], name.value, i + 1, name.next, i, v.next);
    Stays(buf[..], buf[..], v.value, start, v.next, i, v.next);
    r := Ok(Entry(name.value, v.value), v.next);
  }

  lemma {:induction false} AndThenTwice<T>(a: seq<T>, b: seq<T>, r: Res<seq<T>>)
    ensures AndThen(a, AndThen(b, r)) == AndThen(a + b, r)
  {
    if r.Ok? { assert a + (b + r.value) == a + b + r.value; }
  }

  /** The entries parsed so far, and that the rest of the text decides the result. */
  ghost predicate SomeEntries(s: string, t: Text, open: nat, i: nat, es: seq<Entry>) {
    && open < i <= |t| && Unread(s, t, i) && EntriesInside(s, es, open, i)
    && MembersFrom(t, open + 1) == AndThen(DerefEntries(s, es), MembersFrom(t, i))
  }

  lemma {:induction false} EntryStep(s: string, s': string, t: Text, open: nat, i: nat, es: seq<Entry>, e: Entry,
          m: Member, at: nat, n: nat, j: nat)
    requires SomeEntries(s, t, open, i, es) && i <= at < n <= j <= |t|
    requires Same(s, s', 0, at) && Unread(s', t, n) && EntryInside(s', e, at, n) && DerefEntry(s', e) == m
    requires MembersFrom(t, i) == AndThen([m], MembersFrom(t, j))
    ensures SomeEntries(s', t, open, j, es + [e])
  {
    hide MembersFrom;
    EntriesStay(s, s', es, open, i, open, j);
    EntryStays(s', s', e, at, n, open, j);
    EntriesSnoc(s', es, e, open, j);
    AndThenTwice(DerefEntries(s, es), [m], MembersFrom(t, j));
  }

  method ParseObject(buf: array<char>, open: nat, ghost t: Text) returns (r: Res<Item>)
    requires open < |t| && Unread(buf[..], t, open) && buf[open] == '{'
    modifies buf
    ensures Stored(old(buf[..]), buf[..], t, open, r, ValueAt(t, open))
    decreases |t| - open, 0
  {
    hide EntriesInside, EntryInside, Inside, DerefEntries, DerefEntry, SkipWhitespace, MemberAt;
    var i := open + 1;
    var failed: Failure := NoErr;
    var es: seq<Entry> := [];
    NoEntries(buf[..], t, open);
    while failed.NoErr? && buf[i] != NUL && buf[i] != '}'
      invariant Same(old(buf[..]), buf[..], 0, open + 1)
      invariant if failed.NoErr? then SomeEntries(buf[..], t, open, i, es)
                else MembersFrom(t, open + 1) == Fail(failed.err)
      decreases |t| - i, failed.NoErr?
    {
      ghost var s := buf[..];
      var at := SkipSpace(buf, i, t);
      var e := ParseMember(buf, at, t);
      if e.Fail? {
        failed := SomeErr(e.err);
      } else {
        var next := SkipToNextValue(buf, e.next, '}', t);
        if next.Fail? {
          failed := SomeErr(next.err);
        } else {
          EntryStep(s, buf[..], t, open, i, es, e.value, MemberAt(t, at).value, at, e.next, next.next);
          es := es + [e.value];
          i := next.next;
        }
      }
    }
    if failed.SomeErr? {
      r := Fail(failed.err);
    } else if buf[i] == NUL {
      r := Fail(Err(UnexpectedEof, i, NUL));
    } else {
      ObjectDone(buf[..], t, open, i, es);
      r := Ok(IObject(es), i + 1);
    }
  }

  lemma {:induction false} NoEntries(s: string, t: Text, open: nat)
    requires open < |t| && Unread(s, t, open)
    ensures SomeEntries(s, t, open, open + 1, [])
  {
    var r := MembersFrom(t, open + 1);
    assert DerefEntries(s, []) == [];
    if r.Ok? { assert [] + r.value == r.value; }
  }

  lemma {:induction false} ObjectDone(s: string, t: Text, open: nat, i: nat, es: seq<Entry>)
    requires SomeEntries(s, t, open, i, es) && At(t, i) == '}'
    ensures MembersFrom(t, open + 1) == Ok(DerefEntries(s, es), i + 1)
    ensures Inside(s, IObject(es), open, i + 1) && Deref(s, IObject(es)) == Object(DerefEntries(s, es))
  {
    assert DerefEntries(s, es) + [] == DerefEntries(s, es);
    EntriesStay(s, s, es, open, i, open, i + 1);
  }

  ghost predicate SomeItems(s: string, t: Text, open: nat, start: nat, i: nat, items: seq<Item>) {
    && open < start <= i <= |t| && Unread(s, t, i) && ItemsInside(s, items, open, i)
    && ItemsFrom(t, start) == AndThen(DerefItems(s, items), ItemsFrom(t, i))
  }

  lemma {:induction false} ItemStep(s: string, s': string, t: Text, open: nat, start: nat, i: nat, items: seq<Item>,
          item: Item, v: Json, n: nat, j: nat)
    requires SomeItems(s, t, open, start, i, items) && i < n <= j <= |t|
    requires Same(s, s', 0, i) && Unread(s', t, n) && Inside(s', item, i, n) && Deref(s', item) == v
    requires ItemsFrom(t, i) == AndThen([v], ItemsFrom(t, j))
    ensures SomeItems(s', t, open, start, j, items + [item])
  {
    hide ItemsFrom;
    ItemsStay(s, s', items, open, i, open, j);
    Stays(s', s', item, i, n, open, j);
    ItemsSnoc(s', items, item, open, j);
    AndThenTwice(DerefItems(s, items), [v], ItemsFrom(t, j));
  }

  method ParseArray(buf: array<char>, open: nat, ghost t: Text) returns (r: Res<Item>)
    requires open < |t| && Unread(buf[..], t, open) && buf[open] == '['
    modifies buf
    ensures Stored(old(buf[..]), buf[..], t, open, r, ValueAt(t, open))
    decreases |t| - open, 0
  {
    hide ItemsInside, Inside, DerefItems, Deref, SkipWhitespace;
    var start := SkipSpace(buf, open + 1, t);
    var i := start;
    var failed: Failure := NoErr;
    var items: seq<Item> := [];
    NoItems(buf[..], t, open, start);
    while failed.NoErr? && buf[i] != NUL && buf[i] != ']'
      invariant Same(old(buf[..]), buf[..], 0, open + 1)
      invariant if failed.NoErr? then SomeItems(buf[..], t, open, start, i, items)
                else ItemsFrom(t, start) == Fail(failed.err)
      decreases |t| - i, failed.NoErr?
    {
      ghost var s := buf[..];
      var v := ParseValue(buf, i, t);
      if v.Fail? {
        failed := SomeErr(v.err);
      } else {
        var next := SkipToNextValue(buf, v.next, ']', t);
        if next.Fail? {
          failed := SomeErr(next.err);
        } else {
          ItemStep(s, buf[..], t, open, start, i, items, v.value, ValueAt(t, i).value, v.next, next.next);
          items := items + [v.value];
          i := next.next;
        }
      }
    }
    if failed.SomeErr? {
      r := Fail(failed.err);
    } else if buf[i] == NUL {
      r := Fail(Err(UnexpectedEof, i, NUL));
    } else {
      ArrayDone(buf[..], t, open, start, i, items);
      r := Ok(IArray(items), i + 1);
    }
  }

  lemma {:induction false} NoItems(s: string, t: Text, open: nat, start: nat)
    requires open < start <= |t| && Unread(s, t, start)
    ensures SomeItems(s, t, open, start, start, [])
  {
    var r := ItemsFrom(t, start);
    assert DerefItems(s, []) == [];
    if r.Ok? { assert [] + r.value == r.value; }
  }

  lemma {:induction false} ArrayDone(s: string, t: Text, open: nat, start: nat, i: nat, items: seq<Item>)
    requires SomeItems(s, t, open, start, i, items) && At(t, i) == ']'
    ensures ItemsFrom(t, start) == Ok(DerefItems(s, items), i + 1)
    ensures Inside(s, IArray(items), open, i + 1) && Deref(s, IArray(items)) == Array(DerefItems(s, items))
  {
    assert DerefItems(s, items) + [] == DerefItems(s, items);
    ItemsStay(s, s, items, open, i, open, i + 1);
  }

  datatype Failure = NoErr | SomeErr(err: Err)

  datatype Result = Tree(root: Item) | Error(err: Err)

  /** json_parse agrees with the pure parser on the text the buffer held: the same
    * errors at the same places, and a tree whose strings all still read as their
    * unescaped contents. */
  method JsonParse(buf: array<char>, ghost t: Text) returns (r: Result)
    requires buf[..] == t + [NUL]
    modifies buf
    ensures match Parse(t)
      case Parsed(v) => r.Tree? && Deref(buf[..], r.root) == v
      case Failed(e) => r == Error(e)
  {
    hide Deref, Inside;
    var v := ParseValue(buf, 0, t);
    if v.Ok? && buf[v.next] != NUL {
      r := Error(Err(UnexpectedChar, v.next, NUL));
    } else if v.Fail? {
      r := Error(v.err);
    } else {
      r := Tree(v.value);
    }
  }
}
