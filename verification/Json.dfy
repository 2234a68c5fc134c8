/** The JSON syntax the server accepts, as a parser over an unchanging text:
  * RFC 8259 without \u escapes and with a few liberties of its own. */
module Json {

  const NUL: char := '\0'

  /** A C string without its terminator. */
  type Text = s: string | NUL !in s

  function At(t: Text, i: nat): (c: char)
    ensures c == NUL <==> i >= |t|
  {
    if i < |t| then t[i] else NUL
  }

  datatype Json =
    | Object(members: seq<Member>)
    | Array(items: seq<Json>)
    | String(s: string)
    /** The text handed to atof, and whether the result is kept as a double. */
    | Number(fraction: bool, text: string)
    | True
    | False
    | Null

  datatype Member = Member(name: string, value: Json)

  datatype ErrType =
    | InvalidString | InvalidNumber | MissingClosing | TrailingComma
    | UnexpectedChar | UnexpectedEof | ExpectedTruthy | ExpectedValue

  datatype Err = Err(ty: ErrType, index: nat, expected: char)

  /** A value and the index behind it, or what went wrong. */
  datatype Res<+T> = Ok(value: T, next: nat) | Fail(err: Err)

  predicate IsWhitespace(c: char) { c == ' ' || c == '\n' || c == '\r' || c == '\t' }

  predicate IsDigit(c: char) { '0' <= c <= '9' }

  predicate IsControl(c: char) { c < ' ' || c == 127 as char }

  function SkipWhitespace(t: Text, i: nat): (j: nat)
    requires i <= |t|
    ensures i <= j <= |t|
    decreases |t| - i
  {
    if IsWhitespace(At(t, i)) then SkipWhitespace(t, i + 1) else i
  }

  function SkipDigits(t: Text, i: nat): (j: nat)
    requires i <= |t|
    ensures i <= j <= |t|
    decreases |t| - i
  {
    if IsDigit(At(t, i)) then SkipDigits(t, i + 1) else i
  }

  // ---- strings ---------------------------------------------------------------------

  predicate IsEscape(c: char) { c in {'"', '\\', '/', 'b', 'f', 'n', 'r', 't'} }

  function Escaped(c: char): char {
    if c == 'b' then 8 as char
    else if c == 'f' then 12 as char
    else if c == 'n' then '\n'
    else if c == 'r' then '\r'
    else if c == 't' then '\t'
    else c
  }

  datatype Scan = Closed(chars: string, next: nat) | Invalid | Open

  function Prepend(cs: string, s: Scan): Scan {
    if s.Closed? then Closed(cs + s.chars, s.next) else s
  }

  /** The characters of a string from i to its closing quote. */
  function Chars(t: Text, i: nat): (s: Scan)
    requires i <= |t|
    ensures s.Closed? ==> i < s.next <= |t|
    decreases |t| - i
  {
    var c := At(t, i);
    if c == NUL then Open
    else if c == '"' then Closed([], i + 1)
    else if c == '\\' then
      if IsEscape(At(t, i + 1)) then Prepend([Escaped(At(t, i + 1))], Chars(t, i + 2)) else Invalid
    else if IsControl(c) then Invalid
    else Prepend([c], Chars(t, i + 1))
  }

  function StringAt(t: Text, open: nat): (r: Res<string>)
    requires open < |t|
    ensures r.Ok? ==> open < r.next <= |t|
  {
    match Chars(t, open + 1)
    case Closed(cs, n) => Ok(cs, n)
    case Invalid => Fail(Err(InvalidString, open, NUL))
    case Open => Fail(Err(MissingClosing, open, NUL))
  }

  // ---- numbers and literals -----------------------------------------------------------

  /** The part of a number after its sign. */
  function NumberFrom(t: Text, i: nat): (r: Res<bool>)
    requires i <= |t|
    ensures r.Ok? ==> i <= r.next <= |t|
  {
    if At(t, i) == NUL then Fail(Err(InvalidNumber, i, NUL))
    else
      var j := SkipDigits(t, i);
      if At(t, j) == '.' then
        if At(t, j + 1) == NUL then Fail(Err(InvalidNumber, i, NUL))
        else ExponentFrom(t, SkipDigits(t, j + 1), true)
      else ExponentFrom(t, j, false)
  }

  function ExponentFrom(t: Text, j: nat, fraction: bool): (r: Res<bool>)
    requires j <= |t|
    ensures r.Ok? ==> j <= r.next <= |t|
  {
    if At(t, j) == 'e' || At(t, j) == 'E' then
      var k := if At(t, j + 1) == '-' || At(t, j + 1) == '+' then j + 2 else j + 1;
      if At(t, k) == NUL || At(t, SkipDigits(t, k)) == '.' then Fail(Err(InvalidNumber, j, NUL))
      else Ok(fraction || At(t, j + 1) == '-', SkipDigits(t, k))
    else Ok(fraction, j)
  }

  function NumberAt(t: Text, i: nat): (r: Res<Json>)
    requires i < |t| && (IsDigit(At(t, i)) || At(t, i) == '-' || At(t, i) == '+')
    ensures r.Ok? ==> i < r.next <= |t|
  {
    var signed := At(t, i) == '-' || At(t, i) == '+';
    match NumberFrom(t, if signed then i + 1 else i)
    case Ok(fraction, n) =>
      assert !signed ==> SkipDigits(t, i) > i;
      Ok(Number(fraction, t[i..n]), n)
    case Fail(_) => Fail(Err(InvalidNumber, i, NUL))
  }

  predicate Follows(c: char) { IsWhitespace(c) || c == ',' || c == ']' || c == '}' || c == NUL }

  function LiteralAt(t: Text, i: nat, literal: string, value: Json): (r: Res<Json>)
    requires i < |t| && literal != []
    ensures r.Ok? ==> i < r.next <= |t|
  {
    var n := i + |literal|;
    if n <= |t| && t[i..n] == literal && Follows(At(t, n)) then Ok(value, n)
    else Fail(Err(ExpectedTruthy, i, NUL))
  }

  // ---- values ---------------------------------------------------------------------------

  /** From the end of a value to the next one or to the terminator. */
  function NextValue(t: Text, i: nat, terminator: char): (r: Res<()>)
    requires i <= |t|
    ensures r.Ok? ==> i <= r.next <= |t|
    ensures r.Ok? && At(t, r.next) != terminator ==> i < r.next
  {
    var j := SkipWhitespace(t, i);
    if At(t, j) == ',' then
      var k := SkipWhitespace(t, j + 1);
      if At(t, k) == terminator then Fail(Err(TrailingComma, j, NUL)) else Ok((), k)
    else if At(t, j) == NUL then Fail(Err(UnexpectedEof, j, NUL))
    else if At(t, j) != terminator then Fail(Err(UnexpectedChar, j, ','))
    else Ok((), j)
  }

  function ValueAt(t: Text, i: nat): (r: Res<Json>)
    requires i <= |t|
    ensures r.Ok? ==> i < r.next <= |t|
    decreases |t| - i, 0
  {
    var c := At(t, i);
    if IsDigit(c) || c == '+' || c == '-' then NumberAt(t, i)
    else if c == '{' then
      match MembersFrom(t, i + 1) { case Ok(ms, n) => Ok(Object(ms), n) case Fail(e) => Fail(e) }
    else if c == '[' then
      match ItemsFrom(t, SkipWhitespace(t, i + 1)) { case Ok(vs, n) => Ok(Array(vs), n) case Fail(e) => Fail(e) }
    else if c == '"' then
      match StringAt(t, i) { case Ok(s, n) => Ok(String(s), n) case Fail(e) => Fail(e) }
    else if c == 't' then LiteralAt(t, i, "true", True)
    else if c == 'f' then LiteralAt(t, i, "false", False)
    else if c == 'n' then LiteralAt(t, i, "null", Null)
    else Fail(Err(ExpectedValue, i, NUL))
  }

  /** A name, a colon and a value. */
  function MemberAt(t: Text, i: nat): (r: Res<Member>)
    requires i <= |t|
    ensures r.Ok? ==> i < r.next <= |t|
    decreases |t| - i, 1
  {
    if At(t, i) != '"' then Fail(Err(ExpectedValue, i, NUL))
    else
      match StringAt(t, i)
      case Fail(e) => Fail(e)
      case Ok(name, n) =>
        var colon := SkipWhitespace(t, n);
        if At(t, colon) != ':' then Fail(Err(UnexpectedChar, colon, ':'))
        else
          match ValueAt(t, SkipWhitespace(t, colon + 1))
          case Fail(e) => Fail(e)
          case Ok(v, n') => Ok(Member(name, v), n')
  }

  function AndThen<T>(first: seq<T>, rest: Res<seq<T>>): Res<seq<T>> {
    if rest.Ok? then Ok(first + rest.value, rest.next) else rest
  }

  /** The members from i to the closing brace; white space is skipped before a
    * member, and so before the brace only after one. */
  function MembersFrom(t: Text, i: nat): (r: Res<seq<Member>>)
    requires i <= |t|
    ensures r.Ok? ==> i < r.next <= |t|
    decreases |t| - i, 2
  {
    if At(t, i) == NUL then Fail(Err(UnexpectedEof, i, NUL))
    else if At(t, i) == '}' then Ok([], i + 1)
    else
      match MemberAt(t, SkipWhitespace(t, i))
      case Fail(e) => Fail(e)
      case Ok(m, n) =>
        match NextValue(t, n, '}')
        case Fail(e) => Fail(e)
        case Ok(_, j) => AndThen([m], MembersFrom(t, j))
  }

  function ItemsFrom(t: Text, i: nat): (r: Res<seq<Json>>)
    requires i <= |t|
    ensures r.Ok? ==> i < r.next <= |t|
    decreases |t| - i, 2
  {
    if At(t, i) == NUL then Fail(Err(UnexpectedEof, i, NUL))
    else if At(t, i) == ']' then Ok([], i + 1)
    else
      match ValueAt(t, i)
      case Fail(e) => Fail(e)
      case Ok(v, n) =>
        match NextValue(t, n, ']')
        case Fail(e) => Fail(e)
        case Ok(_, j) => AndThen([v], ItemsFrom(t, j))
  }

  datatype Outcome = Parsed(value: Json) | Failed(err: Err)

  /** json_parse: one value and nothing around it. */
  function Parse(t: Text): Outcome {
    match ValueAt(t, 0)
    case Fail(e) => Failed(e)
    case Ok(v, n) => if n < |t| then Failed(Err(UnexpectedChar, n, NUL)) else Parsed(v)
  }
}
