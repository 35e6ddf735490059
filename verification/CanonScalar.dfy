/** Scalars of the canonical pack form: the printer of canon_yaml.go (style choice,
    escaping, implicit resolver) and a reader for the three styles it uses, written
    from YAML 1.2 sections 5.7, 7.3.1, 7.3.2 and 7.3.3. A string is a sequence of Unicode
    scalar values, which is what valid UTF-8 decodes to. */
module CanonScalar {
  import opened Wrappers

  datatype Tag = Str | Int | Float | Timestamp | Bool | Null | Other

  // ---------------------------------------------------------------------------
  // The implicit resolver: regular expressions and their derivatives
  // ---------------------------------------------------------------------------

  datatype Re = Never | Eps | In(chars: string) | Cat(Re, Re) | Alt(Re, Re) | Star(Re)

  predicate Nullable(r: Re) {
    match r
    case Never => false
    case Eps => true
    case In(_) => false
    case Cat(a, b) => Nullable(a) && Nullable(b)
    case Alt(a, b) => Nullable(a) || Nullable(b)
    case Star(_) => true
  }

  function Derive(r: Re, c: char): Re {
    match r
    case Never => Never
    case Eps => Never
    case In(cs) => if c in cs then Eps else Never
    case Cat(a, b) =>
      var d := Cat(Derive(a, c), b);
      if Nullable(a) then Alt(d, Derive(b, c)) else d
    case Alt(a, b) => Alt(Derive(a, c), Derive(b, c))
    case Star(a) => Cat(Derive(a, c), r)
  }

  /** The whole of `s` is in the language of `r`. */
  predicate Matches(r: Re, s: string)
    decreases |s|
  {
    if s == "" then Nullable(r) else Matches(Derive(r, s[0]), s[1..])
  }

  function Opt(r: Re): Re { Alt(Eps, r) }
  function Plus(r: Re): Re { Cat(r, Star(r)) }
  function Word(s: string): Re { if s == "" then Eps else Cat(In(s[..1]), Word(s[1..])) }
  function All(rs: seq<Re>): Re { if rs == [] then Eps else Cat(rs[0], All(rs[1..])) }
  function Any(rs: seq<Re>): Re { if rs == [] then Never else Alt(rs[0], Any(rs[1..])) }

  const DIGIT := In("0123456789")
  const SIGN := Opt(In("-+"))
  const DIGITS_U := Star(In("0123456789_"))
  const EXPONENT := Opt(All([In("eE"), In("-+"), Plus(DIGIT)]))
  const SEXAGESIMAL := Plus(All([In(":"), Opt(In("012345")), DIGIT]))
  const INF := Any([Word("inf"), Word("Inf"), Word("INF")])
  const NAN := Any([Word("nan"), Word("NaN"), Word("NAN")])

  const FLOAT_FORMS: seq<seq<Re>> := [
    [SIGN, DIGIT, DIGITS_U, In("."), DIGITS_U, EXPONENT],
    [In("."), DIGIT, DIGITS_U, EXPONENT],
    [SIGN, DIGIT, DIGITS_U, SEXAGESIMAL, In("."), DIGITS_U],
    [SIGN, In("."), INF],
    [In("."), NAN]]

  const INT_FORMS: seq<seq<Re>> := [
    [SIGN, In("0"), In("b"), Plus(In("01_"))],
    [SIGN, In("0"), Plus(In("01234567_"))],
    [SIGN, In("0")],
    [SIGN, In("123456789"), DIGITS_U],
    [SIGN, In("0"), In("x"), Plus(In("0123456789abcdefABCDEF_"))],
    [SIGN, In("123456789"), DIGITS_U, SEXAGESIMAL]]

  const BLANKS := In(" \t")
  const ZONE := Opt(All([In(":"), DIGIT, DIGIT]))
  const OFFSET := Alt(In("Z"), All([In("-+"), DIGIT, Opt(DIGIT), ZONE]))
  const TIMESTAMP_FORMS: seq<seq<Re>> := [
    [DIGIT, DIGIT, DIGIT, DIGIT, In("-"), DIGIT, DIGIT, In("-"), DIGIT, DIGIT],
    [DIGIT, DIGIT, DIGIT, DIGIT, In("-"), DIGIT, Opt(DIGIT), In("-"), DIGIT, Opt(DIGIT),
     Alt(In("Tt"), Plus(BLANKS)),
     DIGIT, Opt(DIGIT), In(":"), DIGIT, DIGIT, In(":"), DIGIT, DIGIT,
     Opt(Cat(In("."), Star(DIGIT))),
     Opt(Cat(Star(BLANKS), OFFSET))]]

  function OneOf(forms: seq<seq<Re>>): Re {
    if forms == [] then Never else Alt(All(forms[0]), OneOf(forms[1..]))
  }

  const RES_FLOAT := OneOf(FLOAT_FORMS)
  const RES_INT := OneOf(INT_FORMS)
  const RES_TIMESTAMP := OneOf(TIMESTAMP_FORMS)

  const RES_BOOL: set<string> := {
    "yes", "Yes", "YES", "no", "No", "NO", "true", "True", "TRUE",
    "false", "False", "FALSE", "on", "On", "ON", "off", "Off", "OFF"}
  const RES_NULL: set<string> := {"~", "null", "Null", "NULL", ""}

  /** The tag an unquoted scalar is read with (merge and value keys give Other). */
  function Resolve(s: string): Tag {
    if s in RES_NULL then Null
    else if s in RES_BOOL then Bool
    else if s == "<<" || s == "=" then Other
    else if Matches(RES_FLOAT, s) then Float
    else if Matches(RES_INT, s) then Int
    else if Matches(RES_TIMESTAMP, s) then Timestamp
    else Str
  }

  predicate ResolvesToNonString(s: string) {
    s in RES_BOOL || Matches(RES_FLOAT, s) || Matches(RES_INT, s) || s in RES_NULL
    || Matches(RES_TIMESTAMP, s) || s == "<<" || s == "="
  }

  lemma ResolvesAgree(s: string)
    ensures ResolvesToNonString(s) <==> Resolve(s) != Str
  {
  }

  // ---------------------------------------------------------------------------
  // The printer
  // ---------------------------------------------------------------------------

  predicate IsPrintable(c: char) {
    var r := c as int;
    if c == '\n' || c == '\t' then true
    else if r < 0x20 || 0x7f <= r <= 0x9f then false
    else if r == 0xfeff || 0xd800 <= r <= 0xdfff then false
    else true  // 0x20..0x7e is printable ASCII, and everything from 0xa0 on is allowed raw
  }

  const LEADING_INDICATORS := ",[]{}#&*!|>'\"%@`"

  predicate SingleLine(s: string) {
    forall i | 0 <= i < |s| :: s[i] != '\n' && s[i] != '\t' && IsPrintable(s[i])
  }

  predicate AllowPlain(s: string) {
    && s != ""
    && s[0] != ' ' && s[|s| - 1] != ' '
    && s[0] !in LEADING_INDICATORS
    && !(s[0] in "-?:" && (|s| == 1 || s[1] == ' '))
    && (forall i | 0 <= i < |s| :: s[i] == ':' ==> !(i + 1 == |s| || s[i + 1] == ' '))
    && (forall i | 0 < i < |s| :: s[i] == '#' ==> s[i - 1] != ' ')
    && SingleLine(s)
  }

  function DoubleSingleQuotes(s: string): string {
    if s == "" then ""
    else DoubleQuote(s[0]) + DoubleSingleQuotes(s[1..])
  }

  function HexDigit(d: nat): char
    requires d < 16
  {
    "0123456789ABCDEF"[d]
  }

  /** `v` in upper-case hexadecimal, zero-padded to `width` digits. */
  function Hex(v: nat, width: nat): string {
    if width == 0 then "" else Hex(v / 16, width - 1) + [HexDigit(v % 16)]
  }

  function EscapeChar(c: char): string {
    if c == '"' then "\\\""
    else if c == '\\' then "\\\\"
    else if c == '\n' then "\\n"
    else if c == '\t' then "\\t"
    else if IsPrintable(c) then [c]
    else if c as int <= 0xff then "\\x" + Hex(c as int, 2)
    else if c as int <= 0xffff then "\\u" + Hex(c as int, 4)
    else "\\U" + Hex(c as int, 8)
  }

  function Escape(s: string): string {
    if s == "" then "" else EscapeChar(s[0]) + Escape(s[1..])
  }

  /** Characters the emitter takes for printable and never escapes: the line breaks that YAML
      1.1 has beyond YAML 1.2, and two characters that are in no YAML stream. */
  const SEPARATORS: set<char> := {'\U{2028}', '\U{2029}'}
  const NONCHARACTERS: set<char> := {'\U{FFFE}', '\U{FFFF}'}

  predicate Odd(s: string) { exists c | c in s :: c in SEPARATORS || c in NONCHARACTERS }

  predicate PrintedPlain(s: string) { AllowPlain(s) && !ResolvesToNonString(s) }

  function Quoted(s: string): string {
    if SingleLine(s) then "'" + DoubleSingleQuotes(s) + "'" else "\"" + Escape(s) + "\""
  }

  function EmitStringScalar(s: string): string {
    if PrintedPlain(s) then s else Quoted(s)
  }

  /** A scalar node's text, or None for the tags and literals the emitter refuses. */
  function EmitScalar(tag: Tag, text: string): Option<string> {
    match tag
    case Str => Some(EmitStringScalar(text))
    case Int | Timestamp | Float => Some(text)
    case Bool =>
      if text in {"true", "false"} then Some(text)
      else if text in {"True", "TRUE"} then Some("true")
      else if text in {"False", "FALSE"} then Some("false")
      else None
    case Null => Some("null")
    case Other => None
  }

  // ---------------------------------------------------------------------------
  // The reader
  // ---------------------------------------------------------------------------

  /** A value read off the front of a line, and what follows it. */
  datatype Scanned = Scanned(value: string, rest: string)

  function Prepend(c: char, r: Option<Scanned>): Option<Scanned> {
    if r.None? then None else Some(Scanned([c] + r.value.value, r.value.rest))
  }

  /** Section 7.3.2, after the opening quote, on one line. */
  function ReadSingle(t: string): Option<Scanned> {
    if t == "" || t[0] == '\n' then None
    else if t[0] != '\'' then Prepend(t[0], ReadSingle(t[1..]))
    else if |t| > 1 && t[1] == '\'' then Prepend('\'', ReadSingle(t[2..]))
    else Some(Scanned("", t[1..]))
  }

  function HexValue(c: char): Option<nat> {
    if '0' <= c <= '9' then Some(c as int - '0' as int)
    else if 'A' <= c <= 'F' then Some(c as int - 'A' as int + 10)
    else if 'a' <= c <= 'f' then Some(c as int - 'a' as int + 10)
    else None
  }

  function ReadHex(t: string): Option<nat> {
    if t == "" then Some(0)
    else
      var hi, lo := ReadHex(t[..|t| - 1]), HexValue(t[|t| - 1]);
      if hi.None? || lo.None? then None else Some(16 * hi.value + lo.value)
  }

  /** A numeric escape of `width` digits at the front of `t`, as a character. */
  function ReadCodePoint(t: string, width: nat): Option<char> {
    if |t| < width then None
    else
      var v := ReadHex(t[..width]);
      if v.None? || !(v.value < 0xd800 || 0xe000 <= v.value < 0x11_0000) then None
      else Some(v.value as char)
  }

  /** Sections 7.3.1 and 5.7, after the opening quote, on one line. */
  function ReadDouble(t: string): Option<Scanned> {
    if t == "" || t[0] == '\n' then None
    else if t[0] == '"' then Some(Scanned("", t[1..]))
    else if t[0] != '\\' then Prepend(t[0], ReadDouble(t[1..]))
    else if |t| == 1 then None
    else if t[1] == '"' || t[1] == '\\' then Prepend(t[1], ReadDouble(t[2..]))
    else if t[1] == 'n' then Prepend('\n', ReadDouble(t[2..]))
    else if t[1] == 't' then Prepend('\t', ReadDouble(t[2..]))
    else
      var width := if t[1] == 'x' then 2 else if t[1] == 'u' then 4 else if t[1] == 'U' then 8 else 0;
      if width == 0 || |t| < 2 + width then None
      else
        var c := ReadCodePoint(t[2..], width);
        if c.None? then None else Prepend(c.value, ReadDouble(t[2 + width..]))
  }

  predicate IsWhite(c: char) { c == ' ' || c == '\t' }

  /** A ':' that ends an implicit key: at the end of the line or before white space. */
  predicate ColonAt(t: string, i: nat)
    requires i < |t|
  {
    t[i] == ':' && (i + 1 == |t| || IsWhite(t[i + 1]))
  }

  /** The shape of section 7.3.3: no indicator, comment or key separator in text that is one
      plain scalar on one line, in block context. */
  predicate PlainShape(t: string) {
    && t != ""
    && !IsWhite(t[0]) && !IsWhite(t[|t| - 1])
    && t[0] !in {',', '[', ']', '{', '}', '#', '&', '*', '!', '|', '>', '\'', '"', '%', '@', '`'}
    && !(t[0] in "-?:" && (|t| == 1 || IsWhite(t[1])))
    && (forall i | 0 <= i < |t| :: !ColonAt(t, i))
    && (forall i | 0 < i < |t| :: t[i] == '#' ==> !IsWhite(t[i - 1]))
    && (forall i | 0 <= i < |t| :: t[i] != '\n' && t[i] != '\r')
  }

  /** Section 5.1: the characters of a YAML stream. */
  predicate YamlPrintable(c: char) {
    c == '\t' || c == '\n' || c == '\r' || 0x20 <= c as int <= 0x7e || c as int == 0x85
    || 0xa0 <= c as int <= 0xd7ff || 0xe000 <= c as int <= 0xfffd || 0x1_0000 <= c as int
  }

  predicate Printable(t: string) { forall c | c in t :: YamlPrintable(c) }

  /** Section 7.3.3 with the characters it allows, which leave out the byte order mark. */
  predicate PlainText(t: string) { PlainShape(t) && Printable(t) && '\U{FEFF}' !in t }

  predicate IsQuoted(t: string) {
    t != "" && (t[0] == '\'' || t[0] == '"')
  }

  function ReadQuoted(t: string): Option<Scanned>
    requires IsQuoted(t)
  {
    if t[0] == '\'' then ReadSingle(t[1..]) else ReadDouble(t[1..])
  }

  /** The tag and value of a scalar that fills the rest of a line. */
  function ScanScalar(t: string): Option<(Tag, string)> {
    if IsQuoted(t) then
      var q := ReadQuoted(t);
      if q.Some? && q.value.rest == "" then Some((Str, q.value.value)) else None
    else if PlainShape(t) then Some((Resolve(t), t))
    else None
  }

  /** The same in a stream, which has to be printable throughout. */
  function ReadScalar(t: string): Option<(Tag, string)> {
    if Printable(t) then ScanScalar(t) else None
  }

  function PlainKeyEnd(t: string, i: nat): (r: Option<nat>)
    requires i <= |t|
    ensures r.Some? ==> i <= r.value < |t| && ColonAt(t, r.value)
    ensures forall j | i <= j < (if r.Some? then r.value else |t|) :: !ColonAt(t, j)
    decreases |t| - i
  {
    if i == |t| then None
    else if ColonAt(t, i) then Some(i)
    else PlainKeyEnd(t, i + 1)
  }

  /** A string key and its ':' at the front of a line; `rest` is what follows the ':'. */
  function ReadKey(t: string): Option<Scanned> {
    if IsQuoted(t) then
      var q := ReadQuoted(t);
      if q.Some? && q.value.rest != "" && ColonAt(q.value.rest, 0)
      then Some(Scanned(q.value.value, q.value.rest[1..]))
      else None
    else
      var e := PlainKeyEnd(t, 0);
      if e.Some? && PlainShape(t[..e.value]) && Resolve(t[..e.value]) == Str
      then Some(Scanned(t[..e.value], t[e.value + 1..]))
      else None
  }

  /** A block sequence entry starts the line. */
  predicate IsItem(t: string) {
    t != "" && t[0] == '-' && (|t| == 1 || IsWhite(t[1]))
  }

  // ---------------------------------------------------------------------------
  // Reading undoes printing
  // ---------------------------------------------------------------------------

  /** One character of a single-quoted scalar, a quote being doubled. */
  function DoubleQuote(c: char): string { if c == '\'' then "''" else [c] }

  lemma ReadSingleStep(c: char, tail: string)
    requires c != '\n'
    ensures ReadSingle(DoubleQuote(c) + tail) == Prepend(c, ReadSingle(tail))
  {
    var t := DoubleQuote(c) + tail;
    assert t[|DoubleQuote(c)|..] == tail;
  }

  lemma ReadSingleEnd(rest: string)
    requires rest == "" || rest[0] != '\''
    ensures ReadSingle("'" + rest) == Some(Scanned("", rest))
  {
  }

  lemma {:induction false} ReadSingleUndoes(s: string, rest: string)
    requires SingleLine(s)
    requires rest == "" || rest[0] != '\''
    ensures ReadSingle(DoubleSingleQuotes(s) + "'" + rest) == Some(Scanned(s, rest))
  {
    hide ReadSingle, DoubleQuote, IsPrintable;
    if s == "" {
      ReadSingleEnd(rest);
      assert DoubleSingleQuotes(s) + "'" + rest == "'" + rest;
    } else {
      var tail := DoubleSingleQuotes(s[1..]) + "'" + rest;
      ReadSingleUndoes(s[1..], rest);
      ReadSingleStep(s[0], tail);
      assert DoubleSingleQuotes(s) + "'" + rest == DoubleQuote(s[0]) + tail;
      assert [s[0]] + s[1..] == s;
    }
  }

  lemma HexDigitUndoes(d: nat)
    requires d < 16
    ensures HexValue(HexDigit(d)) == Some(d)
  {
  }

  lemma {:induction false} ReadHexUndoes(v: nat, width: nat)
    requires v < Pow16(width)
    ensures |Hex(v, width)| == width && ReadHex(Hex(v, width)) == Some(v)
  {
    if width > 0 {
      var t := Hex(v, width);
      ReadHexUndoes(v / 16, width - 1);
      assert t[..|t| - 1] == Hex(v / 16, width - 1);
      HexDigitUndoes(v % 16);
    }
  }

  function Pow16(n: nat): nat { if n == 0 then 1 else 16 * Pow16(n - 1) }

  lemma ReadCodePointUndoes(c: char, width: nat, rest: string)
    requires c as int < Pow16(width)
    ensures var t := Hex(c as int, width) + rest;
      |t| >= width && t[width..] == rest && ReadCodePoint(t, width) == Some(c)
  {
    var t := Hex(c as int, width) + rest;
    ReadHexUndoes(c as int, width);
    assert t[..width] == Hex(c as int, width);
  }

  lemma NumericEscapeUndoes(c: char, letter: char, width: nat, tail: string)
    requires (letter, width) in {('x', 2), ('u', 4), ('U', 8)}
    requires c as int < Pow16(width)
    ensures ReadDouble(['\\', letter] + Hex(c as int, width) + tail) == Prepend(c, ReadDouble(tail))
  {
    var t := ['\\', letter] + Hex(c as int, width) + tail;
    ReadCodePointUndoes(c, width, tail);
    assert t[2..] == Hex(c as int, width) + tail;
    assert t[2 + width..] == t[2..][width..] == tail;
  }

  lemma EscapeCharUndoes(c: char, tail: string)
    ensures ReadDouble(EscapeChar(c) + tail) == Prepend(c, ReadDouble(tail))
  {
    var t := EscapeChar(c) + tail;
    if c == '"' || c == '\\' || c == '\n' || c == '\t' {
      assert t[2..] == tail;
    } else if IsPrintable(c) {
      assert t[1..] == tail;
    } else if c as int <= 0xff {
      assert Pow16(2) == 0x100 by { assert Pow16(1) == 16; }
      NumericEscapeUndoes(c, 'x', 2, tail);
    } else if c as int <= 0xffff {
      assert Pow16(4) == 0x1_0000 by { assert Pow16(2) == 0x100; }
      NumericEscapeUndoes(c, 'u', 4, tail);
    } else {
      assert Pow16(8) == 0x1_0000_0000 by { assert Pow16(6) == 0x100_0000 by { assert Pow16(4) == 0x1_0000 by { assert Pow16(2) == 0x100; } } }
      NumericEscapeUndoes(c, 'U', 8, tail);
    }
  }

  lemma ReadDoubleEnd(rest: string)
    ensures ReadDouble("\"" + rest) == Some(Scanned("", rest))
  {
    hide ReadCodePoint;
    assert ("\"" + rest)[1..] == rest;
  }

  lemma {:induction false} ReadDoubleUndoes(s: string, rest: string)
    ensures ReadDouble(Escape(s) + "\"" + rest) == Some(Scanned(s, rest))
  {
    hide EscapeChar, ReadDouble;
    if s == "" {
      ReadDoubleEnd(rest);
      assert Escape(s) + "\"" + rest == "\"" + rest;
    } else {
      var tail := Escape(s[1..]) + "\"" + rest;
      ReadDoubleUndoes(s[1..], rest);
      EscapeCharUndoes(s[0], tail);
      assert Escape(s) + "\"" + rest == EscapeChar(s[0]) + tail;
      assert [s[0]] + s[1..] == s;
    }
  }

  /** What the style analysis lets through unquoted has the shape of one plain scalar of
      YAML 1.2, and is one exactly if it has no non-character. */
  lemma PlainIsSafe(s: string)
    requires AllowPlain(s)
    ensures PlainShape(s)
    ensures PlainText(s) <==> forall c | c in s :: c !in NONCHARACTERS
  {
    forall i | 0 <= i < |s| ensures s[i] != '\U{FEFF}' && (YamlPrintable(s[i]) <==> s[i] !in NONCHARACTERS) {
      assert IsPrintable(s[i]);
    }
  }

  lemma Tail(q: string, body: string, rest: string)
    requires |q| == 1
    ensures (q + body + q + rest)[0] == q[0] && (q + body + q + rest)[1..] == body + q + rest
  {
  }

  lemma QuotedUndoes(s: string, rest: string)
    requires rest == "" || rest[0] != '\''
    ensures IsQuoted(Quoted(s)) && IsQuoted(Quoted(s) + rest)
    ensures ReadQuoted(Quoted(s) + rest) == Some(Scanned(s, rest))
  {
    if SingleLine(s) {
      Tail("'", DoubleSingleQuotes(s), rest);
      ReadSingleUndoes(s, rest);
    } else {
      Tail("\"", Escape(s), rest);
      ReadDoubleUndoes(s, rest);
    }
  }

  /** A printed string scans as that string, and as a string. */
  lemma ScanRoundTrip(s: string)
    ensures ScanScalar(EmitStringScalar(s)) == Some((Str, s))
  {
    if PrintedPlain(s) {
      PlainIsSafe(s);
      ResolvesAgree(s);
    } else {
      QuotedUndoes(s, "");
      assert Quoted(s) + "" == Quoted(s);
    }
  }

  lemma PlainKeyUndoes(s: string, rest: string)
    requires PlainShape(s) && Resolve(s) == Str
    requires rest == "" || rest[0] == ' '
    ensures ReadKey(s + ":" + rest) == Some(Scanned(s, rest))
  {
    var t := s + ":" + rest;
    forall j | 0 <= j < |s| ensures !ColonAt(t, j) {
      assert !ColonAt(s, j);
    }
    assert ColonAt(t, |s|);
    assert PlainKeyEnd(t, 0) == Some(|s|);
    assert t[..|s|] == s && t[|s| + 1..] == rest;
  }

  lemma QuotedKeyUndoes(s: string, rest: string)
    requires rest == "" || rest[0] == ' '
    ensures ReadKey(Quoted(s) + ":" + rest) == Some(Scanned(s, rest))
  {
    var after := ":" + rest;
    assert after[1..] == rest;
    QuotedUndoes(s, after);
    hide Quoted, ReadQuoted, PlainShape, Resolve;
    assert Quoted(s) + ":" + rest == Quoted(s) + after;
  }

  /** A printed key, its ':' and whatever may follow read back as that key. */
  lemma KeyRoundTrip(s: string, rest: string)
    requires rest == "" || rest[0] == ' '
    ensures ReadKey(EmitStringScalar(s) + ":" + rest) == Some(Scanned(s, rest))
  {
    hide AllowPlain, PlainShape, Resolve, ResolvesToNonString, ReadKey, Quoted;
    if PrintedPlain(s) {
      PlainIsSafe(s);
      ResolvesAgree(s);
      PlainKeyUndoes(s, rest);
    } else {
      QuotedKeyUndoes(s, rest);
    }
  }

  /** A printed string is never mistaken for a sequence entry, a key line, {} or []. */
  lemma ScalarIsOnlyAScalar(s: string)
    ensures var t := EmitStringScalar(s);
      t != "" && !IsItem(t) && ReadKey(t) == None && t != "{}" && t != "[]"
  {
    if PrintedPlain(s) {
      PlainIsSafe(s);
      PlainIsOnlyAScalar(s);
    } else {
      QuotedUndoes(s, "");
      assert Quoted(s) + "" == Quoted(s);
    }
  }

  /** The same for any text that is one plain scalar, as non-string literals are. */
  lemma PlainIsOnlyAScalar(t: string)
    requires PlainShape(t)
    ensures t != "" && !IsItem(t) && ReadKey(t) == None && t != "{}" && t != "[]"
    ensures ScanScalar(t) == Some((Resolve(t), t))
  {
  }

  // ---------------------------------------------------------------------------
  // Which characters are printed
  // ---------------------------------------------------------------------------

  /** The emitter prints only characters of a YAML stream, except for the two non-characters;
      those and the two line separators it prints exactly where the string has them. */
  lemma PrintedCharacters(s: string)
    ensures forall c | c in EmitStringScalar(s) :: YamlPrintable(c) || c in NONCHARACTERS
    ensures forall c | c in SEPARATORS || c in NONCHARACTERS :: c in EmitStringScalar(s) <==> c in s
  {
    hide ResolvesToNonString;
    if PrintedPlain(s) {
      forall c | c in s ensures YamlPrintable(c) || c in NONCHARACTERS {
        var i :| 0 <= i < |s| && s[i] == c;
        assert IsPrintable(s[i]);
      }
    } else if SingleLine(s) {
      DoubledCharacters(s);
    } else {
      EscapedCharacters(s);
    }
  }

  lemma {:induction false} DoubledCharacters(s: string)
    ensures SingleLine(s) ==> forall c | c in DoubleSingleQuotes(s) :: YamlPrintable(c) || c in NONCHARACTERS
    ensures forall c | c in SEPARATORS || c in NONCHARACTERS :: c in DoubleSingleQuotes(s) <==> c in s
  {
    if s != "" {
      DoubledCharacters(s[1..]);
      assert SingleLine(s) ==> SingleLine(s[1..]) && IsPrintable(s[0]) && s[0] != '\n';
      assert forall c :: c in s <==> c == s[0] || c in s[1..];
      assert forall c | c in DoubleQuote(s[0]) :: c == s[0];
      assert s[0] in DoubleQuote(s[0]);
    }
  }

  lemma {:induction false} EscapedCharacters(s: string)
    ensures forall c | c in Escape(s) :: YamlPrintable(c) || c in NONCHARACTERS
    ensures forall c | c in SEPARATORS || c in NONCHARACTERS :: c in Escape(s) <==> c in s
  {
    if s != "" {
      EscapedCharacters(s[1..]);
      EscapedCharacter(s[0]);
      hide EscapeChar, YamlPrintable;
      assert forall c :: c in s <==> c == s[0] || c in s[1..];
    }
  }

  lemma EscapedCharacter(d: char)
    ensures forall c | c in EscapeChar(d) :: YamlPrintable(c) || c in NONCHARACTERS
    ensures forall c | c in SEPARATORS || c in NONCHARACTERS :: c in EscapeChar(d) <==> c == d
  {
    HexCharacters(d as int, 2);
    HexCharacters(d as int, 4);
    HexCharacters(d as int, 8);
    hide Hex;
  }

  lemma {:induction false} HexCharacters(v: nat, width: nat)
    ensures forall c | c in Hex(v, width) :: '0' <= c <= 'F'
  {
    if width > 0 { HexCharacters(v / 16, width - 1); }
  }

  /** A printed string reads back from a stream as that string, and as a string, exactly if
      it has no non-character. */
  lemma ScalarRoundTrip(s: string)
    ensures ReadScalar(EmitStringScalar(s)) == if forall c | c in s :: c !in NONCHARACTERS then Some((Str, s)) else None
  {
    ScanRoundTrip(s);
    PrintedCharacters(s);
    hide ScanScalar, EmitStringScalar;
    var t := EmitStringScalar(s);
    if c :| c in s && c in NONCHARACTERS { assert c in t && !YamlPrintable(c); }
  }

  /** A printed string is outside the plain text of YAML 1.2 and YAML 1.1 exactly if the
      string is. */
  lemma OddPrinted(s: string)
    ensures Odd(EmitStringScalar(s)) <==> Odd(s)
  {
    PrintedCharacters(s);
    hide EmitStringScalar;
  }

  /** A number or timestamp is printed as the string with its text would be exactly if the
      emitter's expressions do not know the literal: then the two look alike. */
  lemma LiteralLooksLikeString(tag: Tag, text: string)
    requires tag in {Int, Float, Timestamp}
    ensures EmitScalar(tag, text) == EmitScalar(Str, text) <==> PrintedPlain(text)
  {
    DoublingGrows(text);
    EscapingGrows(text);
    hide PrintedPlain, SingleLine;
  }

  lemma {:induction false} DoublingGrows(s: string)
    ensures |DoubleSingleQuotes(s)| >= |s|
  {
    if s != "" { DoublingGrows(s[1..]); }
  }

  lemma {:induction false} EscapingGrows(s: string)
    ensures |Escape(s)| >= |s|
  {
    if s != "" { EscapingGrows(s[1..]); }
  }
}
