/** The texts that read as numbers, dates and words (YAML 1.1 in PyYAML's reading), written
    down as a grammar of their own, and the style in which every string is printed. */
module CanonGrammar {
  import opened CanonScalar
  import opened CanonResolver
  import opened Wrappers

  // ---------------------------------------------------------------------------
  // The grammar, from the front of a text
  // ---------------------------------------------------------------------------

  const TEN := "0123456789"
  const TEN_ := "0123456789_"

  predicate Digit(c: char) { '0' <= c <= '9' }

  predicate AllIn(t: string, cs: string) { forall c | c in t :: c in cs }

  function Unsigned(s: string): string { if s != "" && (s[0] == '+' || s[0] == '-') then s[1..] else s }

  /** Nothing, or e, a sign and digits. */
  predicate Exponent(t: string) {
    t == "" || (|t| >= 3 && (t[0] == 'e' || t[0] == 'E') && (t[1] == '+' || t[1] == '-') && AllIn(t[2..], TEN))
  }

  /** Digits and underscores, then an exponent. */
  predicate Fraction(t: string) {
    exists i | 0 <= i <= |t| :: AllIn(t[..i], TEN_) && Exponent(t[i..])
  }

  /** Digits and underscores, a point and a fraction. */
  predicate PointNumber(t: string) {
    exists i | 0 <= i < |t| :: AllIn(t[..i], TEN_) && t[i] == '.' && Fraction(t[i + 1..])
  }

  /** One or more groups of a colon and a number below sixty. */
  predicate Groups(t: string) {
    && |t| >= 2 && t[0] == ':'
    && (|| (Digit(t[1]) && (|t| == 2 || Groups(t[2..])))
        || (|t| >= 3 && '0' <= t[1] <= '5' && Digit(t[2]) && (|t| == 3 || Groups(t[3..]))))
  }

  /** Digits and underscores, then such groups. */
  predicate Sexagesimal(t: string) {
    exists i | 0 <= i <= |t| :: AllIn(t[..i], TEN_) && Groups(t[i..])
  }

  /** The same with a point and digits or underscores behind. */
  predicate SexagesimalPoint(t: string) {
    exists j | 0 <= j < |t| :: t[j] == '.' && Sexagesimal(t[..j]) && AllIn(t[j + 1..], TEN_)
  }

  predicate IsFloat(s: string) {
    var b := Unsigned(s);
    || (b != "" && Digit(b[0]) && (PointNumber(b[1..]) || SexagesimalPoint(b[1..])))
    || (|s| >= 2 && s[0] == '.' && Digit(s[1]) && Fraction(s[2..]))
    || b in {".inf", ".Inf", ".INF"}
    || s in {".nan", ".NaN", ".NAN"}
  }

  predicate IsInt(s: string) {
    var b := Unsigned(s);
    || b == "0"
    || (|b| > 1 && b[0] == '0' && AllIn(b[1..], "01234567_"))
    || (|b| > 2 && b[..2] == "0b" && AllIn(b[2..], "01_"))
    || (|b| > 2 && b[..2] == "0x" && AllIn(b[2..], "0123456789abcdefABCDEF_"))
    || (b != "" && '1' <= b[0] <= '9' && (AllIn(b[1..], TEN_) || Sexagesimal(b[1..])))
  }

  /** Nothing, or a colon and two digits. */
  predicate ZoneMinutes(t: string) { t == "" || (|t| == 3 && t[0] == ':' && Digit(t[1]) && Digit(t[2])) }

  predicate Offset(t: string) {
    || t == "Z"
    || (|t| >= 2 && (t[0] == '+' || t[0] == '-') && Digit(t[1])
        && (ZoneMinutes(t[2..]) || (|t| >= 3 && Digit(t[2]) && ZoneMinutes(t[3..]))))
  }

  predicate Zone(t: string) {
    t == "" || exists i | 0 <= i <= |t| :: AllIn(t[..i], " \t") && Offset(t[i..])
  }

  /** Nothing, or a point and digits; then the zone. */
  predicate Seconds(t: string) {
    Zone(t) || (t != "" && t[0] == '.' && exists i | 1 <= i <= |t| :: AllIn(t[1..i], TEN) && Zone(t[i..]))
  }

  /** Minutes and seconds. */
  predicate Clock(t: string) {
    |t| >= 6 && t[0] == ':' && Digit(t[1]) && Digit(t[2]) && t[3] == ':' && Digit(t[4]) && Digit(t[5]) && Seconds(t[6..])
  }

  predicate Hour(t: string) {
    t != "" && Digit(t[0]) && (Clock(t[1..]) || (|t| > 1 && Digit(t[1]) && Clock(t[2..])))
  }

  /** A letter T or white space, then the time. */
  predicate Gap(t: string) {
    || (t != "" && (t[0] == 'T' || t[0] == 't') && Hour(t[1..]))
    || exists i | 1 <= i <= |t| :: AllIn(t[..i], " \t") && Hour(t[i..])
  }

  predicate Day(t: string) {
    t != "" && Digit(t[0]) && (Gap(t[1..]) || (|t| > 1 && Digit(t[1]) && Gap(t[2..])))
  }

  predicate Month(t: string) {
    && |t| > 1 && Digit(t[0])
    && ((t[1] == '-' && Day(t[2..])) || (|t| > 2 && Digit(t[1]) && t[2] == '-' && Day(t[3..])))
  }

  predicate IsTimestamp(s: string) {
    && |s| >= 5 && Digit(s[0]) && Digit(s[1]) && Digit(s[2]) && Digit(s[3]) && s[4] == '-'
    && (|| (|s| == 10 && Digit(s[5]) && Digit(s[6]) && s[7] == '-' && Digit(s[8]) && Digit(s[9]))
        || Month(s[5..]))
  }

  // ---------------------------------------------------------------------------
  // Expressions, from the front
  // ---------------------------------------------------------------------------

  lemma NoWords(r: Re, s: string)
    requires Dead(r)
    ensures !Matches(r, s)
  {
    LacksMatchesNothing(r, s, ' ');
  }

  /** Whether a text is a word is decided by its first character and the derivative. */
  lemma Unfold(r: Re, s: string)
    ensures Matches(r, s) == if s == "" then Nullable(r) else Matches(Derive(r, s[0]), s[1..])
  {
  }

  lemma CatEps(r: Re, s: string)
    ensures Matches(Cat(Eps, r), s) <==> Matches(r, s)
  {
    Unfold(r, s);
    Unfold(Cat(Eps, r), s);
    assert Nullable(Cat(Eps, r)) == Nullable(r);
    if s != "" {
      assert Derive(Cat(Eps, r), s[0]) == Alt(Cat(Never, r), Derive(r, s[0])) by { assert Derive(Eps, s[0]) == Never; }
      MatchesAlt(Cat(Never, r), Derive(r, s[0]), s[1..]);
      NoWords(Cat(Never, r), s[1..]);
    }
  }

  /** One character and the rest. */
  lemma CatIn(cs: string, r: Re, s: string)
    ensures Matches(Cat(In(cs), r), s) <==> s != "" && s[0] in cs && Matches(r, s[1..])
  {
    Unfold(Cat(In(cs), r), s);
    if s != "" {
      assert Derive(Cat(In(cs), r), s[0]) == Cat(if s[0] in cs then Eps else Never, r);
      CatEps(r, s[1..]);
      NoWords(Cat(Never, r), s[1..]);
    }
  }

  lemma {:induction false} CatAlt(a: Re, b: Re, r: Re, s: string)
    ensures Matches(Cat(Alt(a, b), r), s) <==> Matches(Cat(a, r), s) || Matches(Cat(b, r), s)
    decreases |s|
  {
    Unfold(Cat(Alt(a, b), r), s);
    Unfold(Cat(a, r), s);
    Unfold(Cat(b, r), s);
    assert Nullable(Alt(a, b)) == (Nullable(a) || Nullable(b));
    if s != "" {
      var c, t := s[0], s[1..];
      var a', b', r' := Derive(a, c), Derive(b, c), Derive(r, c);
      assert Derive(Alt(a, b), c) == Alt(a', b');
      CatAlt(a', b', r, t);
      MatchesAlt(Cat(Alt(a', b'), r), r', t);
      MatchesAlt(Cat(a', r), r', t);
      MatchesAlt(Cat(b', r), r', t);
    }
  }

  lemma CatOpt(a: Re, r: Re, s: string)
    ensures Matches(Cat(Opt(a), r), s) <==> Matches(r, s) || Matches(Cat(a, r), s)
  {
    CatAlt(Eps, a, r, s);
    CatEps(r, s);
  }

  lemma {:induction false} CatCat(a: Re, b: Re, r: Re, s: string)
    ensures Matches(Cat(Cat(a, b), r), s) <==> Matches(Cat(a, Cat(b, r)), s)
    decreases |s|
  {
    Unfold(Cat(Cat(a, b), r), s);
    Unfold(Cat(a, Cat(b, r)), s);
    assert Nullable(Cat(a, b)) == (Nullable(a) && Nullable(b)) && Nullable(Cat(b, r)) == (Nullable(b) && Nullable(r));
    if s != "" {
      var c, t := s[0], s[1..];
      var a', b', r' := Derive(a, c), Derive(b, c), Derive(r, c);
      var ab', br' := Derive(Cat(a, b), c), Derive(Cat(b, r), c);
      assert ab' == if Nullable(a) then Alt(Cat(a', b), b') else Cat(a', b);
      assert br' == if Nullable(b) then Alt(Cat(b', r), r') else Cat(b', r);
      CatCat(a', b, r, t);
      CatAlt(Cat(a', b), b', r, t);
      MatchesAlt(Cat(Derive(Cat(a, b), c), r), r', t);
      MatchesAlt(Cat(a', Cat(b, r)), Derive(Cat(b, r), c), t);
      MatchesAlt(Cat(b', r), r', t);
    }
  }

  /** Any number of characters and the rest. */
  lemma {:induction false} CatStar(cs: string, r: Re, s: string)
    ensures Matches(Cat(Star(In(cs)), r), s) <==> exists i | 0 <= i <= |s| :: AllIn(s[..i], cs) && Matches(r, s[i..])
    decreases |s|
  {
    var star := Star(In(cs));
    if s == "" {
      assert s[..0] == "" && s[0..] == s;
      assert Nullable(Cat(star, r)) == Nullable(r);
    } else {
      var c, t := s[0], s[1..];
      StarStep(cs, r, s);
      CatStar(cs, r, t);
      hide Matches, Derive;
      forall i | 0 <= i <= |t| ensures s[..i + 1] == [c] + t[..i] && s[i + 1..] == t[i..] {}
      assert s[..0] == "" && s[0..] == s;
      if i :| 0 <= i <= |s| && AllIn(s[..i], cs) && Matches(r, s[i..]) {
        if i > 0 {
          assert s[..i] == [c] + t[..i - 1] && c in s[..i];
          assert AllIn(t[..i - 1], cs) by { assert forall x | x in t[..i - 1] :: x in s[..i]; }
          assert s[i..] == t[i - 1..];
        }
      }
      if c in cs {
        if i :| 0 <= i <= |t| && AllIn(t[..i], cs) && Matches(r, t[i..]) {
          assert AllIn(s[..i + 1], cs) && Matches(r, s[i + 1..]);
        }
      }
    }
  }

  lemma StarStep(cs: string, r: Re, s: string)
    requires s != ""
    ensures Matches(Cat(Star(In(cs)), r), s) <==> Matches(r, s) || (s[0] in cs && Matches(Cat(Star(In(cs)), r), s[1..]))
  {
    var star, c, t := Star(In(cs)), s[0], s[1..];
    var d := Derive(In(cs), c);
    assert Derive(Cat(star, r), c) == Alt(Cat(Cat(d, star), r), Derive(r, c)) by { assert Derive(star, c) == Cat(d, star); }
    MatchesAlt(Cat(Cat(d, star), r), Derive(r, c), t);
    CatCat(d, star, r, t);
    CatEps(Cat(star, r), t);
    NoWords(Cat(Never, Cat(star, r)), t);
  }

  lemma {:induction false} CatWord(w: string, r: Re, s: string)
    ensures Matches(Cat(Word(w), r), s) <==> w <= s && Matches(r, s[|w|..])
  {
    if w == "" {
      CatEps(r, s);
      assert s[0..] == s;
    } else {
      CatCat(In(w[..1]), Word(w[1..]), r, s);
      CatIn(w[..1], Cat(Word(w[1..]), r), s);
      if s != "" {
        CatWord(w[1..], r, s[1..]);
        assert w == w[..1] + w[1..] && w[..1] == [w[0]];
        if w <= s { assert s[1..][..|w[1..]|] == s[..|w|][1..]; }
      }
    }
  }

  lemma EpsOnly(s: string)
    ensures Matches(Eps, s) <==> s == ""
  {
    if s != "" {
      assert Derive(Eps, s[0]) == Never;
      NoWords(Never, s[1..]);
    }
  }

  lemma RightEps(a: Re, s: string)
    ensures Matches(Cat(a, Eps), s) <==> Matches(a, s)
  {
    if Matches(a, s) {
      MatchesCat(a, Eps, s, "");
      assert s + "" == s;
    }
    if Matches(Cat(a, Eps), s) {
      var i := CatSplits(a, Eps, s);
      EpsOnly(s[i..]);
      assert s[..i] == s;
    }
  }

  /** A word of a product falls into two. */
  lemma {:induction false} CatSplits(a: Re, b: Re, s: string) returns (i: nat)
    requires Matches(Cat(a, b), s)
    ensures i <= |s| && Matches(a, s[..i]) && Matches(b, s[i..])
    decreases |s|
  {
    i := 0;
    if s != "" {
      var c, t := s[0], s[1..];
      MatchesAlt(Cat(Derive(a, c), b), Derive(b, c), t);
      if Matches(Cat(Derive(a, c), b), t) {
        var j := CatSplits(Derive(a, c), b, t);
        i := j + 1;
        assert s[..i] == [c] + t[..j] && s[i..] == t[j..];
        assert s[..i][1..] == t[..j];
      } else {
        assert s[..0] == "" && s[0..] == s;
      }
    }
  }

  lemma AnyOfThree(u: string, v: string, w: string, r: Re, s: string)
    ensures Matches(Cat(Any([Word(u), Word(v), Word(w)]), r), s) <==>
      (u <= s && Matches(r, s[|u|..])) || (v <= s && Matches(r, s[|v|..])) || (w <= s && Matches(r, s[|w|..]))
  {
    var x, y, z := Word(u), Word(v), Word(w);
    assert [x, y, z][1..] == [y, z] && [y, z][1..] == [z] && [z][1..] == [];
    assert Any([z]) == Alt(z, Any([])) && Any([y, z]) == Alt(y, Any([z])) && Any([x, y, z]) == Alt(x, Any([y, z]));
    hide Word, Any;
    CatAlt(x, Alt(y, Alt(z, Never)), r, s);
    CatAlt(y, Alt(z, Never), r, s);
    CatAlt(z, Never, r, s);
    NoWords(Cat(Never, r), s);
    CatWord(u, r, s);
    CatWord(v, r, s);
    CatWord(w, r, s);
  }

  lemma {:induction false} OneOfExactly(forms: seq<seq<Re>>, s: string)
    ensures Matches(OneOf(forms), s) <==> exists i | 0 <= i < |forms| :: Matches(All(forms[i]), s)
  {
    if forms == [] {
      NoWords(Never, s);
    } else {
      OneOfExactly(forms[1..], s);
      MatchesAlt(All(forms[0]), OneOf(forms[1..]), s);
      hide Matches, All, OneOf;
      assert forall i | 0 <= i < |forms[1..]| :: forms[1..][i] == forms[i + 1];
      if i :| 0 <= i < |forms| && Matches(All(forms[i]), s) {
        if i > 0 { assert forms[1..][i - 1] == forms[i]; }
      }
    }
  }

  lemma CatPlus(cs: string, r: Re, s: string)
    ensures Matches(Cat(Plus(In(cs)), r), s) <==> exists i | 1 <= i <= |s| :: AllIn(s[..i], cs) && Matches(r, s[i..])
  {
    var star := Star(In(cs));
    CatCat(In(cs), star, r, s);
    CatIn(cs, Cat(star, r), s);
    if s != "" {
      CatStar(cs, r, s[1..]);
      hide Matches;
      forall i | 0 <= i <= |s[1..]| ensures s[..i + 1] == [s[0]] + s[1..][..i] && s[i + 1..] == s[1..][i..] {}
      if i :| 1 <= i <= |s| && AllIn(s[..i], cs) && Matches(r, s[i..]) {
        assert s[..i] == [s[0]] + s[1..][..i - 1] && s[i..] == s[1..][i - 1..] && s[0] in s[..i];
        assert AllIn(s[1..][..i - 1], cs) by { assert forall x | x in s[1..][..i - 1] :: x in s[..i]; }
      }
      if s[0] in cs {
        if i :| 0 <= i <= |s[1..]| && AllIn(s[1..][..i], cs) && Matches(r, s[1..][i..]) {
          assert AllIn(s[..i + 1], cs) && Matches(r, s[i + 1..]);
        }
      }
    }
  }

  lemma AllCons(r: Re, rs: seq<Re>)
    ensures All([r] + rs) == Cat(r, All(rs))
  {
    assert ([r] + rs)[1..] == rs;
  }

  lemma DigitIn(c: char)
    ensures c in TEN <==> Digit(c)
    ensures c in "-+" <==> c == '+' || c == '-'
    ensures c in "eE" <==> c == 'e' || c == 'E'
    ensures c in "012345" <==> '0' <= c <= '5'
    ensures c in "123456789" <==> '1' <= c <= '9'
    ensures c in "Tt" <==> c == 'T' || c == 't'
  {
  }

  /** A final run of characters. */
  lemma LastRun(cs: string, t: string)
    ensures Matches(All([Star(In(cs))]), t) <==> AllIn(t, cs)
    ensures Matches(All([Plus(In(cs))]), t) <==> t != "" && AllIn(t, cs)
  {
    AllCons(Star(In(cs)), []);
    AllCons(Plus(In(cs)), []);
    assert [Star(In(cs))] + [] == [Star(In(cs))] && [Plus(In(cs))] + [] == [Plus(In(cs))];
    CatStar(cs, Eps, t);
    CatPlus(cs, Eps, t);
    hide Matches, All;
    forall i | 0 <= i <= |t| ensures Matches(Eps, t[i..]) <==> i == |t| { EpsOnly(t[i..]); }
    assert t[..|t|] == t;
  }

  // ---------------------------------------------------------------------------
  // Numbers
  // ---------------------------------------------------------------------------

  lemma ExponentExactly(t: string)
    ensures Matches(All([EXPONENT]), t) <==> Exponent(t)
  {
    var e, sign, digits := In("eE"), In("-+"), Plus(DIGIT);
    assert [EXPONENT] == [EXPONENT] + [] && [e, sign, digits] == [e] + ([sign] + ([digits] + []));
    AllCons(EXPONENT, []);
    AllCons(e, [sign] + ([digits] + []));
    AllCons(sign, [digits] + []);
    assert [digits] + [] == [digits];
    RightEps(EXPONENT, t);
    CatOpt(All([e, sign, digits]), Eps, t);
    EpsOnly(t);
    RightEps(All([e, sign, digits]), t);
    CatIn("eE", Cat(sign, All([digits])), t);
    if t != "" {
      DigitIn(t[0]);
      CatIn("-+", All([digits]), t[1..]);
      if |t| > 1 {
        DigitIn(t[1]);
        assert t[1..][1..] == t[2..];
        LastRun(TEN, t[2..]);
      }
    }
    hide Matches, All;
  }

  lemma FractionExactly(t: string)
    ensures Matches(All([DIGITS_U, EXPONENT]), t) <==> Fraction(t)
  {
    assert [DIGITS_U, EXPONENT] == [DIGITS_U] + [EXPONENT];
    AllCons(DIGITS_U, [EXPONENT]);
    CatStar(TEN_, All([EXPONENT]), t);
    forall i | 0 <= i <= |t| ensures Matches(All([EXPONENT]), t[i..]) <==> Exponent(t[i..]) { ExponentExactly(t[i..]); }
    hide Matches, All, Exponent, AllIn;
  }

  lemma PointExactly(t: string)
    ensures Matches(All([DIGITS_U, In("."), DIGITS_U, EXPONENT]), t) <==> PointNumber(t)
  {
    var rest, tail := [In("."), DIGITS_U, EXPONENT], [DIGITS_U, EXPONENT];
    assert [DIGITS_U, In("."), DIGITS_U, EXPONENT] == [DIGITS_U] + rest && rest == [In(".")] + tail;
    AllCons(DIGITS_U, rest);
    AllCons(In("."), tail);
    CatStar(TEN_, All(rest), t);
    forall i | 0 <= i <= |t| ensures Matches(All(rest), t[i..]) <==> i < |t| && t[i] == '.' && Fraction(t[i + 1..]) {
      CatIn(".", All(tail), t[i..]);
      if i < |t| {
        assert t[i..][1..] == t[i + 1..];
        FractionExactly(t[i + 1..]);
      }
    }
    hide Matches, All, Fraction, AllIn;
  }

  const GROUP := All([In(":"), Opt(In("012345")), DIGIT])

  /** One group and the rest. */
  lemma GroupThen(r: Re, t: string)
    ensures Matches(Cat(GROUP, r), t) <==>
      && |t| >= 2 && t[0] == ':'
      && ((Digit(t[1]) && Matches(r, t[2..])) || (|t| >= 3 && '0' <= t[1] <= '5' && Digit(t[2]) && Matches(r, t[3..])))
  {
    hide Matches, All, GROUP, Plus, Opt;
    var tens, rest := Opt(In("012345")), Cat(DIGIT, Eps);
    GroupParts();
    CatCat(In(":"), Cat(tens, rest), r, t);
    CatIn(":", Cat(Cat(tens, rest), r), t);
    if t != "" {
      var u := t[1..];
      CatCat(tens, rest, r, u);
      CatOpt(In("012345"), Cat(rest, r), u);
      UnitThen(r, u);
      CatIn("012345", Cat(rest, r), u);
      if u != "" {
        DigitIn(u[0]);
        UnitThen(r, u[1..]);
        assert u[1..] == t[2..];
        if |t| > 2 { assert t[2..][1..] == t[3..]; }
      }
    }
  }

  lemma UnitThen(r: Re, t: string)
    ensures Matches(Cat(Cat(DIGIT, Eps), r), t) <==> t != "" && Digit(t[0]) && Matches(r, t[1..])
  {
    CatCat(DIGIT, Eps, r, t);
    CatIn(TEN, Cat(Eps, r), t);
    if t != "" {
      DigitIn(t[0]);
      CatEps(r, t[1..]);
    }
  }

  lemma GroupParts()
    ensures GROUP == Cat(In(":"), Cat(Opt(In("012345")), Cat(DIGIT, Eps)))
    ensures SEXAGESIMAL == Plus(GROUP) && !Nullable(GROUP)
  {
    var tens := Opt(In("012345"));
    assert [In(":"), tens, DIGIT] == [In(":")] + ([tens] + ([DIGIT] + []));
    AllCons(In(":"), [tens] + ([DIGIT] + []));
    AllCons(tens, [DIGIT] + []);
    AllCons(DIGIT, []);
  }

  lemma {:induction false} GroupsExactly(t: string)
    ensures Matches(SEXAGESIMAL, t) <==> Groups(t)
    decreases |t|, 0
  {
    GroupParts();
    GroupThen(Star(GROUP), t);
    if |t| >= 2 { MoreGroups(t[2..]); if |t| >= 3 { MoreGroups(t[3..]); } }
    hide Matches, GROUP;
  }

  lemma {:induction false} MoreGroups(t: string)
    ensures Matches(Star(GROUP), t) <==> t == "" || Groups(t)
    decreases |t|, 1
  {
    GroupParts();
    if t != "" {
      hide GROUP;
      StarOfGroup(t);
      GroupsExactly(t);
    }
  }

  lemma StarOfGroup(t: string)
    requires t != "" && !Nullable(GROUP)
    ensures Matches(Star(GROUP), t) <==> Matches(Cat(GROUP, Star(GROUP)), t)
  {
    hide GROUP;
    Unfold(Star(GROUP), t);
    Unfold(Cat(GROUP, Star(GROUP)), t);
  }

  /** A sign or none, a character and the rest. */
  lemma SignedForm(cs: string, rest: seq<Re>, s: string)
    requires '+' !in cs && '-' !in cs
    ensures var b := Unsigned(s);
      Matches(All([SIGN] + ([In(cs)] + rest)), s) <==> b != "" && b[0] in cs && Matches(All(rest), b[1..])
  {
    hide Matches, All, Opt;
    AllCons(SIGN, [In(cs)] + rest);
    AllCons(In(cs), rest);
    CatOpt(In("-+"), All([In(cs)] + rest), s);
    CatIn(cs, All(rest), s);
    CatIn("-+", All([In(cs)] + rest), s);
    if s != "" {
      DigitIn(s[0]);
      CatIn(cs, All(rest), s[1..]);
    }
  }

  lemma FloatParts()
    ensures |FLOAT_FORMS| == 5
    ensures FLOAT_FORMS[0] == [SIGN] + ([In(TEN)] + [DIGITS_U, In("."), DIGITS_U, EXPONENT])
    ensures FLOAT_FORMS[1] == [In(".")] + ([DIGIT] + [DIGITS_U, EXPONENT])
    ensures FLOAT_FORMS[2] == [SIGN] + ([In(TEN)] + [DIGITS_U, SEXAGESIMAL, In("."), DIGITS_U])
    ensures FLOAT_FORMS[3] == [SIGN] + ([In(".")] + [INF])
    ensures FLOAT_FORMS[4] == [In(".")] + [NAN]
  {
    hide SIGN, DIGITS_U, EXPONENT, SEXAGESIMAL, INF, NAN;
  }

  lemma PointForm(s: string)
    ensures var b := Unsigned(s); Matches(All(FLOAT_FORMS[0]), s) <==> b != "" && Digit(b[0]) && PointNumber(b[1..])
  {
    hide Matches, All, PointNumber, FLOAT_FORMS, SIGN, DIGITS_U, EXPONENT;
    var rest := [DIGITS_U, In("."), DIGITS_U, EXPONENT];
    FloatParts();
    SignedForm(TEN, rest, s);
    var b := Unsigned(s);
    if b != "" {
      DigitIn(b[0]);
      PointExactly(b[1..]);
    }
  }

  lemma PointFirstForm(s: string)
    ensures Matches(All(FLOAT_FORMS[1]), s) <==> |s| >= 2 && s[0] == '.' && Digit(s[1]) && Fraction(s[2..])
  {
    hide Matches, All, Fraction, FLOAT_FORMS, DIGITS_U, EXPONENT;
    var rest := [DIGITS_U, EXPONENT];
    FloatParts();
    AllCons(In("."), [DIGIT] + rest);
    AllCons(DIGIT, rest);
    CatIn(".", All([DIGIT] + rest), s);
    if s != "" {
      CatIn(TEN, All(rest), s[1..]);
      if |s| > 1 {
        DigitIn(s[1]);
        FractionExactly(s[2..]);
        assert s[1..][1..] == s[2..];
      }
    }
  }

  lemma SexagesimalExactly(t: string)
    ensures Matches(Cat(DIGITS_U, SEXAGESIMAL), t) <==> Sexagesimal(t)
  {
    CatStar(TEN_, SEXAGESIMAL, t);
    forall i | 0 <= i <= |t| ensures Matches(SEXAGESIMAL, t[i..]) <==> Groups(t[i..]) { GroupsExactly(t[i..]); }
    hide Matches, Groups, AllIn, SEXAGESIMAL;
  }

  lemma PointTail(t: string)
    ensures Matches(All([In("."), DIGITS_U]), t) <==> t != "" && t[0] == '.' && AllIn(t[1..], TEN_)
  {
    assert [In("."), DIGITS_U] == [In(".")] + [DIGITS_U];
    AllCons(In("."), [DIGITS_U]);
    CatIn(".", All([DIGITS_U]), t);
    if t != "" { LastRun(TEN_, t[1..]); }
    hide Matches, All;
  }

  lemma PointTailAt(t: string, j: nat)
    requires j <= |t|
    ensures Matches(All([In("."), DIGITS_U]), t[j..]) <==> j < |t| && t[j] == '.' && AllIn(t[j + 1..], TEN_)
  {
    PointTail(t[j..]);
    hide Matches, All;
    if j < |t| { assert t[j..][1..] == t[j + 1..]; }
  }

  lemma SexagesimalPointExactly(t: string)
    ensures Matches(All([DIGITS_U, SEXAGESIMAL, In("."), DIGITS_U]), t) <==> SexagesimalPoint(t)
  {
    hide Matches, All, Sexagesimal, SEXAGESIMAL, DIGITS_U, AllIn;
    var front, tail := Cat(DIGITS_U, SEXAGESIMAL), [In("."), DIGITS_U];
    assert [DIGITS_U, SEXAGESIMAL, In("."), DIGITS_U] == [DIGITS_U] + ([SEXAGESIMAL] + tail);
    AllCons(DIGITS_U, [SEXAGESIMAL] + tail);
    AllCons(SEXAGESIMAL, tail);
    CatCat(DIGITS_U, SEXAGESIMAL, All(tail), t);
    if Matches(Cat(front, All(tail)), t) {
      var j := CatSplits(front, All(tail), t);
      SexagesimalExactly(t[..j]);
      PointTailAt(t, j);
    }
    if j: nat :| j < |t| && t[j] == '.' && Sexagesimal(t[..j]) && AllIn(t[j + 1..], TEN_) {
      SexagesimalExactly(t[..j]);
      PointTailAt(t, j);
      MatchesCat(front, All(tail), t[..j], t[j..]);
      assert t[..j] + t[j..] == t;
    }
  }

  lemma SexagesimalPointForm(s: string)
    ensures var b := Unsigned(s); Matches(All(FLOAT_FORMS[2]), s) <==> b != "" && Digit(b[0]) && SexagesimalPoint(b[1..])
  {
    hide Matches, All, SexagesimalPoint, FLOAT_FORMS, SIGN, DIGITS_U, SEXAGESIMAL;
    var rest := [DIGITS_U, SEXAGESIMAL, In("."), DIGITS_U];
    FloatParts();
    SignedForm(TEN, rest, s);
    var b := Unsigned(s);
    if b != "" {
      DigitIn(b[0]);
      SexagesimalPointExactly(b[1..]);
    }
  }

  /** A text that is one of three words. */
  lemma ThreeWords(u: string, v: string, w: string, t: string)
    ensures Matches(All([Any([Word(u), Word(v), Word(w)])]), t) <==> t in {u, v, w}
  {
    var r := Any([Word(u), Word(v), Word(w)]);
    AllCons(r, []);
    assert [r] + [] == [r];
    AnyOfThree(u, v, w, Eps, t);
    hide Matches, All, Any, Word;
    WholeWord(u, t);
    WholeWord(v, t);
    WholeWord(w, t);
  }

  lemma WholeWord(w: string, t: string)
    ensures w <= t && Matches(Eps, t[|w|..]) <==> t == w
  {
    if w <= t { EpsOnly(t[|w|..]); }
    assert t[|t|..] == "";
  }

  lemma InfForm(s: string)
    ensures Matches(All(FLOAT_FORMS[3]), s) <==> Unsigned(s) in {".inf", ".Inf", ".INF"}
  {
    assert INF == Any([Word("inf"), Word("Inf"), Word("INF")]);
    hide Matches, All, Any, Word, INF, SIGN, Unsigned, FLOAT_FORMS;
    FloatParts();
    SignedForm(".", [INF], s);
    var b := Unsigned(s);
    if b != "" {
      ThreeWords("inf", "Inf", "INF", b[1..]);
      PointWord(b, "inf", ".inf");
      PointWord(b, "Inf", ".Inf");
      PointWord(b, "INF", ".INF");
    }
  }

  lemma NaNForms(s: string)
    ensures Matches(All(FLOAT_FORMS[4]), s) <==> s in {".nan", ".NaN", ".NAN"}
  {
    assert NAN == Any([Word("nan"), Word("NaN"), Word("NAN")]);
    hide Matches, All, Any, Word, NAN, FLOAT_FORMS;
    FloatParts();
    AllCons(In("."), [NAN]);
    CatIn(".", All([NAN]), s);
    if s != "" {
      ThreeWords("nan", "NaN", "NAN", s[1..]);
      PointWord(s, "nan", ".nan");
      PointWord(s, "NaN", ".NaN");
      PointWord(s, "NAN", ".NAN");
    }
  }

  lemma PointWord(b: string, w: string, dotted: string)
    requires b != "" && dotted == "." + w
    ensures b[0] == '.' && b[1..] == w <==> b == dotted
  {
    assert b == b[..1] + b[1..] && b[..1] == [b[0]];
    assert ("." + w)[1..] == w;
  }

  lemma FloatExactly(s: string)
    ensures Matches(RES_FLOAT, s) <==> IsFloat(s)
  {
    OneOfExactly(FLOAT_FORMS, s);
    PointForm(s);
    PointFirstForm(s);
    SexagesimalPointForm(s);
    InfForm(s);
    NaNForms(s);
    hide Matches, All, OneOf, PointNumber, SexagesimalPoint, Fraction, Unsigned, FLOAT_FORMS;
    FloatParts();
    if i :| 0 <= i < 5 && Matches(All(FLOAT_FORMS[i]), s) {
      assert i == 0 || i == 1 || i == 2 || i == 3 || i == 4;
    }
  }

  /** A sign or none, one of some characters, another character and a run to the end. */
  lemma PrefixedForm(first: string, second: string, cs: string, s: string)
    requires '+' !in first && '-' !in first
    ensures var b := Unsigned(s);
      Matches(All([SIGN] + ([In(first)] + ([In(second)] + [Plus(In(cs))]))), s) <==>
        |b| > 2 && b[0] in first && b[1] in second && AllIn(b[2..], cs)
  {
    hide Matches, All, Unsigned;
    SignedForm(first, [In(second)] + [Plus(In(cs))], s);
    AllCons(In(second), [Plus(In(cs))]);
    var b := Unsigned(s);
    if b != "" {
      CatIn(second, All([Plus(In(cs))]), b[1..]);
      if |b| > 1 {
        LastRun(cs, b[2..]);
        assert b[1..][1..] == b[2..];
      }
    }
  }

  lemma BasedForms(s: string)
    ensures var b := Unsigned(s); Matches(All(INT_FORMS[0]), s) <==> |b| > 2 && b[..2] == "0b" && AllIn(b[2..], "01_")
    ensures var b := Unsigned(s); Matches(All(INT_FORMS[4]), s) <==> |b| > 2 && b[..2] == "0x" && AllIn(b[2..], "0123456789abcdefABCDEF_")
  {
    assert INT_FORMS[0] == [SIGN] + ([In("0")] + ([In("b")] + [Plus(In("01_"))]));
    assert INT_FORMS[4] == [SIGN] + ([In("0")] + ([In("x")] + [Plus(In("0123456789abcdefABCDEF_"))]));
    hide Matches, All, Unsigned, AllIn, SIGN, DIGITS_U, SEXAGESIMAL, Plus;
    PrefixedForm("0", "b", "01_", s);
    PrefixedForm("0", "x", "0123456789abcdefABCDEF_", s);
    var b := Unsigned(s);
    if |b| > 2 { assert b[..2] == [b[0], b[1]]; }
  }

  lemma ZeroForms(s: string)
    ensures var b := Unsigned(s); Matches(All(INT_FORMS[1]), s) <==> |b| > 1 && b[0] == '0' && AllIn(b[1..], "01234567_")
    ensures var b := Unsigned(s); Matches(All(INT_FORMS[2]), s) <==> b == "0"
  {
    assert INT_FORMS[1] == [SIGN] + ([In("0")] + [Plus(In("01234567_"))]);
    assert INT_FORMS[2] == [SIGN] + ([In("0")] + []);
    assert All([]) == Eps;
    hide Matches, All, Unsigned, AllIn, SIGN, DIGITS_U, SEXAGESIMAL, Plus;
    SignedForm("0", [Plus(In("01234567_"))], s);
    SignedForm("0", [], s);
    var b := Unsigned(s);
    if b != "" {
      LastRun("01234567_", b[1..]);
      EpsOnly(b[1..]);
      assert b[1..] == "" <==> |b| == 1;
    }
  }

  lemma DecimalForms(s: string)
    ensures var b := Unsigned(s); Matches(All(INT_FORMS[3]), s) <==> b != "" && '1' <= b[0] <= '9' && AllIn(b[1..], TEN_)
    ensures var b := Unsigned(s); Matches(All(INT_FORMS[5]), s) <==> b != "" && '1' <= b[0] <= '9' && Sexagesimal(b[1..])
  {
    assert INT_FORMS[3] == [SIGN] + ([In("123456789")] + [DIGITS_U]);
    assert INT_FORMS[5] == [SIGN] + ([In("123456789")] + ([DIGITS_U] + [SEXAGESIMAL]));
    assert DIGITS_U == Star(In(TEN_));
    hide Matches, All, Unsigned, AllIn, SIGN, DIGITS_U, SEXAGESIMAL, Plus, Sexagesimal;
    SignedForm("123456789", [DIGITS_U], s);
    SignedForm("123456789", [DIGITS_U] + [SEXAGESIMAL], s);
    var b := Unsigned(s);
    if b != "" {
      DigitIn(b[0]);
      LastRun(TEN_, b[1..]);
      SexagesimalEnd(b[1..]);
    }
  }

  lemma SexagesimalEnd(t: string)
    ensures Matches(All([DIGITS_U] + [SEXAGESIMAL]), t) <==> Sexagesimal(t)
  {
    AllCons(DIGITS_U, [SEXAGESIMAL]);
    AllCons(SEXAGESIMAL, []);
    assert [SEXAGESIMAL] + [] == [SEXAGESIMAL] && All([]) == Eps;
    hide All, Matches, Sexagesimal, DIGITS_U, SEXAGESIMAL;
    CatCat(DIGITS_U, SEXAGESIMAL, Eps, t);
    RightEps(Cat(DIGITS_U, SEXAGESIMAL), t);
    SexagesimalExactly(t);
  }

  lemma IntExactly(s: string)
    ensures Matches(RES_INT, s) <==> IsInt(s)
  {
    OneOfExactly(INT_FORMS, s);
    BasedForms(s);
    ZeroForms(s);
    DecimalForms(s);
    assert |INT_FORMS| == 6;
    hide Matches, All, OneOf, Sexagesimal, AllIn, Unsigned, INT_FORMS;
    if i :| 0 <= i < 6 && Matches(All(INT_FORMS[i]), s) {
      assert i == 0 || i == 1 || i == 2 || i == 3 || i == 4 || i == 5;
    }
  }

  // ---------------------------------------------------------------------------
  // Dates and times
  // ---------------------------------------------------------------------------

  lemma DigitStep(rs: seq<Re>, t: string)
    ensures Matches(All([DIGIT] + rs), t) <==> t != "" && Digit(t[0]) && Matches(All(rs), t[1..])
    ensures Matches(All([Opt(DIGIT)] + rs), t) <==> Matches(All(rs), t) || (t != "" && Digit(t[0]) && Matches(All(rs), t[1..]))
  {
    hide Matches, All, Opt;
    AllCons(DIGIT, rs);
    AllCons(Opt(DIGIT), rs);
    CatOpt(DIGIT, All(rs), t);
    CatIn(TEN, All(rs), t);
    if t != "" { DigitIn(t[0]); }
  }

  lemma MarkStep(c: char, rs: seq<Re>, t: string)
    ensures Matches(All([In([c])] + rs), t) <==> t != "" && t[0] == c && Matches(All(rs), t[1..])
  {
    hide Matches, All;
    AllCons(In([c]), rs);
    CatIn([c], All(rs), t);
  }

  lemma TwoDigits(rs: seq<Re>, t: string)
    ensures Matches(All([DIGIT] + ([DIGIT] + rs)), t) <==> |t| >= 2 && Digit(t[0]) && Digit(t[1]) && Matches(All(rs), t[2..])
  {
    hide Matches, All;
    DigitStep([DIGIT] + rs, t);
    if t != "" {
      DigitStep(rs, t[1..]);
      if |t| > 1 { assert t[1..][1..] == t[2..]; }
    }
  }

  lemma OneOrTwoDigits(rs: seq<Re>, t: string)
    ensures Matches(All([DIGIT] + ([Opt(DIGIT)] + rs)), t) <==>
      t != "" && Digit(t[0]) && (Matches(All(rs), t[1..]) || (|t| > 1 && Digit(t[1]) && Matches(All(rs), t[2..])))
  {
    hide Matches, All, Opt;
    DigitStep([Opt(DIGIT)] + rs, t);
    if t != "" {
      DigitStep(rs, t[1..]);
      if |t| > 1 { assert t[1..][1..] == t[2..]; }
    }
  }

  lemma OptExactly(r: Re, t: string)
    ensures Matches(All([Opt(r)]), t) <==> t == "" || Matches(r, t)
  {
    AllCons(Opt(r), []);
    assert [Opt(r)] + [] == [Opt(r)];
    RightEps(Opt(r), t);
    MatchesAlt(Eps, r, t);
    EpsOnly(t);
  }

  lemma ZoneMinutesExactly(t: string)
    ensures Matches(All([ZONE]), t) <==> ZoneMinutes(t)
  {
    var r := All([In(":"), DIGIT, DIGIT]);
    assert [In(":"), DIGIT, DIGIT] == [In(":")] + ([DIGIT] + ([DIGIT] + []));
    assert All([]) == Eps;
    assert ZONE == Opt(r);
    hide Matches, All, Opt;
    OptExactly(r, t);
    MarkStep(':', [DIGIT] + ([DIGIT] + []), t);
    if t != "" {
      TwoDigits([], t[1..]);
      if |t| > 2 { EpsOnly(t[1..][2..]); }
    }
  }

  lemma OffsetExactly(t: string)
    ensures Matches(OFFSET, t) <==> Offset(t)
  {
    var parts := [In("-+")] + ([DIGIT] + ([Opt(DIGIT)] + [ZONE]));
    assert [In("-+"), DIGIT, Opt(DIGIT), ZONE] == parts;
    hide Matches, All, Opt, ZONE, ZoneMinutes;
    MatchesAlt(In("Z"), All(parts), t);
    OneLetter('Z', t);
    AllCons(In("-+"), [DIGIT] + ([Opt(DIGIT)] + [ZONE]));
    CatIn("-+", All([DIGIT] + ([Opt(DIGIT)] + [ZONE])), t);
    if t != "" {
      var u := t[1..];
      DigitIn(t[0]);
      OneOrTwoDigits([ZONE], u);
      if u != "" {
        ZoneMinutesExactly(u[1..]);
        assert u[1..] == t[2..];
        if |u| > 1 {
          ZoneMinutesExactly(u[2..]);
          assert u[2..] == t[3..];
        }
      }
    }
  }

  lemma OneLetter(c: char, t: string)
    ensures Matches(In([c]), t) <==> t == [c]
  {
    RightEps(In([c]), t);
    CatIn([c], Eps, t);
    hide Matches;
    if t != "" {
      EpsOnly(t[1..]);
      assert t == [t[0]] + t[1..];
    }
  }

  const OPT_ZONE := Opt(Cat(Star(BLANKS), OFFSET))
  const OPT_PART := Opt(Cat(In("."), Star(DIGIT)))

  lemma ZoneExactly(t: string)
    ensures Matches(All([OPT_ZONE]), t) <==> Zone(t)
  {
    OptExactly(Cat(Star(BLANKS), OFFSET), t);
    CatStar(" \t", OFFSET, t);
    hide Matches, All, OFFSET, Offset, AllIn;
    forall i | 0 <= i <= |t| ensures Matches(OFFSET, t[i..]) <==> Offset(t[i..]) { OffsetExactly(t[i..]); }
  }

  lemma SecondsExactly(t: string)
    ensures Matches(All([OPT_PART] + [OPT_ZONE]), t) <==> Seconds(t)
  {
    hide Matches, All, OPT_ZONE, Zone, AllIn;
    var zone := All([OPT_ZONE]);
    AllCons(OPT_PART, [OPT_ZONE]);
    CatOpt(Cat(In("."), Star(DIGIT)), zone, t);
    ZoneExactly(t);
    CatCat(In("."), Star(DIGIT), zone, t);
    CatIn(".", Cat(Star(DIGIT), zone), t);
    if t != "" {
      var u := t[1..];
      CatStar(TEN, zone, u);
      forall i | 0 <= i <= |u| ensures u[..i] == t[1..i + 1] && u[i..] == t[i + 1..] && (Matches(zone, u[i..]) <==> Zone(t[i + 1..])) {
        ZoneExactly(u[i..]);
      }
      if i :| 0 <= i <= |u| && AllIn(u[..i], TEN) && Matches(zone, u[i..]) {
        assert AllIn(t[1..i + 1], TEN) && Zone(t[i + 1..]);
      }
      if i :| 1 <= i <= |t| && AllIn(t[1..i], TEN) && Zone(t[i..]) {
        assert u[..i - 1] == t[1..i] && u[i - 1..] == t[i..] && Matches(zone, u[i - 1..]) by { ZoneExactly(u[i - 1..]); }
      }
    }
  }

  const AFTER_SECONDS := [OPT_PART] + [OPT_ZONE]
  const CLOCK := [In(":")] + ([DIGIT] + ([DIGIT] + ([In(":")] + ([DIGIT] + ([DIGIT] + AFTER_SECONDS)))))
  const HOUR := [DIGIT] + ([Opt(DIGIT)] + CLOCK)
  const GAP := [Alt(In("Tt"), Plus(BLANKS))] + HOUR
  const DAY := [DIGIT] + ([Opt(DIGIT)] + GAP)
  const MONTH := [DIGIT] + ([Opt(DIGIT)] + ([In("-")] + DAY))

  lemma ClockExactly(t: string)
    ensures Matches(All(CLOCK), t) <==> Clock(t)
  {
    var seconds := [DIGIT] + ([DIGIT] + AFTER_SECONDS);
    assert CLOCK == [In(":")] + ([DIGIT] + ([DIGIT] + ([In(":")] + seconds)));
    hide Matches, All, CLOCK, AFTER_SECONDS, Seconds;
    MarkStep(':', [DIGIT] + ([DIGIT] + ([In(":")] + seconds)), t);
    if t != "" {
      TwoDigits([In(":")] + seconds, t[1..]);
      if |t| > 2 {
        assert t[1..][2..] == t[3..];
        MarkStep(':', seconds, t[3..]);
        if |t| > 3 {
          assert t[3..][1..] == t[4..];
          TwoDigits(AFTER_SECONDS, t[4..]);
          if |t| > 5 {
            assert t[4..][2..] == t[6..];
            SecondsExactly(t[6..]);
            assert AFTER_SECONDS == [OPT_PART] + [OPT_ZONE];
          }
        }
      }
    }
  }

  lemma HourExactly(t: string)
    ensures Matches(All(HOUR), t) <==> Hour(t)
  {
    assert HOUR == [DIGIT] + ([Opt(DIGIT)] + CLOCK);
    hide Matches, All, HOUR, CLOCK, Clock, Opt;
    OneOrTwoDigits(CLOCK, t);
    if t != "" {
      ClockExactly(t[1..]);
      if |t| > 1 { ClockExactly(t[2..]); }
    }
  }

  lemma GapExactly(t: string)
    ensures Matches(All(GAP), t) <==> Gap(t)
  {
    var letter, blanks := In("Tt"), Plus(BLANKS);
    assert GAP == [Alt(letter, blanks)] + HOUR;
    hide Matches, All, GAP, HOUR, Hour, Plus, AllIn;
    AllCons(Alt(letter, blanks), HOUR);
    CatAlt(letter, blanks, All(HOUR), t);
    CatIn("Tt", All(HOUR), t);
    CatPlus(" \t", All(HOUR), t);
    if t != "" {
      DigitIn(t[0]);
      HourExactly(t[1..]);
    }
    forall i | 1 <= i <= |t| ensures Matches(All(HOUR), t[i..]) <==> Hour(t[i..]) { HourExactly(t[i..]); }
  }

  lemma DayExactly(t: string)
    ensures Matches(All(DAY), t) <==> Day(t)
  {
    assert DAY == [DIGIT] + ([Opt(DIGIT)] + GAP);
    hide Matches, All, DAY, GAP, Gap, Opt;
    OneOrTwoDigits(GAP, t);
    if t != "" {
      GapExactly(t[1..]);
      if |t| > 1 { GapExactly(t[2..]); }
    }
  }

  lemma DashDay(t: string)
    ensures Matches(All([In("-")] + DAY), t) <==> t != "" && t[0] == '-' && Day(t[1..])
  {
    hide Matches, All, DAY, Day;
    MarkStep('-', DAY, t);
    if t != "" { DayExactly(t[1..]); }
  }

  lemma MonthExactly(t: string)
    ensures Matches(All(MONTH), t) <==> Month(t)
  {
    assert MONTH == [DIGIT] + ([Opt(DIGIT)] + ([In("-")] + DAY));
    hide Matches, All, MONTH, DAY, Day, Opt;
    OneOrTwoDigits([In("-")] + DAY, t);
    if t != "" {
      DashDay(t[1..]);
      if |t| > 1 {
        assert t[1..][1..] == t[2..];
        DashDay(t[2..]);
        if |t| > 2 { assert t[2..][1..] == t[3..]; }
      }
    }
  }

  /** A year, a dash and the rest. */
  lemma YearStep(rs: seq<Re>, s: string)
    ensures Matches(All([DIGIT] + ([DIGIT] + ([DIGIT] + ([DIGIT] + ([In("-")] + rs))))), s) <==>
      |s| >= 5 && Digit(s[0]) && Digit(s[1]) && Digit(s[2]) && Digit(s[3]) && s[4] == '-' && Matches(All(rs), s[5..])
  {
    hide Matches, All;
    var rest := [In("-")] + rs;
    TwoDigits([DIGIT] + ([DIGIT] + rest), s);
    if |s| >= 2 {
      TwoDigits(rest, s[2..]);
      if |s| >= 4 {
        assert s[2..][2..] == s[4..];
        MarkStep('-', rs, s[4..]);
        if |s| >= 5 { assert s[4..][1..] == s[5..]; }
      }
    }
  }

  lemma DateParts()
    ensures TIMESTAMP_FORMS[0] == [DIGIT] + ([DIGIT] + ([DIGIT] + ([DIGIT] + ([In("-")] + ([DIGIT] + ([DIGIT] + ([In("-")] + ([DIGIT] + ([DIGIT] + [])))))))))
  {
    hide DIGIT, Opt, Plus, OFFSET, BLANKS;
  }

  lemma TimeParts()
    ensures TIMESTAMP_FORMS[1] == [DIGIT] + ([DIGIT] + ([DIGIT] + ([DIGIT] + ([In("-")] + MONTH))))
  {
    hide DIGIT, Opt, Plus, OFFSET, BLANKS;
  }

  lemma MonthAndDay(t: string)
    ensures Matches(All([DIGIT] + ([DIGIT] + ([In("-")] + ([DIGIT] + ([DIGIT] + []))))), t) <==>
      |t| == 5 && Digit(t[0]) && Digit(t[1]) && t[2] == '-' && Digit(t[3]) && Digit(t[4])
  {
    assert All([]) == Eps;
    hide Matches, All, DIGIT;
    var days := [DIGIT] + ([DIGIT] + []);
    TwoDigits([In("-")] + days, t);
    if |t| >= 2 {
      MarkStep('-', days, t[2..]);
      if |t| >= 3 {
        assert t[2..][1..] == t[3..];
        TwoDigits([], t[3..]);
        if |t| >= 5 { EpsOnly(t[3..][2..]); }
      }
    }
  }

  lemma DateForm(s: string)
    ensures Matches(All(TIMESTAMP_FORMS[0]), s) <==>
      |s| == 10 && Digit(s[0]) && Digit(s[1]) && Digit(s[2]) && Digit(s[3]) && s[4] == '-'
      && Digit(s[5]) && Digit(s[6]) && s[7] == '-' && Digit(s[8]) && Digit(s[9])
  {
    hide Matches, All, TIMESTAMP_FORMS, DIGIT;
    DateParts();
    YearStep([DIGIT] + ([DIGIT] + ([In("-")] + ([DIGIT] + ([DIGIT] + [])))), s);
    if |s| >= 5 { MonthAndDay(s[5..]); }
  }

  lemma TimeForm(s: string)
    ensures Matches(All(TIMESTAMP_FORMS[1]), s) <==>
      |s| >= 5 && Digit(s[0]) && Digit(s[1]) && Digit(s[2]) && Digit(s[3]) && s[4] == '-' && Month(s[5..])
  {
    hide Matches, All, TIMESTAMP_FORMS, MONTH, Month, DIGIT;
    TimeParts();
    YearStep(MONTH, s);
    if |s| >= 5 { MonthExactly(s[5..]); }
  }

  lemma TimestampExactly(s: string)
    ensures Matches(RES_TIMESTAMP, s) <==> IsTimestamp(s)
  {
    OneOfExactly(TIMESTAMP_FORMS, s);
    DateForm(s);
    TimeForm(s);
    assert |TIMESTAMP_FORMS| == 2;
    hide Matches, All, OneOf, TIMESTAMP_FORMS, Month;
    if i :| 0 <= i < 2 && Matches(All(TIMESTAMP_FORMS[i]), s) {
      assert i == 0 || i == 1;
    }
  }

  // ---------------------------------------------------------------------------
  // The tag of every text, and the style of every string
  // ---------------------------------------------------------------------------

  predicate IsNull(s: string) { s in {"", "~", "null", "Null", "NULL"} }

  predicate IsBool(s: string) {
    || s in {"true", "True", "TRUE", "yes", "Yes", "YES", "on", "On", "ON"}
    || s in {"false", "False", "FALSE", "no", "No", "NO", "off", "Off", "OFF"}
  }

  /** A merge key or a value key. */
  predicate IsSpecial(s: string) { s == "<<" || s == "=" }

  lemma TagExactly(s: string)
    ensures Resolve(s) ==
      if IsNull(s) then Null else if IsBool(s) then Bool else if IsSpecial(s) then Other
      else if IsFloat(s) then Float else if IsInt(s) then Int else if IsTimestamp(s) then Timestamp else Str
  {
    FloatExactly(s);
    IntExactly(s);
    TimestampExactly(s);
    hide Matches, IsFloat, IsInt, IsTimestamp, RES_FLOAT, RES_INT, RES_TIMESTAMP;
  }

  /** Written without quotes, the text reads as something else than a string. */
  predicate LooksLikeOther(s: string) {
    IsNull(s) || IsBool(s) || IsSpecial(s) || IsFloat(s) || IsInt(s) || IsTimestamp(s)
  }

  /** Control characters (line feed and tab too) and the byte order mark. */
  predicate NeedsEscape(c: char) { c as int < 0x20 || 0x7f <= c as int <= 0x9f || c == '\U{FEFF}' }

  /** The style of a string: double quotes exactly for what needs an escape; else no quotes
      exactly for what is one plain scalar of YAML and does not look like anything but a
      string; else single quotes, with the quotes inside doubled. */
  lemma StyleExactly(s: string)
    ensures EmitStringScalar(s) ==
      if exists c | c in s :: NeedsEscape(c) then "\"" + Escape(s) + "\""
      else if PlainShape(s) && !LooksLikeOther(s) then s
      else "'" + DoubleSingleQuotes(s) + "'"
    ensures EmitStringScalar(s) != "" && (EmitStringScalar(s)[0] == '"' <==> exists c | c in s :: NeedsEscape(c))
  {
    TagExactly(s);
    ResolvesAgree(s);
    LineExactly(s);
    PlainExactly(s);
    hide Resolve, ResolvesToNonString, IsNull, IsBool, IsFloat, IsInt, IsTimestamp, AllowPlain, SingleLine, NeedsEscape, Escape, DoubleSingleQuotes;
    assert PlainShape(s) ==> s != "" && s[0] != '"';
  }

  lemma LineExactly(s: string)
    ensures SingleLine(s) <==> !exists c | c in s :: NeedsEscape(c)
  {
    forall c ensures NeedsEscape(c) <==> c == '\n' || c == '\t' || !IsPrintable(c) {}
    hide NeedsEscape, IsPrintable;
    if !SingleLine(s) {
      var i :| 0 <= i < |s| && (s[i] == '\n' || s[i] == '\t' || !IsPrintable(s[i]));
      assert s[i] in s;
    }
  }

  /** On one line without escapes, the style analysis asks for the shape of a plain scalar. */
  lemma PlainExactly(s: string)
    ensures AllowPlain(s) <==> PlainShape(s) && SingleLine(s)
  {
    hide IsPrintable;
    if AllowPlain(s) { PlainIsSafe(s); }
    if PlainShape(s) && SingleLine(s) {
      assert forall i | 0 <= i < |s| :: s[i] != '\t';
      forall i | 0 <= i < |s| && s[i] == ':' ensures !(i + 1 == |s| || s[i + 1] == ' ') {
        assert !ColonAt(s, i);
      }
    }
  }

  /** What a scalar node prints as: a string in its style, a number or timestamp as it is
      written, null always as null, and of the booleans only true and false, in any of the
      three spellings that Go and YAML share; everything else is refused. */
  lemma ScalarExactly(tag: Tag, text: string)
    ensures EmitScalar(tag, text) ==
      if tag == Str then Some(EmitStringScalar(text))
      else if tag == Null then Some("null")
      else if tag == Bool && text in {"true", "True", "TRUE"} then Some("true")
      else if tag == Bool && text in {"false", "False", "FALSE"} then Some("false")
      else if tag == Bool || tag == Other then None
      else Some(text)
  {
  }

  predicate UpperHex(c: char) { '0' <= c <= '9' || 'A' <= c <= 'F' }

  /** How each character appears between double quotes. */
  lemma EscapesExactly(c: char)
    ensures var t := EscapeChar(c);
      if c == '"' then t == "\\\""
      else if c == '\\' then t == "\\\\"
      else if c == '\n' then t == "\\n"
      else if c == '\t' then t == "\\t"
      else if c == '\U{FEFF}' then t == "\\uFEFF"
      else if NeedsEscape(c) then |t| == 4 && t[..2] == "\\x" && ReadHex(t[2..]) == Some(c as int) && UpperHex(t[2]) && UpperHex(t[3])
      else t == [c]
  {
    hide Hex, ReadHex;
    if c as int <= 0xff { TwoHexDigits(c as int); } else { MarkEscape(); }
  }

  lemma TwoHexDigits(n: nat)
    requires n < 0x100
    ensures var t := Hex(n, 2); |t| == 2 && ReadHex(t) == Some(n) && UpperHex(t[0]) && UpperHex(t[1])
  {
    assert Pow16(2) == 0x100 by { assert Pow16(1) == 16; }
    ReadHexUndoes(n, 2);
    LastHexDigit(n, 2);
    LastHexDigit(n / 16, 1);
    hide Hex, ReadHex;
    assert Hex(n, 2)[0] == (Hex(n / 16, 1) + [Hex(n, 2)[1]])[0];
  }

  lemma LastHexDigit(n: nat, width: nat)
    requires width > 0
    ensures var t := Hex(n, width); |t| == width && |Hex(n / 16, width - 1)| == width - 1 && UpperHex(t[width - 1]) && t == Hex(n / 16, width - 1) + [t[width - 1]]
  {
    HexLength(n / 16, width - 1);
    hide Hex;
    assert Hex(n, width) == Hex(n / 16, width - 1) + [HexDigit(n % 16)] by { HexStep(n, width); }
    DigitIsHex(n % 16);
  }

  lemma HexStep(n: nat, width: nat)
    requires width > 0
    ensures Hex(n, width) == Hex(n / 16, width - 1) + [HexDigit(n % 16)]
  {
  }

  lemma DigitIsHex(d: nat)
    requires d < 16
    ensures UpperHex(HexDigit(d))
  {
  }

  lemma {:induction false} HexLength(n: nat, width: nat)
    ensures |Hex(n, width)| == width
  {
    if width > 0 { HexLength(n / 16, width - 1); }
  }

  lemma MarkEscape()
    ensures Hex(0xfeff, 4) == "FEFF"
  {
    assert Hex(0xf, 1) == "F" && Hex(0xfe, 2) == "FE" && Hex(0xfef, 3) == "FEF";
  }

  // ---------------------------------------------------------------------------
  // The usual numbers and dates
  // ---------------------------------------------------------------------------

  lemma FloatHasPoint(s: string)
    requires IsFloat(s)
    ensures '.' in s
  {
    var b := Unsigned(s);
    assert forall c | c in b :: c in s;
    if b != "" && PointNumber(b[1..]) {
      var i :| 0 <= i < |b[1..]| && b[1..][i] == '.';
      assert b[i + 1] == '.';
    } else if b != "" && SexagesimalPoint(b[1..]) {
      var j :| 0 <= j < |b[1..]| && b[1..][j] == '.';
      assert b[j + 1] == '.';
    } else {
      assert ".inf"[0] == '.' && ".Inf"[0] == '.' && ".INF"[0] == '.' && ".nan"[0] == '.' && ".NaN"[0] == '.' && ".NAN"[0] == '.';
      assert b != "" && b[0] == '.' ==> b[0] in b;
      assert s != "" && s[0] == '.' ==> s[0] in s;
    }
  }

  lemma {:induction false} GroupsHaveNoDash(t: string)
    requires Groups(t)
    ensures '-' !in t
    decreases |t|
  {
    if Digit(t[1]) && (|t| == 2 || Groups(t[2..])) {
      if |t| > 2 { GroupsHaveNoDash(t[2..]); }
      assert t == [t[0], t[1]] + t[2..];
    } else {
      if |t| > 3 { GroupsHaveNoDash(t[3..]); }
      assert t == [t[0], t[1], t[2]] + t[3..];
    }
  }

  lemma SexagesimalHasNoDash(t: string)
    requires Sexagesimal(t)
    ensures '-' !in t
  {
    var i :| 0 <= i <= |t| && AllIn(t[..i], TEN_) && Groups(t[i..]);
    GroupsHaveNoDash(t[i..]);
    assert t == t[..i] + t[i..];
  }

  /** After a first digit an integer has no dash. */
  lemma IntHasNoDash(s: string, k: nat)
    requires k < |s| && s[k] == '-' && Digit(s[0])
    ensures !IsInt(s)
  {
    assert s[1..][k - 1] == '-' && '-' in s[1..];
    assert k > 1 ==> s[2..][k - 2] == '-' && '-' in s[2..];
    assert |s| > 2 && k == 1 ==> s[..2][1] == '-';
    assert "0b"[1] == 'b' && "0x"[1] == 'x';
    assert !AllIn(s[1..], TEN_) && !AllIn(s[1..], "01234567_");
    assert k > 1 ==> !AllIn(s[2..], "01_") && !AllIn(s[2..], "0123456789abcdefABCDEF_");
    assert !Sexagesimal(s[1..]) by { if Sexagesimal(s[1..]) { SexagesimalHasNoDash(s[1..]); } }
  }

  lemma {:induction false} NothingToDouble(s: string)
    requires '\'' !in s
    ensures DoubleSingleQuotes(s) == s
  {
    if s != "" {
      NothingToDouble(s[1..]);
      assert s == [s[0]] + s[1..];
    }
  }

  predicate IsDecimal(s: string) { s != "" && AllIn(s, TEN) && s[0] != '0' }

  predicate IsDecimalFraction(s: string) {
    exists i | 0 < i < |s| :: s[i] == '.' && AllIn(s[..i], TEN) && AllIn(s[i + 1..], TEN)
  }

  predicate IsDate(s: string) {
    && |s| == 10 && Digit(s[0]) && Digit(s[1]) && Digit(s[2]) && Digit(s[3]) && s[4] == '-'
    && Digit(s[5]) && Digit(s[6]) && s[7] == '-' && Digit(s[8]) && Digit(s[9])
  }

  lemma StartsWithDigit(s: string)
    requires s != "" && Digit(s[0])
    ensures !IsNull(s) && !IsBool(s) && !IsSpecial(s) && Unsigned(s) == s
  {
  }

  lemma DecimalTag(s: string)
    requires IsDecimal(s)
    ensures Resolve(s) == Int
  {
    hide Resolve, IsNull, IsBool, IsSpecial, IsFloat, IsTimestamp, Sexagesimal;
    TagExactly(s);
    DigitIn(s[0]);
    assert s[0] in s;
    StartsWithDigit(s);
    assert AllIn(s[1..], TEN_) by { assert forall c | c in s[1..] :: c in s && c in TEN; }
    if IsFloat(s) { FloatHasPoint(s); }
  }

  lemma RunIsFraction(f: string)
    requires AllIn(f, TEN_)
    ensures Fraction(f)
  {
    assert f[..|f|] == f && f[|f|..] == "";
  }

  lemma FractionTag(s: string)
    requires IsDecimalFraction(s)
    ensures Resolve(s) == Float && s != "" && Digit(s[0])
  {
    hide Resolve, IsNull, IsBool, IsSpecial, IsInt, IsTimestamp, Exponent;
    var i :| 0 < i < |s| && s[i] == '.' && AllIn(s[..i], TEN) && AllIn(s[i + 1..], TEN);
    assert s[..i][0] == s[0];
    DigitIn(s[0]);
    StartsWithDigit(s);
    TagExactly(s);
    var t := s[1..];
    assert AllIn(t[..i - 1], TEN_) by { assert forall c | c in t[..i - 1] :: c in s[..i]; }
    assert t[i..] == s[i + 1..];
    var f := t[i..];
    assert AllIn(f, TEN_);
    RunIsFraction(f);
    assert t[i - 1] == '.' && PointNumber(t);
  }

  lemma DateTag(s: string)
    requires IsDate(s)
    ensures Resolve(s) == Timestamp
  {
    hide Resolve, IsNull, IsBool, IsSpecial, IsFloat, IsInt;
    StartsWithDigit(s);
    TagExactly(s);
    IntHasNoDash(s, 4);
    if IsFloat(s) { FloatHasPoint(s); }
  }

  /** Decimal integers, decimal fractions and dates: each is read with its tag, and quoted
      when it is a string. */
  lemma UsualNumbers(s: string)
    requires IsDecimal(s) || IsDecimalFraction(s) || IsDate(s)
    ensures Resolve(s) == if IsDecimal(s) then Int else if IsDecimalFraction(s) then Float else Timestamp
    ensures EmitStringScalar(s) == "'" + s + "'"
  {
    if IsDecimal(s) { DecimalTag(s); } else if IsDecimalFraction(s) { FractionTag(s); } else { DateTag(s); }
    UsualCharacters(s);
    NothingToDouble(s);
    StyleExactly(s);
    TagExactly(s);
    hide Resolve, IsDecimal, IsDecimalFraction, IsDate, PlainShape, IsNull, IsBool, IsSpecial, IsFloat, IsInt, IsTimestamp;
  }

  lemma UsualCharacters(s: string)
    requires IsDecimal(s) || IsDecimalFraction(s) || IsDate(s)
    ensures '\'' !in s && forall c | c in s :: !NeedsEscape(c)
  {
    forall i | 0 <= i < |s| ensures Digit(s[i]) || s[i] == '.' || s[i] == '-' {
      if IsDecimal(s) {
        DigitIn(s[i]);
      } else if IsDecimalFraction(s) {
        var j :| 0 < j < |s| && s[j] == '.' && AllIn(s[..j], TEN) && AllIn(s[j + 1..], TEN);
        if i < j { assert s[..j][i] == s[i]; } else if i > j { assert s[j + 1..][i - j - 1] == s[i]; }
        DigitIn(s[i]);
      }
    }
    hide IsDecimal, IsDecimalFraction, IsDate;
    forall c | c in s ensures !NeedsEscape(c) && c != '\'' {
      var i :| 0 <= i < |s| && s[i] == c;
    }
  }
}
