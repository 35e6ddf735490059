/** Ways to show that a string is in none of the resolver's languages, because it has a
    character that no word of any of them has, or that it is in one, piece by piece. */
module CanonResolver {
  import opened CanonScalar

  /** No word of `r` contains `c`. */
  predicate Lacks(r: Re, c: char) {
    match r
    case Never => true
    case Eps => true
    case In(cs) => c !in cs
    case Cat(a, b) => Lacks(a, c) && Lacks(b, c)
    case Alt(a, b) => Lacks(a, c) && Lacks(b, c)
    case Star(a) => Lacks(a, c)
  }

  /** `r` has no words at all, visibly. */
  predicate Dead(r: Re)
    ensures Dead(r) ==> !Nullable(r)
  {
    match r
    case Never => true
    case Eps => false
    case In(_) => false
    case Cat(a, b) => Dead(a) || Dead(b)
    case Alt(a, b) => Dead(a) && Dead(b)
    case Star(_) => false
  }

  lemma DeadStays(r: Re, d: char)
    requires Dead(r)
    ensures Dead(Derive(r, d))
  {
  }

  lemma LacksStays(r: Re, d: char, c: char)
    requires Lacks(r, c)
    ensures Lacks(Derive(r, d), c)
  {
  }

  lemma LacksKills(r: Re, c: char)
    requires Lacks(r, c)
    ensures Dead(Derive(r, c))
  {
  }

  lemma {:induction false} LacksMatchesNothing(r: Re, s: string, c: char)
    requires Dead(r) || (Lacks(r, c) && c in s)
    ensures !Matches(r, s)
    decreases |s|
  {
    if s != "" {
      if Dead(r) { DeadStays(r, s[0]); } else { LacksStays(r, s[0], c); LacksKills(r, c); }
      LacksMatchesNothing(Derive(r, s[0]), s[1..], c);
    }
  }

  lemma {:induction false} LacksAll(rs: seq<Re>, c: char)
    requires forall r | r in rs :: Lacks(r, c)
    ensures Lacks(All(rs), c) && Lacks(Any(rs), c)
  {
    if rs != [] { LacksAll(rs[1..], c); }
  }

  lemma {:induction false} LacksWord(w: string, c: char)
    requires c !in w
    ensures Lacks(Word(w), c)
  {
    if w != "" { LacksWord(w[1..], c); }
  }

  lemma {:induction false} OneOfLacks(forms: seq<seq<Re>>, c: char)
    requires forall f | f in forms :: forall r | r in f :: Lacks(r, c)
    ensures Lacks(OneOf(forms), c)
  {
    if forms != [] {
      assert forms[0] in forms;
      LacksAll(forms[0], c);
      assert forall f | f in forms[1..] :: f in forms;
      OneOfLacks(forms[1..], c);
    }
  }

  predicate PartsLack(c: char) {
    forall r | r in {SIGN, DIGIT, DIGITS_U, EXPONENT, SEXAGESIMAL, INF, NAN, OFFSET} :: Lacks(r, c)
  }

  lemma PartsLackZ()
    ensures PartsLack('z')
  {
    LacksAll([In("eE"), In("-+"), Plus(DIGIT)], 'z');
    LacksAll([In(":"), Opt(In("012345")), DIGIT], 'z');
    LacksAll([In(":"), DIGIT, DIGIT], 'z');
    LacksAll([In("-+"), DIGIT, Opt(DIGIT), ZONE], 'z');
    WordsLackZ();
  }

  lemma WordsLackZ()
    ensures Lacks(INF, 'z') && Lacks(NAN, 'z')
  {
    LacksWord("inf", 'z'); LacksWord("Inf", 'z'); LacksWord("INF", 'z');
    LacksWord("nan", 'z'); LacksWord("NaN", 'z'); LacksWord("NAN", 'z');
    hide Word;
    LacksAll([Word("inf"), Word("Inf"), Word("INF")], 'z');
    LacksAll([Word("nan"), Word("NaN"), Word("NAN")], 'z');
  }

  lemma FloatLacksZ()
    ensures Lacks(RES_FLOAT, 'z')
  {
    PartsLackZ();
    hide OneOf, All, Any, Word;
    OneOfLacks(FLOAT_FORMS, 'z');
  }

  lemma IntLacksZ()
    ensures Lacks(RES_INT, 'z')
  {
    PartsLackZ();
    hide OneOf, All, Any, Word, SIGN, DIGITS_U, SEXAGESIMAL;
    OneOfLacks(INT_FORMS, 'z');
  }

  lemma TimestampLacksZ()
    ensures Lacks(RES_TIMESTAMP, 'z')
  {
    PartsLackZ();
    hide OneOf, All, Any, Word;
    assert Lacks(BLANKS, 'z') && Lacks(DIGIT, 'z');
    assert Lacks(Star(BLANKS), 'z') && Lacks(Star(DIGIT), 'z');
    assert Lacks(Cat(Star(BLANKS), OFFSET), 'z');
    assert Plus(BLANKS) == Cat(BLANKS, Star(BLANKS)) && Lacks(Plus(BLANKS), 'z');
    assert Lacks(In("."), 'z');
    assert Lacks(Cat(In("."), Star(DIGIT)), 'z');
    OneOfLacks(TIMESTAMP_FORMS, 'z');
  }

  lemma LetterZIsAString(s: string)
    requires 'z' in s
    ensures !ResolvesToNonString(s)
  {
    FloatLacksZ();
    IntLacksZ();
    TimestampLacksZ();
    hide OneOf, All, Lacks, Matches;
    LacksMatchesNothing(RES_FLOAT, s, 'z');
    LacksMatchesNothing(RES_INT, s, 'z');
    LacksMatchesNothing(RES_TIMESTAMP, s, 'z');
  }

  // ---------------------------------------------------------------------------
  // Words of the languages, piece by piece
  // ---------------------------------------------------------------------------

  lemma {:induction false} MatchesAlt(a: Re, b: Re, s: string)
    ensures Matches(Alt(a, b), s) <==> Matches(a, s) || Matches(b, s)
    decreases |s|
  {
    if s != "" { MatchesAlt(Derive(a, s[0]), Derive(b, s[0]), s[1..]); }
  }

  lemma {:induction false} MatchesCat(a: Re, b: Re, s: string, t: string)
    requires Matches(a, s) && Matches(b, t)
    ensures Matches(Cat(a, b), s + t)
    decreases |s|
  {
    if s == "" {
      assert s + t == t;
      if t != "" { MatchesAlt(Cat(Derive(a, t[0]), b), Derive(b, t[0]), t[1..]); }
    } else {
      var c := s[0];
      assert (s + t)[0] == c && (s + t)[1..] == s[1..] + t;
      MatchesCat(Derive(a, c), b, s[1..], t);
      MatchesAlt(Cat(Derive(a, c), b), Derive(b, c), (s + t)[1..]);
    }
  }

  lemma MatchesIn(cs: string, c: char)
    requires c in cs
    ensures Matches(In(cs), [c])
  {
    assert [c][1..] == "";
  }

  lemma {:induction false} MatchesWord(w: string)
    ensures Matches(Word(w), w)
  {
    if w != "" {
      MatchesWord(w[1..]);
      MatchesIn(w[..1], w[0]);
      MatchesCat(In(w[..1]), Word(w[1..]), [w[0]], w[1..]);
      assert [w[0]] + w[1..] == w;
    }
  }

  lemma {:induction false} MatchesForm(forms: seq<seq<Re>>, i: nat, s: string)
    requires i < |forms| && Matches(All(forms[i]), s)
    ensures Matches(OneOf(forms), s)
  {
    MatchesAlt(All(forms[0]), OneOf(forms[1..]), s);
    if i > 0 { MatchesForm(forms[1..], i - 1, s); }
  }

  /** The two-part form "." and then one of the words for not-a-number. */
  lemma NaNIsAFloat()
    ensures Resolve(".nan") == Float
  {
    assert forall w | w in RES_NULL || w in RES_BOOL :: w == "" || w[0] != '.';
    assert ".nan"[0] == '.' && "<<"[0] == '<' && "="[0] == '=';
    hide Matches, RES_FLOAT;
    NaNMatches();
  }

  lemma NaNMatches()
    ensures Matches(RES_FLOAT, ".nan")
  {
    hide Derive, Nullable, OneOf, Word;
    var rest := Any([Word("NaN"), Word("NAN")]);
    assert [Word("nan"), Word("NaN"), Word("NAN")][1..] == [Word("NaN"), Word("NAN")];
    assert NAN == Alt(Word("nan"), rest);
    MatchesWord("nan");
    MatchesAlt(Word("nan"), rest, "nan");
    MatchesEps();
    MatchesCat(NAN, Eps, "nan", "");
    assert "nan" + "" == "nan";
    MatchesIn(".", '.');
    MatchesCat(In("."), Cat(NAN, Eps), ".", "nan");
    assert "." + "nan" == ".nan";
    AllOfTwo(In("."), NAN);
    hide Matches, All, NAN;
    NaNForm();
    MatchesForm(FLOAT_FORMS, 4, ".nan");
  }

  lemma AllOfTwo(a: Re, b: Re)
    ensures All([a, b]) == Cat(a, Cat(b, Eps))
  {
    assert [a, b][1..] == [b] && [b][1..] == [];
    assert All([b]) == Cat(b, All([]));
  }

  lemma NaNForm()
    ensures FLOAT_FORMS[4] == [In("."), NAN]
  {
    hide NAN, SIGN, DIGIT, DIGITS_U, EXPONENT, SEXAGESIMAL, INF;
  }

  lemma MatchesEps()
    ensures Matches(Eps, "")
  {
  }
}
