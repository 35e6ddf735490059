/** Whole documents: canonical text as characters, a reader for it, and the laws of the
    signing form (one text per body, different texts for different bodies). */
module CanonDocument {
  import opened Wrappers
  import opened CanonScalar
  import opened CanonTree
  import opened CanonText

  // ---------------------------------------------------------------------------
  // Lines and characters
  // ---------------------------------------------------------------------------

  function Spaces(n: nat): string { if n == 0 then "" else " " + Spaces(n - 1) }

  function Render(ls: seq<Line>): string {
    if ls == [] then "" else Spaces(ls[0].ind) + ls[0].body + "\n" + Render(ls[1..])
  }

  function ReadBody(t: string): (r: Option<Scanned>)
    ensures r.Some? ==> |r.value.rest| < |t|
  {
    if t == "" then None
    else if t[0] == '\n' then Some(Scanned("", t[1..]))
    else Prepend(t[0], ReadBody(t[1..]))
  }

  function ReadLine(t: string): (r: Option<(Line, string)>)
    ensures r.Some? ==> |r.value.1| < |t|
  {
    if t != "" && t[0] == ' ' then
      var r := ReadLine(t[1..]);
      if r.None? then None else Some((Line(r.value.0.ind + 1, r.value.0.body), r.value.1))
    else
      var b := ReadBody(t);
      if b.None? then None else Some((Line(0, b.value.value), b.value.rest))
  }

  function ReadLines(t: string): Option<seq<Line>>
    decreases |t|
  {
    if t == "" then Some([])
    else
      var l := ReadLine(t);
      if l.None? || l.value.0.body == "" then None
      else
        var ls := ReadLines(l.value.1);
        if ls.None? then None else Some([l.value.0] + ls.value)
  }

  predicate LineOK(l: Line) { l.body != "" && l.body[0] != ' ' && '\n' !in l.body }

  lemma {:induction false} ReadBodyUndoes(body: string, rest: string)
    requires '\n' !in body
    ensures ReadBody(body + "\n" + rest) == Some(Scanned(body, rest))
  {
    if body == "" {
      assert body + "\n" + rest == "\n" + rest;
    } else {
      ReadBodyUndoes(body[1..], rest);
      assert body + "\n" + rest == [body[0]] + (body[1..] + "\n" + rest);
      assert [body[0]] + body[1..] == body;
    }
  }

  lemma {:induction false} ReadLineUndoes(l: Line, rest: string)
    requires LineOK(l)
    ensures ReadLine(Spaces(l.ind) + l.body + "\n" + rest) == Some((l, rest))
    decreases l.ind
  {
    if l.ind == 0 {
      assert Spaces(0) + l.body + "\n" + rest == l.body + "\n" + rest;
      ReadBodyUndoes(l.body, rest);
    } else {
      ReadLineUndoes(Line(l.ind - 1, l.body), rest);
      assert Spaces(l.ind) + l.body + "\n" + rest == " " + (Spaces(l.ind - 1) + l.body + "\n" + rest);
    }
  }

  lemma {:induction false} ReadLinesUndoes(ls: seq<Line>)
    requires forall l | l in ls :: LineOK(l)
    ensures ReadLines(Render(ls)) == Some(ls)
  {
    if ls != [] {
      hide LineOK, ReadLine;
      ReadLineUndoes(ls[0], Render(ls[1..]));
      ReadLinesUndoes(ls[1..]);
      NonEmptyBody(ls[0]);
      assert Render(ls) != "" by { assert |Render(ls)| > 0; }
      assert ls == [ls[0]] + ls[1..];
    }
  }

  lemma NonEmptyBody(l: Line)
    requires LineOK(l)
    ensures l.body != ""
  {
  }

  // ---------------------------------------------------------------------------
  // Every line of a canonical tree is one line, at or right of its block's indent
  // ---------------------------------------------------------------------------

  predicate OneLine(s: string) { s != "" && s[0] != ' ' && '\n' !in s }

  lemma {:induction false} EscapeOneLine(s: string)
    ensures '\n' !in Escape(s)
  {
    if s != "" {
      EscapeOneLine(s[1..]);
      EscapeCharOneLine(s[0]);
    }
  }

  lemma EscapeCharOneLine(c: char)
    ensures '\n' !in EscapeChar(c)
  {
    HexOneLine(c as int, 2);
    HexOneLine(c as int, 4);
    HexOneLine(c as int, 8);
  }

  lemma {:induction false} HexOneLine(v: nat, width: nat)
    ensures '\n' !in Hex(v, width)
  {
    if width > 0 { HexOneLine(v / 16, width - 1); }
  }

  lemma {:induction false} DoublingOneLine(s: string)
    requires '\n' !in s
    ensures '\n' !in DoubleSingleQuotes(s)
  {
    if s != "" { DoublingOneLine(s[1..]); }
  }

  lemma StringOneLine(s: string)
    ensures OneLine(EmitStringScalar(s))
  {
    if PrintedPlain(s) {
    } else if SingleLine(s) {
      DoublingOneLine(s);
    } else {
      EscapeOneLine(s);
    }
  }

  lemma InlineOneLine(n: Node)
    requires Emittable(n) && Canonical(n) && IsInline(n)
    ensures OneLine(InlineText(n))
  {
    if n.Scalar? && n.tag == Str { StringOneLine(n.text); }
  }

  /** The lines of a block at `ind`. */
  predicate BlockOK(ls: seq<Line>, ind: nat) {
    forall l | l in ls :: LineOK(l) && l.ind >= ind
  }

  /** The lines of a block sequence at `ind`: at the indent itself only dash lines. */
  predicate SeqBlockOK(ls: seq<Line>, ind: nat) {
    BlockOK(ls, ind) && forall l | l in ls && l.ind == ind :: "- " <= l.body
  }

  lemma KeyLineOK(p: Pair, ind: nat)
    requires IsKey(p.key) && Emittable(p.val) && Canonical(p.val)
    ensures LineOK(EntryLines(p, ind)[0])
  {
    StringOneLine(p.key.text);
    if IsInline(p.val) { InlineOneLine(p.val); }
  }

  lemma {:induction false} MapBlockOK(pairs: seq<Pair>, ind: nat)
    requires EmittablePairs(pairs) && CanonicalPairs(pairs)
    ensures BlockOK(MapLines(pairs, ind), ind)
    decreases pairs, 0
  {
    if pairs != [] {
      hide Emittable, Canonical, EntryLines, LineOK;
      MapUncons(pairs, ind, []);
      MapBlockOK(pairs[1..], ind);
      EntryBlockOK(pairs[0], ind);
    }
  }

  lemma {:induction false} EntryBlockOK(p: Pair, ind: nat)
    requires IsKey(p.key) && Emittable(p.val) && Canonical(p.val)
    ensures BlockOK(EntryLines(p, ind), ind)
    decreases p, 0
  {
    KeyLineOK(p, ind);
    if !IsInline(p.val) {
      hide Emittable, Canonical, LineOK;
      ChildBlockOK(p.val, ind);
    }
  }

  lemma {:induction false} ChildBlockOK(n: Node, ind: nat)
    requires Emittable(n) && Canonical(n) && !IsInline(n)
    ensures BlockOK(ChildLines(n, ind), ind)
    ensures n.Mapping? ==> BlockOK(ChildLines(n, ind), ind + 2)
    ensures n.Sequence? ==> SeqBlockOK(ChildLines(n, ind), ind)
    decreases n, 0
  {
    CanonicalParts(n);
    hide Emittable, Canonical, LineOK;
    if n.Mapping? { MapBlockOK(n.pairs, ind + 2); } else { SeqLinesOK(n.items, ind); }
  }

  lemma {:induction false} SeqLinesOK(items: seq<Node>, ind: nat)
    requires CanonicalItems(items)
    ensures SeqBlockOK(SeqLines(items, ind), ind)
    decreases items, 0
  {
    if items != [] {
      hide Emittable, Canonical, ItemLines, LineOK;
      SeqUncons(items, ind, []);
      SeqLinesOK(items[1..], ind);
      ItemBlockOK(items[0], ind);
    }
  }

  lemma DashOK(ls: seq<Line>, ind: nat)
    requires ls != [] && BlockOK(ls, ind + 2)
    ensures SeqBlockOK(Dash(ls, ind), ind)
  {
    assert LineOK(ls[0]);
    var r := Dash(ls, ind);
    assert LineOK(r[0]) by { assert r[0].body == "- " + ls[0].body; }
    forall l | l in r ensures LineOK(l) && l.ind >= ind && (l.ind == ind ==> "- " <= l.body) {
      if l != r[0] { assert l in ls; }
    }
  }

  lemma {:induction false} ItemBlockOK(n: Node, ind: nat)
    requires Emittable(n) && Canonical(n)
    ensures SeqBlockOK(ItemLines(n, ind), ind)
    decreases n, 0
  {
    CanonicalParts(n);
    if IsInline(n) {
      InlineOneLine(n);
    } else {
      hide Emittable, Canonical, LineOK;
      if n.Mapping? {
        MapBlockOK(n.pairs, ind + 2);
        DashOK(MapLines(n.pairs, ind + 2), ind);
      } else {
        SeqLinesOK(n.items, ind + 2);
        DashOK(SeqLines(n.items, ind + 2), ind);
      }
    }
  }

  // ---------------------------------------------------------------------------
  // Document markers
  // ---------------------------------------------------------------------------

  /** YAML 1.2 section 9.1.2: "---" or "..." at column 0, then white space or the line's end. */
  predicate IsMarker(l: Line) {
    && l.ind == 0 && |l.body| >= 3 && l.body[..3] in {"---", "..."}
    && (|l.body| == 3 || IsWhite(l.body[3]))
  }

  /** A string that prints, as a key, to the text of a document marker. */
  predicate PrintsMarker(s: string) {
    var t := EmitStringScalar(s);
    |t| > 3 && t[..3] in {"---", "..."} && IsWhite(t[3])
  }

  lemma KeyLineMarker(p: Pair)
    requires IsKey(p.key) && Emittable(p.val)
    ensures IsMarker(EntryLines(p, 0)[0]) <==> PrintsMarker(p.key.text)
  {
    hide Emittable, EmitStringScalar, ChildLines, InlineText, IsInline;
    var t, b := EmitStringScalar(p.key.text), EntryLines(p, 0)[0].body;
    assert KeyText(p) == t + ":" && KeyText(p) <= b;
    assert forall i | 0 <= i < |t| :: b[i] == KeyText(p)[i] == t[i];
    assert b[|t|] == KeyText(p)[|t|] == ':';
    if |t| >= 3 {
      assert b[..3] == t[..3];
    } else if |b| >= 3 {
      assert b[..3][|t|] == ':';
    }
  }

  lemma ChildNoMarker(n: Node)
    requires Emittable(n) && Canonical(n) && !IsInline(n)
    ensures forall l | l in ChildLines(n, 0) :: !IsMarker(l)
  {
    ChildBlockOK(n, 0);
    forall l | l in ChildLines(n, 0) ensures !IsMarker(l) {
      if n.Sequence? && l.ind == 0 {
        assert "- " <= l.body && l.body[1] == ' ';
      }
    }
  }

  lemma EntryMarker(p: Pair)
    requires IsKey(p.key) && Emittable(p.val) && Canonical(p.val)
    ensures (exists l :: l in EntryLines(p, 0) && IsMarker(l)) <==> PrintsMarker(p.key.text)
  {
    KeyLineMarker(p);
    if !IsInline(p.val) { ChildNoMarker(p.val); }
    hide Emittable, Canonical, IsMarker, PrintsMarker;
    assert EntryLines(p, 0)[0] in EntryLines(p, 0);
  }

  /** Exactly the keys that print as markers put a marker line into the text. */
  lemma {:induction false} MarkerLines(pairs: seq<Pair>)
    requires EmittablePairs(pairs) && CanonicalPairs(pairs)
    ensures (exists l :: l in MapLines(pairs, 0) && IsMarker(l)) <==> (exists p :: p in pairs && PrintsMarker(p.key.text))
  {
    if pairs != [] {
      hide Emittable, Canonical, EntryLines, IsMarker, PrintsMarker;
      MapUncons(pairs, 0, []);
      MarkerLines(pairs[1..]);
      EntryMarker(pairs[0]);
      assert forall p :: p in pairs <==> p == pairs[0] || p in pairs[1..];
    }
  }

  // ---------------------------------------------------------------------------
  // Lines outside plain YAML
  // ---------------------------------------------------------------------------

  /** YAML 1.2 section 7.4: an implicit key has at most 1024 characters. */
  const KEY_LIMIT := 1024

  /** The length of the key a line holds, behind its dashes. */
  function KeyLength(body: string): nat {
    if "- " <= body then KeyLength(body[2..])
    else
      var k := ReadKey(body);
      if k.None? || |k.value.rest| >= |body| then 0 else |body| - |k.value.rest| - 1
  }

  predicate OddLine(l: Line) { Odd(l.body) || KeyLength(l.body) > KEY_LIMIT }

  predicate OddKey(s: string) { Odd(s) || |EmitStringScalar(s)| > 1024 }

  /** Somewhere in the tree a string or literal is odd, or a key too long. */
  predicate OddNode(n: Node) {
    match n
    case Scalar(_, text) => Odd(text)
    case Mapping(pairs) => exists p | p in pairs :: (p.key.Scalar? && OddKey(p.key.text)) || OddNode(p.val)
    case Sequence(items) => exists it | it in items :: OddNode(it)
  }

  predicate OddPair(p: Pair) {
    (p.key.Scalar? && OddKey(p.key.text)) || OddNode(p.val)
  }

  predicate AnyOdd(ls: seq<Line>) { exists l | l in ls :: OddLine(l) }

  lemma OddAppend(a: seq<Line>, b: seq<Line>)
    ensures AnyOdd(a + b) <==> AnyOdd(a) || AnyOdd(b)
  {
    hide OddLine;
    assert forall l :: l in a + b <==> l in a || l in b;
  }

  lemma OddFirst(ls: seq<Line>)
    requires ls != []
    ensures AnyOdd(ls) <==> OddLine(ls[0]) || AnyOdd(ls[1..])
  {
    hide OddLine;
    assert forall l :: l in ls <==> l == ls[0] || l in ls[1..];
  }

  lemma OddJoin(a: string, b: string)
    ensures Odd(a + b) <==> Odd(a) || Odd(b)
  {
    assert forall c :: c in a + b <==> c in a || c in b;
  }

  lemma DashedLine(l: Line, ind: nat)
    ensures OddLine(Line(ind, "- " + l.body)) <==> OddLine(l)
  {
    hide ReadKey;
    OddJoin("- ", l.body);
    assert ("- " + l.body)[2..] == l.body;
    assert !Odd("- ");
  }

  lemma DashOdd(ls: seq<Line>, ind: nat)
    requires ls != []
    ensures AnyOdd(Dash(ls, ind)) <==> AnyOdd(ls)
  {
    hide OddLine, AnyOdd;
    DashedLine(ls[0], ind);
    OddFirst(ls);
    OddFirst(Dash(ls, ind));
  }

  lemma InlineOdd(n: Node, ind: nat)
    requires Emittable(n) && Canonical(n) && IsInline(n)
    ensures Odd(InlineText(n)) <==> OddNode(n)
    ensures OddLine(Line(ind, InlineText(n))) <==> OddNode(n)
  {
    InlineRoundTrip(n);
    if n.Scalar? && n.tag == Str { OddPrinted(n.text); }
    hide ReadKey;
  }

  lemma KeyLineOdd(p: Pair, ind: nat, value: string)
    requires IsKey(p.key) && (value == "" || value[0] == ' ')
    ensures OddLine(Line(ind, KeyText(p) + value)) <==> OddKey(p.key.text) || Odd(value)
  {
    KeyLineReads(p, value);
    OddPrinted(p.key.text);
    var t := EmitStringScalar(p.key.text);
    OddJoin(t + ":", value);
    OddJoin(t, ":");
    hide ReadKey, EmitStringScalar;
    assert !("- " <= KeyText(p) + value);
  }

  lemma {:induction false} MapOdd(pairs: seq<Pair>, ind: nat)
    requires EmittablePairs(pairs) && CanonicalPairs(pairs)
    ensures AnyOdd(MapLines(pairs, ind)) <==> exists p | p in pairs :: OddPair(p)
    decreases pairs, 0
  {
    if pairs != [] {
      hide Emittable, Canonical, EntryLines, AnyOdd, OddPair;
      MapUncons(pairs, ind, []);
      MapOdd(pairs[1..], ind);
      EntryOdd(pairs[0], ind);
      OddAppend(EntryLines(pairs[0], ind), MapLines(pairs[1..], ind));
      assert forall p :: p in pairs <==> p == pairs[0] || p in pairs[1..];
    } else {
      assert !AnyOdd([]);
    }
  }

  lemma InlineEntryOdd(p: Pair, ind: nat)
    requires IsKey(p.key) && Emittable(p.val) && Canonical(p.val) && IsInline(p.val)
    ensures AnyOdd(EntryLines(p, ind)) <==> OddPair(p)
  {
    hide Emittable, Canonical, OddKey, OddNode, AnyOdd, OddLine, Odd, KeyText, InlineText;
    var text := InlineText(p.val);
    InlineOdd(p.val, ind);
    OddJoin(" ", text);
    NoOddSpace();
    KeyLineOdd(p, ind, " " + text);
    assert KeyText(p) + " " + text == KeyText(p) + (" " + text);
    OddFirst(EntryLines(p, ind));
    assert EntryLines(p, ind)[1..] == [];
    NoneOdd();
  }

  lemma NoOddSpace()
    ensures !Odd("") && !Odd(" ")
  {
  }

  lemma {:induction false} EntryOdd(p: Pair, ind: nat)
    requires IsKey(p.key) && Emittable(p.val) && Canonical(p.val)
    ensures AnyOdd(EntryLines(p, ind)) <==> OddPair(p)
    decreases p, 0
  {
    if IsInline(p.val) {
      InlineEntryOdd(p, ind);
    } else {
      hide Emittable, Canonical, OddKey, OddNode, AnyOdd, OddLine, Odd, KeyText, ChildLines;
      ChildOdd(p.val, ind);
      NoOddSpace();
      KeyLineOdd(p, ind, "");
      assert KeyText(p) + "" == KeyText(p);
      OddFirst(EntryLines(p, ind));
      assert EntryLines(p, ind)[1..] == ChildLines(p.val, ind);
    }
  }

  lemma NoneOdd()
    ensures !AnyOdd([])
  {
  }

  lemma {:induction false} ChildOdd(n: Node, ind: nat)
    requires Emittable(n) && Canonical(n) && !IsInline(n)
    ensures AnyOdd(ChildLines(n, ind)) <==> OddNode(n)
    decreases n, 0
  {
    CanonicalParts(n);
    hide Emittable, Canonical, AnyOdd;
    if n.Mapping? {
      MapOdd(n.pairs, ind + 2);
      PairsOdd(n);
    } else {
      SeqOdd(n.items, ind);
    }
  }

  lemma PairsOdd(n: Node)
    requires n.Mapping?
    ensures OddNode(n) <==> exists p | p in n.pairs :: OddPair(p)
  {
  }

  lemma {:induction false} SeqOdd(items: seq<Node>, ind: nat)
    requires CanonicalItems(items)
    ensures AnyOdd(SeqLines(items, ind)) <==> exists it | it in items :: OddNode(it)
    decreases items, 0
  {
    if items != [] {
      hide Emittable, Canonical, ItemLines, AnyOdd, OddNode;
      SeqUncons(items, ind, []);
      SeqOdd(items[1..], ind);
      ItemOdd(items[0], ind);
      OddAppend(ItemLines(items[0], ind), SeqLines(items[1..], ind));
      assert forall it :: it in items <==> it == items[0] || it in items[1..];
    } else {
      NoneOdd();
    }
  }

  lemma {:induction false} ItemOdd(n: Node, ind: nat)
    requires Emittable(n) && Canonical(n)
    ensures AnyOdd(ItemLines(n, ind)) <==> OddNode(n)
    decreases n, 0
  {
    CanonicalParts(n);
    if IsInline(n) {
      InlineOdd(n, ind);
      hide Emittable, Canonical, OddNode, AnyOdd, OddLine;
      DashedLine(Line(ind, InlineText(n)), ind);
      OddFirst(ItemLines(n, ind));
      NoneOdd();
    } else {
      hide Emittable, Canonical, AnyOdd;
      if n.Mapping? {
        MapOdd(n.pairs, ind + 2);
        PairsOdd(n);
        DashOdd(MapLines(n.pairs, ind + 2), ind);
      } else {
        SeqOdd(n.items, ind + 2);
        DashOdd(SeqLines(n.items, ind + 2), ind);
      }
    }
  }

  // ---------------------------------------------------------------------------
  // Documents
  // ---------------------------------------------------------------------------

  /** The texts this reader is for. */
  predicate InSubset(t: string) {
    var ls := ReadLines(t);
    t != "" && ls.Some? && forall l | l in ls.value :: !IsMarker(l) && !OddLine(l)
  }

  /** A text of the subset, as one bare document holding a block mapping. */
  function ReadDocument(t: string): Option<Node> {
    if !InSubset(t) then None
    else
      var m := ReadMap(ReadLines(t).value, 0);
      if m.None? || m.value.rest != [] then None else Some(Mapping(m.value.value))
  }

  /** The rule pack without its top-level signed block. */
  function Body(pairs: seq<Pair>): (r: seq<Pair>)
    requires KeysAreStrings(pairs)
    ensures KeysAreStrings(r) && forall p :: p in r <==> p in pairs && p.key.text != "signed"
  {
    if pairs == [] then []
    else if pairs[0].key.text == "signed" then Body(pairs[1..])
    else [pairs[0]] + Body(pairs[1..])
  }

  /** The documents that have a canonical text. */
  predicate HasCanonicalText(root: Node) {
    root.Mapping? && KeysAreStrings(root.pairs) && EmittablePairs(Body(root.pairs))
  }

  predicate WellFormedBody(root: Node)
    requires HasCanonicalText(root)
  {
    WellFormed(Mapping(Body(root.pairs)))
  }

  function CanonBody(root: Node): Node
    requires HasCanonicalText(root)
  {
    Canon(Mapping(Body(root.pairs)))
  }

  /** The signing bytes, as characters. */
  function CanonicalText(root: Node): string
    requires HasCanonicalText(root)
  {
    var n := CanonBody(root);
    SortedEmittable(Body(root.pairs));
    Render(MapLines(n.pairs, 0))
  }

  lemma SortedEmittable(pairs: seq<Pair>)
    requires EmittablePairs(pairs)
    ensures EmittablePairs(SortPairs(CanonPairs(pairs)))
  {
    SortKeeps(CanonPairs(pairs));
    forall p | p in CanonPairs(pairs) ensures IsKey(p.key) && Emittable(p.val) {
      var i :| 0 <= i < |pairs| && p == CanonPairs(pairs)[i];
      assert pairs[i] in pairs;
      CanonEmittable(pairs[i].val);
    }
  }

  /** The whole text, read line by line, gives the body back key-sorted. */
  lemma TextReadsBack(root: Node)
    requires HasCanonicalText(root) && WellFormedBody(root)
    ensures var ls := ReadLines(CanonicalText(root));
      ls.Some? && ReadMap(ls.value, 0) == Some(Parsed(CanonBody(root).pairs, []))
  {
    CanonIsCanonical(Mapping(Body(root.pairs)));
    SortedEmittable(Body(root.pairs));
    var n := CanonBody(root);
    CanonicalParts(n);
    MapBlockOK(n.pairs, 0);
    ReadLinesUndoes(MapLines(n.pairs, 0));
    MapRoundTrip(n.pairs, 0, []);
    assert MapLines(n.pairs, 0) + [] == MapLines(n.pairs, 0);
  }

  /** Canonical pairs read back from their text. */
  lemma PairsReadBack(pairs: seq<Pair>)
    requires EmittablePairs(pairs) && CanonicalPairs(pairs)
    ensures ReadLines(Render(MapLines(pairs, 0))) == Some(MapLines(pairs, 0))
    ensures ReadMap(MapLines(pairs, 0), 0) == Some(Parsed(pairs, []))
  {
    hide Emittable, Canonical;
    MapBlockOK(pairs, 0);
    ReadLinesUndoes(MapLines(pairs, 0));
    MapRoundTrip(pairs, 0, []);
    assert MapLines(pairs, 0) + [] == MapLines(pairs, 0);
  }

  /** The body in canonical form is a list of canonical pairs. */
  lemma CanonBodyParts(root: Node)
    requires HasCanonicalText(root) && WellFormedBody(root)
    ensures var pairs := CanonBody(root).pairs;
      EmittablePairs(pairs) && CanonicalPairs(pairs) && Canonical(Mapping(pairs)) && CanonicalText(root) == Render(MapLines(pairs, 0))
  {
    CanonIsCanonical(Mapping(Body(root.pairs)));
    SortedEmittable(Body(root.pairs));
    CanonicalParts(CanonBody(root));
  }

  /** What a caller can check on the canonical body: it is not empty, no top-level key
      prints as a document marker, and nothing in it is odd. */
  predicate SafePairs(pairs: seq<Pair>) {
    pairs != [] && forall p | p in pairs :: IsKey(p.key) && !PrintsMarker(p.key.text) && !OddPair(p)
  }

  predicate DocumentSafe(root: Node)
    requires HasCanonicalText(root)
  {
    SafePairs(CanonBody(root).pairs)
  }

  lemma SubsetOfPairs(pairs: seq<Pair>)
    requires EmittablePairs(pairs) && CanonicalPairs(pairs)
    ensures InSubset(Render(MapLines(pairs, 0))) <==> SafePairs(pairs)
  {
    hide Emittable, Canonical, IsMarker, PrintsMarker, OddLine, OddPair, ReadLines;
    PairsReadBack(pairs);
    MarkerLines(pairs);
    MapOdd(pairs, 0);
    if pairs != [] { MapUncons(pairs, 0, []); }
    assert Render(MapLines(pairs, 0)) != "" <==> pairs != [];
    hide MapLines, Render;
  }

  /** The canonical text is in the subset exactly for the safe documents. */
  lemma SubsetExactly(root: Node)
    requires HasCanonicalText(root) && WellFormedBody(root)
    ensures InSubset(CanonicalText(root)) <==> DocumentSafe(root)
  {
    CanonBodyParts(root);
    SubsetOfPairs(CanonBody(root).pairs);
  }

  /** Reading the canonical text back gives the same tree with every mapping key-sorted,
      exactly for the safe documents; the texts of the others are not in the subset. */
  lemma DocumentRoundTrip(root: Node)
    requires HasCanonicalText(root) && WellFormedBody(root)
    ensures ReadDocument(CanonicalText(root)) == if DocumentSafe(root) then Some(CanonBody(root)) else None
  {
    SubsetExactly(root);
    CanonBodyParts(root);
    PairsReadBack(CanonBody(root).pairs);
    hide InSubset, DocumentSafe, Render, ReadLines, ReadMap;
  }

  function Literal(tag: Tag, text: string): (Tag, string) { (tag, text) }

  /** One text per body, and different texts for different bodies: two documents have the
      same canonical text exactly when their bodies decode to the same value, whatever
      the key order, the top-level signed blocks and the spelling of booleans. */
  lemma Canonicity(a: Node, b: Node)
    requires HasCanonicalText(a) && WellFormedBody(a) && HasCanonicalText(b) && WellFormedBody(b)
    ensures CanonicalText(a) == CanonicalText(b) <==>
            DecodePairs(Body(a.pairs), Literal) == DecodePairs(Body(b.pairs), Literal)
  {
    var na, nb := Mapping(Body(a.pairs)), Mapping(Body(b.pairs));
    WellFormedKeys(na);
    WellFormedKeys(nb);
    CanonKeepsValue(na, Literal);
    CanonKeepsValue(nb, Literal);
    if CanonicalText(a) == CanonicalText(b) {
      TextReadsBack(a);
      TextReadsBack(b);
      assert Canon(na).pairs == Canon(nb).pairs;
    }
    if DecodePairs(Body(a.pairs), Literal) == DecodePairs(Body(b.pairs), Literal) {
      CanonIsCanonical(na);
      CanonIsCanonical(nb);
      CanonicalUnique(Canon(na), Canon(nb), Literal);
    }
  }

  /** The canonical body has no signed block left to drop. */
  lemma NothingSigned(root: Node)
    requires HasCanonicalText(root)
    ensures var pairs := CanonBody(root).pairs; KeysAreStrings(pairs) && Body(pairs) == pairs
  {
    var body := Body(root.pairs);
    var pairs := CanonBody(root).pairs;
    hide Emittable, Canon;
    SortKeeps(CanonPairs(body));
    forall p | p in pairs ensures IsKey(p.key) && p.key.text != "signed" {
      var i :| 0 <= i < |body| && CanonPairs(body)[i] == p;
      assert body[i] in body;
    }
    BodyFixed(pairs);
  }

  /** Canonicalising what was read back from canonical text changes nothing. */
  lemma CanonicalTextIsFixed(root: Node, again: Node)
    requires HasCanonicalText(root) && WellFormedBody(root)
    requires ReadDocument(CanonicalText(root)) == Some(again)
    ensures HasCanonicalText(again) && CanonicalText(again) == CanonicalText(root)
  {
    DocumentRoundTrip(root);
    CanonBodyParts(root);
    NothingSigned(root);
    CanonFixed(again);
  }

  lemma {:induction false} BodyFixed(pairs: seq<Pair>)
    requires KeysAreStrings(pairs) && forall p | p in pairs :: p.key.text != "signed"
    ensures Body(pairs) == pairs
  {
    if pairs != [] { BodyFixed(pairs[1..]); }
  }
}
