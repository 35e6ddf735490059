/** The block layout of the canonical form, line by line, and a reader for it: key lines
    at the mapping's indent, indentless sequences under a key, "- " entries whose
    first nested line continues on the dash line. */
module CanonText {
  import opened Wrappers
  import opened CanonScalar
  import opened CanonTree

  /** One line of text: `ind` spaces, then a body that starts with none. */
  datatype Line = Line(ind: nat, body: string)

  // ---------------------------------------------------------------------------
  // Layout of a canonical tree
  // ---------------------------------------------------------------------------

  function ScalarText(n: Node): string
    requires n.Scalar? && Emittable(n)
  {
    EmitScalar(n.tag, n.text).value
  }

  function KeyText(p: Pair): string
    requires IsKey(p.key)
  {
    EmitStringScalar(p.key.text) + ":"
  }

  /** A value without children, as it follows "key:" or "-". */
  predicate IsInline(n: Node) {
    n.Scalar? || (n.Mapping? && n.pairs == []) || (n.Sequence? && n.items == [])
  }

  function InlineText(n: Node): string
    requires Emittable(n) && IsInline(n)
  {
    match n
    case Scalar(_, _) => ScalarText(n)
    case Mapping(_) => "{}"
    case Sequence(_) => "[]"
  }

  function MapLines(pairs: seq<Pair>, ind: nat): seq<Line>
    requires EmittablePairs(pairs)
  {
    if pairs == [] then [] else EntryLines(pairs[0], ind) + MapLines(pairs[1..], ind)
  }

  function EntryLines(p: Pair, ind: nat): (r: seq<Line>)
    requires IsKey(p.key) && Emittable(p.val)
    ensures r != [] && r[0].ind == ind && KeyText(p) <= r[0].body
  {
    if IsInline(p.val) then [Line(ind, KeyText(p) + " " + InlineText(p.val))]
    else [Line(ind, KeyText(p))] + ChildLines(p.val, ind)
  }

  /** The lines under "key:": a mapping is indented, a sequence is not. */
  function ChildLines(n: Node, ind: nat): seq<Line>
    requires Emittable(n) && !IsInline(n)
  {
    if n.Mapping? then MapLines(n.pairs, ind + 2) else SeqLines(n.items, ind)
  }

  function SeqLines(items: seq<Node>, ind: nat): seq<Line>
    requires forall it | it in items :: Emittable(it)
  {
    if items == [] then [] else ItemLines(items[0], ind) + SeqLines(items[1..], ind)
  }

  /** `ls` with its first line moved up onto a dash line. */
  function Dash(ls: seq<Line>, ind: nat): seq<Line>
    requires ls != []
  {
    [Line(ind, "- " + ls[0].body)] + ls[1..]
  }

  function ItemLines(n: Node, ind: nat): (r: seq<Line>)
    requires Emittable(n)
    ensures r != [] && r[0].ind == ind && "- " <= r[0].body
  {
    if IsInline(n) then [Line(ind, "- " + InlineText(n))]
    else if n.Mapping? then Dash(MapLines(n.pairs, ind + 2), ind)
    else Dash(SeqLines(n.items, ind + 2), ind)
  }

  // ---------------------------------------------------------------------------
  // The layout, spelled out
  // ---------------------------------------------------------------------------

  predicate IsScalar(n: Node) { n.Scalar? && Emittable(n) }

  function TextPair(key: string, val: Node): Pair { Pair(Scalar(Str, key), val) }

  lemma OnePair(p: Pair, ind: nat)
    requires IsKey(p.key) && Emittable(p.val)
    ensures MapLines([p], ind) == EntryLines(p, ind)
  {
    assert [p][1..] == [];
    assert MapLines([p], ind) == EntryLines(p, ind) + MapLines([], ind);
  }

  lemma OneItem(n: Node, ind: nat)
    requires Emittable(n)
    ensures SeqLines([n], ind) == ItemLines(n, ind)
  {
    assert [n][1..] == [];
    assert SeqLines([n], ind) == ItemLines(n, ind) + SeqLines([], ind);
  }

  lemma TwoPairs(p: Pair, q: Pair, ind: nat)
    requires IsKey(p.key) && Emittable(p.val) && IsKey(q.key) && Emittable(q.val)
    ensures MapLines([p, q], ind) == EntryLines(p, ind) + EntryLines(q, ind)
  {
    OnePair(q, ind);
    hide EntryLines;
    assert [p, q][1..] == [q];
  }

  lemma TwoItems(n: Node, m: Node, ind: nat)
    requires Emittable(n) && Emittable(m)
    ensures SeqLines([n, m], ind) == ItemLines(n, ind) + ItemLines(m, ind)
  {
    OneItem(m, ind);
    hide ItemLines;
    assert [n, m][1..] == [m];
  }

  /** Under a key: an inline value on its line, a mapping two columns in, a sequence at the
      column of the key. */
  lemma LayoutUnderKey(key: string, k: string, v: Node, l: string, w: Node, ind: nat)
    requires IsScalar(v) && IsScalar(w)
    ensures EntryLines(TextPair(key, v), ind) == [Line(ind, EmitStringScalar(key) + ": " + ScalarText(v))]
    ensures EntryLines(TextPair(key, Mapping([])), ind) == [Line(ind, EmitStringScalar(key) + ": {}")]
    ensures EntryLines(TextPair(key, Sequence([])), ind) == [Line(ind, EmitStringScalar(key) + ": []")]
    ensures Emittable(Mapping([TextPair(k, v), TextPair(l, w)])) &&
      EntryLines(TextPair(key, Mapping([TextPair(k, v), TextPair(l, w)])), ind) ==
        [Line(ind, EmitStringScalar(key) + ":"), Line(ind + 2, EmitStringScalar(k) + ": " + ScalarText(v)), Line(ind + 2, EmitStringScalar(l) + ": " + ScalarText(w))]
    ensures Emittable(Sequence([v, w])) &&
      EntryLines(TextPair(key, Sequence([v, w])), ind) ==
        [Line(ind, EmitStringScalar(key) + ":"), Line(ind, "- " + ScalarText(v)), Line(ind, "- " + ScalarText(w))]
  {
    hide EmitStringScalar, EmitScalar;
    TwoPairs(TextPair(k, v), TextPair(l, w), ind + 2);
    TwoItems(v, w, ind);
    InlineLine(key, v, ind);
    InlineLine(key, Mapping([]), ind);
    InlineLine(key, Sequence([]), ind);
    assert EmitStringScalar(key) + ": " + "{}" == EmitStringScalar(key) + ": {}" && EmitStringScalar(key) + ": " + "[]" == EmitStringScalar(key) + ": []";
    InlineLine(k, v, ind + 2);
    InlineLine(l, w, ind + 2);
  }

  lemma InlineLine(key: string, n: Node, ind: nat)
    requires Emittable(n) && IsInline(n)
    ensures EntryLines(TextPair(key, n), ind) == [Line(ind, EmitStringScalar(key) + ": " + InlineText(n))]
  {
    assert EmitStringScalar(key) + ":" + " " == EmitStringScalar(key) + ": ";
  }

  /** In a sequence: the first line of an item follows its dash, the others are two columns
      in. */
  lemma LayoutInSequence(k: string, v: Node, l: string, w: Node, ind: nat)
    requires IsScalar(v) && IsScalar(w)
    ensures ItemLines(v, ind) == [Line(ind, "- " + ScalarText(v))]
    ensures ItemLines(Mapping([]), ind) == [Line(ind, "- {}")] && ItemLines(Sequence([]), ind) == [Line(ind, "- []")]
    ensures Emittable(Mapping([TextPair(k, v), TextPair(l, w)])) &&
      ItemLines(Mapping([TextPair(k, v), TextPair(l, w)]), ind) ==
        [Line(ind, "- " + EmitStringScalar(k) + ": " + ScalarText(v)), Line(ind + 2, EmitStringScalar(l) + ": " + ScalarText(w))]
    ensures Emittable(Sequence([v, w])) &&
      ItemLines(Sequence([v, w]), ind) == [Line(ind, "- - " + ScalarText(v)), Line(ind + 2, "- " + ScalarText(w))]
  {
    hide EmitStringScalar, EmitScalar;
    TwoPairs(TextPair(k, v), TextPair(l, w), ind + 2);
    TwoItems(v, w, ind + 2);
    InlineLine(k, v, ind + 2);
    InlineLine(l, w, ind + 2);
    assert "- " + "{}" == "- {}" && "- " + "[]" == "- []";
    assert "- " + (EmitStringScalar(k) + ": " + ScalarText(v)) == "- " + EmitStringScalar(k) + ": " + ScalarText(v);
    assert "- " + ("- " + ScalarText(v)) == "- - " + ScalarText(v);
  }

  // ---------------------------------------------------------------------------
  // Reading the layout
  // ---------------------------------------------------------------------------

  function Weight(ls: seq<Line>): nat {
    if ls == [] then 0 else |ls[0].body| + 1 + Weight(ls[1..])
  }

  datatype Parsed<+T> = Parsed(value: T, rest: seq<Line>)

  function ReadInline(t: string): Option<Node> {
    if t == "{}" then Some(Mapping([]))
    else if t == "[]" then Some(Sequence([]))
    else
      var s := ScanScalar(t);
      if s.None? then None else Some(Scalar(s.value.0, s.value.1))
  }

  /** The entries of a block mapping at column `ind`, up to a line further left. */
  function ReadMap(ls: seq<Line>, ind: nat): (r: Option<Parsed<seq<Pair>>>)
    ensures r.Some? ==> Weight(r.value.rest) <= Weight(ls)
    decreases Weight(ls), 1
  {
    if ls == [] || ls[0].ind < ind then Some(Parsed([], ls))
    else if ls[0].ind > ind then None
    else
      var e := ReadEntry(ls, ind);
      if e.None? then None
      else
        var m := ReadMap(e.value.rest, ind);
        if m.None? then None
        else Some(Parsed([e.value.value] + m.value.value, m.value.rest))
  }

  function ReadEntry(ls: seq<Line>, ind: nat): (r: Option<Parsed<Pair>>)
    requires ls != []
    ensures r.Some? ==> Weight(r.value.rest) < Weight(ls)
    decreases Weight(ls), 0
  {
    var k := ReadKey(ls[0].body);
    if k.None? then None
    else
      var key := Scalar(Str, k.value.value);
      if k.value.rest == "" then
        var v := ReadChild(ls[1..], ind);
        if v.None? then None else Some(Parsed(Pair(key, v.value.value), v.value.rest))
      else if k.value.rest[0] != ' ' then None
      else
        var v := ReadInline(k.value.rest[1..]);
        if v.None? then None else Some(Parsed(Pair(key, v.value), ls[1..]))
  }

  /** The block under "key:": an entry at the key's own column, or anything further right. */
  function ReadChild(ls: seq<Line>, ind: nat): (r: Option<Parsed<Node>>)
    ensures r.Some? ==> Weight(r.value.rest) <= Weight(ls)
    decreases Weight(ls), 2
  {
    if ls == [] || ls[0].ind < ind then None
    else if IsItem(ls[0].body) then
      var s := ReadSeq(ls, ls[0].ind);
      if s.None? then None else Some(Parsed(Sequence(s.value.value), s.value.rest))
    else if ls[0].ind == ind then None
    else
      var m := ReadMap(ls, ls[0].ind);
      if m.None? then None else Some(Parsed(Mapping(m.value.value), m.value.rest))
  }

  /** The entries of a block sequence at column `ind`, up to a line that is not one. */
  function ReadSeq(ls: seq<Line>, ind: nat): (r: Option<Parsed<seq<Node>>>)
    ensures r.Some? ==> Weight(r.value.rest) <= Weight(ls)
    decreases Weight(ls), 1
  {
    if ls == [] || ls[0].ind < ind || (ls[0].ind == ind && !IsItem(ls[0].body)) then Some(Parsed([], ls))
    else if ls[0].ind > ind then None
    else
      var i := ReadItem(ls, ind);
      if i.None? then None
      else
        var s := ReadSeq(i.value.rest, ind);
        if s.None? then None
        else Some(Parsed([i.value.value] + s.value.value, s.value.rest))
  }

  function ReadItem(ls: seq<Line>, ind: nat): (r: Option<Parsed<Node>>)
    requires ls != []
    ensures r.Some? ==> Weight(r.value.rest) < Weight(ls)
    decreases Weight(ls), 0
  {
    if !("- " <= ls[0].body) then None
    else
      var t := ls[0].body[2..];
      var moved := [Line(ind + 2, t)] + ls[1..];
      assert Weight(moved) < Weight(ls);
      if IsItem(t) then
        var s := ReadSeq(moved, ind + 2);
        if s.None? then None else Some(Parsed(Sequence(s.value.value), s.value.rest))
      else if ReadKey(t).Some? then
        var m := ReadMap(moved, ind + 2);
        if m.None? then None else Some(Parsed(Mapping(m.value.value), m.value.rest))
      else
        var v := ReadInline(t);
        if v.None? then None else Some(Parsed(v.value, ls[1..]))
  }

  // ---------------------------------------------------------------------------
  // Reading undoes the layout
  // ---------------------------------------------------------------------------

  /** What may follow a block at `ind`: the end, a line further left, or (for an entry
      of a mapping, or a whole sequence) a line at `ind` that is not an item. */
  predicate EndsMap(rest: seq<Line>, ind: nat) { rest == [] || rest[0].ind < ind }

  predicate EndsSeq(rest: seq<Line>, ind: nat) {
    rest == [] || rest[0].ind < ind || (rest[0].ind == ind && !IsItem(rest[0].body))
  }

  lemma InlineRoundTrip(n: Node)
    requires Canonical(n) && Emittable(n) && IsInline(n)
    ensures var t := InlineText(n);
      ReadInline(t) == Some(n) && !IsItem(t) && ReadKey(t) == None
  {
    match n
    case Mapping(_) => assert ReadKey("{}") == None by { assert !PlainShape("{}"); }
    case Sequence(_) => assert ReadKey("[]") == None by { assert !PlainShape("[]"); }
    case Scalar(tag, text) =>
      if tag == Str {
        ScalarIsOnlyAScalar(text);
        ScanRoundTrip(text);
      } else {
        WordsArePlain();
        PlainIsOnlyAScalar(ScalarText(n));
      }
  }

  lemma WordsArePlain()
    ensures PlainShape("true") && Resolve("true") == Bool
    ensures PlainShape("false") && Resolve("false") == Bool
    ensures PlainShape("null") && Resolve("null") == Null
  {
    hide *;
    TrueIsPlain();
    FalseIsPlain();
    NullIsPlain();
  }

  lemma TrueIsPlain()
    ensures PlainShape("true") && Resolve("true") == Bool
  {
    hide Matches;
  }

  lemma FalseIsPlain()
    ensures PlainShape("false") && Resolve("false") == Bool
  {
    hide Matches;
  }

  lemma NullIsPlain()
    ensures PlainShape("null") && Resolve("null") == Null
  {
    hide Matches;
  }

  /** A key line is read as its key, whatever value text follows. */
  lemma KeyLineReads(p: Pair, value: string)
    requires IsKey(p.key) && (value == "" || value[0] == ' ')
    ensures ReadKey(KeyText(p) + value) == Some(Scanned(p.key.text, value))
    ensures !IsItem(KeyText(p) + value)
  {
    var s := p.key.text;
    KeyRoundTrip(s, value);
    ScalarIsOnlyAScalar(s);
    assert KeyText(p) + value == EmitStringScalar(s) + ":" + value;
    var t := EmitStringScalar(s);
    assert |t| == 1 ==> (t + ":" + value)[1] == ':';
    assert |t| > 1 ==> (t + ":" + value)[1] == t[1];
  }

  lemma FirstLineIsKey(p: Pair, ind: nat)
    requires IsKey(p.key) && Emittable(p.val)
    ensures var l := EntryLines(p, ind)[0];
      !IsItem(l.body) && ReadKey(l.body).Some?
  {
    if IsInline(p.val) {
      KeyLineReads(p, " " + InlineText(p.val));
      assert KeyText(p) + " " + InlineText(p.val) == KeyText(p) + (" " + InlineText(p.val));
    } else {
      KeyLineReads(p, "");
      assert KeyText(p) + "" == KeyText(p);
    }
  }

  lemma ReadMapStep(ls: seq<Line>, ind: nat, p: Pair, mid: seq<Line>, ps: seq<Pair>, rest: seq<Line>)
    requires ls != [] && ls[0].ind == ind
    requires ReadEntry(ls, ind) == Some(Parsed(p, mid)) && ReadMap(mid, ind) == Some(Parsed(ps, rest))
    ensures ReadMap(ls, ind) == Some(Parsed([p] + ps, rest))
  {
  }

  lemma ReadMapEnd(rest: seq<Line>, ind: nat)
    requires EndsMap(rest, ind)
    ensures ReadMap(rest, ind) == Some(Parsed([], rest))
  {
  }

  lemma MapLinesStart(pairs: seq<Pair>, ind: nat, rest: seq<Line>)
    requires EmittablePairs(pairs) && EndsMap(rest, ind)
    ensures EndsSeq(MapLines(pairs, ind) + rest, ind)
  {
    hide Emittable, EmitScalar, ReadKey, IsItem;
    if pairs != [] {
      FirstLineIsKey(pairs[0], ind);
      assert (MapLines(pairs, ind) + rest)[0] == EntryLines(pairs[0], ind)[0];
    } else {
      assert MapLines(pairs, ind) + rest == rest;
    }
  }

  predicate CanonicalPairs(pairs: seq<Pair>) {
    forall p | p in pairs :: IsKey(p.key) && Emittable(p.val) && Canonical(p.val)
  }

  lemma MapUncons(pairs: seq<Pair>, ind: nat, rest: seq<Line>)
    requires EmittablePairs(pairs) && CanonicalPairs(pairs) && pairs != []
    ensures EmittablePairs(pairs[1..]) && CanonicalPairs(pairs[1..]) && pairs == [pairs[0]] + pairs[1..]
    ensures IsKey(pairs[0].key) && Emittable(pairs[0].val) && Canonical(pairs[0].val)
    ensures MapLines(pairs, ind) + rest == EntryLines(pairs[0], ind) + (MapLines(pairs[1..], ind) + rest)
  {
    hide Emittable, Canonical, EntryLines;
    assert pairs[0] in pairs;
  }

  lemma {:induction false} MapRoundTrip(pairs: seq<Pair>, ind: nat, rest: seq<Line>)
    requires EmittablePairs(pairs) && CanonicalPairs(pairs)
    requires EndsMap(rest, ind)
    ensures ReadMap(MapLines(pairs, ind) + rest, ind) == Some(Parsed(pairs, rest))
    decreases pairs, 0
  {
    if pairs == [] {
      assert MapLines(pairs, ind) + rest == rest;
      ReadMapEnd(rest, ind);
    } else {
      hide Emittable, Canonical, ReadMap, ReadEntry, EntryLines, MapLines, EmittablePairs, CanonicalPairs, EndsSeq;
      var p, tail := pairs[0], pairs[1..];
      var others := MapLines(tail, ind) + rest;
      MapUncons(pairs, ind, rest);
      MapRoundTrip(tail, ind, rest);
      MapLinesStart(tail, ind, rest);
      EntryRoundTrip(p, ind, others);
      ReadMapStep(EntryLines(p, ind) + others, ind, p, others, tail, rest);
    }
  }

  lemma ReadEntryInline(p: Pair, ind: nat, rest: seq<Line>)
    requires IsKey(p.key) && Emittable(p.val) && Canonical(p.val) && IsInline(p.val)
    ensures ReadEntry(EntryLines(p, ind) + rest, ind) == Some(Parsed(p, rest))
  {
    hide Emittable, Canonical, ReadChild, ChildLines, ReadInline, ReadKey, InlineText;
    var value := " " + InlineText(p.val);
    assert KeyText(p) + " " + InlineText(p.val) == KeyText(p) + value;
    KeyLineReads(p, value);
    InlineRoundTrip(p.val);
    assert value[1..] == InlineText(p.val);
    assert (EntryLines(p, ind) + rest)[1..] == rest;
    assert p.key == Scalar(Str, p.key.text);
  }

  lemma {:induction false} EntryRoundTrip(p: Pair, ind: nat, rest: seq<Line>)
    requires IsKey(p.key) && Emittable(p.val) && Canonical(p.val)
    requires EndsSeq(rest, ind)
    ensures ReadEntry(EntryLines(p, ind) + rest, ind) == Some(Parsed(p, rest))
    decreases p, 0
  {
    hide Emittable, Canonical, ReadChild, ChildLines, ReadInline, ReadKey, InlineText, KeyText, Weight, EndsSeq, IsInline;
    if IsInline(p.val) {
      ReadEntryInline(p, ind, rest);
    } else {
      assert KeyText(p) + "" == KeyText(p);
      KeyLineReads(p, "");
      ChildRoundTrip(p.val, ind, rest);
      assert (EntryLines(p, ind) + rest)[1..] == ChildLines(p.val, ind) + rest;
      assert p.key == Scalar(Str, p.key.text);
    }
  }

  lemma CanonicalParts(n: Node)
    requires Emittable(n) && Canonical(n)
    ensures n.Mapping? ==> EmittablePairs(n.pairs) && CanonicalPairs(n.pairs)
    ensures n.Sequence? ==> CanonicalItems(n.items)
  {
  }

  lemma {:induction false} ChildRoundTrip(n: Node, ind: nat, rest: seq<Line>)
    requires Emittable(n) && Canonical(n) && !IsInline(n)
    requires EndsSeq(rest, ind)
    ensures ReadChild(ChildLines(n, ind) + rest, ind) == Some(Parsed(n, rest))
    decreases n, 0
  {
    CanonicalParts(n);
    hide Emittable, Canonical, EmittablePairs, CanonicalPairs, CanonicalItems, ReadMap, ReadSeq, ReadKey, EmitScalar;
    var ls := ChildLines(n, ind) + rest;
    if n.Mapping? {
      MapRoundTrip(n.pairs, ind + 2, rest);
      MapUncons(n.pairs, ind + 2, rest);
      FirstLineIsKey(n.pairs[0], ind + 2);
      assert ls[0] == EntryLines(n.pairs[0], ind + 2)[0];
    } else {
      SeqRoundTrip(n.items, ind, rest);
      SeqUncons(n.items, ind, rest);
      assert ls[0] == ItemLines(n.items[0], ind)[0];
    }
  }

  predicate CanonicalItems(items: seq<Node>) {
    forall it | it in items :: Emittable(it) && Canonical(it)
  }

  lemma SeqUncons(items: seq<Node>, ind: nat, rest: seq<Line>)
    requires CanonicalItems(items) && items != []
    ensures CanonicalItems(items[1..]) && items == [items[0]] + items[1..]
    ensures Emittable(items[0]) && Canonical(items[0])
    ensures SeqLines(items, ind) + rest == ItemLines(items[0], ind) + (SeqLines(items[1..], ind) + rest)
  {
    hide Emittable, Canonical, ItemLines;
    assert items[0] in items;
  }

  lemma ReadSeqStep(ls: seq<Line>, ind: nat, it: Node, mid: seq<Line>, its: seq<Node>, rest: seq<Line>)
    requires ls != [] && ls[0].ind == ind && IsItem(ls[0].body)
    requires ReadItem(ls, ind) == Some(Parsed(it, mid)) && ReadSeq(mid, ind) == Some(Parsed(its, rest))
    ensures ReadSeq(ls, ind) == Some(Parsed([it] + its, rest))
  {
  }

  lemma {:induction false} SeqRoundTrip(items: seq<Node>, ind: nat, rest: seq<Line>)
    requires CanonicalItems(items)
    requires EndsSeq(rest, ind)
    ensures ReadSeq(SeqLines(items, ind) + rest, ind) == Some(Parsed(items, rest))
    decreases items, 0
  {
    if items == [] {
      assert SeqLines(items, ind) + rest == rest;
    } else {
      hide Emittable, Canonical, ReadItem, ReadSeq, ItemLines;
      var it, tail := items[0], items[1..];
      var others := SeqLines(tail, ind) + rest;
      SeqUncons(items, ind, rest);
      SeqRoundTrip(tail, ind, rest);
      assert |items| > 1 ==> others[0] == ItemLines(items[1], ind)[0];
      assert |items| == 1 ==> others == rest;
      ItemRoundTrip(it, ind, others);
      ReadSeqStep(ItemLines(it, ind) + others, ind, it, others, tail, rest);
    }
  }

  lemma ReadItemInline(n: Node, ind: nat, rest: seq<Line>)
    requires Emittable(n) && Canonical(n) && IsInline(n)
    ensures ReadItem(ItemLines(n, ind) + rest, ind) == Some(Parsed(n, rest))
  {
    hide Emittable, Canonical, ReadSeq, ReadMap, ReadInline, ReadKey, InlineText;
    var ls := ItemLines(n, ind) + rest;
    InlineRoundTrip(n);
    assert ls[0].body[2..] == InlineText(n);
    assert ls[1..] == rest;
  }

  /** A dash line with a nested block reads as that block, two columns in. */
  lemma ReadItemNested(nested: seq<Line>, ind: nat, rest: seq<Line>, r: Option<Parsed<Node>>)
    requires nested != [] && nested[0].ind == ind + 2
    requires var ls := nested + rest;
      if IsItem(nested[0].body) then
        r == var s := ReadSeq(ls, ind + 2); if s.None? then None else Some(Parsed(Sequence(s.value.value), s.value.rest))
      else
        && ReadKey(nested[0].body).Some?
        && r == var m := ReadMap(ls, ind + 2); if m.None? then None else Some(Parsed(Mapping(m.value.value), m.value.rest))
    ensures ReadItem(Dash(nested, ind) + rest, ind) == r
  {
    hide ReadSeq, ReadMap, ReadInline, ReadKey;
    var ls := Dash(nested, ind) + rest;
    assert ls[0].body[2..] == nested[0].body;
    assert [Line(ind + 2, nested[0].body)] + ls[1..] == nested + rest;
  }

  lemma {:induction false} ItemRoundTrip(n: Node, ind: nat, rest: seq<Line>)
    requires Emittable(n) && Canonical(n)
    requires rest == [] || rest[0].ind <= ind
    ensures ReadItem(ItemLines(n, ind) + rest, ind) == Some(Parsed(n, rest))
    decreases n, 0
  {
    hide ReadItem, ReadSeq, ReadMap, ReadKey, EmitScalar;
    CanonicalParts(n);
    if IsInline(n) {
      ReadItemInline(n, ind, rest);
    } else if n.Mapping? {
      FirstLineIsKey(n.pairs[0], ind + 2);
      MapRoundTrip(n.pairs, ind + 2, rest);
      ReadItemNested(MapLines(n.pairs, ind + 2), ind, rest, Some(Parsed(n, rest)));
    } else {
      SeqRoundTrip(n.items, ind + 2, rest);
      ReadItemNested(SeqLines(n.items, ind + 2), ind, rest, Some(Parsed(n, rest)));
    }
  }
}
