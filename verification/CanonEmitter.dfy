/** The emitter of canon_yaml.go as it runs: a builder that the emit methods append to,
    proved against the canonical text. Anchors are not modelled (alias-free trees). */
module CanonEmitter {
  import opened Wrappers
  import opened CanonScalar
  import opened CanonTree
  import opened CanonText
  import opened CanonDocument
  import opened GoString

  // ---------------------------------------------------------------------------
  // The characters each method appends
  // ---------------------------------------------------------------------------

  /** What follows "key:" for the value `n` of a mapping at `ind`. */
  function ValueText(n: Node, ind: nat): string
    requires Emittable(n)
  {
    CanonEmittable(n);
    var c := Canon(n);
    if IsInline(c) then " " + InlineText(c) + "\n" else "\n" + Render(ChildLines(c, ind))
  }

  function PairText(p: Pair, ind: nat): string
    requires IsKey(p.key) && Emittable(p.val)
  {
    Spaces(ind) + KeyText(p) + ValueText(p.val, ind)
  }

  function MapText(pairs: seq<Pair>, ind: nat): string
    requires EmittablePairs(pairs)
  {
    CanonPairsEmittable(pairs);
    Render(MapLines(CanonPairs(pairs), ind))
  }

  function SeqText(items: seq<Node>, ind: nat): string
    requires forall it | it in items :: Emittable(it)
  {
    CanonItemsEmittable(items);
    Render(SeqLines(CanonItems(items), ind))
  }

  function ItemText(n: Node, ind: nat): string
    requires Emittable(n)
  {
    CanonEmittable(n);
    Render(ItemLines(Canon(n), ind))
  }

  lemma CanonPairsEmittable(pairs: seq<Pair>)
    requires EmittablePairs(pairs)
    ensures EmittablePairs(CanonPairs(pairs))
  {
    forall i | 0 <= i < |pairs| ensures Emittable(CanonPairs(pairs)[i].val) {
      assert pairs[i] in pairs;
      CanonEmittable(pairs[i].val);
    }
  }

  lemma CanonItemsEmittable(items: seq<Node>)
    requires forall it | it in items :: Emittable(it)
    ensures forall it | it in CanonItems(items) :: Emittable(it)
  {
    forall i | 0 <= i < |items| ensures Emittable(CanonItems(items)[i]) {
      CanonEmittable(items[i]);
    }
  }

  lemma RenderCons(l: Line, ls: seq<Line>)
    ensures Render([l] + ls) == Spaces(l.ind) + l.body + "\n" + Render(ls)
  {
    hide Spaces;
    assert ([l] + ls)[1..] == ls;
  }

  lemma {:induction false} RenderAppend(a: seq<Line>, b: seq<Line>)
    ensures Render(a + b) == Render(a) + Render(b)
  {
    if a == [] {
      assert a + b == b;
    } else {
      hide Render, Spaces;
      RenderAppend(a[1..], b);
      RenderCons(a[0], a[1..]);
      RenderCons(a[0], a[1..] + b);
      assert a + b == [a[0]] + (a[1..] + b) && a == [a[0]] + a[1..];
      Associate(Spaces(a[0].ind) + a[0].body + "\n", Render(a[1..]), Render(b));
    }
  }

  lemma EntryText(p: Pair, ind: nat)
    requires IsKey(p.key) && Emittable(p.val)
    ensures Emittable(CanonPair(p).val)
    ensures Render(EntryLines(CanonPair(p), ind)) == PairText(p, ind)
  {
    CanonEmittable(p.val);
    hide Emittable, Canon, KeyText, EmitScalar, InlineText, ChildLines, Render, Spaces;
    var c := CanonPair(p);
    SameKeyText(p, c);
    if IsInline(c.val) {
      var l := Line(ind, KeyText(p) + " " + InlineText(c.val));
      RenderCons(l, []);
      NoLines();
      assert [l] + [] == [l];
      Regroup4(Spaces(ind), KeyText(p), " ", InlineText(c.val), "\n");
    } else {
      RenderCons(Line(ind, KeyText(p)), ChildLines(c.val, ind));
      Associate(Spaces(ind) + KeyText(p), "\n", Render(ChildLines(c.val, ind)));
    }
  }

  lemma NoLines()
    ensures Render([]) == ""
  {
  }

  lemma Regroup4(a: string, b: string, c: string, d: string, e: string)
    ensures a + (b + c + d) + e + "" == a + b + (c + d + e)
  {
  }

  lemma SameKeyText(p: Pair, q: Pair)
    requires IsKey(p.key) && p.key == q.key
    ensures KeyText(p) == KeyText(q)
  {
  }

  lemma MapTextStep(pairs: seq<Pair>, ind: nat)
    requires EmittablePairs(pairs) && pairs != []
    ensures IsKey(pairs[0].key) && Emittable(pairs[0].val) && EmittablePairs(pairs[1..])
    ensures MapText(pairs, ind) == PairText(pairs[0], ind) + MapText(pairs[1..], ind)
  {
    hide Emittable, Canon, ValueText, KeyText, EntryLines;
    assert pairs[0] in pairs;
    EntryText(pairs[0], ind);
    CanonPairsEmittable(pairs);
    var c := CanonPairs(pairs);
    assert c[1..] == CanonPairs(pairs[1..]);
    RenderAppend(EntryLines(c[0], ind), MapLines(c[1..], ind));
  }

  lemma SeqTextStep(items: seq<Node>, ind: nat)
    requires (forall it | it in items :: Emittable(it)) && items != []
    ensures SeqText(items, ind) == ItemText(items[0], ind) + SeqText(items[1..], ind)
  {
    hide Emittable, Canon, ItemLines;
    assert items[0] in items;
    CanonItemsEmittable(items);
    var c := CanonItems(items);
    assert c[1..] == CanonItems(items[1..]);
    RenderAppend(ItemLines(c[0], ind), SeqLines(c[1..], ind));
  }

  lemma Cancel(a: string, b: string, c: string)
    requires a + b == a + c
    ensures b == c
  {
    assert (a + b)[|a|..] == b && (a + c)[|a|..] == c;
  }

  lemma Associate(a: string, b: string, c: string)
    ensures a + b + c == a + (b + c)
  {
  }

  /** Moving a block up onto a dash line replaces its indent by the dash. */
  lemma DashText(ls: seq<Line>, ind: nat, text: string)
    requires ls != [] && ls[0].ind == ind + 2
    requires Render(ls) == Spaces(ind + 2) + text
    ensures Render(Dash(ls, ind)) == Spaces(ind) + "- " + text
  {
    hide Spaces;
    var body, below := ls[0].body, "\n" + Render(ls[1..]);
    assert Render(ls) == Spaces(ind + 2) + (body + below);
    Cancel(Spaces(ind + 2), body + below, text);
    assert Dash(ls, ind)[1..] == ls[1..];
    assert Render(Dash(ls, ind)) == Spaces(ind) + ("- " + body) + below;
    assert ("- " + body) + below == "- " + (body + below);
  }

  // ---------------------------------------------------------------------------
  // Sorting before or after the values are put in canonical form
  // ---------------------------------------------------------------------------

  lemma {:induction false} SortCommutes(pairs: seq<Pair>)
    requires EmittablePairs(pairs)
    ensures EmittablePairs(SortPairs(pairs))
    ensures CanonPairs(SortPairs(pairs)) == SortPairs(CanonPairs(pairs))
  {
    hide Emittable, Canon, Less;
    SortKeeps(pairs);
    if pairs != [] {
      assert pairs[0] in pairs;
      SortCommutes(pairs[1..]);
      SortKeeps(pairs[1..]);
      InsertCommutes(pairs[0], SortPairs(pairs[1..]));
      assert CanonPairs(pairs)[1..] == CanonPairs(pairs[1..]);
    }
  }

  lemma {:induction false} InsertCommutes(p: Pair, sorted: seq<Pair>)
    requires IsKey(p.key) && Emittable(p.val) && EmittablePairs(sorted)
    ensures EmittablePairs(Insert(p, sorted))
    ensures CanonPairs(Insert(p, sorted)) == Insert(CanonPair(p), CanonPairs(sorted))
  {
    hide Emittable, Canon, Less;
    var r := Insert(p, sorted);
    if sorted == [] || Less(p.key.text, sorted[0].key.text) {
      assert r == [p] + sorted && r[1..] == sorted;
    } else {
      InsertCommutes(p, sorted[1..]);
      assert r[1..] == Insert(p, sorted[1..]);
      assert CanonPairs(sorted)[1..] == CanonPairs(sorted[1..]);
    }
  }

  lemma SortedText(n: Node, ind: nat)
    requires n.Mapping? && Emittable(n) && n.pairs != []
    ensures var s := SortPairs(n.pairs);
      && EmittablePairs(s) && s != [] && EmittablePairs(s[1..]) && IsKey(s[0].key) && Emittable(s[0].val)
      && Canon(n) == Mapping(CanonPairs(s)) && Emittable(Canon(n))
      && MapText(s, ind) == Spaces(ind) + (KeyText(s[0]) + ValueText(s[0].val, ind) + MapText(s[1..], ind))
  {
    hide Emittable, Canon, KeyText, ValueText, MapText, Spaces;
    CanonOfMapping(n);
    var s := SortPairs(n.pairs);
    SortKeeps(n.pairs);
    SortCommutes(n.pairs);
    CanonEmittable(n);
    assert n.pairs[0] in s;
    MapTextStep(s, ind);
    Associate(Spaces(ind), KeyText(s[0]), ValueText(s[0].val, ind));
    Associate(Spaces(ind), KeyText(s[0]) + ValueText(s[0].val, ind), MapText(s[1..], ind));
  }

  lemma CanonOfMapping(n: Node)
    requires n.Mapping? && Emittable(n)
    ensures EmittablePairs(n.pairs) && Canon(n) == Mapping(SortPairs(CanonPairs(n.pairs)))
  {
  }

  /** The text of a non-empty mapping value or item, from its sorted pairs. */
  lemma MappingTexts(n: Node, ind: nat)
    requires n.Mapping? && Emittable(n) && n.pairs != []
    ensures var s := SortPairs(n.pairs);
      && EmittablePairs(s) && s != [] && IsKey(s[0].key) && Emittable(s[0].val) && EmittablePairs(s[1..])
      && ValueText(n, ind) == "\n" + MapText(s, ind + 2)
      && ItemText(n, ind) == Spaces(ind) + "- " + (KeyText(s[0]) + ValueText(s[0].val, ind + 2) + MapText(s[1..], ind + 2))
  {
    hide Emittable, Canon, KeyText, EntryLines, CanonPairs, Spaces, SortPairs;
    CanonOfMapping(n);
    var s := SortPairs(n.pairs);
    SortedText(n, ind + 2);
    var text := KeyText(s[0]) + ValueText(s[0].val, ind + 2) + MapText(s[1..], ind + 2);
    CanonPairsEmittable(s);
    hide ValueText;
    DashText(MapLines(CanonPairs(s), ind + 2), ind, text);
    assert ValueText(n, ind) == "\n" + MapText(s, ind + 2) by { MappingValueText(n, s, ind); }
  }

  lemma MappingValueText(n: Node, s: seq<Pair>, ind: nat)
    requires Emittable(n) && EmittablePairs(s) && s != [] && Canon(n) == Mapping(CanonPairs(s))
    ensures ValueText(n, ind) == "\n" + MapText(s, ind + 2)
  {
    hide Emittable, Canon, Render, MapLines;
  }

  lemma SequenceTexts(n: Node, ind: nat)
    requires n.Sequence? && Emittable(n) && n.items != []
    ensures ValueText(n, ind) == "\n" + SeqText(n.items, ind)
    ensures forall text :: SeqText(n.items, ind + 2) == Spaces(ind + 2) + text ==>
              ItemText(n, ind) == Spaces(ind) + "- " + text
  {
    var c := Canon(n);
    CanonEmittable(n);
    CanonItemsEmittable(n.items);
    forall text | SeqText(n.items, ind + 2) == Spaces(ind + 2) + text
      ensures ItemText(n, ind) == Spaces(ind) + "- " + text
    {
      DashText(SeqLines(c.items, ind + 2), ind, text);
    }
  }

  lemma InlineTexts(n: Node, ind: nat)
    requires Emittable(n) && IsInline(n)
    ensures IsInline(Canon(n)) && Emittable(Canon(n))
    ensures n.Scalar? ==> InlineText(Canon(n)) == EmitScalar(n.tag, n.text).value
    ensures ValueText(n, ind) == " " + InlineText(Canon(n)) + "\n"
    ensures ItemText(n, ind) == Spaces(ind) + "- " + InlineText(Canon(n)) + "\n"
  {
    CanonEmittable(n);
    var l := Line(ind, "- " + InlineText(Canon(n)));
    assert ItemLines(Canon(n), ind) == [l] && [l][1..] == [];
    assert Render([l]) == Spaces(ind) + l.body + "\n" + "";
  }

  // ---------------------------------------------------------------------------
  // The emitter
  // ---------------------------------------------------------------------------

  method SortedPairs(m: Node, dropSigned: bool) returns (r: Option<seq<Pair>>)
    requires m.Mapping?
    ensures r.Some? <==> KeysAreStrings(m.pairs)
    ensures r.Some? ==> r.value == SortPairs(Kept(m.pairs, dropSigned))
  {
    hide SortPairs, Kept;
    var pairs: seq<Pair> := [];
    var i := 0;
    while i < |m.pairs|
      invariant 0 <= i <= |m.pairs|
      invariant KeysAreStrings(m.pairs[..i]) && KeysAreStrings(pairs)
      invariant KeysAreStrings(m.pairs) ==>
                  KeysAreStrings(m.pairs[i..]) && pairs + Kept(m.pairs[i..], dropSigned) == Kept(m.pairs, dropSigned)
    {
      var p := m.pairs[i];
      assert m.pairs[..i + 1] == m.pairs[..i] + [p];
      assert m.pairs[i..] == [p] + m.pairs[i + 1..];
      if !IsKey(p.key) {
        assert p in m.pairs;
        return None;
      }
      if KeysAreStrings(m.pairs) { KeptStep(m.pairs[i..], dropSigned); }
      if !(dropSigned && p.key.text == "signed") {
        pairs := pairs + [p];
      }
      i := i + 1;
    }
    assert m.pairs[..i] == m.pairs && m.pairs[i..] == [];
    KeptNone(dropSigned);
    assert pairs == Kept(m.pairs, dropSigned);
    return Some(SortPairs(pairs));
  }

  function Kept(pairs: seq<Pair>, dropSigned: bool): (r: seq<Pair>)
    requires KeysAreStrings(pairs)
    ensures KeysAreStrings(r)
  {
    if dropSigned then Body(pairs) else pairs
  }

  lemma KeptNone(dropSigned: bool)
    ensures Kept([], dropSigned) == []
  {
  }

  lemma KeptStep(pairs: seq<Pair>, dropSigned: bool)
    requires KeysAreStrings(pairs) && pairs != []
    ensures KeysAreStrings(pairs[1..])
    ensures Kept(pairs, dropSigned) ==
            (if dropSigned && pairs[0].key.text == "signed" then [] else [pairs[0]]) + Kept(pairs[1..], dropSigned)
  {
    assert pairs == [pairs[0]] + pairs[1..];
  }

  class Emitter {
    var sb: string

    constructor ()
      ensures sb == ""
    {
      sb := "";
    }

    method Indent(n: nat)
      modifies this
      ensures sb == old(sb) + Spaces(n)
    {
      var i := 0;
      while i < n
        invariant 0 <= i <= n
        invariant sb + Spaces(n - i) == old(sb) + Spaces(n)
      {
        assert Spaces(n - i) == " " + Spaces(n - i - 1);
        assert (sb + " ") + Spaces(n - i - 1) == sb + Spaces(n - i);
        sb := sb + " ";
        i := i + 1;
      }
    }

    /** Pairs below `owner`, in the given order. On failure the builder is abandoned. */
    method EmitMapping(pairs: seq<Pair>, ind: nat, ghost owner: Node) returns (ok: bool)
      requires KeysAreStrings(pairs)
      requires forall p | p in pairs :: p.val < owner
      modifies this
      ensures ok <==> EmittablePairs(pairs)
      ensures ok ==> sb == old(sb) + MapText(pairs, ind)
      decreases owner, 1
    {
      hide Emittable, MapText, PairText;
      ghost var before := sb;
      var i := 0;
      while i < |pairs|
        invariant 0 <= i <= |pairs|
        invariant EmittablePairs(pairs[..i])
        invariant EmittablePairs(pairs) ==>
                    EmittablePairs(pairs[i..]) && sb + MapText(pairs[i..], ind) == before + MapText(pairs, ind)
      {
        var p := pairs[i];
        ghost var left := pairs[i..];
        assert left[0] == p && left[1..] == pairs[i + 1..] && p in pairs;
        assert pairs[..i + 1] == pairs[..i] + [p];
        var good := EmitPair(p, ind);
        if !good { return false; }
        if EmittablePairs(pairs) { MapTextStep(left, ind); }
        i := i + 1;
      }
      assert pairs[..i] == pairs && pairs[i..] == [];
      NoText(ind);
      return true;
    }

    /** One pass of the loop in emitMapping: the indent, the key, its ':' and the value. */
    method EmitPair(p: Pair, ind: nat) returns (ok: bool)
      requires IsKey(p.key)
      modifies this
      ensures ok <==> Emittable(p.val)
      ensures ok ==> sb == old(sb) + PairText(p, ind)
      decreases p.val, 4
    {
      hide Emittable, ValueText, Spaces, EmitStringScalar;
      Indent(ind);
      sb := sb + EmitStringScalar(p.key.text);
      sb := sb + ":";
      assert sb == old(sb) + (Spaces(ind) + KeyText(p));
      ok := EmitValue(p.val, ind);
    }

    /** The value after "key:" in a mapping at `ind`. */
    method EmitValue(v: Node, ind: nat) returns (ok: bool)
      modifies this
      ensures ok <==> Emittable(v)
      ensures ok ==> sb == old(sb) + ValueText(v, ind)
      decreases v, 2
    {
      hide ValueText, ItemText, MapText, SeqText, Canon, EmitScalar, KeyText, SortPairs, Spaces;
      ghost var before := sb;
      match v {
        case Scalar(tag, text) =>
          var s := EmitScalar(tag, text);
          if s.None? { return false; }
          InlineTexts(v, ind);
          sb := sb + (" " + s.value + "\n");
          return true;
        case Mapping(_) =>
          var pairs := SortedPairs(v, false);
          if Emittable(v) { EmittableKeys(v); }
          if pairs.None? { return false; }
          MappingParts(v);
          if |pairs.value| == 0 {
            InlineTexts(v, ind);
            EmptyText(v);
            sb := sb + (" " + "{}" + "\n");
            return true;
          }
          sb := sb + "\n";
          ok := EmitMapping(pairs.value, ind + 2, v);
          if !ok { return false; }
          MappingTexts(v, ind);
          Associate(before, "\n", MapText(pairs.value, ind + 2));
          return true;
        case Sequence(items) =>
          if |items| == 0 {
            EmptyText(v);
            InlineTexts(v, ind);
            sb := sb + (" " + "[]" + "\n");
            return true;
          }
          sb := sb + "\n";
          ok := EmitSequence(items, ind, v);
          if !ok { return false; }
          SequenceTexts(v, ind);
          Associate(before, "\n", SeqText(items, ind));
          return true;
      }
    }

    method EmitSequence(items: seq<Node>, ind: nat, ghost owner: Node) returns (ok: bool)
      requires forall it | it in items :: it < owner
      modifies this
      ensures ok <==> forall it | it in items :: Emittable(it) && Flat(it)
      ensures ok ==> sb == old(sb) + SeqText(items, ind)
      decreases owner, 1
    {
      hide Emittable, SeqText, ItemText, Flat;
      ghost var before := sb;
      var i := 0;
      while i < |items|
        invariant 0 <= i <= |items|
        invariant forall it | it in items[..i] :: Emittable(it) && Flat(it)
        invariant (forall it | it in items :: Emittable(it) && Flat(it)) ==>
                    sb + SeqText(items[i..], ind) == before + SeqText(items, ind)
      {
        var it := items[i];
        ghost var left := items[i..];
        assert left[0] == it && left[1..] == items[i + 1..] && it in items;
        assert items[..i + 1] == items[..i] + [it];
        var good := EmitItem(it, ind);
        if !good { return false; }
        if forall it | it in items :: Emittable(it) && Flat(it) { SeqTextStep(left, ind); }
        i := i + 1;
      }
      assert items[..i] == items && items[i..] == [];
      NoText(ind);
      return true;
    }

    /** One pass of the loop in emitSequence: the indent, the dash and the item. */
    method EmitItem(it: Node, ind: nat) returns (ok: bool)
      modifies this
      ensures ok <==> Emittable(it) && Flat(it)
      ensures ok ==> sb == old(sb) + ItemText(it, ind)
      decreases it, 3
    {
      hide ValueText, ItemText, MapText, SeqText, Canon, EmitScalar, EmitStringScalar, SortPairs, Spaces;
      ghost var start := sb;
      Indent(ind);
      sb := sb + "-";
      match it {
        case Scalar(tag, text) =>
          var s := EmitScalar(tag, text);
          if s.None? { return false; }
          InlineTexts(it, ind);
          sb := sb + " " + s.value + "\n";
          assert sb == start + (Spaces(ind) + "- " + s.value + "\n");
          return true;
        case Mapping(_) =>
          var sorted := SortedPairs(it, false);
          if Emittable(it) { EmittableKeys(it); }
          if sorted.None? { return false; }
          var pairs := sorted.value;
          MappingParts(it);
          if |pairs| == 0 {
            EmptyText(it);
            InlineTexts(it, ind);
            sb := sb + " " + "{}\n";
            assert sb == start + (Spaces(ind) + "- " + "{}" + "\n");
            return true;
          }
          assert pairs == [pairs[0]] + pairs[1..];
          sb := sb + " " + EmitStringScalar(pairs[0].key.text) + ":";
          ghost var head := Spaces(ind) + "- " + KeyText(pairs[0]);
          assert sb == start + head;
          ok := EmitValue(pairs[0].val, ind + 2);
          if !ok { return false; }
          ghost var value := ValueText(pairs[0].val, ind + 2);
          ok := EmitMapping(pairs[1..], ind + 2, it);
          if !ok { return false; }
          MappingTexts(it, ind);
          assert sb == start + head + value + MapText(pairs[1..], ind + 2);
          Regroup(start, Spaces(ind) + "- ", KeyText(pairs[0]), value, MapText(pairs[1..], ind + 2));
          return true;
        case Sequence(items) =>
          if |items| == 0 {
            EmptyText(it);
            InlineTexts(it, ind);
            sb := sb + " " + "[]\n";
            assert sb == start + (Spaces(ind) + "- " + "[]" + "\n");
            return true;
          }
          sb := sb + " ";
          ghost var text;
          ok, text := EmitSequenceInline(items, ind + 2);
          FlatScalars(it);
          if !ok { return false; }
          SequenceTexts(it, ind);
          assert sb == start + (Spaces(ind) + "- " + text);
          return true;
      }
    }

    /** One pass of the loop in emitSequenceInline. */
    method EmitInlineItem(it: Node, more: bool, ind: nat) returns (ok: bool)
      modifies this
      ensures ok <==> it.Scalar? && Emittable(it)
      ensures ok ==> sb == old(sb) + ((if more then Spaces(ind) else "") + DashEntry(it))
    {
      hide EmitScalar, Spaces;
      if more { Indent(ind); }
      sb := sb + "-";
      if !it.Scalar? { return false; }
      var s := EmitScalar(it.tag, it.text);
      if s.None? { return false; }
      sb := sb + " ";
      sb := sb + s.value;
      sb := sb + "\n";
      return true;
    }

    /** The entries of a sequence inside a sequence; the first continues the dash line. */
    method EmitSequenceInline(items: seq<Node>, ind: nat) returns (ok: bool, ghost text: string)
      requires items != []
      modifies this
      ensures ok <==> forall x | x in items :: x.Scalar? && Emittable(x)
      ensures ok ==> SeqText(items, ind) == Spaces(ind) + text && sb == old(sb) + text
    {
      hide SeqText, ItemText, DashEntry, Spaces, Emittable;
      ghost var before := sb;
      text := "";
      var i := 0;
      while i < |items|
        invariant 0 <= i <= |items|
        invariant forall x | x in items[..i] :: x.Scalar? && Emittable(x)
        invariant sb == before + text
        invariant (forall x | x in items :: x.Scalar? && Emittable(x)) ==>
                    if i == 0 then text == "" else Spaces(ind) + text + SeqText(items[i..], ind) == SeqText(items, ind)
      {
        var it := items[i];
        ghost var left := items[i..];
        assert left[0] == it && left[1..] == items[i + 1..] && it in items;
        assert items[..i + 1] == items[..i] + [it];
        ghost var lead := if i > 0 then Spaces(ind) else "";
        var good := EmitInlineItem(it, i > 0, ind);
        if !good { return false, ""; }
        ghost var entry := DashEntry(it);
        assert ItemText(it, ind) == Spaces(ind) + entry by { InlineItemText(it, ind); }
        if forall x | x in items :: x.Scalar? && Emittable(x) {
          SeqTextStep(left, ind);
          InlineStep(Spaces(ind), text, entry, SeqText(items[i + 1..], ind), i);
        }
        text := text + (lead + entry);
        i := i + 1;
      }
      assert items[..i] == items && items[i..] == [];
      NoText(ind);
      return true, text;
    }
  }

  /** A scalar item from its dash on. */
  function DashEntry(it: Node): string
    requires it.Scalar? && Emittable(it)
  {
    "- " + EmitScalar(it.tag, it.text).value + "\n"
  }

  lemma InlineItemText(it: Node, ind: nat)
    requires it.Scalar? && Emittable(it)
    ensures ItemText(it, ind) == Spaces(ind) + DashEntry(it)
  {
    hide EmitScalar, Spaces, ItemText, InlineText;
    InlineTexts(it, ind);
  }

  lemma NoText(ind: nat)
    ensures MapText([], ind) == "" && SeqText([], ind) == ""
  {
  }

  lemma Regroup(a: string, b: string, c: string, d: string, e: string)
    ensures a + (b + c) + d + e == a + (b + (c + d + e))
  {
  }

  lemma InlineStep(sp: string, text: string, entry: string, rest: string, i: nat)
    ensures i == 0 && text == "" ==> sp + (text + ("" + entry)) + rest == sp + entry + rest
    ensures sp + (text + (sp + entry)) + rest == sp + text + (sp + entry + rest)
  {
  }

  lemma EmittableKeys(n: Node)
    requires n.Mapping? && Emittable(n)
    ensures KeysAreStrings(n.pairs)
  {
  }

  lemma EmptyText(n: Node)
    requires Emittable(n) && !n.Scalar? && IsInline(n)
    ensures Emittable(Canon(n)) && InlineText(Canon(n)) == if n.Mapping? then "{}" else "[]"
  {
  }

  lemma FlatScalars(n: Node)
    requires n.Sequence?
    ensures Emittable(n) && Flat(n) <==> forall x | x in n.items :: x.Scalar? && Emittable(x)
  {
  }

  lemma MappingParts(n: Node)
    requires n.Mapping? && KeysAreStrings(n.pairs)
    ensures var s := SortPairs(n.pairs);
      && (forall p | p in s :: p.val < n)
      && (s == [] <==> n.pairs == [])
      && (EmittablePairs(s) <==> Emittable(n))
  {
    SortKeeps(n.pairs);
    forall p | p in n.pairs ensures p.val < n { assert p < n; }
    assert |multiset(SortPairs(n.pairs))| == |multiset(n.pairs)|;
  }

  /** The canonical signing bytes of a parsed document, or None where it has none. */
  method CanonicalSigningBytes(root: Node) returns (r: Option<string>)
    ensures r.Some? <==> HasCanonicalText(root)
    ensures r.Some? ==> r.value == CanonicalText(root)
  {
    if !root.Mapping? { return None; }
    var e := new Emitter();
    var pairs := SortedPairs(root, true);
    if pairs.None? { return None; }
    var body := Body(root.pairs);
    SortKeeps(body);
    MappingParts(root);
    SortKeeps(root.pairs);
    forall p | p in pairs.value ensures p.val < root { assert p in body; assert p in SortPairs(root.pairs); }
    var ok := e.EmitMapping(pairs.value, 0, root);
    assert EmittablePairs(pairs.value) <==> EmittablePairs(body);
    if !ok { return None; }
    SortCommutes(body);
    return Some(e.sb);
  }
}
