/** The rule pack document as a node tree (alias-free), the value it decodes to, and its
    canonical form: every mapping sorted by key, bool and null literals normalised. */
module CanonTree {
  import opened Wrappers
  import opened CanonScalar
  import opened GoString

  datatype Node =
    | Scalar(tag: Tag, text: string)
    | Mapping(pairs: seq<Pair>)
    | Sequence(items: seq<Node>)

  datatype Pair = Pair(key: Node, val: Node)

  predicate IsKey(k: Node) { k.Scalar? && k.tag == Str }

  // ---------------------------------------------------------------------------
  // Which documents the emitter accepts, and the side conditions of the round trip
  // ---------------------------------------------------------------------------

  /** The tree has only string keys, supported scalars and no deeper inline nesting. */
  predicate Emittable(n: Node) {
    match n
    case Scalar(tag, text) => EmitScalar(tag, text).Some?
    case Mapping(pairs) => forall p | p in pairs :: IsKey(p.key) && Emittable(p.val)
    case Sequence(items) =>
      forall it | it in items :: Emittable(it) && Flat(it)
  }

  /** A sequence inside a sequence may hold scalars only. */
  predicate Flat(n: Node) { n.Sequence? ==> forall x | x in n.items :: x.Scalar? }

  predicate DistinctKeys(pairs: seq<Pair>) {
    forall i, j | 0 <= i < j < |pairs| :: pairs[i].key != pairs[j].key
  }

  /** Distinct keys in each mapping. */
  predicate KeysDistinct(n: Node) {
    match n
    case Scalar(_, _) => true
    case Mapping(pairs) => DistinctKeys(pairs) && forall p | p in pairs :: KeysDistinct(p.val)
    case Sequence(items) => forall it | it in items :: KeysDistinct(it)
  }

  lemma {:induction false} WellFormedKeys(n: Node)
    requires WellFormed(n)
    ensures KeysDistinct(n)
  {
    match n
    case Scalar(_, _) =>
    case Mapping(pairs) => forall p | p in pairs ensures KeysDistinct(p.val) { WellFormedPair(pairs, p); }
    case Sequence(items) => forall it | it in items ensures KeysDistinct(it) { WellFormedKeys(it); }
  }

  lemma {:induction false} WellFormedPair(pairs: seq<Pair>, p: Pair)
    requires p in pairs && WellFormed(p.val)
    ensures KeysDistinct(p.val)
    decreases p
  {
    WellFormedKeys(p.val);
  }

  /** Distinct keys in each mapping, and each number or timestamp literal is plain text
      that the resolver reads with the node's own tag. */
  predicate WellFormed(n: Node) {
    match n
    case Scalar(tag, text) =>
      tag in {Int, Float, Timestamp} ==> PlainShape(text) && Resolve(text) == tag
    case Mapping(pairs) => DistinctKeys(pairs) && forall p | p in pairs :: WellFormed(p.val)
    case Sequence(items) => forall it | it in items :: WellFormed(it)
  }

  predicate EmittablePairs(pairs: seq<Pair>) {
    forall p | p in pairs :: IsKey(p.key) && Emittable(p.val)
  }

  // ---------------------------------------------------------------------------
  // Sorting by key
  // ---------------------------------------------------------------------------

  predicate KeysAreStrings(pairs: seq<Pair>) {
    forall p | p in pairs :: IsKey(p.key)
  }

  predicate StrictlySorted(pairs: seq<Pair>)
    requires KeysAreStrings(pairs)
  {
    forall i, j | 0 <= i < j < |pairs| :: Less(pairs[i].key.text, pairs[j].key.text)
  }

  function Insert(p: Pair, sorted: seq<Pair>): (r: seq<Pair>)
    requires IsKey(p.key) && KeysAreStrings(sorted)
    ensures KeysAreStrings(r)
  {
    if sorted == [] || Less(p.key.text, sorted[0].key.text) then [p] + sorted
    else [sorted[0]] + Insert(p, sorted[1..])
  }

  function SortPairs(pairs: seq<Pair>): (r: seq<Pair>)
    requires KeysAreStrings(pairs)
    ensures KeysAreStrings(r)
  {
    if pairs == [] then [] else Insert(pairs[0], SortPairs(pairs[1..]))
  }

  lemma {:induction false} InsertKeeps(p: Pair, sorted: seq<Pair>)
    requires IsKey(p.key) && KeysAreStrings(sorted)
    ensures multiset(Insert(p, sorted)) == multiset{p} + multiset(sorted)
  {
    if sorted != [] && !Less(p.key.text, sorted[0].key.text) {
      InsertKeeps(p, sorted[1..]);
      assert sorted == [sorted[0]] + sorted[1..];
    }
  }

  lemma {:induction false} InsertSorted(p: Pair, sorted: seq<Pair>)
    requires IsKey(p.key) && KeysAreStrings(sorted) && StrictlySorted(sorted)
    requires forall q | q in sorted :: q.key != p.key
    ensures StrictlySorted(Insert(p, sorted))
  {
    if sorted == [] {
    } else if Less(p.key.text, sorted[0].key.text) {
      forall q | q in sorted ensures Less(p.key.text, q.key.text) {
        if q != sorted[0] { LessTransitive(p.key.text, sorted[0].key.text, q.key.text); }
      }
    } else {
      LessTotal(p.key.text, sorted[0].key.text);
      InsertSorted(p, sorted[1..]);
      InsertKeeps(p, sorted[1..]);
      var r := Insert(p, sorted[1..]);
      forall q | q in r ensures Less(sorted[0].key.text, q.key.text) {
        assert q in multiset(r);
        assert q == p || q in sorted[1..];
      }
    }
  }

  lemma {:induction false} SortKeeps(pairs: seq<Pair>)
    requires KeysAreStrings(pairs)
    ensures multiset(SortPairs(pairs)) == multiset(pairs)
    ensures forall p :: p in SortPairs(pairs) <==> p in pairs
  {
    if pairs != [] {
      SortKeeps(pairs[1..]);
      InsertKeeps(pairs[0], SortPairs(pairs[1..]));
      assert pairs == [pairs[0]] + pairs[1..];
    }
    forall p ensures p in SortPairs(pairs) <==> p in pairs {
      assert p in SortPairs(pairs) <==> p in multiset(SortPairs(pairs));
    }
  }

  lemma {:induction false} SortSorts(pairs: seq<Pair>)
    requires KeysAreStrings(pairs) && DistinctKeys(pairs)
    ensures StrictlySorted(SortPairs(pairs))
  {
    if pairs != [] {
      SortSorts(pairs[1..]);
      SortKeeps(pairs[1..]);
      InsertSorted(pairs[0], SortPairs(pairs[1..]));
    }
  }

  lemma {:induction false} SortedIsFixed(pairs: seq<Pair>)
    requires KeysAreStrings(pairs) && StrictlySorted(pairs)
    ensures SortPairs(pairs) == pairs
  {
    if pairs != [] {
      SortedIsFixed(pairs[1..]);
      assert |pairs| > 1 ==> Less(pairs[0].key.text, pairs[1].key.text);
    }
  }

  // ---------------------------------------------------------------------------
  // The canonical form of a tree
  // ---------------------------------------------------------------------------

  function NormScalar(n: Node): Node
    requires n.Scalar?
  {
    match n.tag
    case Bool => if n.text in {"True", "TRUE"} then n.(text := "true")
                 else if n.text in {"False", "FALSE"} then n.(text := "false") else n
    case Null => n.(text := "null")
    case _ => n
  }

  function Canon(n: Node): Node
    requires Emittable(n)
  {
    match n
    case Scalar(_, _) => NormScalar(n)
    case Mapping(pairs) => Mapping(SortPairs(CanonPairs(pairs)))
    case Sequence(items) => Sequence(CanonItems(items))
  }

  function CanonPair(p: Pair): Pair
    requires Emittable(p.val)
  {
    Pair(p.key, Canon(p.val))
  }

  function CanonPairs(pairs: seq<Pair>): (r: seq<Pair>)
    requires EmittablePairs(pairs)
    ensures KeysAreStrings(r) && |r| == |pairs|
    ensures forall i | 0 <= i < |r| :: r[i] == CanonPair(pairs[i])
  {
    if pairs == [] then [] else [CanonPair(pairs[0])] + CanonPairs(pairs[1..])
  }

  function CanonItems(items: seq<Node>): (r: seq<Node>)
    requires forall it | it in items :: Emittable(it)
    ensures |r| == |items| && forall i | 0 <= i < |r| :: r[i] == Canon(items[i])
  {
    if items == [] then [] else [Canon(items[0])] + CanonItems(items[1..])
  }

  /** Trees in canonical form: what the emitted text stands for. */
  predicate Canonical(n: Node) {
    match n
    case Scalar(tag, text) =>
      && EmitScalar(tag, text).Some?
      && (tag in {Int, Float, Timestamp} ==> PlainShape(text) && Resolve(text) == tag)
      && (tag == Bool ==> text in {"true", "false"})
      && (tag == Null ==> text == "null")
    case Mapping(pairs) =>
      && (forall p | p in pairs :: IsKey(p.key) && Canonical(p.val))
      && StrictlySorted(pairs)
    case Sequence(items) =>
      forall it | it in items :: Canonical(it) && Flat(it)
  }

  lemma CanonicalEmittable(n: Node)
    requires Canonical(n)
    ensures Emittable(n)
  {
  }

  lemma {:induction false} CanonIsCanonical(n: Node)
    requires Emittable(n) && WellFormed(n)
    ensures Canonical(Canon(n))
    decreases n, 1
  {
    match n
    case Scalar(_, _) =>
    case Mapping(pairs) =>
      CanonPairsCanonical(n);
      SortSorts(CanonPairs(pairs));
      SortKeeps(CanonPairs(pairs));
    case Sequence(items) => CanonItemsCanonical(n);
  }

  lemma {:induction false} CanonPairsCanonical(n: Node)
    requires n.Mapping? && Emittable(n) && WellFormed(n)
    ensures forall p | p in CanonPairs(n.pairs) :: IsKey(p.key) && Canonical(p.val)
    decreases n, 0
  {
    hide Canonical, Canon, EmitScalar, PlainShape, Resolve;
    var c := CanonPairs(n.pairs);
    forall i | 0 <= i < |c| ensures Canonical(c[i].val) {
      assert n.pairs[i] in n.pairs;
      CanonIsCanonical(n.pairs[i].val);
    }
  }

  lemma CanonFlat(n: Node)
    requires Emittable(n) && Flat(n)
    ensures Flat(Canon(n))
  {
    if n.Sequence? {
      forall i | 0 <= i < |n.items| ensures Canon(n.items[i]).Scalar? {
        assert n.items[i] in n.items;
      }
    }
  }

  lemma {:induction false} CanonItemsCanonical(n: Node)
    requires n.Sequence? && Emittable(n) && WellFormed(n)
    ensures forall it | it in CanonItems(n.items) :: Canonical(it) && Flat(it)
    decreases n, 0
  {
    hide Canonical, Canon, EmitScalar, PlainShape, Resolve;
    forall i | 0 <= i < |n.items| ensures Canonical(Canon(n.items[i])) && Flat(Canon(n.items[i])) {
      assert n.items[i] in n.items;
      CanonIsCanonical(n.items[i]);
      CanonFlat(n.items[i]);
    }
  }

  lemma {:induction false} CanonEmittable(n: Node)
    requires Emittable(n)
    ensures Emittable(Canon(n))
  {
    match n
    case Scalar(_, _) =>
    case Mapping(pairs) =>
      var c := CanonPairs(pairs);
      forall i | 0 <= i < |c| ensures IsKey(c[i].key) && Emittable(c[i].val) {
        assert pairs[i] in pairs;
        CanonEmittable(pairs[i].val);
      }
      SortKeeps(c);
    case Sequence(items) =>
      forall i | 0 <= i < |items| ensures Emittable(Canon(items[i])) && Flat(Canon(items[i])) {
        assert items[i] in items;
        CanonEmittable(items[i]);
        CanonFlat(items[i]);
      }
  }

  lemma {:induction false} CanonFixed(n: Node)
    requires Canonical(n)
    ensures Emittable(n) && Canon(n) == n
  {
    CanonicalEmittable(n);
    match n
    case Scalar(_, _) =>
    case Mapping(pairs) =>
      var c := CanonPairs(pairs);
      forall i | 0 <= i < |pairs| ensures c[i] == pairs[i] {
        assert pairs[i] in pairs;
        CanonFixed(pairs[i].val);
      }
      assert c == pairs;
      SortedIsFixed(pairs);
    case Sequence(items) =>
      forall i | 0 <= i < |items| ensures Canon(items[i]) == items[i] {
        assert items[i] in items;
        CanonFixed(items[i]);
      }
      assert CanonItems(items) == items;
  }

  // ---------------------------------------------------------------------------
  // The decoded value: what pack.Raw holds and what the binding check compares
  // ---------------------------------------------------------------------------

  /** A Go value: mappings are unordered; a number or timestamp is whatever the
      decoder makes of its tag and literal. */
  datatype Value<N> =
    | VStr(s: string)
    | VBool(b: bool)
    | VNull
    | VNum(n: N)
    | VNaN(literal: string)  // not a number, which equals nothing
    | VMap(m: map<string, Value<N>>)
    | VSeq(elems: seq<Value<N>>)

  /** The spellings of not-a-number. */
  predicate IsNaN(text: string) { text in {".nan", ".NaN", ".NAN"} }

  function Decode<N>(n: Node, num: (Tag, string) -> N): Value<N>
    requires Emittable(n)
  {
    match n
    case Scalar(tag, text) =>
      (match tag
       case Str => VStr(text)
       case Bool => VBool(text in {"true", "True", "TRUE"})
       case Null => VNull
       case Float => if IsNaN(text) then VNaN(text) else VNum(num(tag, text))
       case _ => VNum(num(tag, text)))
    case Mapping(pairs) => VMap(DecodePairs(pairs, num))
    case Sequence(items) => VSeq(DecodeItems(items, num))
  }

  function DecodePair<N>(p: Pair, num: (Tag, string) -> N): Value<N>
    requires Emittable(p.val)
  {
    Decode(p.val, num)
  }

  function DecodePairs<N>(pairs: seq<Pair>, num: (Tag, string) -> N): map<string, Value<N>>
    requires EmittablePairs(pairs)
  {
    if pairs == [] then map[]
    else DecodePairs(pairs[1..], num)[pairs[0].key.text := DecodePair(pairs[0], num)]
  }

  function DecodeItems<N>(items: seq<Node>, num: (Tag, string) -> N): (r: seq<Value<N>>)
    requires forall it | it in items :: Emittable(it)
    ensures |r| == |items| && forall i | 0 <= i < |r| :: r[i] == Decode(items[i], num)
  {
    if items == [] then [] else [Decode(items[0], num)] + DecodeItems(items[1..], num)
  }

  /** reflect.DeepEqual on decoded values. */
  predicate DeepEqual<N(==)>(v: Value<N>, w: Value<N>) {
    match v
    case VMap(m) => w.VMap? && m.Keys == w.m.Keys && forall k | k in m :: DeepEqual(m[k], w.m[k])
    case VSeq(s) => w.VSeq? && |s| == |w.elems| && forall i | 0 <= i < |s| :: DeepEqual(s[i], w.elems[i])
    case VNaN(_) => false
    case _ => v == w
  }

  predicate HasNaN<N>(v: Value<N>) {
    match v
    case VMap(m) => exists k | k in m :: HasNaN(m[k])
    case VSeq(s) => exists i | 0 <= i < |s| :: HasNaN(s[i])
    case VNaN(_) => true
    case _ => false
  }

  /** DeepEqual is equality, except that a value with a NaN in it equals nothing, not even
      itself. */
  lemma {:induction false} DeepEqualExactly<N>(v: Value<N>, w: Value<N>)
    ensures DeepEqual(v, w) <==> v == w && !HasNaN(v)
  {
    match v
    case VMap(m) =>
      if w.VMap? {
        forall k | k in m && k in w.m ensures DeepEqual(m[k], w.m[k]) <==> m[k] == w.m[k] && !HasNaN(m[k]) {
          DeepEqualExactly(m[k], w.m[k]);
        }
        if DeepEqual(v, w) { assert m == w.m; }
      }
    case VSeq(s) =>
      if w.VSeq? && |s| == |w.elems| {
        forall i | 0 <= i < |s| ensures DeepEqual(s[i], w.elems[i]) <==> s[i] == w.elems[i] && !HasNaN(s[i]) {
          DeepEqualExactly(s[i], w.elems[i]);
        }
        if DeepEqual(v, w) { assert s == w.elems; }
      }
    case _ =>
  }

  /** A literal that is not a number, at any depth. */
  predicate HasNaNLiteral(n: Node) {
    match n
    case Scalar(tag, text) => tag == Float && IsNaN(text)
    case Mapping(pairs) => exists p | p in pairs :: HasNaNLiteral(p.val)
    case Sequence(items) => exists it | it in items :: HasNaNLiteral(it)
  }

  /** Values with a NaN come exactly from documents with such a literal. */
  lemma {:induction false} NaNFromLiteral<N>(n: Node, num: (Tag, string) -> N)
    requires Emittable(n) && KeysDistinct(n)
    ensures HasNaN(Decode(n, num)) <==> HasNaNLiteral(n)
    decreases n, 1
  {
    match n
    case Scalar(_, _) =>
    case Mapping(pairs) =>
      PairsNaN(n, pairs, num);
      assert Decode(n, num) == VMap(DecodePairs(pairs, num));
    case Sequence(items) =>
      var s := DecodeItems(items, num);
      assert Decode(n, num) == VSeq(s);
      forall i | 0 <= i < |items| ensures HasNaN(s[i]) <==> HasNaNLiteral(items[i]) {
        assert items[i] in items;
        NaNFromLiteral(items[i], num);
      }
      assert HasNaN(VSeq(s)) <==> exists i | 0 <= i < |s| :: HasNaN(s[i]);
      if it :| it in items && HasNaNLiteral(it) {
        var i :| 0 <= i < |items| && items[i] == it;
        assert HasNaN(s[i]);
      }
  }

  predicate AnyNaN<N>(m: map<string, Value<N>>) { exists k | k in m :: HasNaN(m[k]) }

  predicate AnyNaNLiteral(pairs: seq<Pair>) { exists p | p in pairs :: HasNaNLiteral(p.val) }

  lemma AnyNaNAdded<N>(m: map<string, Value<N>>, k: string, v: Value<N>)
    requires k !in m
    ensures AnyNaN(m[k := v]) <==> HasNaN(v) || AnyNaN(m)
  {
    hide HasNaN;
    var r := m[k := v];
    if AnyNaN(m) {
      var q :| q in m && HasNaN(m[q]);
      assert q in r && r[q] == m[q];
    }
    if HasNaN(v) { assert HasNaN(r[k]); }
  }

  lemma AnyNaNFirst(pairs: seq<Pair>)
    requires pairs != []
    ensures AnyNaNLiteral(pairs) <==> HasNaNLiteral(pairs[0].val) || AnyNaNLiteral(pairs[1..])
  {
    hide HasNaNLiteral;
    assert forall p :: p in pairs <==> p == pairs[0] || p in pairs[1..];
  }

  lemma {:induction false} PairsNaN<N>(n: Node, pairs: seq<Pair>, num: (Tag, string) -> N)
    requires EmittablePairs(pairs) && DistinctKeys(pairs) && forall p | p in pairs :: KeysDistinct(p.val) && p.val < n
    ensures AnyNaN(DecodePairs(pairs, num)) <==> AnyNaNLiteral(pairs)
    decreases n, 0, |pairs|
  {
    if pairs != [] {
      hide Emittable, HasNaN, HasNaNLiteral, KeysDistinct, AnyNaN, AnyNaNLiteral;
      assert pairs[0] in pairs && forall p | p in pairs[1..] :: p in pairs;
      PairsNaN(n, pairs[1..], num);
      NaNFromLiteral(pairs[0].val, num);
      FirstKeyAlone(pairs, num);
      AnyNaNFirst(pairs);
      AnyNaNAdded(DecodePairs(pairs[1..], num), pairs[0].key.text, DecodePair(pairs[0], num));
    } else {
      assert !AnyNaN(DecodePairs(pairs, num)) && !AnyNaNLiteral(pairs);
    }
  }

  lemma FirstKeyAlone<N>(pairs: seq<Pair>, num: (Tag, string) -> N)
    requires EmittablePairs(pairs) && DistinctKeys(pairs) && pairs != []
    ensures EmittablePairs(pairs[1..]) && pairs[0].key.text !in DecodePairs(pairs[1..], num)
  {
    hide Emittable, DecodePairs;
    assert forall p | p in pairs[1..] :: p in pairs;
    forall i | 0 <= i < |pairs[1..]| ensures pairs[1..][i].key.text != pairs[0].key.text {
      assert pairs[0].key != pairs[i + 1].key && pairs[i + 1] in pairs && pairs[0] in pairs;
    }
    KeyAbsent(pairs[1..], pairs[0].key.text, num);
  }

  lemma {:induction false} DecodeInsert<N>(p: Pair, sorted: seq<Pair>, num: (Tag, string) -> N)
    requires IsKey(p.key) && Emittable(p.val) && EmittablePairs(sorted)
    requires forall q | q in sorted :: q.key != p.key
    ensures EmittablePairs(Insert(p, sorted))
    ensures DecodePairs(Insert(p, sorted), num) == DecodePairs(sorted, num)[p.key.text := Decode(p.val, num)]
  {
    var r := Insert(p, sorted);
    if sorted == [] || Less(p.key.text, sorted[0].key.text) {
      assert r == [p] + sorted && r[1..] == sorted;
    } else {
      assert sorted[0] in sorted && sorted[0].key.text != p.key.text;
      DecodeInsert(p, sorted[1..], num);
      assert r[1..] == Insert(p, sorted[1..]);
    }
  }

  lemma {:induction false} DecodeSort<N>(pairs: seq<Pair>, num: (Tag, string) -> N)
    requires EmittablePairs(pairs) && DistinctKeys(pairs)
    ensures EmittablePairs(SortPairs(pairs))
    ensures DecodePairs(SortPairs(pairs), num) == DecodePairs(pairs, num)
  {
    SortKeeps(pairs);
    if pairs != [] {
      SortKeeps(pairs[1..]);
      DecodeSort(pairs[1..], num);
      DecodeInsert(pairs[0], SortPairs(pairs[1..]), num);
    }
  }

  /** Putting a document in canonical form does not change what it decodes to. */
  lemma {:induction false} CanonKeepsValue<N>(n: Node, num: (Tag, string) -> N)
    requires Emittable(n) && KeysDistinct(n)
    ensures Emittable(Canon(n)) && Decode(Canon(n), num) == Decode(n, num)
  {
    CanonEmittable(n);
    match n
    case Scalar(_, _) =>
    case Mapping(pairs) => CanonPairsKeepValue(pairs, num); DecodeSort(CanonPairs(pairs), num);
    case Sequence(items) =>
      forall i | 0 <= i < |items| ensures Decode(Canon(n).items[i], num) == Decode(items[i], num) {
        assert items[i] in items;
        CanonKeepsValue(items[i], num);
      }
  }

  lemma {:induction false} CanonPairKeepsValue<N>(p: Pair, num: (Tag, string) -> N)
    requires IsKey(p.key) && Emittable(p.val) && KeysDistinct(p.val)
    ensures Emittable(CanonPair(p).val) && DecodePair(CanonPair(p), num) == DecodePair(p, num)
  {
    CanonKeepsValue(p.val, num);
  }

  lemma {:induction false} CanonPairsKeepValue<N>(pairs: seq<Pair>, num: (Tag, string) -> N)
    requires EmittablePairs(pairs) && forall p | p in pairs :: KeysDistinct(p.val)
    ensures EmittablePairs(CanonPairs(pairs))
    ensures DecodePairs(CanonPairs(pairs), num) == DecodePairs(pairs, num)
  {
    if pairs != [] {
      CanonPairsKeepValue(pairs[1..], num);
      CanonPairKeepsValue(pairs[0], num);
      var c := CanonPairs(pairs);
      assert c[1..] == CanonPairs(pairs[1..]);
      forall p | p in c ensures IsKey(p.key) && Emittable(p.val) {
        assert p == c[0] || p in c[1..];
      }
    }
  }

  // ---------------------------------------------------------------------------
  // Canonical trees are determined by their value
  // ---------------------------------------------------------------------------

  ghost predicate Injective<N(!new)>(num: (Tag, string) -> N) {
    forall t, s, t', s' :: num(t, s) == num(t', s') ==> t == t' && s == s'
  }

  lemma ScalarUnique<N(!new)>(a: Node, b: Node, num: (Tag, string) -> N)
    requires Canonical(a) && Canonical(b) && Injective(num) && a.Scalar?
    requires Emittable(a) && Emittable(b) && Decode(a, num) == Decode(b, num)
    ensures a == b
  {
    hide PlainShape, Resolve, IsNaN;
  }

  lemma {:induction false} CanonicalUnique<N(!new)>(a: Node, b: Node, num: (Tag, string) -> N)
    requires Canonical(a) && Canonical(b) && Injective(num)
    requires Emittable(a) && Emittable(b) && Decode(a, num) == Decode(b, num)
    ensures a == b
  {
    if a.Scalar? {
      ScalarUnique(a, b, num);
      return;
    }
    hide IsNaN, EmitScalar, PlainShape, Resolve, Less;
    match a
    case Scalar(_, _) =>
    case Mapping(pairs) => CanonicalPairsUnique(pairs, b.pairs, num);
    case Sequence(items) => CanonicalItemsUnique(items, b.items, num);
  }

  lemma {:induction false} CanonicalItemsUnique<N(!new)>(a: seq<Node>, b: seq<Node>, num: (Tag, string) -> N)
    requires (forall it | it in a :: Canonical(it) && Emittable(it)) && (forall it | it in b :: Canonical(it) && Emittable(it))
    requires Injective(num) && DecodeItems(a, num) == DecodeItems(b, num)
    ensures a == b
  {
    hide Canonical, Emittable, Decode;
    forall i | 0 <= i < |a| ensures a[i] == b[i] {
      assert a[i] in a && b[i] in b;
      assert DecodeItems(a, num)[i] == DecodeItems(b, num)[i];
      CanonicalUnique(a[i], b[i], num);
    }
  }

  lemma {:induction false} CanonicalPairsUnique<N(!new)>(a: seq<Pair>, b: seq<Pair>, num: (Tag, string) -> N)
    requires EmittablePairs(a) && StrictlySorted(a) && forall p | p in a :: Canonical(p.val)
    requires EmittablePairs(b) && StrictlySorted(b) && forall p | p in b :: Canonical(p.val)
    requires Injective(num) && DecodePairs(a, num) == DecodePairs(b, num)
    ensures a == b
  {
    EmptyValue(a, num);
    EmptyValue(b, num);
    if a != [] {
      LeastKey(a, b, num);
      LeastKey(b, a, num);
      LessTotal(a[0].key.text, b[0].key.text);
      TailValue(a, num);
      TailValue(b, num);
      assert a[0] in a && b[0] in b;
      CanonicalPairUnique(a[0], b[0], num);
      CanonicalPairsUnique(a[1..], b[1..], num);
      assert a == [a[0]] + a[1..] && b == [b[0]] + b[1..];
    }
  }

  lemma {:induction false} CanonicalPairUnique<N(!new)>(p: Pair, q: Pair, num: (Tag, string) -> N)
    requires Canonical(p.val) && Canonical(q.val) && Injective(num)
    requires Emittable(p.val) && Emittable(q.val) && DecodePair(p, num) == DecodePair(q, num)
    ensures p.val == q.val
  {
    CanonicalUnique(p.val, q.val, num);
  }

  lemma EmptyValue<N>(a: seq<Pair>, num: (Tag, string) -> N)
    requires EmittablePairs(a)
    ensures a == [] <==> DecodePairs(a, num) == map[]
  {
    if a != [] {
      assert a[0].key.text in DecodePairs(a, num);
    }
  }

  /** Of two sorted lists with the same keys, neither starts with a smaller key. */
  lemma LeastKey<N>(a: seq<Pair>, b: seq<Pair>, num: (Tag, string) -> N)
    requires EmittablePairs(a) && EmittablePairs(b) && DecodePairs(a, num) == DecodePairs(b, num)
    requires StrictlySorted(b) && a != [] && b != []
    ensures !Less(a[0].key.text, b[0].key.text)
  {
    var ka, kb := a[0].key.text, b[0].key.text;
    assert ka in DecodePairs(b, num);
    if Less(ka, kb) {
      forall i | 0 <= i < |b| ensures b[i].key.text != ka {
        if i > 0 { LessTransitive(ka, kb, b[i].key.text); }
        LessTotal(ka, b[i].key.text);
      }
      KeyAbsent(b, ka, num);
    }
  }

  lemma {:induction false} KeyAbsent<N>(pairs: seq<Pair>, k: string, num: (Tag, string) -> N)
    requires EmittablePairs(pairs) && forall p | p in pairs :: p.key.text != k
    ensures k !in DecodePairs(pairs, num)
  {
    if pairs != [] {
      assert pairs[0] in pairs;
      KeyAbsent(pairs[1..], k, num);
    }
  }

  lemma TailValue<N>(a: seq<Pair>, num: (Tag, string) -> N)
    requires EmittablePairs(a) && StrictlySorted(a) && a != []
    ensures a[0].key.text in DecodePairs(a, num)
    ensures DecodePairs(a, num)[a[0].key.text] == DecodePair(a[0], num)
    ensures DecodePairs(a[1..], num) == DecodePairs(a, num) - {a[0].key.text}
  {
    var k := a[0].key.text;
    forall i | 0 <= i < |a[1..]| ensures a[1..][i].key.text != k {
      LessTotal(k, a[i + 1].key.text);
    }
    KeyAbsent(a[1..], k, num);
    RemoveAdded(DecodePairs(a[1..], num), k, DecodePair(a[0], num));
  }

  lemma RemoveAdded<V>(m: map<string, V>, k: string, v: V)
    requires k !in m
    ensures m[k := v] - {k} == m
  {
  }
}
