/** Signature verification of a rule pack against its stored artifact (verify.go): the
    chain of checks, and the binding of the canonical text to the rule pack being verified. */
module PackVerify {
  import opened Wrappers
  import opened CanonScalar
  import opened CanonTree
  import opened CanonText
  import opened CanonDocument
  import opened GoString
  import opened HexCodec
  import CanonResolver

  datatype Signature = Signature(algorithm: string, keyId: string, signature: string)

  datatype Pack<N> = Pack(signed: Option<Signature>, raw: Option<map<string, Value<N>>>)

  datatype Verdict =
    | Accepted
    | NotCanonical
    | NilPack
    | Unsigned
    | WrongAlgorithm
    | NoPinnedKeys
    | UnknownKey
    | MalformedSignature
    | NoCanonicalBytes
    | NoRawForm
    | DoesNotDecode
    | BindingMismatch
    | SignatureMismatch

  /** What is not modelled of the decoder: the value of a number or timestamp literal, its
      own reading of plain scalars, and the result on texts outside the subset or with a
      plain scalar that it reads in another way. */
  datatype Yaml<!N> = Yaml(num: (Tag, string) -> N, resolve: string -> Tag, other: string -> Option<map<string, Value<N>>>)

  /** A string, if printed plain, is read as a string. */
  predicate ReadsString(s: string, resolve: string -> Tag) { PrintedPlain(s) ==> resolve(s) == Str }

  /** Every plain scalar of a canonical tree is read with its own tag. */
  predicate Agrees(n: Node, resolve: string -> Tag) {
    match n
    case Scalar(tag, text) => if tag == Str then ReadsString(text, resolve) else resolve(text) == tag
    case Mapping(pairs) => forall p | p in pairs :: (p.key.Scalar? ==> ReadsString(p.key.text, resolve)) && Agrees(p.val, resolve)
    case Sequence(items) => forall it | it in items :: Agrees(it, resolve)
  }

  /** The map a canonical text decodes to. */
  function DecodeText<N>(t: string, y: Yaml<N>): Option<map<string, Value<N>>> {
    var d := ReadDocument(t);
    if d.Some? && EmittablePairs(d.value.pairs) && Agrees(d.value, y.resolve) then Some(DecodePairs(d.value.pairs, y.num))
    else y.other(t)
  }

  function BindVerdict<N(==)>(raw: Option<map<string, Value<N>>>, canonical: string, y: Yaml<N>): Verdict {
    if raw.None? then NoRawForm
    else
      var decoded := DecodeText(canonical, y);
      if decoded.None? then DoesNotDecode
      else if !DeepEqual(VMap(raw.value - {"signed"}), VMap(decoded.value)) then BindingMismatch
      else Accepted
  }

  method BindCanonicalToPack<N(==)>(raw: Option<map<string, Value<N>>>, canonical: string, y: Yaml<N>)
      returns (v: Verdict)
    ensures v == BindVerdict(raw, canonical, y)
  {
    if raw.None? { return NoRawForm; }
    var canonRaw := DecodeText(canonical, y);
    if canonRaw.None? { return DoesNotDecode; }
    var body: map<string, Value<N>> := map[];
    var keys := raw.value.Keys;
    while keys != {}
      invariant keys <= raw.value.Keys
      invariant body == map k | k in raw.value && k !in keys && k != "signed" :: raw.value[k]
      decreases keys
    {
      var k :| k in keys;
      keys := keys - {k};
      if k == "signed" { continue; }
      body := body[k := raw.value[k]];
    }
    assert body == raw.value - {"signed"};
    return if DeepEqual(VMap(body), VMap(canonRaw.value)) then Accepted else BindingMismatch;
  }

  /** `ed25519` is the signature check of a public key over a message. */
  function VerifyPackSignature<N(==), K>(pack: Option<Pack<N>>, canonical: string, keys: map<string, K>,
      y: Yaml<N>, ed25519: (K, string, seq<nat>) -> bool): Verdict
  {
    if pack.None? then NilPack
    else if pack.value.signed.None? then Unsigned
    else
      var signed := pack.value.signed.value;
      if signed.algorithm != "ed25519" then WrongAlgorithm
      else if |keys| == 0 then NoPinnedKeys
      else if signed.keyId !in keys then UnknownKey
      else
        var sig := HexBytes(signed.signature);
        if sig.None? || |sig.value| != 64 then MalformedSignature
        else if canonical == "" then NoCanonicalBytes
        else
          var bound := BindVerdict(pack.value.raw, canonical, y);
          if bound != Accepted then bound
          else if !ed25519(keys[signed.keyId], canonical, sig.value) then SignatureMismatch
          else Accepted
  }

  /** `root` is the parsed artifact. */
  function VerifyPackYAMLArtifact<N(==), K>(pack: Option<Pack<N>>, root: Node, keys: map<string, K>,
      y: Yaml<N>, ed25519: (K, string, seq<nat>) -> bool): Verdict
  {
    if !HasCanonicalText(root) then NotCanonical
    else VerifyPackSignature(pack, CanonicalText(root), keys, y, ed25519)
  }

  // ---------------------------------------------------------------------------
  // What canonical text decodes to
  // ---------------------------------------------------------------------------

  /** What a caller can check on the canonical body: it is safe, and the decoder reads its
      plain scalars with their tags. */
  predicate Familiar(root: Node, resolve: string -> Tag)
    requires HasCanonicalText(root)
  {
    DocumentSafe(root) && Agrees(CanonBody(root), resolve)
  }

  /** The value of the document without its signed block. */
  function BodyValue<N>(root: Node, num: (Tag, string) -> N): map<string, Value<N>>
    requires HasCanonicalText(root)
  {
    DecodePairs(Body(root.pairs), num)
  }

  /** The value of a document's canonical text. */
  function Shown<N>(root: Node, y: Yaml<N>): Option<map<string, Value<N>>>
    requires HasCanonicalText(root)
  {
    if Familiar(root, y.resolve) then Some(BodyValue(root, y.num)) else y.other(CanonicalText(root))
  }

  lemma SameValue<N>(root: Node, num: (Tag, string) -> N)
    requires HasCanonicalText(root) && WellFormedBody(root)
    ensures EmittablePairs(CanonBody(root).pairs) && DecodePairs(CanonBody(root).pairs, num) == BodyValue(root, num)
  {
    var body := Mapping(Body(root.pairs));
    WellFormedKeys(body);
    CanonKeepsValue(body, num);
  }

  /** Canonical text decodes to the value of the body exactly as far as the document is
      familiar; otherwise it is up to the decoder. */
  lemma DecodeCanonicalText<N>(root: Node, y: Yaml<N>)
    requires HasCanonicalText(root) && WellFormedBody(root)
    ensures DecodeText(CanonicalText(root), y) == Shown(root, y)
  {
    DocumentRoundTrip(root);
    SameValue(root, y.num);
    hide HasCanonicalText, WellFormedBody, CanonicalText, ReadDocument, DecodePairs, DocumentSafe, Agrees;
  }

  // ---------------------------------------------------------------------------
  // What the binding check decides
  // ---------------------------------------------------------------------------

  /** The binding check passes exactly for the packs whose body has no NaN and is what the
      text decodes to. */
  lemma BindingExact<N>(raw: map<string, Value<N>>, root: Node, y: Yaml<N>)
    requires HasCanonicalText(root) && WellFormedBody(root)
    ensures BindVerdict(Some(raw), CanonicalText(root), y) == Accepted <==>
            Shown(root, y) == Some(raw - {"signed"}) && !HasNaN(VMap(raw - {"signed"}))
  {
    DecodeCanonicalText(root, y);
    hide HasCanonicalText, WellFormedBody, CanonicalText, DecodeText, Shown, DeepEqual, HasNaN;
    if Shown(root, y).Some? { DeepEqualExactly(VMap(raw - {"signed"}), VMap(Shown(root, y).value)); }
  }

  lemma SignedOnce<N>(pairs: seq<Pair>, num: (Tag, string) -> N)
    requires EmittablePairs(pairs) && DistinctKeys(pairs) && pairs != [] && EmittablePairs(pairs[1..])
    requires pairs[0].key.text == "signed"
    ensures "signed" !in DecodePairs(pairs[1..], num)
  {
    hide Emittable, DecodePairs;
    forall i | 0 <= i < |pairs[1..]| ensures pairs[1..][i].key.text != "signed" {
      assert pairs[0].key != pairs[i + 1].key && pairs[i + 1] in pairs;
    }
    KeyAbsent(pairs[1..], "signed", num);
  }

  lemma {:induction false} DecodeBody<N>(pairs: seq<Pair>, num: (Tag, string) -> N)
    requires EmittablePairs(pairs) && DistinctKeys(pairs)
    ensures DecodePairs(Body(pairs), num) == DecodePairs(pairs, num) - {"signed"}
  {
    if pairs != [] {
      hide Emittable, DecodePair;
      DecodeBody(pairs[1..], num);
      if pairs[0].key.text == "signed" {
        SignedOnce(pairs, num);
      } else {
        assert Body(pairs)[1..] == Body(pairs[1..]);
      }
    }
  }

  /** A NaN in the value of the body comes from a NaN literal in the document. */
  lemma BodyNaN<N>(root: Node, num: (Tag, string) -> N)
    requires HasCanonicalText(root) && WellFormedBody(root)
    ensures HasNaN(VMap(BodyValue(root, num))) <==> exists p | p in Body(root.pairs) :: HasNaNLiteral(p.val)
  {
    var body := Mapping(Body(root.pairs));
    WellFormedKeys(body);
    NaNFromLiteral(body, num);
  }

  /** A pack parsed from its own artifact is bound to it exactly when the artifact is
      familiar and has no NaN literal; an unfamiliar one, when the decoder gives the body
      back all the same. */
  lemma OwnPackBinds<N>(root: Node, y: Yaml<N>)
    requires root.Mapping? && Emittable(root) && WellFormed(root)
    ensures HasCanonicalText(root) && WellFormedBody(root)
    ensures BindVerdict(Some(DecodePairs(root.pairs, y.num)), CanonicalText(root), y) == Accepted <==>
      && (Familiar(root, y.resolve) || y.other(CanonicalText(root)) == Some(BodyValue(root, y.num)))
      && !exists p | p in Body(root.pairs) :: HasNaNLiteral(p.val)
  {
    BodyDistinct(root.pairs);
    DecodeBody(root.pairs, y.num);
    BindingExact(DecodePairs(root.pairs, y.num), root, y);
    BodyNaN(root, y.num);
    hide Emittable, WellFormed, HasNaN, HasNaNLiteral, Familiar, CanonicalText, BindVerdict, DecodePairs, Body;
  }

  lemma {:induction false} BodyDistinct(pairs: seq<Pair>)
    requires KeysAreStrings(pairs) && DistinctKeys(pairs)
    ensures DistinctKeys(Body(pairs))
  {
    if pairs != [] { BodyDistinct(pairs[1..]); }
  }

  /** Exactly when every pack with a different body is rejected, whatever the decoder makes of
      texts outside the model. */
  lemma RejectsOthersExactly<N(!new)>(root: Node, num: (Tag, string) -> N, resolve: string -> Tag)
    requires HasCanonicalText(root) && WellFormedBody(root)
    ensures Familiar(root, resolve) <==> forall raw: map<string, Value<N>>, other: string -> Option<map<string, Value<N>>> ::
      BindVerdict(Some(raw), CanonicalText(root), Yaml(num, resolve, other)) == Accepted ==> raw - {"signed"} == BodyValue(root, num)
  {
    hide HasCanonicalText, WellFormedBody, CanonicalText, BindVerdict, Familiar, BodyValue, HasNaN;
    if Familiar(root, resolve) {
      forall raw: map<string, Value<N>>, other: string -> Option<map<string, Value<N>>>
        ensures BindVerdict(Some(raw), CanonicalText(root), Yaml(num, resolve, other)) == Accepted ==> raw - {"signed"} == BodyValue(root, num)
      {
        BindingExact(raw, root, Yaml(num, resolve, other));
      }
    } else {
      var raw, other := AnotherIsAccepted(root, num, resolve);
    }
  }

  lemma AnotherIsAccepted<N>(root: Node, num: (Tag, string) -> N, resolve: string -> Tag)
      returns (raw: map<string, Value<N>>, other: string -> Option<map<string, Value<N>>>)
    requires HasCanonicalText(root) && WellFormedBody(root) && !Familiar(root, resolve)
    ensures BindVerdict(Some(raw), CanonicalText(root), Yaml(num, resolve, other)) == Accepted && raw - {"signed"} != BodyValue(root, num)
  {
    hide HasCanonicalText, WellFormedBody, CanonicalText, BindVerdict, Familiar, BodyValue, HasNaN;
    var v := BodyValue(root, num);
    raw := if v == map[] then map["k" := VNull] else map[];
    var result := Some(raw);
    other := (t: string) => result;
    BindingExact(raw, root, Yaml(num, resolve, other));
    NoNaNIn(raw);
    assert raw - {"signed"} == raw != v by { assert v == map[] ==> "k" in raw; }
  }

  lemma NoNaNIn<N>(m: map<string, Value<N>>)
    requires forall k | k in m :: m[k] == VNull
    ensures !HasNaN(VMap(m))
  {
  }

  /** Everything an accepted pack has been checked for, and nothing else. */
  lemma AcceptedExactly<N, K>(pack: Pack<N>, root: Node, keys: map<string, K>,
      y: Yaml<N>, ed25519: (K, string, seq<nat>) -> bool)
    requires HasCanonicalText(root) ==> WellFormedBody(root)
    ensures VerifyPackYAMLArtifact(Some(pack), root, keys, y, ed25519) == Accepted <==>
      && HasCanonicalText(root) && CanonicalText(root) != ""
      && pack.raw.Some? && Shown(root, y) == Some(pack.raw.value - {"signed"}) && !HasNaN(VMap(pack.raw.value - {"signed"}))
      && pack.signed.Some? && pack.signed.value.algorithm == "ed25519" && pack.signed.value.keyId in keys
      && var sig := HexBytes(pack.signed.value.signature);
         sig.Some? && |sig.value| == 64
         && ed25519(keys[pack.signed.value.keyId], CanonicalText(root), sig.value)
  {
    if HasCanonicalText(root) {
      hide HasCanonicalText, CanonicalText, WellFormedBody, BindVerdict, Shown, HexBytes, HasNaN;
      if pack.raw.Some? {
        BindingExact(pack.raw.value, root, y);
      } else {
        NothingToBind(CanonicalText(root), y);
      }
    }
  }

  /** Every rejection names the first check that fails. */
  lemma RejectedExactly<N, K>(pack: Option<Pack<N>>, root: Node, keys: map<string, K>,
      y: Yaml<N>, ed25519: (K, string, seq<nat>) -> bool)
    requires HasCanonicalText(root) ==> WellFormedBody(root)
    ensures var v := VerifyPackYAMLArtifact(pack, root, keys, y, ed25519);
      var canonical := HasCanonicalText(root);
      var signed := canonical && pack.Some? && pack.value.signed.Some?;
      var algorithm := signed && pack.value.signed.value.algorithm == "ed25519";
      var pinned := algorithm && pack.value.signed.value.keyId in keys;
      var wellFormed := pinned && var sig := HexBytes(pack.value.signed.value.signature); sig.Some? && |sig.value| == 64;
      var text := wellFormed && CanonicalText(root) != "";
      var raw := text && pack.value.raw.Some?;
      var shown := raw && Shown(root, y).Some?;
      && (v == NotCanonical <==> !canonical)
      && (v == NilPack <==> canonical && pack.None?)
      && (v == Unsigned <==> canonical && pack.Some? && pack.value.signed.None?)
      && (v == WrongAlgorithm <==> signed && !algorithm)
      && (v == NoPinnedKeys <==> algorithm && keys == map[])
      && (v == UnknownKey <==> algorithm && keys != map[] && !pinned)
      && (v == MalformedSignature <==> pinned && !wellFormed)
      && (v == NoCanonicalBytes <==> wellFormed && !text)
      && (v == NoRawForm <==> text && !raw)
      && (v == DoesNotDecode <==> raw && !shown)
      && (v == BindingMismatch <==> shown && (Shown(root, y).value != pack.value.raw.value - {"signed"} || HasNaN(VMap(pack.value.raw.value - {"signed"}))))
  {
    hide HasCanonicalText, CanonicalText, WellFormedBody, BindVerdict, Shown, HexBytes, HasNaN;
    if HasCanonicalText(root) && pack.Some? { VerdictExactly(pack.value.raw, root, y); }
    assert |keys| == 0 <==> keys == map[];
  }

  lemma VerdictExactly<N>(raw: Option<map<string, Value<N>>>, root: Node, y: Yaml<N>)
    requires HasCanonicalText(root) && WellFormedBody(root)
    ensures var v := BindVerdict(raw, CanonicalText(root), y);
      v == if raw.None? then NoRawForm
           else if Shown(root, y).None? then DoesNotDecode
           else if Shown(root, y).value != raw.value - {"signed"} || HasNaN(VMap(raw.value - {"signed"})) then BindingMismatch
           else Accepted
  {
    hide HasCanonicalText, CanonicalText, WellFormedBody, DecodeText, Shown, HasNaN, DeepEqual;
    DecodeCanonicalText(root, y);
    if raw.Some? { BindingExact(raw.value, root, y); }
  }

  lemma NothingToBind<N>(canonical: string, y: Yaml<N>)
    ensures BindVerdict(None, canonical, y) != Accepted
  {
  }

  /** A signature cannot be carried over to another pack: packs accepted for artifacts
      with the same signed text have the same body. */
  lemma NoReplay<N, K>(p: Pack<N>, a: Node, q: Pack<N>, b: Node, keys: map<string, K>,
      y: Yaml<N>, ed25519: (K, string, seq<nat>) -> bool)
    requires HasCanonicalText(a) && WellFormedBody(a) && HasCanonicalText(b) && WellFormedBody(b)
    requires VerifyPackYAMLArtifact(Some(p), a, keys, y, ed25519) == Accepted
    requires VerifyPackYAMLArtifact(Some(q), b, keys, y, ed25519) == Accepted
    ensures p.raw.Some? && q.raw.Some?
    ensures CanonicalText(a) == CanonicalText(b) ==> p.raw.value - {"signed"} == q.raw.value - {"signed"}
  {
    hide HasCanonicalText, CanonicalText, WellFormedBody, DecodeText, Shown, VerifyPackYAMLArtifact;
    AcceptedExactly(p, a, keys, y, ed25519);
    AcceptedExactly(q, b, keys, y, ed25519);
    DecodeCanonicalText(a, y);
    DecodeCanonicalText(b, y);
  }

  // ---------------------------------------------------------------------------
  // Documents of two strings
  // ---------------------------------------------------------------------------

  lemma PrintsItself(s: string)
    requires 'z' in s && AllowPlain(s)
    ensures EmitStringScalar(s) == s
  {
    hide AllowPlain, ResolvesToNonString;
    CanonResolver.LetterZIsAString(s);
  }

  lemma TwoLines(a: string, b: string)
    ensures Render([Line(0, a), Line(0, b)]) == a + "\n" + (b + "\n")
  {
    var one, two := Line(0, a), Line(0, b);
    assert [one, two][1..] == [two] && [two][1..] == [];
    assert Spaces(0) == "" && Render([]) == "";
    assert Render([two]) == b + "\n";
  }

  lemma {:induction false} TwoEntries(p: Pair, q: Pair, a: Line, b: Line)
    requires EmittablePairs([p, q]) && IsKey(p.key) && IsKey(q.key) && Emittable(p.val) && Emittable(q.val)
    requires EntryLines(p, 0) == [a] && EntryLines(q, 0) == [b]
    ensures MapLines([p, q], 0) == [a, b]
  {
    hide EntryLines, Emittable;
    assert [p, q][1..] == [q] && [q][1..] == [];
    assert MapLines([q], 0) == [b] + MapLines([], 0) == [b];
    assert MapLines([p, q], 0) == [a] + [b];
  }

  lemma PairLine(p: Pair, key: string, val: string)
    requires p == Pair(Scalar(Str, key), Scalar(Str, val)) && EmitStringScalar(key) == key && EmitStringScalar(val) == val
    ensures IsKey(p.key) && Emittable(p.val) && Canonical(p.val) && Canon(p.val) == p.val
    ensures EntryLines(p, 0) == [Line(0, key + ": " + val)]
  {
    assert KeyText(p) + " " + InlineText(p.val) == key + ": " + val;
  }

  /** Printed as it is, and not the key of the signed block. */
  predicate PrintsBare(s: string) { EmitStringScalar(s) == s && s != "signed" }

  lemma BareIsUnsigned(s: string)
    requires PrintsBare(s)
    ensures s != "signed"
  {
  }

  lemma TextOfBody(root: Node)
    requires HasCanonicalText(root) && CanonBody(root) == root
    ensures EmittablePairs(root.pairs) && CanonicalText(root) == Render(MapLines(root.pairs, 0))
  {
    SortedEmittable(Body(root.pairs));
  }

  function Two(k1: string, v1: string, k2: string, v2: string): Node {
    Mapping([Pair(Scalar(Str, k1), Scalar(Str, v1)), Pair(Scalar(Str, k2), Scalar(Str, v2))])
  }

  /** The text of two strings under sorted keys, all printed as they are. */
  lemma TwoText(k1: string, v1: string, k2: string, v2: string)
    requires PrintsBare(k1) && PrintsBare(v1) && PrintsBare(k2) && PrintsBare(v2) && Less(k1, k2)
    ensures var root := Two(k1, v1, k2, v2);
      && Emittable(root) && WellFormed(root) && HasCanonicalText(root) && WellFormedBody(root)
      && CanonBody(root) == root
      && CanonicalText(root) == k1 + ": " + v1 + "\n" + (k2 + ": " + v2 + "\n")
  {
    var p, q := Pair(Scalar(Str, k1), Scalar(Str, v1)), Pair(Scalar(Str, k2), Scalar(Str, v2));
    PairLine(p, k1, v1);
    PairLine(q, k2, v2);
    hide EmitStringScalar, EntryLines, Canonical, Less, Emittable, Canon, CanonBody, HasCanonicalText, WellFormedBody, MapLines, Render, PrintsBare, CanonicalText, WellFormed;
    TwoCanonical(p, q);
    TextOfBody(Mapping([p, q]));
    TwoEntries(p, q, Line(0, k1 + ": " + v1), Line(0, k2 + ": " + v2));
    TwoLines(k1 + ": " + v1, k2 + ": " + v2);
  }

  lemma TextIsCanonical(n: Node)
    requires n.Scalar? && n.tag == Str
    ensures Emittable(n) && Canon(n) == n && WellFormed(n)
  {
  }

  lemma TwoCanonical(p: Pair, q: Pair)
    requires forall r | r in [p, q] :: IsKey(r.key) && r.val.Scalar? && r.val.tag == Str && PrintsBare(r.key.text)
    requires IsKey(p.key) && IsKey(q.key) && Less(p.key.text, q.key.text)
    ensures var root := Mapping([p, q]);
      && Emittable(root) && WellFormed(root) && HasCanonicalText(root) && Body(root.pairs) == root.pairs && WellFormedBody(root) && CanonBody(root) == root
  {
    var pairs := [p, q];
    assert pairs[0] == p && pairs[1] == q;
    hide EmitStringScalar, Less;
    assert StrictlySorted(pairs);
    hide Emittable, Canon, WellFormed, PrintsBare, StrictlySorted;
    forall r | r in pairs ensures r.key.text != "signed" && Emittable(r.val) && Canon(r.val) == r.val && WellFormed(r.val) {
      BareIsUnsigned(r.key.text);
      TextIsCanonical(r.val);
    }
    CanonicalList(pairs);
  }

  /** Sorted, unsigned pairs with canonical values are their own canonical body. */
  lemma CanonicalList(pairs: seq<Pair>)
    requires EmittablePairs(pairs) && StrictlySorted(pairs)
    requires forall p | p in pairs :: p.key.text != "signed" && Canon(p.val) == p.val && WellFormed(p.val)
    ensures var root := Mapping(pairs);
      && Emittable(root) && WellFormed(root) && HasCanonicalText(root) && Body(pairs) == pairs && WellFormedBody(root) && CanonBody(root) == root
  {
    BodyFixed(pairs);
    SortedDistinct(pairs);
    MappingParts(pairs);
    hide Emittable, Canon, WellFormed, Body, StrictlySorted;
    var c := CanonPairs(pairs);
    forall i | 0 <= i < |pairs| ensures c[i] == pairs[i] {
      assert pairs[i] in pairs && CanonPair(pairs[i]) == pairs[i];
    }
    assert c == pairs;
    SortedIsFixed(pairs);
    CanonOfPairs(pairs);
  }

  lemma MappingParts(pairs: seq<Pair>)
    requires EmittablePairs(pairs) && DistinctKeys(pairs) && forall p | p in pairs :: WellFormed(p.val)
    ensures Emittable(Mapping(pairs)) && WellFormed(Mapping(pairs))
  {
  }

  lemma SortedDistinct(pairs: seq<Pair>)
    requires KeysAreStrings(pairs) && StrictlySorted(pairs)
    ensures DistinctKeys(pairs)
  {
    hide Less;
    forall i, j | 0 <= i < j < |pairs| ensures pairs[i].key != pairs[j].key {
      LessTotal(pairs[i].key.text, pairs[j].key.text);
    }
  }

  lemma CanonOfPairs(pairs: seq<Pair>)
    requires EmittablePairs(pairs) && Emittable(Mapping(pairs))
    ensures Canon(Mapping(pairs)) == Mapping(SortPairs(CanonPairs(pairs)))
  {
  }

  lemma TwoValue<N>(k1: string, v1: string, k2: string, v2: string, num: (Tag, string) -> N)
    requires k1 != k2 && EmittablePairs(Two(k1, v1, k2, v2).pairs)
    ensures DecodePairs(Two(k1, v1, k2, v2).pairs, num) == map[k1 := VStr(v1), k2 := VStr(v2)]
  {
    var p, q := Pair(Scalar(Str, k1), Scalar(Str, v1)), Pair(Scalar(Str, k2), Scalar(Str, v2));
    assert [p, q][1..] == [q] && [q][1..] == [];
    assert DecodePair(p, num) == VStr(v1) && DecodePair(q, num) == VStr(v2);
    hide DecodePair;
    assert DecodePairs([q], num) == DecodePairs([], num)[k2 := VStr(v2)];
    assert DecodePairs([p, q], num) == DecodePairs([q], num)[k1 := VStr(v1)];
  }

  /** Whatever the decoder makes of an unfamiliar document is what the signature then
      vouches for. */
  lemma UnfamiliarIsAccepted<N>(root: Node, y: Yaml<N>, raw: map<string, Value<N>>)
    requires HasCanonicalText(root) && WellFormedBody(root) && !Familiar(root, y.resolve)
    requires y.other(CanonicalText(root)) == Some(raw) && "signed" !in raw && !HasNaN(VMap(raw))
    ensures BindVerdict(Some(raw), CanonicalText(root), y) == Accepted
  {
    BindingExact(raw, root, y);
    hide Familiar, CanonicalText, HasNaN;
    assert raw - {"signed"} == raw;
  }

  // ---------------------------------------------------------------------------
  // Artifacts that do not bind, or bind another pack
  // ---------------------------------------------------------------------------

  lemma MarkerPrints(s: string)
    requires |s| > 3 && s[..3] == "---" && s[3] == ' ' && EmitStringScalar(s) == s
    ensures PrintsMarker(s)
  {
  }

  lemma NotSafe(root: Node, p: Pair)
    requires HasCanonicalText(root) && CanonBody(root) == root && p in root.pairs && IsKey(p.key) && PrintsMarker(p.key.text)
    ensures !DocumentSafe(root)
  {
    hide PrintsMarker, OddPair;
  }

  lemma BareWord(s: string)
    requires 'z' in s && AllowPlain(s) && s[0] != 's'
    ensures PrintsBare(s)
  {
    PrintsItself(s);
    hide EmitStringScalar, AllowPlain;
    assert s != "" ==> "signed"[0] == 's';
  }

  lemma PlainMarker()
    ensures var s := "--- {zz"; AllowPlain(s) && 'z' in s && s[0] == '-' && |s| > 3 && s[..3] == "---" && s[3] == ' '
  {
    hide IsPrintable;
    var s := "--- {zz";
    assert s[5] == 'z';
    assert forall i | 0 <= i < |s| :: s[i] in ['-', ' ', '{', 'z'];
    assert forall c | c in ['-', ' ', '{', 'z'] :: IsPrintable(c) && c != ':' && c != '#' && c != '\n' && c != '\t' by { AsciiPrints(); }
  }

  lemma AsciiPrints()
    ensures forall c | ' ' <= c <= '~' :: IsPrintable(c)
  {
  }

  lemma MarkerWord()
    ensures PrintsBare("--- {zz") && PrintsMarker("--- {zz")
  {
    hide AllowPlain, EmitStringScalar;
    PlainMarker();
    BareWord("--- {zz");
    MarkerPrints("--- {zz");
  }

  lemma ShortWords()
    ensures PrintsBare("z,") && PrintsBare("z") && PrintsBare("z}") && PrintsBare("+z")
  {
    assert AllowPlain("z,") && AllowPlain("z") && AllowPlain("z}") && AllowPlain("+z");
    hide AllowPlain, EmitStringScalar;
    assert "z,"[0] == 'z' && "z"[0] == 'z' && "z}"[0] == 'z' && "+z"[1] == 'z';
    BareWord("z,");
    BareWord("z");
    BareWord("z}");
    BareWord("+z");
  }

  lemma FlowWords()
    ensures PrintsBare("--- {zz") && PrintsBare("z,") && PrintsBare("z") && PrintsBare("z}") && PrintsBare("+z")
    ensures PrintsMarker("--- {zz") && Less("--- {zz", "z") && Less("+z", "--- {zz")
  {
    hide PrintsBare, PrintsMarker;
    MarkerWord();
    ShortWords();
  }

  /** A key that starts like a document marker is printed unquoted. Here the text is one
      explicit document with a flow mapping (YAML 1.2 section 9.1.2): for a decoder that
      reads it so, a pack with another body binds. */
  lemma OtherPackIsAccepted<N>(y: Yaml<N>)
    requires y.other("--- {zz: z,\nz: z}\n") == Some(map["zz" := VStr("z"), "z" := VStr("z")])
    ensures var root, raw := Two("--- {zz", "z,", "z", "z}"), map["zz" := VStr("z"), "z" := VStr("z")];
      && Emittable(root) && WellFormed(root) && HasCanonicalText(root)
      && BindVerdict(Some(raw), CanonicalText(root), y) == Accepted && raw != BodyValue(root, y.num)
  {
    var root := Two("--- {zz", "z,", "z", "z}");
    var raw: map<string, Value<N>> := map["zz" := VStr("z"), "z" := VStr("z")];
    FlowWords();
    hide EmitStringScalar, PrintsMarker, Less, HasCanonicalText, CanonicalText, WellFormed, Emittable, WellFormedBody, CanonBody, BindVerdict, DocumentSafe, Body;
    TwoText("--- {zz", "z,", "z", "z}");
    assert "--- {zz" + ": " + "z," + "\n" + ("z" + ": " + "z}" + "\n") == "--- {zz: z,\nz: z}\n";
    NotSafe(root, root.pairs[0]);
    NoNaNInStrings(raw);
    UnfamiliarIsAccepted(root, y, raw);
    BodyOfTwo("--- {zz", "z,", "z", "z}", y.num);
    assert "--- {zz" !in raw by { assert |"--- {zz"| == 7; }
  }

  /** With a key sorting before it, the text is two documents. For a decoder that returns the
      first, a pack with that key alone is accepted under a signature over the whole text. */
  lemma TruncatedPackIsAccepted<N, K>(keys: map<string, K>, signed: Signature, y: Yaml<N>, ed25519: (K, string, seq<nat>) -> bool)
    requires y.other("+z: z\n--- {zz: z}\n") == Some(map["+z" := VStr("z")])
    requires signed.algorithm == "ed25519" && signed.keyId in keys
    requires var sig := HexBytes(signed.signature);
      sig.Some? && |sig.value| == 64 && ed25519(keys[signed.keyId], "+z: z\n--- {zz: z}\n", sig.value)
    ensures var root, raw := Two("+z", "z", "--- {zz", "z}"), map["+z" := VStr("z")];
      && Emittable(root) && WellFormed(root) && HasCanonicalText(root)
      && VerifyPackYAMLArtifact(Some(Pack(Some(signed), Some(raw))), root, keys, y, ed25519) == Accepted
      && raw != BodyValue(root, y.num)
  {
    var root := Two("+z", "z", "--- {zz", "z}");
    var raw: map<string, Value<N>> := map["+z" := VStr("z")];
    FlowWords();
    hide EmitStringScalar, PrintsMarker, Less, HasCanonicalText, CanonicalText, WellFormed, Emittable, WellFormedBody, CanonBody, DocumentSafe, VerifyPackYAMLArtifact, HexBytes, Body;
    TwoText("+z", "z", "--- {zz", "z}");
    assert "+z" + ": " + "z" + "\n" + ("--- {zz" + ": " + "z}" + "\n") == "+z: z\n--- {zz: z}\n";
    NotSafe(root, root.pairs[1]);
    NoNaNInStrings(raw);
    assert raw - {"signed"} == raw;
    AcceptedExactly(Pack(Some(signed), Some(raw)), root, keys, y, ed25519);
    BodyOfTwo("+z", "z", "--- {zz", "z}", y.num);
    assert "--- {zz" !in raw by { assert |"--- {zz"| == 7; }
  }

  lemma NoNaNInStrings<N>(m: map<string, Value<N>>)
    requires forall k | k in m :: m[k].VStr?
    ensures !HasNaN(VMap(m))
  {
  }

  lemma BodyOfTwo<N>(k1: string, v1: string, k2: string, v2: string, num: (Tag, string) -> N)
    requires k1 != k2 && k1 != "signed" && k2 != "signed" && HasCanonicalText(Two(k1, v1, k2, v2))
    ensures BodyValue(Two(k1, v1, k2, v2), num) == map[k1 := VStr(v1), k2 := VStr(v2)]
  {
    var p, q := Pair(Scalar(Str, k1), Scalar(Str, v1)), Pair(Scalar(Str, k2), Scalar(Str, v2));
    assert [p, q][1..] == [q] && [q][1..] == [];
    assert Body([q]) == [q] + Body([]) == [q];
    assert Body([p, q]) == [p] + Body([q]) == [p, q];
    hide Body;
    TwoValue(k1, v1, k2, v2, num);
  }

  /** A document with a NaN is never bound to its own pack, however plain its text. */
  lemma NaNIsRejected<N>(y: Yaml<N>)
    ensures var root := Mapping([Pair(Scalar(Str, "z"), Scalar(Float, ".nan"))]);
      && Emittable(root) && WellFormed(root) && HasCanonicalText(root) && DocumentSafe(root)
      && BindVerdict(Some(DecodePairs(root.pairs, y.num)), CanonicalText(root), y) != Accepted
  {
    var p := Pair(Scalar(Str, "z"), Scalar(Float, ".nan"));
    var root := Mapping([p]);
    NaNLiteral();
    NaNDocument(p);
    hide Resolve, PlainShape, Emittable, WellFormed, HasCanonicalText, DocumentSafe, BindVerdict, CanonicalText, DecodePairs, Familiar, Body;
    OwnPackBinds(root, y);
    assert [p][0] in [p];
  }

  lemma NaNLiteral()
    ensures PlainShape(".nan") && Resolve(".nan") == Float && IsNaN(".nan") && !Odd(".nan")
  {
    hide Resolve;
    CanonResolver.NaNIsAFloat();
  }

  lemma NaNDocument(p: Pair)
    requires p == Pair(Scalar(Str, "z"), Scalar(Float, ".nan")) && PlainShape(".nan") && Resolve(".nan") == Float && !Odd(".nan")
    ensures var root := Mapping([p]);
      && Emittable(root) && WellFormed(root) && HasCanonicalText(root) && Body(root.pairs) == [p] && DocumentSafe(root)
  {
    NaNPair(p);
    hide Emittable, WellFormed, Canon, PrintsMarker, OddPair;
    CanonicalList([p]);
    hide HasCanonicalText, CanonBody, Body;
  }

  lemma NaNPair(p: Pair)
    requires p == Pair(Scalar(Str, "z"), Scalar(Float, ".nan")) && PlainShape(".nan") && Resolve(".nan") == Float && !Odd(".nan")
    ensures Emittable(p.val) && WellFormed(p.val) && Canon(p.val) == p.val && p.key.text != "signed"
    ensures !PrintsMarker(p.key.text) && !OddPair(p)
  {
    ShortWords();
    hide PlainShape, Resolve, EmitStringScalar;
    assert !Odd("z");
  }
}
