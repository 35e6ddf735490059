/** Ed25519 signing and verification (rulepack-schema/ed25519_verify.py; RFC 8032 sections
    5.1.5 to 5.1.7) over any commutative group: double-and-add, and the signature
    equation. The hash, the point codec and the curve are parameters. */
module Ed25519 {
  import opened Wrappers

  type Byte = b: nat | b < 256
  type Bytes = seq<Byte>

  // ---------------------------------------------------------------------------
  // Multiples in a commutative group
  // ---------------------------------------------------------------------------

  datatype Group<!P> = Group(add: (P, P) -> P, zero: P)

  ghost predicate Commutative<P(!new)>(g: Group<P>) {
    && (forall x, y :: g.add(x, y) == g.add(y, x))
    && (forall x, y, z :: g.add(g.add(x, y), z) == g.add(x, g.add(y, z)))
    && (forall x :: g.add(g.zero, x) == x)
  }

  /** n * x, by repeated addition. */
  function Mul<P>(g: Group<P>, n: nat, x: P): P {
    if n == 0 then g.zero else g.add(x, Mul(g, n - 1, x))
  }

  lemma {:induction false} MulAdd<P(!new)>(g: Group<P>, m: nat, n: nat, x: P)
    requires Commutative(g)
    ensures Mul(g, m + n, x) == g.add(Mul(g, m, x), Mul(g, n, x))
  {
    Laws(g, x, if m == 0 then x else Mul(g, m - 1, x), Mul(g, n, x));
    hide Commutative;
    if m > 0 { MulAdd(g, m - 1, n, x); }
  }

  lemma Laws<P(!new)>(g: Group<P>, x: P, y: P, z: P)
    requires Commutative(g)
    ensures g.add(x, y) == g.add(y, x) && g.add(g.add(x, y), z) == g.add(x, g.add(y, z)) && g.add(g.zero, z) == z
  {
  }

  lemma {:induction false} MulMul<P(!new)>(g: Group<P>, m: nat, n: nat, x: P)
    requires Commutative(g)
    ensures Mul(g, m, Mul(g, n, x)) == Mul(g, m * n, x)
  {
    hide Commutative;
    if m > 0 {
      MulMul(g, m - 1, n, x);
      MulAdd(g, n, (m - 1) * n, x);
      assert n + (m - 1) * n == m * n;
    }
  }

  lemma AddZero<P(!new)>(g: Group<P>, x: P)
    requires Commutative(g)
    ensures g.add(x, g.zero) == x && Mul(g, 1, x) == x
  {
    assert g.add(x, g.zero) == g.add(g.zero, x);
  }

  lemma MulDouble<P(!new)>(g: Group<P>, n: nat, x: P)
    requires Commutative(g)
    ensures Mul(g, n, g.add(x, x)) == Mul(g, 2 * n, x)
  {
    hide Commutative;
    AddZero(g, x);
    MulAdd(g, 1, 1, x);
    MulMul(g, n, 2, x);
  }

  lemma {:induction false} MulZero<P(!new)>(g: Group<P>, n: nat)
    requires Commutative(g)
    ensures Mul(g, n, g.zero) == g.zero
  {
    if n > 0 { MulZero(g, n - 1); }
  }

  /** Double-and-add computes e * P. */
  method ScalarMult<P(!new)>(g: Group<P>, p0: P, e0: nat) returns (q: P)
    requires Commutative(g)
    ensures q == Mul(g, e0, p0)
  {
    q := g.zero;
    var p, e := p0, e0;
    while e > 0
      invariant g.add(q, Mul(g, e, p)) == Mul(g, e0, p0)
    {
      ghost var half, p1, q1 := e / 2, p, q;
      MulDouble(g, half, p);
      if e % 2 == 1 {
        q := g.add(q, p);
        assert g.add(q1, g.add(p, Mul(g, 2 * half, p))) == g.add(g.add(q1, p), Mul(g, 2 * half, p));
      }
      p := g.add(p, p);
      e := e / 2;
      assert g.add(q, Mul(g, e, p)) == Mul(g, e0, p0);
    }
    assert g.add(q, g.zero) == g.add(g.zero, q) == q;
  }

  // ---------------------------------------------------------------------------
  // Little-endian integers
  // ---------------------------------------------------------------------------

  function FromLE(s: Bytes): nat { if s == [] then 0 else s[0] + 256 * FromLE(s[1..]) }

  function ToLE(n: nat, len: nat): (r: Bytes)
    ensures |r| == len
  {
    if len == 0 then [] else [n % 256] + ToLE(n / 256, len - 1)
  }

  function Pow256(n: nat): nat { if n == 0 then 1 else 256 * Pow256(n - 1) }

  lemma {:induction false} LERoundTrip(n: nat, len: nat)
    requires n < Pow256(len)
    ensures FromLE(ToLE(n, len)) == n
  {
    if len > 0 {
      LERoundTrip(n / 256, len - 1);
      assert ToLE(n, len)[1..] == ToLE(n / 256, len - 1);
    }
  }

  lemma {:induction false} FromLEInjective(s: Bytes, t: Bytes)
    requires |s| == |t| && FromLE(s) == FromLE(t)
    ensures s == t
  {
    if s != [] {
      assert s[0] == FromLE(s) % 256 && t[0] == FromLE(t) % 256;
      FromLEInjective(s[1..], t[1..]);
      assert s == [s[0]] + s[1..] && t == [t[0]] + t[1..];
    }
  }

  /** The last byte is the most significant one, and byte i stands for 256^i. */
  lemma {:induction false} LastIsHighest(s: Bytes, b: Byte)
    ensures FromLE(s + [b]) == FromLE(s) + b * Pow256(|s|)
  {
    if s == [] {
      assert [b][1..] == [];
    } else {
      LastIsHighest(s[1..], b);
      assert (s + [b])[1..] == s[1..] + [b];
      PowStep(b, |s|);
    }
  }

  lemma PowStep(b: nat, n: nat)
    requires n > 0
    ensures b * Pow256(n) == 256 * (b * Pow256(n - 1))
  {
  }

  // ---------------------------------------------------------------------------
  // The scheme
  // ---------------------------------------------------------------------------

  /** The group order of the base point: 2^252 + 27742317777372353535851937790883648493. */
  const ORDER: nat := 0x1000_0000_0000_0000_0000_0000_0000_0000_14de_f9de_a2f7_9cd6_5812_631a_5cf5_d3ed

  const TWO254: nat := 0x4000_0000_0000_0000_0000_0000_0000_0000_0000_0000_0000_0000_0000_0000_0000_0000

  lemma OrderIs()
    ensures ORDER == TWO254 / 4 + 27742317777372353535851937790883648493 && 4 * TWO254 == Pow256(32)
  {
    assert Pow256(4) == 0x1_0000_0000 by { assert Pow256(2) == 0x1_0000; }
    assert Pow256(8) == 0x1_0000_0000 * 0x1_0000_0000 by { PowAdd(4, 4); }
    assert Pow256(32) == Pow256(8) * Pow256(8) * (Pow256(8) * Pow256(8)) by { hide Pow256; PowAdd(8, 8); PowAdd(16, 16); }
  }

  datatype Scheme<!P> = Scheme(
    g: Group<P>, base: P,
    encode: P -> Bytes, decode: Bytes -> Option<P>,
    sha512: Bytes -> Bytes)

  /** What the parameters are: a commutative group in which ORDER * base is zero, a codec
      that undoes itself on the multiples of the base, 64-byte digests. */
  ghost predicate Valid<P(!new)>(s: Scheme<P>) {
    && Commutative(s.g)
    && Mul(s.g, ORDER, s.base) == s.g.zero
    && (forall m :: |s.sha512(m)| == 64)
    && (forall n: nat :: var p := Mul(s.g, n, s.base); |s.encode(p)| == 32 && s.decode(s.encode(p)) == Some(p))
  }

  function Hint<P>(s: Scheme<P>, m: Bytes): nat { FromLE(s.sha512(m)) }

  /** The challenge k. */
  function Challenge<P>(s: Scheme<P>, rEnc: Bytes, pub: Bytes, msg: Bytes): nat {
    Hint(s, rEnc + pub + msg) % ORDER
  }

  /** The response S. */
  function Response(r: nat, k: nat, a: nat): (n: nat)
    ensures n < ORDER
  {
    (r + k * a) % ORDER
  }

  /** The secret scalar: a multiple of the cofactor 8 with the top bit set (RFC 8032, section
      5.1.5). */
  function Clamp(a: nat): nat {
    a % TWO254 - a % TWO254 % 8 + TWO254
  }

  lemma ClampShape(a: nat)
    ensures Clamp(a) % 8 == 0 && TWO254 <= Clamp(a) < 2 * TWO254
  {
    var r := a % TWO254;
    assert r == 8 * (r / 8) + r % 8 && TWO254 == 8 * (TWO254 / 8);
  }

  function Secret<P>(s: Scheme<P>, seed: Bytes): nat
    requires |s.sha512(seed)| == 64
  {
    Clamp(FromLE(s.sha512(seed)[..32]))
  }

  function PublicKey<P>(s: Scheme<P>, seed: Bytes): Option<Bytes>
    requires |s.sha512(seed)| == 64
  {
    if |seed| != 32 then None else Some(s.encode(Mul(s.g, Secret(s, seed), s.base)))
  }

  function Sign<P>(s: Scheme<P>, seed: Bytes, msg: Bytes): Option<Bytes>
    requires |s.sha512(seed)| == 64
  {
    var pub := PublicKey(s, seed);
    if pub.None? then None
    else
      var a, prefix := Secret(s, seed), s.sha512(seed)[32..];
      var r := Hint(s, prefix + msg) % ORDER;
      var rEnc := s.encode(Mul(s.g, r, s.base));
      var k := Challenge(s, rEnc, pub.value, msg);
      Some(rEnc + ToLE(Response(r, k, a), 32))
  }

  predicate VerifyPure<P>(s: Scheme<P>, sig: Bytes, msg: Bytes, pubkey: Bytes) {
    if |sig| != 64 || |pubkey| != 32 then false
    else
      var a, r := s.decode(pubkey), s.decode(sig[..32]);
      if a.None? || r.None? then false
      else
        var sInt := FromLE(sig[32..]);
        if sInt >= ORDER then false
        else
          var k := Challenge(s, sig[..32], pubkey, msg);
          s.encode(Mul(s.g, sInt, s.base)) == s.encode(s.g.add(r.value, Mul(s.g, k, a.value)))
  }

  // ---------------------------------------------------------------------------
  // Every signature made verifies
  // ---------------------------------------------------------------------------

  /** Scalars act modulo the order. */
  lemma ScalarMod<P(!new)>(s: Scheme<P>, n: nat)
    requires Valid(s)
    ensures Mul(s.g, n % ORDER, s.base) == Mul(s.g, n, s.base)
  {
    hide Commutative, Mul;
    var q, r := n / ORDER, n % ORDER;
    assert n == r + q * ORDER;
    MulAdd(s.g, r, q * ORDER, s.base);
    MulMul(s.g, q, ORDER, s.base);
    MulZero(s.g, q);
    AddZero(s.g, Mul(s.g, r, s.base));
  }

  /** [S]B = R + [k]A for the response S. */
  lemma SignatureEquation<P(!new)>(s: Scheme<P>, r: nat, k: nat, a: nat)
    requires Valid(s)
    ensures Mul(s.g, Response(r, k, a), s.base) == s.g.add(Mul(s.g, r, s.base), Mul(s.g, k, Mul(s.g, a, s.base)))
  {
    hide Commutative, Mul;
    ScalarMod(s, r + k * a);
    MulAdd(s.g, r, k * a, s.base);
    MulMul(s.g, k, a, s.base);
  }

  lemma OrderFits()
    ensures ORDER < Pow256(32)
  {
    assert Pow256(4) == 0x1_0000_0000 by { assert Pow256(2) == 0x1_0000; }
    assert Pow256(8) == 0x1_0000_0000 * 0x1_0000_0000 by { PowAdd(4, 4); }
    assert Pow256(32) == Pow256(8) * Pow256(8) * (Pow256(8) * Pow256(8)) by { hide Pow256; PowAdd(8, 8); PowAdd(16, 16); }
  }

  lemma {:induction false} PowAdd(m: nat, n: nat)
    ensures Pow256(m + n) == Pow256(m) * Pow256(n)
  {
    if m > 0 { PowAdd(m - 1, n); }
  }

  /** For every 32-byte seed and every message, the signature made is accepted. */
  lemma SignThenVerify<P(!new)>(s: Scheme<P>, seed: Bytes, msg: Bytes)
    requires Valid(s) && |seed| == 32
    ensures |s.sha512(seed)| == 64 && Sign(s, seed, msg).Some? && PublicKey(s, seed).Some?
    ensures VerifyPure(s, Sign(s, seed, msg).value, msg, PublicKey(s, seed).value)
  {
    hide Mul, Clamp, FromLE, ToLE, Pow256, Challenge, Response;
    var a, pub := Secret(s, seed), PublicKey(s, seed).value;
    var r := Hint(s, s.sha512(seed)[32..] + msg) % ORDER;
    var rPoint, aPoint := Mul(s.g, r, s.base), Mul(s.g, a, s.base);
    var rEnc := s.encode(rPoint);
    var k := Challenge(s, rEnc, pub, msg);
    var sInt := Response(r, k, a);
    var sig := Sign(s, seed, msg).value;
    assert sig == rEnc + ToLE(sInt, 32);
    assert sig[..32] == rEnc && sig[32..] == ToLE(sInt, 32);
    OrderFits();
    LERoundTrip(sInt, 32);
    SignatureEquation(s, r, k, a);
  }

  // ---------------------------------------------------------------------------
  // No second S for the same message, key and R
  // ---------------------------------------------------------------------------

  /** The base point has exactly the order. */
  ghost predicate ExactOrder<P>(s: Scheme<P>) {
    forall n: nat :: 0 < n < ORDER ==> Mul(s.g, n, s.base) != s.g.zero
  }

  lemma DistinctMultiples<P(!new)>(s: Scheme<P>, m: nat, n: nat)
    requires Valid(s) && ExactOrder(s) && m < n < ORDER
    ensures Mul(s.g, m, s.base) != Mul(s.g, n, s.base)
  {
    hide Commutative, Mul;
    MulAdd(s.g, m, ORDER - m, s.base);
    MulAdd(s.g, n, ORDER - m, s.base);
    assert n + (ORDER - m) == (n - m) + ORDER;
    MulAdd(s.g, n - m, ORDER, s.base);
    AddZero(s.g, Mul(s.g, n - m, s.base));
  }

  /** Two accepted signatures of one message under one key that share R are equal: S is
      bounded by the order, so it cannot be shifted. */
  lemma SignatureIsUnique<P(!new)>(s: Scheme<P>, sig: Bytes, sig': Bytes, msg: Bytes, pubkey: Bytes)
    requires Valid(s) && ExactOrder(s)
    requires VerifyPure(s, sig, msg, pubkey) && VerifyPure(s, sig', msg, pubkey)
    requires sig[..32] == sig'[..32]
    ensures sig == sig'
  {
    hide Mul, FromLE;
    var m, n := FromLE(sig[32..]), FromLE(sig'[32..]);
    assert s.encode(Mul(s.g, m, s.base)) == s.encode(Mul(s.g, n, s.base));
    assert Mul(s.g, m, s.base) == Mul(s.g, n, s.base);
    if m < n { DistinctMultiples(s, m, n); }
    if n < m { DistinctMultiples(s, n, m); }
    FromLEInjective(sig[32..], sig'[32..]);
    assert sig == sig[..32] + sig[32..] && sig' == sig'[..32] + sig'[32..];
  }

  lemma EncodingsSeparate<P(!new)>(s: Scheme<P>, m: nat, n: nat)
    requires Valid(s) && ExactOrder(s) && n < ORDER
    ensures m < ORDER && s.encode(Mul(s.g, m, s.base)) == s.encode(Mul(s.g, n, s.base)) <==> m == n
  {
    hide Commutative, Mul, ExactOrder;
    var left, right := Mul(s.g, m, s.base), Mul(s.g, n, s.base);
    assert s.encode(left) == s.encode(right) ==> left == right by {
      assert s.decode(s.encode(left)) == Some(left) && s.decode(s.encode(right)) == Some(right);
    }
    if m < n { DistinctMultiples(s, m, n); }
    if n < m < ORDER { DistinctMultiples(s, n, m); }
  }

  lemma AcceptedResponse<P(!new)>(s: Scheme<P>, a: nat, r: nat, half: Bytes, msg: Bytes)
    requires Valid(s) && ExactOrder(s) && |half| == 32
    ensures var pub, rEnc := s.encode(Mul(s.g, a, s.base)), s.encode(Mul(s.g, r, s.base));
            VerifyPure(s, rEnc + half, msg, pub) <==> FromLE(half) == Response(r, Challenge(s, rEnc, pub, msg), a)
  {
    hide Commutative, Mul, FromLE, Challenge, Response, ExactOrder;
    var pub, rEnc := s.encode(Mul(s.g, a, s.base)), s.encode(Mul(s.g, r, s.base));
    var k := Challenge(s, rEnc, pub, msg);
    assert (rEnc + half)[..32] == rEnc && (rEnc + half)[32..] == half;
    SignatureEquation(s, r, k, a);
    EncodingsSeparate(s, FromLE(half), Response(r, k, a));
  }

  /** Under an honest key (secret scalar a) and an honest R = r * base, exactly one value
      of S is accepted: r plus a times the hash of R, key and message. */
  lemma AcceptedExactly<P(!new)>(s: Scheme<P>, a: nat, r: nat, half: Bytes, msg: Bytes)
    requires Valid(s) && ExactOrder(s) && |half| == 32
    ensures var pub, rEnc := s.encode(Mul(s.g, a, s.base)), s.encode(Mul(s.g, r, s.base));
            VerifyPure(s, rEnc + half, msg, pub) <==>
              FromLE(half) == (r + (FromLE(s.sha512(rEnc + pub + msg)) % ORDER) * a) % ORDER
  {
    hide *;
    var pub, rEnc := s.encode(Mul(s.g, a, s.base)), s.encode(Mul(s.g, r, s.base));
    WrittenOut(s, r, a, rEnc, pub, msg);
    AcceptedOnly(s, a, r, half, msg, (r + (FromLE(s.sha512(rEnc + pub + msg)) % ORDER) * a) % ORDER);
  }

  lemma AcceptedOnly<P(!new)>(s: Scheme<P>, a: nat, r: nat, half: Bytes, msg: Bytes, n: nat)
    requires Valid(s) && ExactOrder(s) && |half| == 32
    requires n == Response(r, Challenge(s, s.encode(Mul(s.g, r, s.base)), s.encode(Mul(s.g, a, s.base)), msg), a)
    ensures VerifyPure(s, s.encode(Mul(s.g, r, s.base)) + half, msg, s.encode(Mul(s.g, a, s.base))) <==> FromLE(half) == n
  {
    hide *;
    AcceptedResponse(s, a, r, half, msg);
  }

  lemma WrittenOut<P>(s: Scheme<P>, r: nat, a: nat, rEnc: Bytes, pub: Bytes, msg: Bytes)
    ensures Response(r, Challenge(s, rEnc, pub, msg), a) == (r + (FromLE(s.sha512(rEnc + pub + msg)) % ORDER) * a) % ORDER
  {
    hide FromLE;
  }

  /** What is never accepted: wrong lengths, an S from the order on, points that do not
      decode. */
  lemma AcceptedShape<P>(s: Scheme<P>, sig: Bytes, msg: Bytes, pubkey: Bytes)
    requires VerifyPure(s, sig, msg, pubkey)
    ensures |sig| == 64 && |pubkey| == 32 && FromLE(sig[32..]) < ORDER
    ensures s.decode(sig[..32]).Some? && s.decode(pubkey).Some?
  {
  }

  /** What signing hashes and computes: the two halves of the seed's digest, the secret from
      the first (its low three bits cleared, bit 254 set, the bits between kept), the nonce
      from the second and the message, and S from the nonce, the secret and the hash of R,
      key and message. */
  lemma SignExactly<P(!new)>(s: Scheme<P>, seed: Bytes, msg: Bytes)
    requires Valid(s)
    ensures |s.sha512(seed)| == 64 && (Sign(s, seed, msg).Some? <==> |seed| == 32) && (PublicKey(s, seed).Some? <==> |seed| == 32)
    ensures |seed| == 32 ==>
      var a, r := Secret(s, seed), FromLE(s.sha512(s.sha512(seed)[32..] + msg)) % ORDER;
      var pub, rEnc, sig := s.encode(Mul(s.g, a, s.base)), s.encode(Mul(s.g, r, s.base)), Sign(s, seed, msg).value;
      && a % 8 == 0 && TWO254 <= a < 2 * TWO254 && (a - TWO254) / 8 == FromLE(s.sha512(seed)[..32]) % TWO254 / 8
      && PublicKey(s, seed).value == pub
      && |sig| == 64 && sig[..32] == rEnc
      && FromLE(sig[32..]) == (r + (FromLE(s.sha512(rEnc + pub + msg)) % ORDER) * a) % ORDER
  {
    if |seed| == 32 {
      var h := FromLE(s.sha512(seed)[..32]);
      ClampShape(h);
      ClampKeeps(h);
      hide Commutative, Mul, FromLE, ToLE, Pow256, Clamp, Response, Challenge, Hint;
      var a, r := Secret(s, seed), Hint(s, s.sha512(seed)[32..] + msg) % ORDER;
      var rEnc := s.encode(Mul(s.g, r, s.base));
      SignedParts(s, seed, msg);
      WrittenOut(s, r, a, rEnc, PublicKey(s, seed).value, msg);
      hide Sign, Secret, PublicKey;
    }
  }

  lemma SignedParts<P(!new)>(s: Scheme<P>, seed: Bytes, msg: Bytes)
    requires Valid(s) && |seed| == 32
    ensures |s.sha512(seed)| == 64 && Sign(s, seed, msg).Some? && PublicKey(s, seed).Some?
    ensures var a, r := Secret(s, seed), Hint(s, s.sha512(seed)[32..] + msg) % ORDER;
      var rEnc, sig := s.encode(Mul(s.g, r, s.base)), Sign(s, seed, msg).value;
      && |sig| == 64 && sig[..32] == rEnc
      && FromLE(sig[32..]) == Response(r, Challenge(s, rEnc, PublicKey(s, seed).value, msg), a)
  {
    hide Commutative, Mul, FromLE, ToLE, Pow256, Clamp, Response, Challenge;
    var a, r := Secret(s, seed), Hint(s, s.sha512(seed)[32..] + msg) % ORDER;
    var rEnc := s.encode(Mul(s.g, r, s.base));
    var sInt := Response(r, Challenge(s, rEnc, PublicKey(s, seed).value, msg), a);
    assert Sign(s, seed, msg).value == rEnc + ToLE(sInt, 32);
    OrderFits();
    LERoundTrip(sInt, 32);
  }

  lemma ClampKeeps(n: nat)
    ensures (Clamp(n) - TWO254) / 8 == n % TWO254 / 8
  {
    var r := n % TWO254;
    assert r - r % 8 == 8 * (r / 8);
  }

  lemma BoundByResponse<P(!new)>(s: Scheme<P>, seed: Bytes, msg: Bytes, other: Bytes) returns (r: nat)
    requires Valid(s) && ExactOrder(s) && |seed| == 32
    ensures |s.sha512(seed)| == 64 && Sign(s, seed, msg).Some? && PublicKey(s, seed).Some?
    ensures var a, sig, pub := Secret(s, seed), Sign(s, seed, msg).value, PublicKey(s, seed).value;
      |sig| == 64 && (VerifyPure(s, sig, other, pub) <==>
        Response(r, Challenge(s, sig[..32], pub, other), a) == Response(r, Challenge(s, sig[..32], pub, msg), a))
  {
    SignThenVerify(s, seed, msg);
    hide Mul, Clamp, FromLE, ToLE, Commutative, ExactOrder, Challenge, Response, Pow256;
    var a, pub := Secret(s, seed), PublicKey(s, seed).value;
    r := Hint(s, s.sha512(seed)[32..] + msg) % ORDER;
    var rEnc, sig := s.encode(Mul(s.g, r, s.base)), Sign(s, seed, msg).value;
    assert |sig| == 64 && sig[..32] == rEnc && sig == rEnc + sig[32..];
    hide VerifyPure, Sign, PublicKey, Secret, Hint;
    AcceptedResponse(s, a, r, sig[32..], msg);
    AcceptedResponse(s, a, r, sig[32..], other);
  }

  /** A signature is bound to its message: it is accepted for another one exactly if the two
      hashes give one multiple of the secret, modulo the order. */
  lemma BoundToMessage<P(!new)>(s: Scheme<P>, seed: Bytes, msg: Bytes, other: Bytes)
    requires Valid(s) && ExactOrder(s) && |seed| == 32
    ensures |s.sha512(seed)| == 64 && Sign(s, seed, msg).Some? && PublicKey(s, seed).Some?
    ensures var a, sig, pub := Secret(s, seed), Sign(s, seed, msg).value, PublicKey(s, seed).value;
      |sig| == 64 &&
      (VerifyPure(s, sig, other, pub) <==>
        (FromLE(s.sha512(sig[..32] + pub + other)) % ORDER) * a % ORDER == (FromLE(s.sha512(sig[..32] + pub + msg)) % ORDER) * a % ORDER)
  {
    var r := BoundByResponse(s, seed, msg, other);
    hide Valid, ExactOrder, Mul, FromLE, Sign, Secret, PublicKey, VerifyPure, Response;
    var a, sig, pub := Secret(s, seed), Sign(s, seed, msg).value, PublicKey(s, seed).value;
    SameResponse(r, Challenge(s, sig[..32], pub, other), Challenge(s, sig[..32], pub, msg), a);
  }

  lemma SameResponse(r: nat, k: nat, k': nat, a: nat)
    ensures Response(r, k, a) == Response(r, k', a) <==> k * a % ORDER == k' * a % ORDER
  {
    SameModulo(r, k * a, k' * a);
  }

  lemma SameModulo(r: nat, x: nat, y: nat)
    ensures (r + x) % ORDER == (r + y) % ORDER <==> x % ORDER == y % ORDER
  {
  }
}
