/** 256-bit proof-of-work targets: the byte loops of the node, refined to integer arithmetic. */
module Targets {
  import opened Bytes

  type Target = Hash32

  const SHARE_RATIO := 256
  const PREFILTER_RATIO := 65536
  const MAX_TARGET: nat := Pow256(32) - 1

  function Min(a: nat, b: nat): nat { if a <= b then a else b }

  /** Scanning from the most significant byte, the first difference decides; equality meets the target. */
  method IsMetBy(target: Target, hash: Hash32) returns (met: bool)
    ensures met <==> ValueBE(hash) <= ValueBE(target)
  {
    hide ValueBE;
    for i := 0 to 32
      invariant ValueBE(hash) <= ValueBE(target) <==> ValueBE(hash[i..]) <= ValueBE(target[i..])
    {
      CompareFrom(hash, target, i);
      if hash[i] < target[i] {
        return true;
      } else if hash[i] > target[i] {
        return false;
      }
    }
    return true;
  }

  lemma CompareFrom(s: seq<byte>, t: seq<byte>, i: nat)
    requires i < |s| == |t|
    ensures s[i] < t[i] ==> ValueBE(s[i..]) < ValueBE(t[i..])
    ensures s[i] > t[i] ==> ValueBE(s[i..]) > ValueBE(t[i..])
    ensures s[i] == t[i] ==> (ValueBE(s[i..]) <= ValueBE(t[i..]) <==> ValueBE(s[i + 1..]) <= ValueBE(t[i + 1..]))
  {
    assert s[i..][1..] == s[i + 1..] && t[i..][1..] == t[i + 1..];
    if s[i] < t[i] { HeadDecides(s[i..], t[i..]); } else if s[i] > t[i] { HeadDecides(t[i..], s[i..]); }
  }

  /** The prefilter scan: like IsMetBy, but only over the first eight bytes of the SHA-256 digest. */
  method Prefilter(digest: Hash32, target: Target) returns (pass: bool)
    ensures pass <==> ValueBE(digest[..8]) <= ValueBE(target[..8])
  {
    ghost var d, t := digest[..8], target[..8];
    for i := 0 to 8
      invariant ValueBE(d) <= ValueBE(t) <==> ValueBE(d[i..]) <= ValueBE(t[i..])
    {
      assert d[i..][1..] == d[i + 1..] && t[i..][1..] == t[i + 1..];
      if digest[i] < target[i] {
        HeadDecides(d[i..], t[i..]);
        return true;
      } else if digest[i] > target[i] {
        HeadDecides(t[i..], d[i..]);
        return false;
      }
    }
    return true;
  }

  lemma QuotientOrder(a: nat, b: nat, p: nat)
    requires p > 0 && a <= b
    ensures a / p <= b / p
  {
    if b / p < a / p {
      MulMonotone(b / p + 1, a / p, p);
      Distribute(b / p, 1, p);
    }
  }

  lemma QuotientUnique(q: nat, r: nat, p: nat)
    requires r < p
    ensures (q * p + r) / p == q
  {
    var n := q * p + r;
    assert n == (n / p) * p + n % p;
    if n / p < q {
      MulMonotone(n / p + 1, q, p);
      Distribute(n / p, 1, p);
    } else if q < n / p {
      MulMonotone(q + 1, n / p, p);
      Distribute(q, 1, p);
    }
  }

  lemma TruncatedComparison(s: seq<byte>, t: seq<byte>, k: nat)
    requires |s| == |t| && k <= |s|
    ensures ValueBE(s[..k]) == ValueBE(s) / Pow256(|s| - k)
    ensures ValueBE(t[..k]) == ValueBE(t) / Pow256(|s| - k)
    ensures ValueBE(s) <= ValueBE(t) ==> ValueBE(s[..k]) <= ValueBE(t[..k])
  {
    var p := Pow256(|s| - k);
    ValueSplit(s, k);
    ValueSplit(t, k);
    QuotientUnique(ValueBE(s[..k]), ValueBE(s[k..]), p);
    QuotientUnique(ValueBE(t[..k]), ValueBE(t[k..]), p);
    if ValueBE(s) <= ValueBE(t) {
      QuotientOrder(ValueBE(s), ValueBE(t), p);
    }
  }

  /** The prefilter compares exactly the two values truncated to their top 64 bits, so it never rejects
      a digest that is numerically at most the target. */
  lemma PrefilterIsTruncatedComparison(digest: Hash32, target: Target)
    ensures ValueBE(digest[..8]) <= ValueBE(target[..8])
       <==> ValueBE(digest) / Pow256(24) <= ValueBE(target) / Pow256(24)
    ensures ValueBE(digest) <= ValueBE(target) ==> ValueBE(digest[..8]) <= ValueBE(target[..8])
  {
    TruncatedComparison(digest, target, 8);
  }

  /** Digit-by-digit product, least significant byte first: the bytes written and the final carry. */
  function Multiply(t: seq<byte>, ratio: nat): (r: (seq<byte>, nat))
    requires ratio > 0
    ensures |r.0| == |t| && r.1 < ratio
  {
    if t == [] then ([], 0)
    else
      var (low, carry) := Multiply(t[1..], ratio);
      MulMonotone(t[0], 255, ratio);
      var val := t[0] * ratio + carry;
      ([val % 256] + low, val / 256)
  }

  lemma CarryArithmetic(digit: nat, ratio: nat, carry: nat, low: nat, p: nat, source: nat)
    requires low + carry * p == ratio * source
    ensures var val := digit * ratio + carry;
            (val % 256) * p + low + (val / 256) * (256 * p) == ratio * (digit * p + source)
  {
    var val := digit * ratio + carry;
    calc {
      (val % 256) * p + (val / 256) * (256 * p);
      { MulAssoc(val / 256, 256, p); Distribute((val / 256) * 256, val % 256, p); }
      val * p;
      { Distribute(digit * ratio, carry, p); }
      (digit * ratio) * p + carry * p;
      { assert digit * ratio == ratio * digit; MulAssoc(ratio, digit, p); }
      ratio * (digit * p) + carry * p;
    }
    Distribute(digit * p, source, ratio);
  }

  /** Schoolbook multiplication is multiplication. */
  lemma {:induction false} MultiplyIsProduct(t: seq<byte>, ratio: nat)
    requires ratio > 0
    ensures var (low, carry) := Multiply(t, ratio);
            ValueBE(low) + carry * Pow256(|t|) == ratio * ValueBE(t)
  {
    if t != [] {
      MultiplyIsProduct(t[1..], ratio);
      var (low, carry) := Multiply(t[1..], ratio);
      CarryArithmetic(t[0], ratio, carry, ValueBE(low), Pow256(|t| - 1), ValueBE(t[1..]));
      assert Multiply(t, ratio).0[1..] == low;
    }
  }

  lemma Saturates(t: seq<byte>, ratio: nat)
    requires ratio > 0
    ensures var (low, carry) := Multiply(t, ratio);
            if carry > 0 then ratio * ValueBE(t) >= Pow256(|t|) else ratio * ValueBE(t) == ValueBE(low)
  {
    MultiplyIsProduct(t, ratio);
    var carry := Multiply(t, ratio).1;
    if carry > 0 { MulMonotone(1, carry, Pow256(|t|)); }
  }

  /** The multiply-with-carry loop both target functions run, saturating to all ones on a final carry.
      `word` is the range of the accumulator type; every intermediate value fits in it. */
  method ScaleSaturating(t: Target, ratio: nat, word: nat) returns (scaled: Target)
    requires 0 < ratio && 256 * ratio <= word
    ensures ValueBE(scaled) == Min(ratio * ValueBE(t), MAX_TARGET)
  {
    hide ValueBE, Multiply;
    var bytes, carry := MultiplyBytes(t, ratio, word);
    Saturates(t, ratio);
    scaled := bytes;
    if carry > 0 {
      scaled := seq(32, _ => 255);
      ValueOfOnes(scaled);
    }
  }

  /** The bytes of the product, written from the last to the first, and the final carry. */
  method MultiplyBytes(t: Target, ratio: nat, word: nat) returns (bytes: Target, carry: nat)
    requires 0 < ratio && 256 * ratio <= word
    ensures bytes == Multiply(t, ratio).0 && carry == Multiply(t, ratio).1
  {
    var result := new byte[32](_ => 0);
    carry := 0;
    var i := 32;
    while i > 0
      invariant 0 <= i <= 32
      invariant result[i..] == Multiply(t[i..], ratio).0 && carry == Multiply(t[i..], ratio).1
    {
      i := i - 1;
      ghost var low := result[i + 1..];
      assert t[i..][1..] == t[i + 1..];
      MulMonotone(t[i], 255, ratio);
      var val := t[i] * ratio + carry;
      assert val < word;
      result[i], carry := val % 256, val / 256;
      assert result[i..] == [val % 256] + low;
    }
    assert result[0..] == result[..] && t[0..] == t;
    bytes := result[..];
  }

  method ShareTarget(t: Target) returns (share: Target)
    ensures ValueBE(share) == Min(256 * ValueBE(t), MAX_TARGET)
  {
    share := ScaleSaturating(t, SHARE_RATIO, 0x1_0000_0000);
  }

  method PrefilterTarget(t: Target) returns (prefilter: Target)
    ensures ValueBE(prefilter) == Min(65536 * Min(256 * ValueBE(t), MAX_TARGET), MAX_TARGET)
  {
    var share := ShareTarget(t);
    prefilter := ScaleSaturating(share, PREFILTER_RATIO, 0x1_0000_0000_0000_0000);
  }

  /** The difficulty levels are nested: a hash that meets the block target meets the share target and the
      prefilter target, and passes the prefilter's eight-byte scan, whatever byte strings the two
      functions above returned. */
  lemma NestedTargets(hash: Hash32, t: Target, share: Target, prefilter: Target)
    requires ValueBE(share) == Min(256 * ValueBE(t), MAX_TARGET)
    requires ValueBE(prefilter) == Min(65536 * ValueBE(share), MAX_TARGET)
    ensures ValueBE(hash) <= ValueBE(t) ==> ValueBE(hash) <= ValueBE(share)
    ensures ValueBE(hash) <= ValueBE(share) ==> ValueBE(hash) <= ValueBE(prefilter)
    ensures ValueBE(hash) <= ValueBE(prefilter) ==> ValueBE(hash[..8]) <= ValueBE(prefilter[..8])
  {
    TruncatedComparison(hash, prefilter, 8);
  }
}
