/** Bytes, machine words and the two byte orders of the node's encodings. */
module Bytes {
  type byte = n: int | 0 <= n < 256
  type u32 = n: int | 0 <= n < 0x1_0000_0000
  type u64 = n: int | 0 <= n < 0x1_0000_0000_0000_0000
  type Hash32 = s: seq<byte> | |s| == 32 witness seq(32, _ => 0)
  type MinerId = s: seq<byte> | |s| == 20 witness seq(20, _ => 0)

  function ZeroHash(): Hash32 { seq(32, _ => 0) }

  datatype Option<+T> = None | Some(value: T)

  function Pow256(k: nat): (p: nat)
    ensures p > 0
  {
    if k == 0 then 1 else 256 * Pow256(k - 1)
  }

  lemma {:induction false} Pow256Add(j: nat, k: nat)
    ensures Pow256(j + k) == Pow256(j) * Pow256(k)
  {
    if j > 0 {
      Pow256Add(j - 1, k);
      assert Pow256(j + k) == 256 * (Pow256(j - 1) * Pow256(k));
    }
  }

  lemma Pow256Values()
    ensures Pow256(4) == 0x1_0000_0000 && Pow256(8) == 0x1_0000_0000_0000_0000
  {
    assert Pow256(2) == 0x1_0000 && Pow256(3) == 0x100_0000;
    assert Pow256(5) == 0x100_0000_0000 && Pow256(6) == 0x1_0000_0000_0000 && Pow256(7) == 0x100_0000_0000_0000;
  }

  // ---------- little endian ----------

  function LE(n: nat, k: nat): (s: seq<byte>)
    ensures |s| == k
    decreases k
  {
    if k == 0 then [] else [n % 256] + LE(n / 256, k - 1)
  }

  function FromLE(s: seq<byte>): (n: nat)
    ensures n < Pow256(|s|)
  {
    if s == [] then 0 else s[0] + 256 * FromLE(s[1..])
  }

  lemma {:induction false} FromLEOfLE(n: nat, k: nat)
    requires n < Pow256(k)
    ensures FromLE(LE(n, k)) == n
    decreases k
  {
    if k > 0 {
      FromLEOfLE(n / 256, k - 1);
      assert LE(n, k)[1..] == LE(n / 256, k - 1);
    }
  }

  lemma {:induction false} LEOfFromLE(s: seq<byte>)
    ensures LE(FromLE(s), |s|) == s
  {
    if s != [] {
      LEOfFromLE(s[1..]);
      assert FromLE(s) % 256 == s[0] && FromLE(s) / 256 == FromLE(s[1..]);
    }
  }

  lemma LEInjective(m: nat, n: nat, k: nat)
    requires m < Pow256(k) && n < Pow256(k)
    requires LE(m, k) == LE(n, k)
    ensures m == n
  {
    FromLEOfLE(m, k);
    FromLEOfLE(n, k);
  }

  // ---------- big endian ----------

  lemma MulMonotone(a: nat, b: nat, p: nat)
    requires a <= b
    ensures a * p <= b * p
  {
    assert b * p == a * p + (b - a) * p;
  }

  lemma MulAssoc(a: int, b: int, c: int)
    ensures (a * b) * c == a * (b * c)
  {
  }

  lemma Distribute(a: int, b: int, c: int)
    ensures (a + b) * c == a * c + b * c
  {
  }

  function ValueBE(s: seq<byte>): (v: nat)
    ensures v < Pow256(|s|)
  {
    if s == [] then 0
    else
      MulMonotone(s[0], 255, Pow256(|s| - 1));
      s[0] * Pow256(|s| - 1) + ValueBE(s[1..])
  }

  /** The derived order on byte arrays: the first difference decides. */
  predicate LexLeq(s: seq<byte>, t: seq<byte>)
    requires |s| == |t|
  {
    s == [] || s[0] < t[0] || (s[0] == t[0] && LexLeq(s[1..], t[1..]))
  }

  lemma HeadDecides(s: seq<byte>, t: seq<byte>)
    requires |s| == |t| > 0 && s[0] < t[0]
    ensures ValueBE(s) < ValueBE(t)
  {
    var p := Pow256(|s| - 1);
    MulMonotone(s[0] + 1, t[0], p);
    Distribute(s[0], 1, p);
  }

  lemma {:induction false} LexIsNumeric(s: seq<byte>, t: seq<byte>)
    requires |s| == |t|
    ensures LexLeq(s, t) <==> ValueBE(s) <= ValueBE(t)
    ensures ValueBE(s) == ValueBE(t) ==> s == t
  {
    if s != [] {
      LexIsNumeric(s[1..], t[1..]);
      if s[0] < t[0] {
        HeadDecides(s, t);
      } else if t[0] < s[0] {
        HeadDecides(t, s);
      } else {
        assert s == [s[0]] + s[1..] && t == [t[0]] + t[1..];
      }
    } else {
      assert s == t == [];
    }
  }

  lemma {:induction false} ValueSplit(s: seq<byte>, k: nat)
    requires k <= |s|
    ensures ValueBE(s) == ValueBE(s[..k]) * Pow256(|s| - k) + ValueBE(s[k..])
  {
    if k == 0 {
      assert s[..0] == [] && s[0..] == s;
    } else {
      var p, q, v := Pow256(k - 1), Pow256(|s| - k), ValueBE(s[1..k]);
      ValueSplit(s[1..], k - 1);
      assert s[1..][..k - 1] == s[1..k] && s[1..][k - 1..] == s[k..];
      assert s[..k][1..] == s[1..k];
      Pow256Add(k - 1, |s| - k);
      assert ValueBE(s[..k]) == s[0] * p + v;
      Distribute(s[0] * p, v, q);
      MulAssoc(s[0], p, q);
    }
  }

  lemma {:induction false} ValueOfZeros(s: seq<byte>)
    requires forall i :: 0 <= i < |s| ==> s[i] == 0
    ensures ValueBE(s) == 0
  {
    if s != [] { ValueOfZeros(s[1..]); }
  }

  lemma {:induction false} ValueOfOnes(s: seq<byte>)
    requires forall i :: 0 <= i < |s| ==> s[i] == 255
    ensures ValueBE(s) == Pow256(|s|) - 1
  {
    if s != [] { ValueOfOnes(s[1..]); }
  }
}
