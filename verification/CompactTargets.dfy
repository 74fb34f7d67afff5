/** The four-byte compact form of a target: one exponent byte and the three leading significant bytes. */
module CompactTargets {
  import opened Bytes
  import opened Targets

  /** Index of the first non-zero byte; the length when there is none. */
  function FirstNonZero(t: seq<byte>): (k: nat)
    ensures k <= |t|
    ensures forall i :: 0 <= i < k ==> t[i] == 0
    ensures k < |t| ==> t[k] != 0
  {
    if t == [] || t[0] != 0 then 0 else 1 + FirstNonZero(t[1..])
  }

  lemma {:induction false} FirstNonZeroIs(t: seq<byte>, k: nat)
    requires k < |t| && t[k] != 0 && forall i :: 0 <= i < k ==> t[i] == 0
    ensures FirstNonZero(t) == k
  {
    var f := FirstNonZero(t);
    assert f >= k;
    assert f <= k;
  }

  /** Three bytes as one 24-bit number, most significant first. */
  function Three(a: int, b: int, c: int): int { a * 0x1_0000 + b * 0x100 + c }

  lemma ThreeDigits(a: byte, b: byte, c: byte)
    ensures 0 <= Three(a, b, c) < 0x100_0000 && (a > 0 ==> Three(a, b, c) >= 0x1_0000)
    ensures Three(a, b, c) / 0x1_0000 == a
    ensures Three(a, b, c) / 0x100 % 0x100 == b
    ensures Three(a, b, c) % 0x100 == c
  {
    TopDigit(a, b * 0x100 + c);
    LowDigit(a * 0x100 + b, c);
    LowDigit(a, b);
  }

  lemma TopDigit(a: int, low: int)
    requires 0 <= low < 0x1_0000
    ensures (a * 0x1_0000 + low) / 0x1_0000 == a
  {
  }

  lemma LowDigit(a: int, low: int)
    requires 0 <= low < 0x100
    ensures (a * 0x100 + low) / 0x100 == a && (a * 0x100 + low) % 0x100 == low
  {
  }

  lemma ThreeIsValue(s: seq<byte>)
    requires |s| == 3
    ensures ValueBE(s) == Three(s[0], s[1], s[2])
  {
    assert s[1..][1..] == [s[2]] && ValueBE([s[2]]) == s[2];
    assert Pow256(1) == 256 && Pow256(2) == 0x1_0000;
  }

  /** None when the three significant bytes run past the end of the array, where the scan aborts. */
  function CompactWord(t: Target): Option<u32> {
    var size := FirstNonZero(t);
    if size == 32 then Some(0)
    else if size >= 30 then None
    else
      ThreeDigits(t[size], t[size + 1], t[size + 2]);
      Some((32 - size) * 0x100_0000 + Three(t[size], t[size + 1], t[size + 2]))
  }

  method Compact(t: Target) returns (word: Option<u32>)
    ensures word == CompactWord(t)
  {
    var size := 32;
    for i := 0 to 32
      invariant size == 32 && forall j :: 0 <= j < i ==> t[j] == 0
    {
      if t[i] != 0 {
        FirstNonZeroIs(t, i);
        size := i;
        break;
      }
    }
    if size == 32 {
      return Some(0);
    } else if size + 2 >= 32 {
      return None;
    }
    var exponent := 32 - size;
    var mantissa := Three(t[size], t[size + 1], t[size + 2]);
    ThreeDigits(t[size], t[size + 1], t[size + 2]);
    return Some(exponent * 0x100_0000 + mantissa);
  }

  /** The target an exponent and a mantissa stand for: three bytes at the place the exponent says. An
      exponent up to three puts them one place higher than a larger exponent would; one above 32 gives zero. */
  function Place(exponent: nat, m: nat): Target
    requires m < 0x100_0000
  {
    if exponent <= 3 then
      seq(32, i requires 0 <= i < 32 =>
        if i == 31 - exponent then m / 0x1_0000
        else if exponent > 1 && i == 32 - exponent then m / 0x100 % 0x100
        else if exponent > 2 && i == 33 - exponent then m % 0x100
        else 0)
    else if exponent > 32 then ZeroHash()
    else
      seq(32, i requires 0 <= i < 32 =>
        if i == 32 - exponent then m / 0x1_0000
        else if i == 33 - exponent then m / 0x100 % 0x100
        else if i == 34 - exponent then m % 0x100
        else 0)
  }

  function Expand(word: u32): Target {
    Place(word / 0x100_0000, word % 0x100_0000)
  }

  method FromCompact(word: u32) returns (t: Target)
    ensures t == Expand(word)
  {
    var exponent, mantissa := word / 0x100_0000, word % 0x100_0000;
    var bytes := new byte[32](_ => 0);
    if exponent <= 3 {
      bytes[31 - exponent] := mantissa / 0x1_0000;
      if exponent > 1 {
        bytes[32 - exponent] := mantissa / 0x100 % 0x100;
      }
      if exponent > 2 {
        bytes[33 - exponent] := mantissa % 0x100;
      }
    } else {
      // An unsigned subtraction: past 32 it wraps to an index beyond the array.
      var pos := if exponent <= 32 then 32 - exponent else 0x1_0000_0000_0000_0000 + 32 - exponent;
      if pos < 32 {
        bytes[pos] := mantissa / 0x1_0000;
        if pos + 1 < 32 {
          bytes[pos + 1] := mantissa / 0x100 % 0x100;
        }
        if pos + 2 < 32 {
          bytes[pos + 2] := mantissa % 0x100;
        }
      }
    }
    assert forall i :: 0 <= i < 32 ==> bytes[i] == Place(exponent, mantissa)[i];
    t := bytes[..];
  }

  lemma {:induction false} LeadingZeros(t: seq<byte>, k: nat)
    requires k <= |t| && forall i :: 0 <= i < k ==> t[i] == 0
    ensures ValueBE(t) == ValueBE(t[k..])
  {
    ValueSplit(t, k);
    ValueOfZeros(t[..k]);
  }

  function Mantissa(t: Target, size: nat): int
    requires size < 30
  {
    Three(t[size], t[size + 1], t[size + 2])
  }

  lemma Decoded(t: Target)
    requires FirstNonZero(t) < 30
    ensures var k := FirstNonZero(t);
      0x1_0000 <= Mantissa(t, k) < 0x100_0000 && Expand(CompactWord(t).value) == Place(32 - k, Mantissa(t, k))
  {
    var k := FirstNonZero(t);
    ThreeDigits(t[k], t[k + 1], t[k + 2]);
    var word := CompactWord(t).value;
    assert word / 0x100_0000 == 32 - k && word % 0x100_0000 == Mantissa(t, k);
  }

  /** The significant bytes are the value divided by the weight of the bytes below them. */
  lemma SignificantValue(t: Target, size: nat)
    requires size < 30 && forall i :: 0 <= i < size ==> t[i] == 0
    ensures ValueBE(t[..size + 3]) == Mantissa(t, size)
  {
    LeadingZeros(t[..size + 3], size);
    ThreeIsValue(t[..size + 3][size..]);
  }

  /** The result of the round trip keeps the three significant bytes and clears the rest. */
  lemma RoundTripBytes(t: Target)
    requires FirstNonZero(t) <= 28
    ensures var k, r := FirstNonZero(t), Expand(CompactWord(t).value);
            r[..k + 3] == t[..k + 3] && forall i :: k + 3 <= i < 32 ==> r[i] == 0
  {
    var k, r := FirstNonZero(t), Expand(CompactWord(t).value);
    Decoded(t);
    ThreeDigits(t[k], t[k + 1], t[k + 2]);
  }

  lemma LossBound(m: nat, p: nat, low: nat)
    requires m >= 0x1_0000 && low < p
    ensures 0x1_0000 * low < m * p
  {
    MulMonotone(0x1_0000, m, p);
  }

  /** For a target whose first non-zero byte is at index 28 or before, the round trip keeps the three
      significant bytes, never exceeds the target, loses less than one part in 65536 of what it returns,
      and compacts to the same word. */
  lemma RoundTrip(t: Target)
    requires FirstNonZero(t) <= 28
    ensures var k, r := FirstNonZero(t), Expand(CompactWord(t).value);
      && r[..k + 3] == t[..k + 3]
      && ValueBE(r) <= ValueBE(t)
      && 65536 * (ValueBE(t) - ValueBE(r)) < ValueBE(r)
      && CompactWord(r) == CompactWord(t)
  {
    var k, r := FirstNonZero(t), Expand(CompactWord(t).value);
    RoundTripBytes(t);
    Recompacts(t, r, k);
    RoundTripValue(t, r, k);
  }

  lemma Recompacts(t: Target, r: Target, k: nat)
    requires k == FirstNonZero(t) <= 28 && r[..k + 3] == t[..k + 3]
    ensures CompactWord(r) == CompactWord(t)
  {
    assert forall i :: 0 <= i < k + 3 ==> r[i] == r[..k + 3][i] == t[i];
    FirstNonZeroIs(r, k);
  }

  lemma RoundTripValue(t: Target, r: Target, k: nat)
    requires k == FirstNonZero(t) <= 28 && r[..k + 3] == t[..k + 3]
    requires forall i :: k + 3 <= i < 32 ==> r[i] == 0
    ensures ValueBE(r) <= ValueBE(t) && 65536 * (ValueBE(t) - ValueBE(r)) < ValueBE(r)
  {
    SignificantValue(t, k);
    MantissaLarge(t, k);
    hide ValueBE, Pow256, FirstNonZero, Mantissa;
    CutOff(t, r, k + 3);
    LossBound(Mantissa(t, k), Pow256(29 - k), ValueBE(t[k + 3..]));
  }

  lemma MantissaLarge(t: Target, k: nat)
    requires k == FirstNonZero(t) <= 28
    ensures Mantissa(t, k) >= 0x1_0000
  {
    ThreeDigits(t[k], t[k + 1], t[k + 2]);
  }

  /** Clearing the low bytes takes exactly their value away. */
  lemma CutOff(t: seq<byte>, r: seq<byte>, k: nat)
    requires |r| == |t| && k <= |t| && r[..k] == t[..k]
    requires forall i :: k <= i < |r| ==> r[i] == 0
    ensures ValueBE(r) == ValueBE(t[..k]) * Pow256(|t| - k)
    ensures ValueBE(t) == ValueBE(r) + ValueBE(t[k..])
  {
    hide ValueBE, Pow256;
    ValueSplit(t, k);
    ValueSplit(r, k);
    ValueOfZeros(r[k..]);
  }

  /** At index 29 the exponent is three, and the recovered target is 256 times too large. */
  lemma RoundTripShiftsAt29(t: Target)
    requires FirstNonZero(t) == 29
    ensures ValueBE(Expand(CompactWord(t).value)) == 256 * ValueBE(t) > ValueBE(t) > 0
  {
    var r := Expand(CompactWord(t).value);
    Decoded(t);
    ThreeDigits(t[29], t[30], t[31]);
    LeadingZeros(t, 29);
    LeadingZeros(r, 28);
    ThreeIsValue(t[29..]);
    assert r[28..] == t[29..] + [0];
    ShiftedByOne(t[29..]);
  }

  lemma ShiftedByOne(s: seq<byte>)
    ensures ValueBE(s + [0]) == 256 * ValueBE(s)
  {
    ValueSplit(s + [0], |s|);
    assert (s + [0])[..|s|] == s && (s + [0])[|s|..] == [0];
    assert ValueBE([0]) == 0 && Pow256(1) == 256;
  }

  /** Compacting succeeds exactly when the first non-zero byte is not one of the last two, and then the
      round trip stays at or below the target exactly when that byte is not at index 29 either. */
  lemma CompactWorksIff(t: Target)
    ensures CompactWord(t).Some? <==> FirstNonZero(t) !in {30, 31}
    ensures CompactWord(t).Some? ==>
      (ValueBE(Expand(CompactWord(t).value)) <= ValueBE(t) <==> FirstNonZero(t) != 29)
  {
    var k := FirstNonZero(t);
    if k <= 28 {
      RoundTrip(t);
    } else if k == 29 {
      RoundTripShiftsAt29(t);
    } else if k == 32 {
      ValueOfZeros(Expand(0));
    }
  }

  lemma SmallerStartsLater(s: Target, t: Target)
    requires ValueBE(s) <= ValueBE(t)
    ensures FirstNonZero(s) >= FirstNonZero(t)
  {
    var k := FirstNonZero(s);
    if k < FirstNonZero(t) {
      var head := s[..k + 1];
      LeadingZeros(head, k);
      assert head[k..] == [s[k]] && ValueBE(head[k..]) == s[k];
      ValueOfZeros(t[..k + 1]);
      TruncatedComparison(s, t, k + 1);
      assert false;
    }
  }

  lemma SameStart(s: Target, t: Target, k: nat)
    requires k == FirstNonZero(s) == FirstNonZero(t) < 30 && ValueBE(s) <= ValueBE(t)
    ensures Mantissa(s, k) <= Mantissa(t, k)
  {
    SignificantValue(s, k);
    SignificantValue(t, k);
    TruncatedComparison(s, t, k + 3);
  }

  /** The compact word is monotone in the numeric value of the target. */
  lemma CompactMonotone(s: Target, t: Target)
    requires ValueBE(s) <= ValueBE(t)
    requires CompactWord(s).Some? && CompactWord(t).Some?
    ensures CompactWord(s).value <= CompactWord(t).value
  {
    SmallerStartsLater(s, t);
    var j, k := FirstNonZero(s), FirstNonZero(t);
    if j < 32 {
      ThreeDigits(s[j], s[j + 1], s[j + 2]);
      ThreeDigits(t[k], t[k + 1], t[k + 2]);
      if j == k {
        SameStart(s, t, k);
      }
    }
  }

  // ---------- any word ----------

  lemma PlacedValue(front: seq<byte>, a: byte, b: byte, c: byte, rest: seq<byte>)
    requires (forall i :: 0 <= i < |front| ==> front[i] == 0) && (forall i :: 0 <= i < |rest| ==> rest[i] == 0)
    ensures ValueBE(front + [a, b, c] + rest) == Three(a, b, c) * Pow256(|rest|)
  {
    hide Pow256, ValueBE, Three;
    var three := [a, b, c];
    ValueOfParts(front + three, rest);
    ZerosInFront(front, three);
    ValueOfZeros(rest);
    ThreeIsValue(three);
  }

  lemma ValueOfParts(s: seq<byte>, t: seq<byte>)
    ensures ValueBE(s + t) == ValueBE(s) * Pow256(|t|) + ValueBE(t)
  {
    hide Pow256, ValueBE;
    ValueSplit(s + t, |s|);
    assert (s + t)[..|s|] == s && (s + t)[|s|..] == t;
  }

  lemma ZerosInFront(s: seq<byte>, t: seq<byte>)
    requires forall i :: 0 <= i < |s| ==> s[i] == 0
    ensures ValueBE(s + t) == ValueBE(t)
  {
    hide Pow256, ValueBE;
    ValueOfParts(s, t);
    ValueOfZeros(s);
    assert 0 * Pow256(|t|) == 0;
  }

  function Zeros(n: nat): seq<byte> { seq(n, _ => 0) }

  lemma ThreeOf(m: nat)
    requires m < 0x100_0000
    ensures Three(m / 0x1_0000, m / 0x100 % 0x100, m % 0x100) == m
    ensures Three(0, m / 0x1_0000, m / 0x100 % 0x100) == m / 0x100
    ensures Three(0, 0, m / 0x1_0000) == m / 0x1_0000
  {
  }

  /** What any word stands for: a mantissa m of three bytes, moved by three bytes less than the exponent says; except
      that with an exponent of 1 to 3 all is one byte further up than that, and with one above 32 nothing is left. */
  lemma ExpandedValue(exponent: nat, m: nat)
    requires exponent < 0x100 && m < 0x100_0000
    ensures var v := ValueBE(Expand(exponent * 0x100_0000 + m));
      v == if exponent > 32 then 0
           else if exponent > 3 then m * Pow256(exponent - 3)
           else if exponent == 3 then m * 0x100
           else if exponent == 2 then m / 0x100 * 0x100
           else if exponent == 1 then m / 0x1_0000 * 0x100
           else m / 0x1_0000
  {
    hide Pow256, ValueBE;
    var word := exponent * 0x100_0000 + m;
    assert word / 0x100_0000 == exponent && word % 0x100_0000 == m;
    var t := Expand(word);
    var a, b, c := m / 0x1_0000, m / 0x100 % 0x100, m % 0x100;
    ThreeOf(m);
    OneByte();
    if exponent > 32 {
      ValueOfZeros(t);
    } else if exponent > 3 {
      assert t == Zeros(32 - exponent) + [a, b, c] + Zeros(exponent - 3);
      PlacedValue(Zeros(32 - exponent), a, b, c, Zeros(exponent - 3));
    } else if exponent == 3 {
      assert t == Zeros(28) + [a, b, c] + Zeros(1);
      PlacedValue(Zeros(28), a, b, c, Zeros(1));
    } else if exponent == 2 {
      assert t == Zeros(28) + [0, a, b] + Zeros(1);
      PlacedValue(Zeros(28), 0, a, b, Zeros(1));
    } else if exponent == 1 {
      assert t == Zeros(28) + [0, 0, a] + Zeros(1);
      PlacedValue(Zeros(28), 0, 0, a, Zeros(1));
    } else {
      assert t == Zeros(29) + [0, 0, a] + Zeros(0);
      PlacedValue(Zeros(29), 0, 0, a, Zeros(0));
    }
  }

  lemma OneByte()
    ensures Pow256(0) == 1 && Pow256(1) == 0x100
  {
  }
}
