/** Fixed-size wire formats: the 120-byte block header, the 180-byte share packet and the unlocking script. */
module Codec {
  import opened Bytes

  datatype Result<+T> = Ok(value: T) | Err

  datatype BlockHeader = BlockHeader(
    version: u32,
    prevHash: Hash32,
    merkleRoot: Hash32,
    timestamp: u64,
    difficulty: Hash32,
    nonce: u64,
    epochIndex: u32)

  datatype SharePacket = SharePacket(minerId: MinerId, header: BlockHeader, nonce: u64, hash: Hash32)

  // ---------- block header ----------

  function HeaderBytes(h: BlockHeader): (s: seq<byte>)
    ensures |s| == 120
  {
    (LE(h.version, 4) + h.prevHash + h.merkleRoot) + (LE(h.timestamp, 8) + h.difficulty + TailBytes(h))
  }

  function TailBytes(h: BlockHeader): (s: seq<byte>)
    ensures |s| == 12
  {
    LE(h.nonce, 8) + LE(h.epochIndex, 4)
  }

  /** The encoder appends field by field to a growing buffer. */
  method AsBytes(h: BlockHeader) returns (bytes: seq<byte>)
    ensures bytes == HeaderBytes(h)
  {
    bytes := LE(h.version, 4);
    bytes := bytes + h.prevHash;
    bytes := bytes + h.merkleRoot;
    bytes := bytes + LE(h.timestamp, 8);
    bytes := bytes + h.difficulty;
    bytes := bytes + LE(h.nonce, 8);
    bytes := bytes + LE(h.epochIndex, 4);
    hide LE;
    Grouped(LE(h.version, 4), h.prevHash, h.merkleRoot, LE(h.timestamp, 8), h.difficulty, LE(h.nonce, 8), LE(h.epochIndex, 4));
  }

  lemma Grouped(a: seq<byte>, b: seq<byte>, c: seq<byte>, d: seq<byte>, e: seq<byte>, f: seq<byte>, g: seq<byte>)
    ensures a + b + c + d + e + f + g == (a + b + c) + (d + e + (f + g))
  {
    var front, back := a + b + c, d + e;
    assert front + d + e == front + back;
    assert front + back + f + g == front + (back + (f + g));
  }

  function Word32(s: seq<byte>): u32
    requires |s| == 4
  {
    Pow256Values();
    FromLE(s)
  }

  function Word64(s: seq<byte>): u64
    requires |s| == 8
  {
    Pow256Values();
    FromLE(s)
  }

  function DecodeHeader(bytes: seq<byte>): Result<BlockHeader> {
    if |bytes| != 120 then Err
    else Ok(BlockHeader(Word32(bytes[..4]), bytes[4..36], bytes[36..68], Word64(bytes[68..76]),
                        bytes[76..108], Word64(bytes[108..116]), Word32(bytes[116..120])))
  }

  /** The decoder walks the buffer with a running offset. */
  method Deserialize(bytes: seq<byte>) returns (r: Result<BlockHeader>)
    ensures r == DecodeHeader(bytes)
  {
    if |bytes| != 120 {
      return Err;
    }
    var offset := 0;
    var version := Word32(bytes[offset..offset + 4]);
    offset := offset + 4;
    var prevHash := bytes[offset..offset + 32];
    offset := offset + 32;
    var merkleRoot := bytes[offset..offset + 32];
    offset := offset + 32;
    var timestamp := Word64(bytes[offset..offset + 8]);
    offset := offset + 8;
    var difficulty := bytes[offset..offset + 32];
    offset := offset + 32;
    var nonce := Word64(bytes[offset..offset + 8]);
    offset := offset + 8;
    var epochIndex := Word32(bytes[offset..offset + 4]);
    assert bytes[0..4] == bytes[..4];
    return Ok(BlockHeader(version, prevHash, merkleRoot, timestamp, difficulty, nonce, epochIndex));
  }

  lemma WordsRoundTrip(a: u32, b: u64)
    ensures Word32(LE(a, 4)) == a && Word64(LE(b, 8)) == b
  {
    Pow256Values();
    FromLEOfLE(a, 4);
    FromLEOfLE(b, 8);
  }

  lemma Cut(a: seq<byte>, b: seq<byte>, c: seq<byte>, s: seq<byte>)
    requires s == a + b + c
    ensures s[..|a|] == a && s[|a|..|a| + |b|] == b && s[|a| + |b|..] == c
  {
  }

  lemma SliceOfSlice(s: seq<byte>, from: nat, a: nat, b: nat)
    requires from <= from + a <= from + b <= |s|
    ensures s[from..][a..b] == s[from + a..from + b]
  {
  }

  lemma HeaderFields(h: BlockHeader)
    ensures var s := HeaderBytes(h);
      && s[..4] == LE(h.version, 4) && s[4..36] == h.prevHash && s[36..68] == h.merkleRoot
      && s[68..76] == LE(h.timestamp, 8) && s[76..108] == h.difficulty
      && s[108..116] == LE(h.nonce, 8) && s[116..120] == LE(h.epochIndex, 4)
  {
    var s := HeaderBytes(h);
    var front, back := LE(h.version, 4) + h.prevHash + h.merkleRoot, LE(h.timestamp, 8) + h.difficulty + TailBytes(h);
    Cut(front, back, [], s);
    Cut(LE(h.version, 4), h.prevHash, h.merkleRoot, s[..68]);
    Cut(LE(h.timestamp, 8), h.difficulty, TailBytes(h), s[68..]);
    SliceOfSlice(s, 68, 0, 8);
    SliceOfSlice(s, 68, 8, 40);
    Cut(LE(h.nonce, 8), LE(h.epochIndex, 4), [], s[68..][40..]);
    SliceOfSlice(s, 68, 40, 48);
    SliceOfSlice(s, 68, 48, 52);
  }

  lemma DecodeEncodedHeader(h: BlockHeader)
    ensures DecodeHeader(HeaderBytes(h)) == Ok(h)
  {
    HeaderFields(h);
    WordsRoundTrip(h.version, h.timestamp);
    WordsRoundTrip(h.epochIndex, h.nonce);
  }

  lemma Reassemble(bytes: seq<byte>)
    requires |bytes| == 120
    ensures bytes == bytes[..4] + bytes[4..36] + bytes[36..68] + bytes[68..76] + bytes[76..108]
                     + bytes[108..116] + bytes[116..120]
  {
  }

  lemma EncodeDecodedHeader(bytes: seq<byte>, h: BlockHeader)
    requires DecodeHeader(bytes) == Ok(h)
    ensures HeaderBytes(h) == bytes
  {
    hide LE, FromLE;
    Reassemble(bytes);
    LEOfFromLE(bytes[..4]);
    LEOfFromLE(bytes[68..76]);
    LEOfFromLE(bytes[108..116]);
    LEOfFromLE(bytes[116..120]);
  }

  /** The header codec is a bijection between headers and 120-byte strings. */
  lemma HeaderBijection(h: BlockHeader, bytes: seq<byte>)
    ensures DecodeHeader(bytes) == Ok(h) <==> bytes == HeaderBytes(h)
    ensures DecodeHeader(bytes) == Err <==> |bytes| != 120
  {
    hide HeaderBytes, LE, FromLE;
    DecodeEncodedHeader(h);
    if DecodeHeader(bytes) == Ok(h) { EncodeDecodedHeader(bytes, h); }
  }

  // ---------- share packet ----------

  function PacketBytes(p: SharePacket): (s: seq<byte>)
    ensures |s| == 180
  {
    p.minerId + HeaderBytes(p.header) + LE(p.nonce, 8) + p.hash
  }

  function DecodePacket(bytes: seq<byte>): Result<SharePacket> {
    if |bytes| != 180 then Err
    else match DecodeHeader(bytes[20..140])
      case Err => Err
      case Ok(header) => Ok(SharePacket(bytes[..20], header, Word64(bytes[140..148]), bytes[148..180]))
  }

  lemma FourFields(a: seq<byte>, b: seq<byte>, c: seq<byte>, d: seq<byte>)
    requires |a| == 20 && |b| == 120 && |c| == 8
    ensures var s := a + b + c + d;
      s[..20] == a && s[20..140] == b && s[140..148] == c && s[148..] == d
  {
  }

  lemma DecodeEncodedPacket(p: SharePacket)
    ensures DecodePacket(PacketBytes(p)) == Ok(p)
  {
    hide HeaderBytes, DecodeHeader, LE, FromLE;
    var s := PacketBytes(p);
    FourFields(p.minerId, HeaderBytes(p.header), LE(p.nonce, 8), p.hash);
    assert s[148..180] == s[148..];
    WordsRoundTrip(0, p.nonce);
    DecodeEncodedHeader(p.header);
  }

  lemma EncodeDecodedPacket(bytes: seq<byte>, p: SharePacket)
    requires DecodePacket(bytes) == Ok(p)
    ensures PacketBytes(p) == bytes
  {
    hide HeaderBytes, DecodeHeader, LE, FromLE;
    HeaderBijection(p.header, bytes[20..140]);
    LEOfFromLE(bytes[140..148]);
    assert bytes == bytes[..20] + bytes[20..140] + bytes[140..148] + bytes[148..180];
  }

  /** The packet codec is a bijection between share packets and 180-byte strings, through the nested header. */
  lemma PacketBijection(p: SharePacket, bytes: seq<byte>)
    ensures DecodePacket(bytes) == Ok(p) <==> bytes == PacketBytes(p)
    ensures DecodePacket(bytes) == Err <==> |bytes| != 180
  {
    DecodeEncodedPacket(p);
    if DecodePacket(bytes) == Ok(p) {
      EncodeDecodedPacket(bytes, p);
    }
  }

  // ---------- unlocking script ----------

  /** What signing writes: each part behind a one-byte length, which is cut to its low eight bits. */
  function WriteScriptSig(sig: seq<byte>, key: seq<byte>): (script: seq<byte>)
    ensures |script| == 2 + |sig| + |key|
  {
    [|sig| % 256] + sig + [|key| % 256] + key
  }

  function ParseScriptSig(script: seq<byte>): Option<(seq<byte>, seq<byte>)> {
    if |script| < 2 then None
    else
      var start := if script[0] == 0 then 1 else 0;
      var sigLen := script[start];
      if start + 1 + sigLen > |script| then None
      else
        var pos := start + 1 + sigLen;
        if pos >= |script| then None
        else
          var keyLen := script[pos];
          if pos + 1 + keyLen != |script| then None
          else Some((script[start + 1..pos], script[pos + 1..]))
  }

  lemma ParsedLayout(script: seq<byte>, sig: seq<byte>, key: seq<byte>)
    requires ParseScriptSig(script) == Some((sig, key))
    ensures |sig| < 256 && |key| < 256
    ensures script == [0] + WriteScriptSig(sig, key) || (sig != [] && script == WriteScriptSig(sig, key))
  {
    var start := if script[0] == 0 then 1 else 0;
    var sigLen: int := script[start];
    var pos := start + 1 + sigLen;
    assert script[start..] == [script[start]] + script[start + 1..pos] + [script[pos]] + script[pos + 1..];
    assert script[start..] == WriteScriptSig(sig, key);
    assert start == 1 ==> script == [0] + script[1..];
    assert start == 0 ==> script == script[0..];
  }

  lemma ParsePlain(sig: seq<byte>, key: seq<byte>)
    requires |sig| < 256 && |key| < 256 && sig != []
    ensures ParseScriptSig(WriteScriptSig(sig, key)) == Some((sig, key))
  {
    var w := WriteScriptSig(sig, key);
    assert w[0] == |sig| && w[1..1 + |sig|] == sig && w[1 + |sig|] == |key| && w[2 + |sig|..] == key;
  }

  lemma ParseBehindZero(sig: seq<byte>, key: seq<byte>)
    requires |sig| < 256 && |key| < 256
    ensures ParseScriptSig([0] + WriteScriptSig(sig, key)) == Some((sig, key))
  {
    var z := [0] + WriteScriptSig(sig, key);
    assert z[1] == |sig| && z[2..2 + |sig|] == sig && z[2 + |sig|] == |key| && z[3 + |sig|..] == key;
  }

  /** The parser accepts exactly the signer's layout with short parts, either as it stands with a non-empty
      signature, or behind one extra zero byte; and it returns the two parts. */
  lemma ParseCharacterized(script: seq<byte>, sig: seq<byte>, key: seq<byte>)
    ensures ParseScriptSig(script) == Some((sig, key))
       <==> |sig| < 256 && |key| < 256
            && (script == [0] + WriteScriptSig(sig, key) || (sig != [] && script == WriteScriptSig(sig, key)))
  {
    hide ParseScriptSig, WriteScriptSig;
    if ParseScriptSig(script) == Some((sig, key)) {
      ParsedLayout(script, sig, key);
    } else if |sig| < 256 && |key| < 256 {
      ParseBehindZero(sig, key);
      if sig != [] { ParsePlain(sig, key); }
    }
  }

  /** Parsing recovers what signing wrote exactly for a signature of 1 to 255 bytes and a key of at most 255. */
  lemma ScriptSigRoundTripIff(sig: seq<byte>, key: seq<byte>)
    ensures ParseScriptSig(WriteScriptSig(sig, key)) == Some((sig, key))
       <==> 1 <= |sig| <= 255 && |key| <= 255
  {
    ParseCharacterized(WriteScriptSig(sig, key), sig, key);
    assert |[0] + WriteScriptSig(sig, key)| != |WriteScriptSig(sig, key)|;
  }
}
