/** The RIFF walk of internal/media that decides whether a WebP upload is animated. */
module WebpAnimation {
  import opened Common

  const RIFF: seq<Byte> := [0x52, 0x49, 0x46, 0x46]
  const WEBP: seq<Byte> := [0x57, 0x45, 0x42, 0x50]
  const VP8X: seq<Byte> := [0x56, 0x50, 0x38, 0x58]
  const ANIM: seq<Byte> := [0x41, 0x4E, 0x49, 0x4D]
  const ANMF: seq<Byte> := [0x41, 0x4E, 0x4D, 0x46]

  /** Bit 0x02 of a flags byte. */
  predicate AnimationBit(flags: Byte) { flags / 2 % 2 == 1 }

  // ---------------------------------------------------------------- chunks

  /** A chunk of RFC 9649, section 2.3; `pad` follows a payload of odd length. */
  datatype Chunk = Chunk(fourCC: seq<Byte>, payload: seq<Byte>, pad: seq<Byte>)

  ghost predicate WellFormed(c: Chunk) {
    |c.fourCC| == 4 && |c.payload| < 0x1_0000_0000 && |c.pad| == |c.payload| % 2
  }

  function Serialize(c: Chunk): seq<Byte>
    requires WellFormed(c)
  {
    var n := |c.payload|;
    c.fourCC + [n % 0x100, n / 0x100 % 0x100, n / 0x1_0000 % 0x100, n / 0x100_0000] + c.payload + c.pad
  }

  /** Four ASCII characters as octets: section 2.3 of RFC 9649. */
  function FourCC(s: string): seq<Byte>
    requires |s| == 4
  {
    [s[0] as int % 0x80, s[1] as int % 0x80, s[2] as int % 0x80, s[3] as int % 0x80]
  }

  lemma Names()
    ensures RIFF == FourCC("RIFF") && WEBP == FourCC("WEBP")
    ensures VP8X == FourCC("VP8X") && ANIM == FourCC("ANIM") && ANMF == FourCC("ANMF")
  {}

  ghost function SerializeAll(cs: seq<Chunk>): seq<Byte>
    requires forall c | c in cs :: WellFormed(c)
  {
    if cs == [] then [] else Serialize(cs[0]) + SerializeAll(cs[1..])
  }

  /** What makes a file animated: an animation or frame chunk, or the last but one bit of the flags of
      the extended header, section 2.7.1 of RFC 9649. */
  ghost predicate Animated(c: Chunk) {
    || c.fourCC == FourCC("ANIM") || c.fourCC == FourCC("ANMF")
    || (c.fourCC == FourCC("VP8X") && c.payload != [] && c.payload[0] % 4 >= 2)
  }

  // ---------------------------------------------------------------- the walk, on the bytes still ahead

  function ChunkSize(s: seq<Byte>): nat
    requires |s| >= 8
  {
    U32(false, s[4..8])
  }

  /** The chunk header at the front of `s` alone makes the file animated. */
  predicate HeadAnimates(s: seq<Byte>)
    requires |s| >= 8
  {
    || (s[..4] == VP8X && ChunkSize(s) >= 1 && |s| > 8 && AnimationBit(s[8]))
    || s[..4] == ANIM || s[..4] == ANMF
  }

  /** Where the next chunk starts, past the padding. */
  function Next(s: seq<Byte>): nat
    requires |s| >= 8
  {
    8 + ChunkSize(s) + ChunkSize(s) % 2
  }

  predicate Scan(s: seq<Byte>)
    decreases |s|
  {
    if |s| < 8 then false
    else if HeadAnimates(s) then true
    else if Next(s) > |s| then false
    else Scan(s[Next(s)..])
  }

  predicate IsAnimated(data: seq<Byte>) {
    |data| >= 12 && data[..4] == RIFF && data[8..12] == WEBP && Scan(data[12..])
  }

  /** webpIsAnimated. */
  method WebpIsAnimated(data: seq<Byte>) returns (animated: bool)
    ensures animated <==> IsAnimated(data)
  {
    if |data| < 12 || data[..4] != RIFF || data[8..12] != WEBP { return false; }
    var offset := 12;
    while offset + 8 <= |data|
      invariant 12 <= offset <= |data|
      invariant Scan(data[12..]) == Scan(data[offset..])
      decreases |data| - offset
    {
      ghost var s := data[offset..];
      var chunkType := data[offset..offset + 4];
      assert s[..4] == chunkType && s[4..8] == data[offset + 4..offset + 8];
      var chunkSize := U32(false, data[offset + 4..offset + 8]);
      if chunkType == VP8X && chunkSize >= 1 && offset + 8 < |data| {
        if AnimationBit(data[offset + 8]) { return true; }
      }
      if chunkType == ANIM || chunkType == ANMF { return true; }
      var next := offset + 8 + chunkSize;
      if next > |data| { return false; }
      if chunkSize % 2 != 0 { next := next + 1; }
      if next > |data| { return false; }
      assert s[Next(s)..] == data[next..];
      offset := next;
    }
    return false;
  }

  // ---------------------------------------------------------------- what the walk decides

  /** Every byte string is a list of whole chunks and a rest that holds no further whole chunk. */
  ghost function Chunks(s: seq<Byte>): seq<Chunk>
    decreases |s|
  {
    if |s| < 8 || Next(s) > |s| then []
    else [FirstChunk(s)] + Chunks(s[Next(s)..])
  }

  function FirstChunk(s: seq<Byte>): Chunk
    requires |s| >= 8 && Next(s) <= |s|
  {
    Chunk(s[..4], s[8..8 + ChunkSize(s)], s[8 + ChunkSize(s)..Next(s)])
  }

  ghost function Rest(s: seq<Byte>): seq<Byte>
    decreases |s|
  {
    if |s| < 8 || Next(s) > |s| then s else Rest(s[Next(s)..])
  }

  lemma FirstChunkBytes(s: seq<Byte>)
    requires |s| >= 8 && Next(s) <= |s|
    ensures WellFormed(FirstChunk(s)) && Serialize(FirstChunk(s)) == s[..Next(s)]
  {
    Put32Inverse(false, s[4..8]);
    Put32Octets(ChunkSize(s));
    assert s[..Next(s)] == s[..4] + s[4..8] + s[8..8 + ChunkSize(s)] + s[8 + ChunkSize(s)..Next(s)];
  }

  lemma {:induction false} ChunksAreTheBytes(s: seq<Byte>)
    ensures forall c | c in Chunks(s) :: WellFormed(c)
    ensures SerializeAll(Chunks(s)) + Rest(s) == s
    ensures |Rest(s)| < 8 || Next(Rest(s)) > |Rest(s)|
    decreases |s|
  {
    if |s| >= 8 && Next(s) <= |s| {
      var c, ahead := FirstChunk(s), s[Next(s)..];
      FirstChunkBytes(s);
      ChunksAreTheBytes(ahead);
      SerializeCons(c, Chunks(ahead));
      Rejoin(s, Next(s), Serialize(c), SerializeAll(Chunks(ahead)), Rest(ahead));
    }
  }

  lemma Rejoin(s: seq<Byte>, n: nat, first: seq<Byte>, middle: seq<Byte>, rest: seq<Byte>)
    requires n <= |s| && first == s[..n] && middle + rest == s[n..]
    ensures (first + middle) + rest == s
  {
    assert (first + middle) + rest == first + (middle + rest);
  }

  lemma SerializeCons(c: Chunk, cs: seq<Chunk>)
    requires WellFormed(c) && forall d | d in cs :: WellFormed(d)
    ensures forall d | d in [c] + cs :: WellFormed(d)
    ensures SerializeAll([c] + cs) == Serialize(c) + SerializeAll(cs)
  {
    assert ([c] + cs)[1..] == cs;
  }

  lemma HeadMeans(s: seq<Byte>)
    requires |s| >= 8 && Next(s) <= |s|
    ensures HeadAnimates(s) <==> Animated(FirstChunk(s))
  {
    Names();
  }

  /** On every byte string the walk decides whether a whole chunk is animated, or the header of the
      chunk that is cut off says so. */
  lemma {:induction false} ScanDecides(s: seq<Byte>)
    ensures Scan(s) <==> (exists c | c in Chunks(s) :: Animated(c)) || (|Rest(s)| >= 8 && HeadAnimates(Rest(s)))
    decreases |s|
  {
    if |s| >= 8 && Next(s) <= |s| {
      var c := FirstChunk(s);
      ScanDecides(s[Next(s)..]);
      assert Chunks(s) == [c] + Chunks(s[Next(s)..]);
      HeadMeans(s);
    }
  }

  lemma SerializedHead(c: Chunk, ahead: seq<Byte>)
    requires WellFormed(c)
    ensures var s := Serialize(c) + ahead;
            |s| >= 8 && Next(s) == |Serialize(c)| && FirstChunk(s) == c && s[Next(s)..] == ahead
  {
    var s := Serialize(c) + ahead;
    Put32Octets(|c.payload|);
    assert s[..4] == c.fourCC && s[4..8] == Put32(false, |c.payload|);
    assert s[8..8 + |c.payload|] == c.payload;
    assert s[8 + |c.payload|..|Serialize(c)|] == c.pad;
  }

  lemma {:induction false} SerializedChunks(cs: seq<Chunk>)
    requires forall c | c in cs :: WellFormed(c)
    ensures Chunks(SerializeAll(cs)) == cs && Rest(SerializeAll(cs)) == []
  {
    if cs != [] {
      assert WellFormed(cs[0]);
      SerializedHead(cs[0], SerializeAll(cs[1..]));
      SerializedChunks(cs[1..]);
    }
  }

  /** For the bytes of a whole file of well-formed chunks the answer is whether one of them is
      animated; the size field in front of them is not read. */
  lemma AnimatedFile(size: seq<Byte>, cs: seq<Chunk>)
    requires |size| == 4 && forall c | c in cs :: WellFormed(c)
    ensures IsAnimated(FourCC("RIFF") + size + FourCC("WEBP") + SerializeAll(cs)) <==> exists c | c in cs :: Animated(c)
  {
    var data := FourCC("RIFF") + size + FourCC("WEBP") + SerializeAll(cs);
    Names();
    assert data[..4] == RIFF && data[8..12] == WEBP && data[12..] == SerializeAll(cs);
    SerializedChunks(cs);
    ScanDecides(SerializeAll(cs));
  }

  /** Nothing but a RIFF file of form WEBP is animated. */
  lemma OtherForms(data: seq<Byte>)
    requires |data| < 12 || data[..4] != FourCC("RIFF") || data[8..12] != FourCC("WEBP")
    ensures !IsAnimated(data)
  {
    Names();
  }
}
