/** The JPEG marker walk and the TIFF directory search of internal/media that find an image's
    orientation. */
module ExifOrientation {
  import opened Common

  const START_OF_IMAGE: seq<Byte> := [0xFF, 0xD8]
  const EXIF: seq<Byte> := [0x45, 0x78, 0x69, 0x66, 0, 0]
  const INTEL: seq<Byte> := [0x49, 0x49]
  const MOTOROLA: seq<Byte> := [0x4D, 0x4D]
  const ORIENTATION_TAG := 0x0112
  const SHORT := 3

  // ---------------------------------------------------------------- the TIFF directory

  predicate TiffHeader(d: seq<Byte>) {
    && |d| >= 8 && (d[..2] == INTEL || d[..2] == MOTOROLA)
    && U16(BigEndian(d), d[2..4]) == 42
    && U32(BigEndian(d), d[4..8]) <= |d| - 2
  }

  predicate BigEndian(d: seq<Byte>)
    requires |d| >= 2
  {
    d[..2] == MOTOROLA
  }

  function Ifd(d: seq<Byte>): nat
    requires TiffHeader(d)
  {
    U32(BigEndian(d), d[4..8])
  }

  function EntryCount(d: seq<Byte>): nat
    requires TiffHeader(d)
  {
    U16(BigEndian(d), d[Ifd(d)..Ifd(d) + 2])
  }

  /** Directory entry number `index` lies inside the data. */
  predicate InBounds(d: seq<Byte>, index: nat)
    requires TiffHeader(d)
  {
    Ifd(d) + 2 + 12 * index + 12 <= |d|
  }

  function EntryAt(d: seq<Byte>, index: nat): (e: seq<Byte>)
    requires TiffHeader(d) && InBounds(d, index)
    ensures |e| == 12
  {
    d[Ifd(d) + 2 + 12 * index..Ifd(d) + 2 + 12 * index + 12]
  }

  function Tag(big: bool, e: seq<Byte>): nat
    requires |e| == 12
  {
    U16(big, e[..2])
  }

  /** What an Orientation entry says: a SHORT with a value of 1 to 8, or nothing usable. */
  function EntryOrientation(big: bool, e: seq<Byte>): (o: Option<nat>)
    requires |e| == 12
    ensures o.Some? ==> 1 <= o.value <= 8
  {
    if U16(big, e[2..4]) != SHORT || U32(big, e[4..8]) < 1 then None
    else
      var value := U16(big, e[8..10]);
      if 1 <= value <= 8 then Some(value) else None
  }

  /** The first Orientation entry is entry `index`, and the directory is readable up to it. */
  ghost predicate FirstOrientationAt(d: seq<Byte>, index: nat)
    requires TiffHeader(d)
  {
    && index < EntryCount(d) && InBounds(d, index) && Tag(BigEndian(d), EntryAt(d, index)) == ORIENTATION_TAG
    && forall i: nat | i < index :: InBounds(d, i) && Tag(BigEndian(d), EntryAt(d, i)) != ORIENTATION_TAG
  }

  /** The orientation a TIFF block carries, if any. */
  ghost function TiffOrientation(d: seq<Byte>): (o: Option<nat>)
    ensures o.Some? ==> 1 <= o.value <= 8
  {
    if TiffHeader(d) && exists index: nat :: FirstOrientationAt(d, index) then
      var index: nat :| FirstOrientationAt(d, index);
      EntryOrientation(BigEndian(d), EntryAt(d, index))
    else None
  }

  /** The Orientation value of TIFF 6.0, by offsets: byte order and 42, the directory's offset, the number
      of entries, and entry `index` as the first with tag 0x0112, of type 3, with a value of 1 to 8. */
  ghost predicate ValueAt(d: seq<Byte>, index: nat, o: nat) {
    && |d| >= 8 && (d[..4] == [0x4D, 0x4D, 0, 42] || d[..4] == [0x49, 0x49, 42, 0])
    && var big, ifd := d[0] == 0x4D, U32(d[0] == 0x4D, d[4..8]);
    && var at := ifd + 2 + 12 * index;
    && at + 12 <= |d| && index < U16(big, d[ifd..ifd + 2])
    && (forall i: nat | i < index :: U16(big, d[ifd + 2 + 12 * i..ifd + 4 + 12 * i]) != 0x0112)
    && U16(big, d[at..at + 2]) == 0x0112 && U16(big, d[at + 2..at + 4]) == 3
    && U32(big, d[at + 4..at + 8]) >= 1 && U16(big, d[at + 8..at + 10]) == o && 1 <= o <= 8
  }

  lemma FirstTags(d: seq<Byte>, index: nat)
    requires TiffHeader(d)
    ensures FirstOrientationAt(d, index) <==>
            && index < EntryCount(d) && Ifd(d) + 14 + 12 * index <= |d|
            && U16(BigEndian(d), d[Ifd(d) + 2 + 12 * index..Ifd(d) + 4 + 12 * index]) == 0x0112
            && forall i: nat | i < index ::
                 U16(BigEndian(d), d[Ifd(d) + 2 + 12 * i..Ifd(d) + 4 + 12 * i]) != 0x0112
  {
    if Ifd(d) + 14 + 12 * index <= |d| {
      forall i: nat | i <= index
        ensures InBounds(d, i) && EntryAt(d, i)[..2] == d[Ifd(d) + 2 + 12 * i..Ifd(d) + 4 + 12 * i]
      {
        assert InBounds(d, i);
      }
      if FirstOrientationAt(d, index) {
        forall i: nat | i < index ensures U16(BigEndian(d), d[Ifd(d) + 2 + 12 * i..Ifd(d) + 4 + 12 * i]) != 0x0112 {
          assert EntryAt(d, i)[..2] == d[Ifd(d) + 2 + 12 * i..Ifd(d) + 4 + 12 * i];
        }
      }
    }
  }

  lemma HeaderOctets(d: seq<Byte>)
    requires |d| >= 8
    ensures (d[..2] == MOTOROLA && U16(true, d[2..4]) == 42) <==> d[..4] == [0x4D, 0x4D, 0, 42]
    ensures (d[..2] == INTEL && U16(false, d[2..4]) == 42) <==> d[..4] == [0x49, 0x49, 42, 0]
  {
    assert d[..4] == d[..2] + d[2..4];
    HeaderParts(d[..2], d[2..4]);
  }

  lemma HeaderParts(order: seq<Byte>, version: seq<Byte>)
    requires |order| == |version| == 2
    ensures (order == MOTOROLA && U16(true, version) == 42) <==> order + version == [0x4D, 0x4D, 0, 42]
    ensures (order == INTEL && U16(false, version) == 42) <==> order + version == [0x49, 0x49, 42, 0]
  {
    var a, b, c, e := order[0], order[1], version[0], version[1];
    assert order == [a, b] && version == [c, e] && order + version == [a, b, c, e];
    U16Octets(c, e);
    assert [a, b, c, e] == [0x4D, 0x4D, 0, 42] <==> a == b == 0x4D && c == 0 && e == 42;
    assert [a, b, c, e] == [0x49, 0x49, 42, 0] <==> a == b == 0x49 && c == 42 && e == 0;
  }

  lemma SliceWithin(d: seq<Byte>, at: nat, end: nat, from: nat, to: nat)
    requires at <= end <= |d| && from <= to <= end - at
    ensures d[at..end][from..to] == d[at + from..at + to]
  {
    var a, b := d[at..end][from..to], d[at + from..at + to];
    assert |a| == |b| && forall k | 0 <= k < |a| :: a[k] == b[k];
  }

  lemma EntryMeans(d: seq<Byte>, index: nat, o: nat)
    requires TiffHeader(d) && InBounds(d, index)
    ensures var big, at := BigEndian(d), Ifd(d) + 2 + 12 * index;
            EntryOrientation(big, EntryAt(d, index)) == Some(o) <==>
              U16(big, d[at + 2..at + 4]) == 3 && U32(big, d[at + 4..at + 8]) >= 1
              && U16(big, d[at + 8..at + 10]) == o && 1 <= o <= 8
  {
    var at := Ifd(d) + 2 + 12 * index;
    SliceWithin(d, at, at + 12, 2, 4);
    SliceWithin(d, at, at + 12, 4, 8);
    SliceWithin(d, at, at + 12, 8, 10);
  }

  lemma ValueOfFirst(d: seq<Byte>, index: nat, o: nat)
    requires ValueAt(d, index, o)
    ensures TiffHeader(d) && FirstOrientationAt(d, index)
    ensures EntryOrientation(BigEndian(d), EntryAt(d, index)) == Some(o)
  {
    HeaderOctets(d);
    FirstTags(d, index);
    EntryMeans(d, index, o);
  }

  lemma FirstOfValue(d: seq<Byte>, index: nat, o: nat)
    requires TiffHeader(d) && FirstOrientationAt(d, index)
    requires EntryOrientation(BigEndian(d), EntryAt(d, index)) == Some(o)
    ensures ValueAt(d, index, o)
  {
    HeaderOctets(d);
    FirstTags(d, index);
    EntryMeans(d, index, o);
  }

  /** What the search finds is the Orientation value of TIFF 6.0, and nothing where there is none. */
  lemma TiffMeans(d: seq<Byte>)
    ensures forall o: nat :: TiffOrientation(d) == Some(o) <==> exists index: nat :: ValueAt(d, index, o)
  {
    forall o: nat ensures TiffOrientation(d) == Some(o) <==> exists index: nat :: ValueAt(d, index, o) {
      if index: nat :| ValueAt(d, index, o) {
        ValueOfFirst(d, index, o);
        FirstDecides(d, index);
      }
      if TiffOrientation(d) == Some(o) {
        var index: nat :| FirstOrientationAt(d, index);
        FirstDecides(d, index);
        FirstOfValue(d, index, o);
      }
    }
  }

  lemma FirstDecides(d: seq<Byte>, index: nat)
    requires TiffHeader(d) && FirstOrientationAt(d, index)
    ensures TiffOrientation(d) == EntryOrientation(BigEndian(d), EntryAt(d, index))
  {
    forall i: nat | FirstOrientationAt(d, i) ensures i == index { FirstOrientationUnique(d, i, index); }
  }

  lemma FirstOrientationUnique(d: seq<Byte>, i: nat, j: nat)
    requires TiffHeader(d) && FirstOrientationAt(d, i) && FirstOrientationAt(d, j)
    ensures i == j
  {}

  /** parseTIFFOrientation: for every byte string, exactly what the first Orientation entry says. */
  method ParseTiffOrientation(d: seq<Byte>) returns (orientation: Option<nat>)
    ensures orientation == TiffOrientation(d)
  {
    if |d| < 8 { return None; }
    if d[..2] != INTEL && d[..2] != MOTOROLA { return None; }
    var big := d[..2] == MOTOROLA;
    if U16(big, d[2..4]) != 42 { return None; }
    var ifd := U32(big, d[4..8]);
    if ifd > |d| - 2 { return None; }
    var count := U16(big, d[ifd..ifd + 2]);
    for index := 0 to count
      invariant forall i: nat | i < index :: InBounds(d, i) && Tag(big, EntryAt(d, i)) != ORIENTATION_TAG
    {
      var entryOffset := ifd + 2 + index * 12;
      if entryOffset + 12 > |d| {
        assert !InBounds(d, index);
        return None;
      }
      var e := d[entryOffset..entryOffset + 12];
      assert e == EntryAt(d, index);
      if U16(big, e[..2]) != ORIENTATION_TAG { continue; }
      assert FirstOrientationAt(d, index);
      forall i: nat | FirstOrientationAt(d, i) ensures i == index { FirstOrientationUnique(d, i, index); }
      return EntryOrientation(big, e);
    }
    return None;
  }

  // ---------------------------------------------------------------- the marker walk

  /** A marker that stands alone, without a length. */
  predicate Bare(marker: Byte) { marker == 0xD8 || marker == 0x01 || 0xD0 <= marker <= 0xD7 }

  /** End of image, or start of the scan: the walk is over. */
  predicate Final(marker: Byte) { marker == 0xD9 || marker == 0xDA }

  function SkipFill(s: seq<Byte>): (r: seq<Byte>)
    ensures |r| <= |s|
    ensures s != [] && s[0] == 0xFF ==> |r| < |s|
  {
    if s != [] && s[0] == 0xFF then SkipFill(s[1..]) else s
  }

  /** The TIFF block of an Exif segment, whose marker and payload (after the length) are given. */
  predicate IsExif(marker: Byte, payload: seq<Byte>) { marker == 0xE1 && |payload| >= 6 && payload[..6] == EXIF }

  /** The walk over the bytes still ahead. */
  ghost function Scan(s: seq<Byte>): (o: nat)
    ensures 1 <= o <= 8
    decreases |s|
  {
    if |s| < 2 || s[0] != 0xFF then 1
    else
      var t := SkipFill(s);
      if t == [] || Final(t[0]) then 1
      else if Bare(t[0]) then Scan(t[1..])
      else if |t| < 3 then 1
      else
        var length := U16(true, t[1..3]);
        if length < 2 || length > |t| - 1 then 1
        else
          var payload := t[3..1 + length];
          if IsExif(t[0], payload) && TiffOrientation(payload[6..]).Some? then TiffOrientation(payload[6..]).value
          else Scan(t[1 + length..])
  }

  /** One framed segment, by offsets: `at` is where its length stands, behind the marker and the fill
      octets that begin at `start`. */
  lemma ScanFramed(data: seq<Byte>, start: nat, at: nat, length: nat)
    requires start + 1 < |data| && data[start] == 0xFF && start < at <= |data| - 2
    requires SkipFill(data[start..]) == data[at - 1..] && !Final(data[at - 1]) && !Bare(data[at - 1])
    requires length == U16(true, data[at..at + 2]) && 2 <= length <= |data| - at
    ensures Scan(data[start..]) ==
            if data[at - 1] == 0xE1 && length >= 8 && data[at + 2..at + 8] == EXIF &&
              TiffOrientation(data[at + 8..at + length]).Some?
            then TiffOrientation(data[at + 8..at + length]).value
            else Scan(data[at + length..])
  {
    var t := data[at - 1..];
    assert t[1..3] == data[at..at + 2];
    var payload := t[3..1 + length];
    assert payload == data[at + 2..at + length];
    assert t[1 + length..] == data[at + length..];
    if |payload| >= 6 {
      assert payload[..6] == data[at + 2..at + 8];
      assert payload[6..] == data[at + 8..at + length];
    }
  }

  /** A framed segment that is cut off, or whose length is impossible, ends the walk. */
  lemma ScanCutOff(data: seq<Byte>, start: nat, at: nat)
    requires start + 1 < |data| && data[start] == 0xFF && start < at <= |data|
    requires SkipFill(data[start..]) == data[at - 1..] && !Final(data[at - 1]) && !Bare(data[at - 1])
    requires at + 2 > |data| || U16(true, data[at..at + 2]) < 2 || U16(true, data[at..at + 2]) > |data| - at
    ensures Scan(data[start..]) == 1
  {
    var t := data[at - 1..];
    if |t| >= 3 {
      assert t[1..3] == data[at..at + 2];
    }
  }

  /** A marker that ends the walk, or stands alone. */
  lemma ScanUnframed(data: seq<Byte>, start: nat, at: nat)
    requires start + 1 < |data| && data[start] == 0xFF && start < at <= |data|
    requires SkipFill(data[start..]) == data[at - 1..]
    ensures Final(data[at - 1]) ==> Scan(data[start..]) == 1
    ensures Bare(data[at - 1]) ==> Scan(data[start..]) == Scan(data[at..])
  {
    assert data[at - 1..][1..] == data[at..];
  }

  /** The loop over the fill octets in front of a marker. */
  method SkipFillBytes(data: seq<Byte>, start: nat) returns (offset: nat)
    requires start < |data| && data[start] == 0xFF
    ensures start < offset <= |data| && SkipFill(data[start..]) == data[offset..]
  {
    offset := start;
    while offset < |data| && data[offset] == 0xFF
      invariant start <= offset <= |data| && SkipFill(data[start..]) == SkipFill(data[offset..])
      invariant offset == start ==> data[offset] == 0xFF
    {
      assert data[offset..][1..] == data[offset + 1..];
      offset := offset + 1;
    }
  }

  /** One turn of the walk at a marker: an answer, or the offset behind its segment. */
  method NextSegment(data: seq<Byte>, start: nat) returns (answer: Option<nat>, offset: nat)
    requires start + 1 < |data| && data[start] == 0xFF
    ensures answer.Some? ==> Scan(data[start..]) == answer.value
    ensures answer.None? ==> start < offset <= |data| && Scan(data[start..]) == Scan(data[offset..])
  {
    offset := SkipFillBytes(data, start);
    if offset >= |data| { return Some(1), offset; }
    var marker := data[offset];
    offset := offset + 1;
    ScanUnframed(data, start, offset);
    if marker == 0xD9 || marker == 0xDA { return Some(1), offset; }
    if marker == 0xD8 || marker == 0x01 || (marker >= 0xD0 && marker <= 0xD7) { return None, offset; }
    if offset + 2 > |data| {
      ScanCutOff(data, start, offset);
      return Some(1), offset;
    }
    var segmentLength := U16(true, data[offset..offset + 2]);
    if segmentLength < 2 || segmentLength > |data| - offset {
      ScanCutOff(data, start, offset);
      return Some(1), offset;
    }
    ScanFramed(data, start, offset, segmentLength);
    if marker == 0xE1 && segmentLength >= 8 && data[offset + 2..offset + 8] == EXIF {
      answer := ParseTiffOrientation(data[offset + 8..offset + segmentLength]);
      if answer.Some? { return; }
    }
    return None, offset + segmentLength;
  }

  /** What a file's orientation is: behind the start of image, what the walk finds. */
  ghost function OrientationOf(data: seq<Byte>): nat {
    if |data| >= 2 && data[..2] == START_OF_IMAGE then Scan(data[2..]) else 1
  }

  /** jpegOrientation: on every byte string it stops, and answers 1 to 8. */
  method JpegOrientation(data: seq<Byte>) returns (orientation: nat)
    ensures orientation == OrientationOf(data)
    ensures 1 <= orientation <= 8
  {
    if |data| < 2 || data[0] != 0xFF || data[1] != 0xD8 { return 1; }
    var offset := 2;
    while offset + 1 < |data|
      invariant 2 <= offset <= |data|
      invariant Scan(data[2..]) == Scan(data[offset..])
      decreases |data| - offset
    {
      if data[offset] != 0xFF { return 1; }
      var answer, next := NextSegment(data, offset);
      if answer.Some? { return answer.value; }
      offset := next;
    }
    return 1;
  }

  // ---------------------------------------------------------------- segments

  /** A marker segment of ITU-T T.81, annex B.1.1, after `fill` octets of 0xFF. */
  datatype Segment = Marker(fill: nat, marker: Byte) | Framed(fill: nat, marker: Byte, payload: seq<Byte>)

  /** TEM, RSTm and SOI stand alone; EOI and SOS are no segments here. */
  ghost predicate WellFormed(seg: Segment) {
    && seg.fill >= 1
    && match seg
       case Marker(_, marker) => marker == 0x01 || 0xD0 <= marker <= 0xD8
       case Framed(_, marker, payload) =>
         marker != 0x01 && !(0xD0 <= marker <= 0xDA) && marker != 0xFF && |payload| + 2 < 0x1_0000
  }

  function Fill(n: nat): seq<Byte> { seq(n, _ => 0xFF) }

  ghost function Serialize(seg: Segment): seq<Byte>
    requires WellFormed(seg)
  {
    Fill(seg.fill) + [seg.marker] +
    if seg.Marker? then [] else [(|seg.payload| + 2) / 0x100, (|seg.payload| + 2) % 0x100] + seg.payload
  }

  ghost function SerializeAll(segs: seq<Segment>): seq<Byte>
    requires forall seg | seg in segs :: WellFormed(seg)
  {
    if segs == [] then [] else Serialize(segs[0]) + SerializeAll(segs[1..])
  }

  /** The orientation one segment carries. */
  ghost function SegmentOrientation(seg: Segment): Option<nat> {
    if seg.Framed? && IsExif(seg.marker, seg.payload) then TiffOrientation(seg.payload[6..]) else None
  }

  lemma {:induction false} SkipFillPast(n: nat, rest: seq<Byte>)
    requires rest != [] && rest[0] != 0xFF
    ensures SkipFill(Fill(n) + rest) == rest
  {
    if n == 0 {
      assert Fill(0) + rest == rest;
    } else {
      assert (Fill(n) + rest)[1..] == Fill(n - 1) + rest;
      SkipFillPast(n - 1, rest);
    }
  }

  /** One segment: the walk answers what it carries, or goes on behind it. */
  lemma ScanSegment(seg: Segment, rest: seq<Byte>)
    requires WellFormed(seg)
    ensures Scan(Serialize(seg) + rest) ==
            if SegmentOrientation(seg).Some? then SegmentOrientation(seg).value else Scan(rest)
  {
    var s := Serialize(seg) + rest;
    if seg.Framed? { Put16Octets(|seg.payload| + 2); }
    var body := [seg.marker] + (if seg.Marker? then [] else Put16(true, |seg.payload| + 2) + seg.payload) + rest;
    assert s == Fill(seg.fill) + body;
    SkipFillPast(seg.fill, body);
    assert s[0] == 0xFF && |s| >= 2;
    if seg.Marker? {
      assert body[1..] == rest;
    } else {
      assert body[1..3] == Put16(true, |seg.payload| + 2);
      assert body[3..3 + |seg.payload|] == seg.payload;
      assert body[3 + |seg.payload|..] == rest;
    }
  }

  /** Everything else ends the walk: no 0xFF, fill octets alone, EOI or SOS, a length that is cut off,
      below 2, or longer than what is left. */
  lemma ScanStops(fill: nat, marker: Byte, rest: seq<Byte>)
    ensures Scan(Fill(fill)) == 1 && (marker != 0xFF ==> Scan([marker] + rest) == 1)
    ensures marker in {0xD9, 0xDA} ==> Scan(Fill(fill) + ([marker] + rest)) == 1
    ensures marker != 0x01 && !(0xD0 <= marker <= 0xDA) && marker != 0xFF &&
            (|rest| < 2 || !(2 <= 0x100 * rest[0] + rest[1] <= |rest|)) ==>
              Scan(Fill(fill) + ([marker] + rest)) == 1
  {
    SkipOnlyFill(fill);
    if marker != 0xFF {
      ScanMarker(Fill(fill) + ([marker] + rest), fill, marker, rest);
      if |rest| >= 2 { U16Octets(rest[0], rest[1]); }
    }
  }

  lemma BehindFill(s: seq<Byte>, fill: nat, marker: Byte, rest: seq<Byte>)
    requires marker != 0xFF && fill >= 1 && s == Fill(fill) + ([marker] + rest)
    ensures |s| == fill + 1 + |rest| && s[0] == 0xFF && s[0..] == s && s[fill + 1..] == rest
    ensures s[fill] == marker && SkipFill(s) == s[fill..]
    ensures |rest| >= 2 ==> s[fill + 1..fill + 3] == [rest[0], rest[1]]
  {
    var t := [marker] + rest;
    SkipFillPast(fill, t);
    assert s[fill..] == t && t[1..] == rest;
  }

  /** A marker behind fill octets that ends the walk. */
  lemma ScanMarker(s: seq<Byte>, fill: nat, marker: Byte, rest: seq<Byte>)
    requires marker != 0xFF && s == Fill(fill) + ([marker] + rest)
    ensures Final(marker) || fill == 0 ==> Scan(s) == 1
    ensures (!Final(marker) && !Bare(marker) && (|rest| < 2 || !(2 <= U16(true, [rest[0], rest[1]]) <= |rest|)))
            ==> Scan(s) == 1
  {
    if fill == 0 {
      assert s == [marker] + rest;
    } else {
      BehindFill(s, fill, marker, rest);
      ScanUnframed(s, 0, fill + 1);
      if !Final(marker) && !Bare(marker) && (|rest| < 2 || !(2 <= U16(true, [rest[0], rest[1]]) <= |rest|)) {
        ScanCutOff(s, 0, fill + 1);
      }
    }
  }

  lemma {:induction false} SkipOnlyFill(n: nat)
    ensures SkipFill(Fill(n)) == []
  {
    if n > 0 {
      assert Fill(n)[1..] == Fill(n - 1);
      SkipOnlyFill(n - 1);
    }
  }

  /** Only an APP1 segment that begins with "Exif" and two zeros can carry an orientation: the one of the
      TIFF block behind them. */
  lemma SegmentMeans(seg: Segment)
    ensures forall o: nat ::
              SegmentOrientation(seg) == Some(o) <==>
              && seg.Framed? && seg.marker == 0xE1
              && |seg.payload| >= 6 && seg.payload[..6] == [0x45, 0x78, 0x69, 0x66, 0, 0]
              && exists index: nat :: ValueAt(seg.payload[6..], index, o)
  {
    if seg.Framed? && |seg.payload| >= 6 { TiffMeans(seg.payload[6..]); }
  }

  /** Any list of segments: the first orientation carried decides, otherwise what follows them. */
  lemma {:induction false} ScanSegments(segs: seq<Segment>, rest: seq<Byte>)
    requires forall seg | seg in segs :: WellFormed(seg)
    ensures (forall seg | seg in segs :: SegmentOrientation(seg) == None) ==>
            Scan(SerializeAll(segs) + rest) == Scan(rest)
    ensures forall i | 0 <= i < |segs| && SegmentOrientation(segs[i]).Some? &&
                       (forall j | 0 <= j < i :: SegmentOrientation(segs[j]) == None) ::
              Scan(SerializeAll(segs) + rest) == SegmentOrientation(segs[i]).value
  {
    if segs == [] {
      assert SerializeAll(segs) + rest == rest;
    } else {
      assert SerializeAll(segs) + rest == Serialize(segs[0]) + (SerializeAll(segs[1..]) + rest);
      assert WellFormed(segs[0]);
      ScanSegment(segs[0], SerializeAll(segs[1..]) + rest);
      ScanSegments(segs[1..], rest);
      forall i | 0 <= i < |segs| && SegmentOrientation(segs[i]).Some? &&
                 (forall j | 0 <= j < i :: SegmentOrientation(segs[j]) == None)
        ensures Scan(SerializeAll(segs) + rest) == SegmentOrientation(segs[i]).value
      {
        if i > 0 {
          assert segs[1..][i - 1] == segs[i];
          assert forall j | 0 <= j < i - 1 :: SegmentOrientation(segs[1..][j]) == None by {
            forall j | 0 <= j < i - 1 ensures SegmentOrientation(segs[1..][j]) == None {
              assert segs[1..][j] == segs[j + 1];
            }
          }
          assert SegmentOrientation(segs[0]) == None;
        }
      }
    }
  }

  // ---------------------------------------------------------------- encoding an orientation

  /** A 12-octet directory entry holding SHORT values, the first of them `value`. */
  function ShortEntry(big: bool, tag: nat, count: nat, value: nat): (e: seq<Byte>)
    requires tag < 0x1_0000 && count < 0x1_0000_0000 && value < 0x1_0000
    ensures |e| == 12
  {
    Put16(big, tag) + Put16(big, SHORT) + Put32(big, count) + Put16(big, value) + [0, 0]
  }

  /** The octets of an Orientation entry with value `o`. */
  lemma OrientationEntry(big: bool, count: nat, o: nat)
    requires 1 <= count < 0x1_0000_0000 && 1 <= o <= 8
    ensures ShortEntry(big, ORIENTATION_TAG, count, o) ==
            if big then
              [0x01, 0x12, 0, 3]
              + [count / 0x100_0000, count / 0x1_0000 % 0x100, count / 0x100 % 0x100, count % 0x100] + [0, o, 0, 0]
            else
              [0x12, 0x01, 3, 0]
              + [count % 0x100, count / 0x100 % 0x100, count / 0x1_0000 % 0x100, count / 0x100_0000] + [o, 0, 0, 0]
  {
    Put16Octets(ORIENTATION_TAG);
    Put16Octets(SHORT);
    Put32Octets(count);
    Put16Octets(o);
  }

  ghost function Concat(es: seq<seq<Byte>>): seq<Byte> { if es == [] then [] else es[0] + Concat(es[1..]) }

  /** A TIFF block: byte order, 42, the directory behind `gap`, other entries, the Orientation entry,
      and anything after it. */
  ghost function EncodeTiff(big: bool, gap: seq<Byte>, total: nat, others: seq<seq<Byte>>, entry: seq<Byte>,
                            tail: seq<Byte>): seq<Byte>
    requires 8 + |gap| < 0x1_0000_0000 && total < 0x1_0000
  {
    (if big then MOTOROLA else INTEL) + Put16(big, 42) + Put32(big, 8 + |gap|) + gap
    + Put16(big, total) + (Concat(others) + entry + tail)
  }

  lemma {:induction false} ConcatAt(es: seq<seq<Byte>>, i: nat, rest: seq<Byte>)
    requires forall e | e in es :: |e| == 12
    requires i < |es|
    ensures |Concat(es)| == 12 * |es| && (Concat(es) + rest)[12 * i..12 * i + 12] == es[i]
  {
    ConcatSize(es);
    assert |es[0]| == 12;
    if i == 0 {
      assert (Concat(es) + rest)[..12] == es[0];
    } else {
      ConcatAt(es[1..], i - 1, rest);
      assert Concat(es) + rest == es[0] + (Concat(es[1..]) + rest);
      assert (Concat(es) + rest)[12..] == Concat(es[1..]) + rest;
      SliceBehind(Concat(es) + rest, 12, 12 * (i - 1), 12 * (i - 1) + 12);
    }
  }

  lemma {:induction false} ConcatSize(es: seq<seq<Byte>>)
    requires forall e | e in es :: |e| == 12
    ensures |Concat(es)| == 12 * |es|
  {
    if es != [] {
      assert es[0] in es;
      ConcatSize(es[1..]);
    }
  }

  lemma EncodedHeader(big: bool, gap: seq<Byte>, total: nat, others: seq<seq<Byte>>, entry: seq<Byte>, tail: seq<Byte>)
    requires 8 + |gap| < 0x1_0000_0000 && total < 0x1_0000
    ensures var d := EncodeTiff(big, gap, total, others, entry, tail);
            && TiffHeader(d) && BigEndian(d) == big && Ifd(d) == 8 + |gap| && EntryCount(d) == total
            && d[Ifd(d) + 2..] == Concat(others) + entry + tail
  {
    var d := EncodeTiff(big, gap, total, others, entry, tail);
    assert d[..2] == if big then MOTOROLA else INTEL;
    assert d[2..4] == Put16(big, 42);
    assert d[4..8] == Put32(big, 8 + |gap|);
    assert d[8 + |gap|..8 + |gap| + 2] == Put16(big, total);
    assert d[8 + |gap| + 2..] == Concat(others) + entry + tail;
  }

  /** Where a directory's octets are those of a list of entries, entry `i` is read back. */
  lemma EntryOf(d: seq<Byte>, es: seq<seq<Byte>>, rest: seq<Byte>, i: nat)
    requires TiffHeader(d) && d[Ifd(d) + 2..] == Concat(es) + rest && i < |es| && forall e | e in es :: |e| == 12
    ensures InBounds(d, i) && EntryAt(d, i) == es[i]
  {
    ConcatSize(es);
    ConcatAt(es, i, rest);
    SliceBehind(d, Ifd(d) + 2, 12 * i, 12 * i + 12);
  }

  lemma {:induction false} ConcatAppend(es: seq<seq<Byte>>, e: seq<Byte>)
    ensures Concat(es + [e]) == Concat(es) + e
  {
    if es == [] {
      assert Concat([e]) == e + Concat([]);
    } else {
      assert (es + [e])[1..] == es[1..] + [e];
      ConcatAppend(es[1..], e);
    }
  }

  lemma EncodedEntries(big: bool, gap: seq<Byte>, total: nat, others: seq<seq<Byte>>, entry: seq<Byte>, tail: seq<Byte>)
    requires 8 + |gap| < 0x1_0000_0000 && total < 0x1_0000
    requires |entry| == 12 && forall e | e in others :: |e| == 12
    ensures var d := EncodeTiff(big, gap, total, others, entry, tail);
            && TiffHeader(d)
            && (forall i: nat | i < |others| :: InBounds(d, i) && EntryAt(d, i) == others[i])
            && InBounds(d, |others|) && EntryAt(d, |others|) == entry
  {
    var d, es := EncodeTiff(big, gap, total, others, entry, tail), others + [entry];
    EncodedHeader(big, gap, total, others, entry, tail);
    ConcatAppend(others, entry);
    forall i: nat | i <= |others| ensures InBounds(d, i) && EntryAt(d, i) == es[i] { EntryOf(d, es, tail, i); }
  }

  lemma SliceBehind(d: seq<Byte>, at: nat, from: nat, to: nat)
    requires at <= |d| && from <= to <= |d| - at
    ensures d[at..][from..to] == d[at + from..at + to]
  {}

  lemma ShortEntryReads(big: bool, count: nat, o: nat)
    requires 1 <= count < 0x1_0000_0000 && 1 <= o <= 8
    ensures var e := ShortEntry(big, ORIENTATION_TAG, count, o);
            Tag(big, e) == ORIENTATION_TAG && EntryOrientation(big, e) == Some(o)
  {
    var e := ShortEntry(big, ORIENTATION_TAG, count, o);
    assert e[..2] == Put16(big, ORIENTATION_TAG) && e[2..4] == Put16(big, SHORT);
    assert e[4..8] == Put32(big, count) && e[8..10] == Put16(big, o);
  }

  /** In either byte order, behind any gap and any entries with other tags, an encoded orientation is
      read back. */
  lemma TiffRoundTrip(big: bool, gap: seq<Byte>, total: nat, others: seq<seq<Byte>>, count: nat, o: nat,
                      tail: seq<Byte>)
    requires 8 + |gap| < 0x1_0000_0000 && |others| < total < 0x1_0000 && 1 <= count < 0x1_0000_0000 && 1 <= o <= 8
    requires forall e | e in others :: |e| == 12 && Tag(big, e) != ORIENTATION_TAG
    ensures TiffOrientation(EncodeTiff(big, gap, total, others, ShortEntry(big, ORIENTATION_TAG, count, o), tail)) ==
            Some(o)
  {
    ShortEntryReads(big, count, o);
    FirstEncoded(big, gap, total, others, ShortEntry(big, ORIENTATION_TAG, count, o), tail);
    FirstDecides(EncodeTiff(big, gap, total, others, ShortEntry(big, ORIENTATION_TAG, count, o), tail), |others|);
  }

  lemma FirstEncoded(big: bool, gap: seq<Byte>, total: nat, others: seq<seq<Byte>>, entry: seq<Byte>, tail: seq<Byte>)
    requires 8 + |gap| < 0x1_0000_0000 && |others| < total < 0x1_0000
    requires |entry| == 12 && Tag(big, entry) == ORIENTATION_TAG
    requires forall e | e in others :: |e| == 12 && Tag(big, e) != ORIENTATION_TAG
    ensures var d := EncodeTiff(big, gap, total, others, entry, tail);
            TiffHeader(d) && BigEndian(d) == big && FirstOrientationAt(d, |others|) && EntryAt(d, |others|) == entry
  {
    var d := EncodeTiff(big, gap, total, others, entry, tail);
    EncodedHeader(big, gap, total, others, entry, tail);
    EncodedEntries(big, gap, total, others, entry, tail);
    forall i: nat | i < |others| ensures InBounds(d, i) && Tag(BigEndian(d), EntryAt(d, i)) != ORIENTATION_TAG {
      assert EntryAt(d, i) == others[i] && others[i] in others;
    }
  }

  /** A JPEG file with fill octets, any segments that carry no orientation, an Exif segment that does,
      and anything behind it: its orientation is found. */
  lemma JpegRoundTrip(before: seq<Segment>, fill: nat, tiff: seq<Byte>, o: nat, behind: seq<Byte>)
    requires forall seg | seg in before :: WellFormed(seg) && SegmentOrientation(seg) == None
    requires fill >= 1 && |tiff| + 8 < 0x1_0000 && TiffOrientation(tiff) == Some(o)
    ensures Scan(SerializeAll(before) + Serialize(Framed(fill, 0xE1, EXIF + tiff)) + behind) == o
  {
    var exif := Framed(fill, 0xE1, EXIF + tiff);
    assert exif.payload[..6] == EXIF && exif.payload[6..] == tiff;
    ScanSegment(exif, behind);
    ScanSegments(before, Serialize(exif) + behind);
    assert SerializeAll(before) + Serialize(exif) + behind == SerializeAll(before) + (Serialize(exif) + behind);
  }

  /** The octets of a TIFF block with one orientation in its directory. */
  ghost function TiffOctets(big: bool, gap: seq<Byte>, total: nat, others: seq<seq<Byte>>, count: nat, o: nat,
                            tail: seq<Byte>): seq<Byte>
    requires 8 + |gap| < 0x1_0000_0000 && total < 0x1_0000 && 1 <= count < 0x1_0000_0000 && 1 <= o <= 8
  {
    var n := 8 + |gap|;
    if big then
      [0x4D, 0x4D, 0, 0x2A] + [n / 0x100_0000, n / 0x1_0000 % 0x100, n / 0x100 % 0x100, n % 0x100] + gap
      + [total / 0x100, total % 0x100]
      + (Concat(others)
         + ([0x01, 0x12, 0, 3]
            + [count / 0x100_0000, count / 0x1_0000 % 0x100, count / 0x100 % 0x100, count % 0x100] + [0, o, 0, 0])
         + tail)
    else
      [0x49, 0x49, 0x2A, 0] + [n % 0x100, n / 0x100 % 0x100, n / 0x1_0000 % 0x100, n / 0x100_0000] + gap
      + [total % 0x100, total / 0x100]
      + (Concat(others)
         + ([0x12, 0x01, 3, 0]
            + [count % 0x100, count / 0x100 % 0x100, count / 0x1_0000 % 0x100, count / 0x100_0000] + [o, 0, 0, 0])
         + tail)
  }

  lemma EncodedOctets(big: bool, gap: seq<Byte>, total: nat, others: seq<seq<Byte>>, count: nat, o: nat,
                      tail: seq<Byte>)
    requires 8 + |gap| < 0x1_0000_0000 && total < 0x1_0000 && 1 <= count < 0x1_0000_0000 && 1 <= o <= 8
    ensures EncodeTiff(big, gap, total, others, ShortEntry(big, ORIENTATION_TAG, count, o), tail) ==
            TiffOctets(big, gap, total, others, count, o, tail)
  {
    OrientationEntry(big, count, o);
    Put16Octets(42);
    Put16Octets(total);
    Put32Octets(8 + |gap|);
    var order := if big then MOTOROLA else INTEL;
    assert order + Put16(big, 42) == if big then [0x4D, 0x4D, 0, 0x2A] else [0x49, 0x49, 0x2A, 0];
  }

  /** The bytes of a whole file: an orientation written into the directory of an Exif segment, in either
      byte order, behind any gap and any entries with other tags, and that segment behind any segments
      that carry none, with any number of fill octets, is the orientation of the file. */
  lemma FileRoundTrip(before: seq<Segment>, fill: nat, big: bool, gap: seq<Byte>, total: nat, others: seq<seq<Byte>>,
                      count: nat, o: nat, tail: seq<Byte>, behind: seq<Byte>)
    requires forall seg | seg in before :: WellFormed(seg) && SegmentOrientation(seg) == None
    requires 8 + |gap| < 0x1_0000_0000 && |others| < total < 0x1_0000 && 1 <= count < 0x1_0000_0000 && 1 <= o <= 8
    requires forall e | e in others :: |e| == 12 && e[..2] != if big then [0x01, 0x12] else [0x12, 0x01]
    requires fill >= 1 && |TiffOctets(big, gap, total, others, count, o, tail)| + 8 < 0x1_0000
    ensures var tiff := TiffOctets(big, gap, total, others, count, o, tail);
            var exif := Framed(fill, 0xE1, [0x45, 0x78, 0x69, 0x66, 0, 0] + tiff);
            OrientationOf([0xFF, 0xD8] + (SerializeAll(before) + Serialize(exif) + behind)) == o
  {
    TiffOctetsRead(big, gap, total, others, count, o, tail);
    FileOctets(before, fill, TiffOctets(big, gap, total, others, count, o, tail), o, behind);
  }

  lemma TiffOctetsRead(big: bool, gap: seq<Byte>, total: nat, others: seq<seq<Byte>>, count: nat, o: nat,
                       tail: seq<Byte>)
    requires 8 + |gap| < 0x1_0000_0000 && |others| < total < 0x1_0000 && 1 <= count < 0x1_0000_0000 && 1 <= o <= 8
    requires forall e | e in others :: |e| == 12 && e[..2] != if big then [0x01, 0x12] else [0x12, 0x01]
    ensures TiffOrientation(TiffOctets(big, gap, total, others, count, o, tail)) == Some(o)
  {
    OtherTags(big, others);
    TiffRoundTrip(big, gap, total, others, count, o, tail);
    EncodedOctets(big, gap, total, others, count, o, tail);
  }

  lemma OtherTags(big: bool, others: seq<seq<Byte>>)
    requires forall e | e in others :: |e| == 12 && e[..2] != if big then [0x01, 0x12] else [0x12, 0x01]
    ensures forall e | e in others :: |e| == 12 && Tag(big, e) != ORIENTATION_TAG
  {
    Put16Octets(ORIENTATION_TAG);
    forall e | e in others ensures |e| == 12 && Tag(big, e) != ORIENTATION_TAG { Put16Inverse(big, e[..2]); }
  }

  lemma FileOctets(before: seq<Segment>, fill: nat, tiff: seq<Byte>, o: nat, behind: seq<Byte>)
    requires forall seg | seg in before :: WellFormed(seg) && SegmentOrientation(seg) == None
    requires fill >= 1 && |tiff| + 8 < 0x1_0000 && TiffOrientation(tiff) == Some(o)
    ensures var exif := Framed(fill, 0xE1, [0x45, 0x78, 0x69, 0x66, 0, 0] + tiff);
            OrientationOf([0xFF, 0xD8] + (SerializeAll(before) + Serialize(exif) + behind)) == o
  {
    JpegRoundTrip(before, fill, tiff, o, behind);
    BehindStart(SerializeAll(before) + Serialize(Framed(fill, 0xE1, EXIF + tiff)) + behind);
  }

  /** The shortest such file, for orientation 6 in big-endian order. */
  lemma SixInThirtyFourOctets()
    ensures OrientationOf([0xFF, 0xD8, 0xFF, 0xE1, 0x00, 0x1E, 0x45, 0x78, 0x69, 0x66, 0x00, 0x00]
                          + ([0x4D, 0x4D, 0x00, 0x2A] + [0x00, 0x00, 0x00, 0x08] + [0x00, 0x01]
                             + [0x01, 0x12] + [0x00, 0x03] + [0x00, 0x00, 0x00, 0x01] + [0x00, 0x06, 0x00, 0x00])) == 6
  {
    var tiff: seq<Byte> := [0x4D, 0x4D, 0x00, 0x2A] + [0x00, 0x00, 0x00, 0x08] + [0x00, 0x01]
    + [0x01, 0x12] + [0x00, 0x03] + [0x00, 0x00, 0x00, 0x01] + [0x00, 0x06, 0x00, 0x00];
    SixInTiff(tiff);
    SixInFile([0xFF, 0xD8, 0xFF, 0xE1, 0x00, 0x1E, 0x45, 0x78, 0x69, 0x66, 0x00, 0x00] + tiff, tiff);
  }

  lemma SixInFile(data: seq<Byte>, tiff: seq<Byte>)
    requires |tiff| == 22 && TiffOrientation(tiff) == Some(6)
    requires data == [0xFF, 0xD8, 0xFF, 0xE1, 0x00, 0x1E, 0x45, 0x78, 0x69, 0x66, 0x00, 0x00] + tiff
    ensures OrientationOf(data) == 6
  {
    assert data[..2] == START_OF_IMAGE && data[4..6] == [0x00, 0x1E] && data[6..12] == EXIF && data[12..34] == tiff;
    assert data[2..][1..] == data[3..];
    ScanFramed(data, 2, 4, 30);
  }

  lemma SixInTiff(tiff: seq<Byte>)
    requires |tiff| == 22 && tiff[..4] == [0x4D, 0x4D, 0x00, 0x2A] && tiff[4..8] == [0x00, 0x00, 0x00, 0x08]
    requires tiff[8..10] == [0x00, 0x01] && tiff[10..12] == [0x01, 0x12] && tiff[12..14] == [0x00, 0x03]
    requires tiff[14..18] == [0x00, 0x00, 0x00, 0x01] && tiff[18..20] == [0x00, 0x06]
    ensures TiffOrientation(tiff) == Some(6)
  {
    U32Octets(0, 0, 0, 8);
    U32Octets(0, 0, 0, 1);
    assert ValueAt(tiff, 0, 6) by { assert tiff[0] == tiff[..4][0]; }
    TiffMeans(tiff);
  }

  lemma BehindStart(rest: seq<Byte>)
    ensures OrientationOf(START_OF_IMAGE + rest) == Scan(rest)
  {
    assert (START_OF_IMAGE + rest)[2..] == rest;
  }

  /** A file that does not begin with FF D8 is taken as it is. */
  lemma NoStart(data: seq<Byte>)
    requires |data| < 2 || data[0] != 0xFF || data[1] != 0xD8
    ensures OrientationOf(data) == 1
  {
    if |data| >= 2 { assert data[..2] == [data[0], data[1]]; }
  }
}
