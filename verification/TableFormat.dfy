/** Table files (table/format.h, table/format.cc): block handles, the footer, and blocks with
  their type byte and checksum. The checksum is a parameter; blocks are not compressed. */
module TableFormat {
  import opened Wrappers
  import opened Keys
  import opened Coding
  import opened Varints
  import LogFormat

  type Checksum = LogFormat.Checksum

  // The extent of a block in the file.
  datatype Handle = Handle(offset: uint64, size: uint64)

  const NO_COMPRESSION: Byte := 0
  const BLOCK_TRAILER_SIZE := 5
  const MAX_HANDLE := 20
  const FOOTER_LENGTH := 48
  const MAGIC_LOW := 0x8b80_fb57
  const MAGIC_HIGH := 0xdb47_7524

  // BlockHandle::EncodeTo.
  function EncodeHandle(h: Handle): Bytes {
    EncodeVarint(h.offset) + EncodeVarint(h.size)
  }

  // BlockHandle::DecodeFrom; None for a bad handle.
  function DecodeHandle(input: Bytes): Option<Decoded<Handle>> {
    match DecodeVarint64(input)
    case None => None
    case Some(a) =>
      match DecodeVarint64(a.rest)
      case None => None
      case Some(b) => Some(Decoded(Handle(a.value, b.value), b.rest))
  }

  lemma HandleRoundTrip(h: Handle, rest: Bytes)
    ensures DecodeHandle(EncodeHandle(h) + rest) == Some(Decoded(h, rest))
  {
    assert EncodeHandle(h) + rest == EncodeVarint(h.offset) + (EncodeVarint(h.size) + rest);
    Varint64RoundTrip(h.offset, EncodeVarint(h.size) + rest);
    Varint64RoundTrip(h.size, rest);
  }

  // A varint of v takes at most n bytes if v needs at most 7 n bits.
  lemma {:induction false} VarintLength(v: nat, n: nat)
    requires n < 10 && v < VarintBound(n)
    ensures |EncodeVarint(v)| <= 10 - n
    decreases v
  {
    MoreVarint(v);
    if v >= 128 {
      assert VarintBound(n) == 128 * VarintBound(n + 1);
      VarintLength(v / 128, n + 1);
    }
  }

  lemma HandleSize(h: Handle)
    ensures |EncodeHandle(h)| <= MAX_HANDLE
  {
    BoundForAll();
    VarintLength(h.offset, 0);
    VarintLength(h.size, 0);
  }

  function Zeros(n: nat): (r: Bytes)
    ensures |r| == n
  {
    seq(n, _ => 0)
  }

  // Footer::EncodeTo: two handles, padding, the magic number.
  function EncodeFooter(metaindex: Handle, index: Handle): (r: Bytes)
    ensures |r| == FOOTER_LENGTH
  {
    HandleSize(metaindex);
    HandleSize(index);
    var handles := EncodeHandle(metaindex) + EncodeHandle(index);
    handles + Zeros(2 * MAX_HANDLE - |handles|) + EncodeFixed32(MAGIC_LOW) + EncodeFixed32(MAGIC_HIGH)
  }

  // Footer::DecodeFrom: the handles of the metaindex and of the index; None if the magic
  // number or a handle is bad.
  function DecodeFooter(input: Bytes): Option<(Handle, Handle)>
    requires |input| == FOOTER_LENGTH
  {
    if DecodeFixed32(input[FOOTER_LENGTH - 8..]) != MAGIC_LOW || DecodeFixed32(input[FOOTER_LENGTH - 4..]) != MAGIC_HIGH then
      None
    else
      match DecodeHandle(input)
      case None => None
      case Some(m) =>
        match DecodeHandle(m.rest)
        case None => None
        case Some(i) => Some((m.value, i.value))
  }

  lemma MagicAt(x: Bytes)
    requires |x| == FOOTER_LENGTH - 8
    ensures var f := x + EncodeFixed32(MAGIC_LOW) + EncodeFixed32(MAGIC_HIGH);
            DecodeFixed32(f[FOOTER_LENGTH - 8..]) == MAGIC_LOW && DecodeFixed32(f[FOOTER_LENGTH - 4..]) == MAGIC_HIGH
  {
    var lo, hi := EncodeFixed32(MAGIC_LOW), EncodeFixed32(MAGIC_HIGH);
    assert (x + lo + hi)[FOOTER_LENGTH - 8..] == lo + hi;
    assert (x + lo + hi)[FOOTER_LENGTH - 4..] == hi + [];
    Fixed32RoundTrip(MAGIC_LOW, hi);
    Fixed32RoundTrip(MAGIC_HIGH, []);
  }

  lemma FooterRoundTrip(metaindex: Handle, index: Handle)
    ensures DecodeFooter(EncodeFooter(metaindex, index)) == Some((metaindex, index))
  {
    var f, m, i := EncodeFooter(metaindex, index), EncodeHandle(metaindex), EncodeHandle(index);
    HandleSize(metaindex);
    HandleSize(index);
    var pad := Zeros(2 * MAX_HANDLE - |m + i|);
    MagicAt(m + i + pad);
    var tail := pad + EncodeFixed32(MAGIC_LOW) + EncodeFixed32(MAGIC_HIGH);
    assert f == m + (i + tail);
    HandleRoundTrip(metaindex, i + tail);
    HandleRoundTrip(index, tail);
  }

  // What WriteRawBlock appends after the contents.
  function Trailer(crc: Checksum, contents: Bytes): (r: Bytes)
    ensures |r| == BLOCK_TRAILER_SIZE
  {
    [NO_COMPRESSION] + crc(contents + [NO_COMPRESSION])
  }

  // The file holds a block with these contents at this extent.
  ghost predicate Stored(crc: Checksum, file: Bytes, h: Handle, contents: Bytes) {
    && h.size == |contents| && h.offset + h.size + BLOCK_TRAILER_SIZE <= |file|
    && file[h.offset..h.offset + h.size + BLOCK_TRAILER_SIZE] == contents + Trailer(crc, contents)
  }

  // RandomAccessFile::Read: fewer bytes at the end of the file.
  function ReadAt(file: Bytes, offset: nat, n: nat): (r: Bytes)
    ensures |r| <= n
  {
    if offset > |file| then []
    else if offset + n > |file| then file[offset..]
    else file[offset..offset + n]
  }

  // ReadBlock; None for a truncated block, a bad checksum or a block that is not stored
  // uncompressed.
  function ReadBlock(crc: Checksum, file: Bytes, h: Handle, verify: bool): Option<Bytes> {
    var n := h.size;
    var data := ReadAt(file, h.offset, n + BLOCK_TRAILER_SIZE);
    if |data| != n + BLOCK_TRAILER_SIZE then None
    else if verify && data[n + 1..] != crc(data[..n + 1]) then None
    else if data[n] != NO_COMPRESSION then None
    else Some(data[..n])
  }

  lemma ReadsStored(crc: Checksum, file: Bytes, h: Handle, contents: Bytes, verify: bool)
    requires Stored(crc, file, h, contents)
    ensures ReadBlock(crc, file, h, verify) == Some(contents)
  {
    var n, data := h.size, contents + Trailer(crc, contents);
    assert ReadAt(file, h.offset, n + BLOCK_TRAILER_SIZE) == data;
    assert data[n + 1..] == crc(contents + [NO_COMPRESSION]);
    assert data[..n + 1] == contents + [NO_COMPRESSION];
    assert data[..n] == contents;
  }

  // Writing on does not touch what is there.
  lemma StaysStored(crc: Checksum, file: Bytes, h: Handle, contents: Bytes, more: Bytes)
    requires Stored(crc, file, h, contents)
    ensures Stored(crc, file + more, h, contents)
  {
    var stop := h.offset + h.size + BLOCK_TRAILER_SIZE;
    assert (file + more)[h.offset..stop] == file[h.offset..stop];
  }

  lemma WritesStored(crc: Checksum, file: Bytes, contents: Bytes, h: Handle)
    requires h.offset == |file| && h.size == |contents|
    ensures Stored(crc, file + contents + Trailer(crc, contents), h, contents)
  {
    var block := contents + Trailer(crc, contents);
    assert file + contents + Trailer(crc, contents) == file + block;
    assert (file + block)[|file|..|file| + |block|] == block;
  }

  // ---------- what is refused ----------

  // The bytes of a block that can be used: all there, stored as they are, and under a matching
  // checksum if that is asked for.
  predicate Usable(crc: Checksum, file: Bytes, h: Handle, verify: bool) {
    && h.offset + h.size + 5 <= |file|
    && file[h.offset + h.size] == 0
    && (verify ==> file[h.offset + h.size + 1..h.offset + h.size + 5] == crc(file[h.offset..h.offset + h.size + 1]))
  }

  lemma TrailerOf(file: Bytes, at: nat, n: nat)
    requires at + n + 5 <= |file|
    ensures var data := file[at..at + n + 5];
            && data[..n] == file[at..at + n] && data[..n + 1] == file[at..at + n + 1]
            && data[n + 1..] == file[at + n + 1..at + n + 5] && data[n] == file[at + n]
  {
    var data := file[at..at + n + 5];
    assert forall i :: 0 <= i < n + 5 ==> data[i] == file[at + i];
    assert data[n + 1..] == file[at + n + 1..at + n + 5];
  }

  // ReadBlock gives the bytes of a usable block, and nothing of any other.
  lemma ReadBlockMeans(crc: Checksum, file: Bytes, h: Handle, verify: bool)
    ensures ReadBlock(crc, file, h, verify).Some? <==> Usable(crc, file, h, verify)
    ensures Usable(crc, file, h, verify) ==> ReadBlock(crc, file, h, verify) == Some(file[h.offset..h.offset + h.size])
  {
    if h.offset + h.size + 5 <= |file| {
      TrailerOf(file, h.offset, h.size);
    }
  }

  // A handle: two numbers.
  ghost predicate IsHandle(b: Bytes, p: Bytes, q: Bytes, h: Handle) {
    b == p + q && IsNumber64(p, h.offset) && IsNumber64(q, h.size)
  }

  lemma HandleMeans(b: Bytes, p: Bytes, q: Bytes, h: Handle, rest: Bytes)
    requires IsHandle(b, p, q, h)
    ensures DecodeHandle(b + rest) == Some(Decoded(h, rest))
  {
    assert b + rest == p + (q + rest);
    Varint64Means(p, q + rest);
    Varint64Means(q, rest);
  }

  lemma HandleTakes(s: Bytes) returns (b: Bytes, p: Bytes, q: Bytes)
    ensures DecodeHandle(s).Some? ==> s == b + DecodeHandle(s).value.rest && IsHandle(b, p, q, DecodeHandle(s).value.value)
  {
    p := Number64Takes(s);
    b, q := [], [];
    if DecodeHandle(s).Some? {
      q := Number64Takes(DecodeVarint64(s).value.rest);
      b := p + q;
      assert s == p + (q + DecodeHandle(s).value.rest);
    }
  }

  ghost predicate IsFooter(input: Bytes, x: Bytes, p: Bytes, q: Bytes, y: Bytes, r: Bytes, t: Bytes, rest: Bytes, m: Handle, i: Handle) {
    input == x + (y + rest) && IsHandle(x, p, q, m) && IsHandle(y, r, t, i)
  }

  // The last eight bytes of a table file.
  predicate HasMagic(input: Bytes)
    requires |input| == FOOTER_LENGTH
  {
    input[40..] == [0x57, 0xfb, 0x80, 0x8b, 0x24, 0x75, 0x47, 0xdb]
  }

  lemma MagicMeans(input: Bytes)
    requires |input| == FOOTER_LENGTH
    ensures HasMagic(input) <==> DecodeFixed32(input[40..]) == MAGIC_LOW && DecodeFixed32(input[44..]) == MAGIC_HIGH
  {
    var s := input[40..];
    assert input[44..] == s[4..];
    Fixed32Encodes(s[..4]);
    Fixed32Encodes(s[4..]);
    assert s == s[..4] + s[4..] && DecodeFixed32(s[..4]) == DecodeFixed32(s);
    assert EncodeFixed32(MAGIC_LOW) == [0x57, 0xfb, 0x80, 0x8b] && EncodeFixed32(MAGIC_HIGH) == [0x24, 0x75, 0x47, 0xdb];
  }

  // A footer is accepted exactly when it begins with two handles and ends with the magic
  // number; what lies between is not looked at.
  lemma FooterMeans(input: Bytes, m: Handle, i: Handle)
    requires |input| == FOOTER_LENGTH
    ensures DecodeFooter(input) == Some((m, i)) <==>
            HasMagic(input) && exists x, p, q, y, r, t, rest :: IsFooter(input, x, p, q, y, r, t, rest, m, i)
  {
    MagicMeans(input);
    if DecodeFooter(input) == Some((m, i)) {
      var x, p, q := HandleTakes(input);
      var more := DecodeHandle(input).value.rest;
      var y, r, t := HandleTakes(more);
      assert IsFooter(input, x, p, q, y, r, t, DecodeHandle(more).value.rest, m, i);
    }
    if x, p, q, y, r, t, rest :| IsFooter(input, x, p, q, y, r, t, rest, m, i) {
      HandleMeans(x, p, q, m, y + rest);
      HandleMeans(y, r, t, i, rest);
    }
  }
}
