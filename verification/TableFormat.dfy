/** format.cc: block handles, the blocks of a table file with their trailers, the footer. */
module TableFormat {
  import opened DbFormat
  import opened Coding

  const kBlockTrailerSize: nat := 5
  const kMaxEncodedLength: nat := 20
  const kEncodedLength: nat := 48
  const kTableMagicNumber: Word64 := 0xdb47_7524_8b80_fb57
  const kNoCompression: Byte := 0
  const TWO64: nat := 0x1_0000_0000_0000_0000

  // ---------------------------------------------------------------- handles

  datatype BlockHandle = BlockHandle(offset: nat, size: nat)

  /** BlockHandle::EncodeTo. */
  function HandleBytes(h: BlockHandle): Bytes {
    EncodeVarint(h.offset) + EncodeVarint(h.size)
  }

  /** BlockHandle::DecodeFrom, with what it leaves of the input. */
  function DecodeHandle(s: Bytes): Option<(BlockHandle, Bytes)> {
    match DecodeVarint(s, 10)
    case None => None
    case Some((offset, rest)) =>
      match DecodeVarint(rest, 10)
      case None => None
      case Some((size, rest')) => Some((BlockHandle(offset % TWO64, size % TWO64), rest'))
  }

  lemma HandleRoundTrip(h: BlockHandle, rest: Bytes)
    requires h.offset < TWO64 && h.size < TWO64
    ensures DecodeHandle(HandleBytes(h) + rest) == Some((h, rest))
    ensures |HandleBytes(h)| <= kMaxEncodedLength
  {
    hide EncodeVarint, DecodeVarint;
    LongRoundTrip(h.offset, EncodeVarint(h.size) + rest);
    LongRoundTrip(h.size, rest);
    var a, b := EncodeVarint(h.offset), EncodeVarint(h.size);
    assert a + b + rest == a + (b + rest);
    NoWrap(h.offset);
    NoWrap(h.size);
  }

  lemma NoWrap(n: nat)
    requires n < TWO64
    ensures n % TWO64 == n
  {
  }

  lemma LongRoundTrip(n: nat, rest: Bytes)
    requires n < TWO64
    ensures DecodeVarint(EncodeVarint(n) + rest, 10) == Some((n, rest)) && |EncodeVarint(n)| <= 10
  {
    Pow128Values();
    VarintRoundTrip(n, 10, rest);
    VarintLength(n, 10);
  }

  method EncodeHandle(h: BlockHandle) returns (r: Bytes)
    ensures r == HandleBytes(h)
  {
    hide EncodeVarint;
    var a := PutVarint64(h.offset);
    var b := PutVarint64(h.size);
    r := a + b;
  }

  method DecodeHandleFrom(s: Bytes) returns (r: Option<(BlockHandle, Bytes)>)
    ensures r == DecodeHandle(s)
  {
    hide DecodeVarint;
    var a := GetVarint64(s);
    if a.None? {
      return None;
    }
    var b := GetVarint64(a.value.1);
    if b.None? {
      return None;
    }
    r := Some((BlockHandle(a.value.0, b.value.0), b.value.1));
  }

  // ---------------------------------------------------------------- blocks in a file

  /** The type byte and the masked checksum of contents and type. */
  function Trailer(step: CrcStep, contents: Bytes): (r: Bytes)
    ensures |r| == kBlockTrailerSize
  {
    [kNoCompression] + EncodeFixed32(Mask(Extend(step, CrcValue(step, contents), [kNoCompression])))
  }

  /** The file holds a block with these contents at `h`. */
  ghost predicate BlockAt(step: CrcStep, file: Bytes, h: BlockHandle, contents: Bytes) {
    && h.size == |contents| < TWO64 && h.offset < TWO64
    && h.offset + h.size + kBlockTrailerSize <= |file|
    && file[h.offset..h.offset + h.size + kBlockTrailerSize] == contents + Trailer(step, contents)
  }

  /** Appending to a file leaves its blocks where they are. */
  lemma BlockStays(step: CrcStep, file: Bytes, more: Bytes, h: BlockHandle, contents: Bytes)
    requires BlockAt(step, file, h, contents)
    ensures BlockAt(step, file + more, h, contents)
  {
    hide Trailer;
    var n := h.offset + h.size + kBlockTrailerSize;
    assert (file + more)[h.offset..n] == file[h.offset..n];
  }

  /** ReadBlock with verified checksums, for uncompressed blocks: it succeeds exactly if the
      file holds a block there, checksum and all. */
  method ReadBlock(step: CrcStep, file: Bytes, h: BlockHandle) returns (r: Option<Bytes>)
    requires h.offset < TWO64 && h.size < TWO64
    ensures forall c :: BlockAt(step, file, h, c) <==> r == Some(c)
  {
    hide EncodeFixed32, DecodeFixed32, Extend, Mask, Unmask;
    forall c | BlockAt(step, file, h, c)
      ensures ReadsAs(step, file, h, c)
    {
      StoredReads(step, file, h, c);
    }
    var n := h.size;
    // What the file has of the n + 5 bytes asked for.
    var contents := if h.offset > |file| then []
                    else if h.offset + n + kBlockTrailerSize > |file| then file[h.offset..]
                    else file[h.offset..h.offset + n + kBlockTrailerSize];
    if |contents| != n + kBlockTrailerSize {
      return None;
    }
    var crc := Unmask(DecodeFixed32(contents[n + 1..]));
    var actual := CrcValue(step, contents[..n + 1]);
    if actual != crc {
      return None;
    }
    if contents[n] != kNoCompression {
      return None;
    }
    r := Some(contents[..n]);
    ReadIsStored(step, file, h, contents[..n]);
  }

  lemma ReadIsStored(step: CrcStep, file: Bytes, h: BlockHandle, c: Bytes)
    requires h.offset < TWO64 && h.size == |c| < TWO64 && ReadsAs(step, file, h, c)
    ensures BlockAt(step, file, h, c)
  {
    hide EncodeFixed32, DecodeFixed32, Extend, Mask, Unmask;
    var n, s := h.size, file[h.offset..h.offset + h.size + kBlockTrailerSize];
    ExtendConcat(step, 0, c, [kNoCompression]);
    assert s[..n + 1] == c + [kNoCompression];
    var word := s[n + 1..];
    assert DecodeFixed32(word + []) == DecodeFixed32(word) by {
      assert word + [] == word;
    }
    MaskUnmask(DecodeFixed32(word));
    Fixed32Inverse(word);
    assert s == c + [kNoCompression] + word;
    assert c + [kNoCompression] + word == c + ([kNoCompression] + word);
  }

  /** Everything ReadBlock checks about a stored block. */
  ghost predicate ReadsAs(step: CrcStep, file: Bytes, h: BlockHandle, c: Bytes) {
    var n := h.size;
    && h.offset + n + kBlockTrailerSize <= |file|
    && var s := file[h.offset..h.offset + n + kBlockTrailerSize];
       s[..n] == c && s[n] == kNoCompression && CrcValue(step, s[..n + 1]) == Unmask(DecodeFixed32(s[n + 1..]))
  }

  lemma StoredReads(step: CrcStep, file: Bytes, h: BlockHandle, c: Bytes)
    requires BlockAt(step, file, h, c)
    ensures ReadsAs(step, file, h, c)
  {
    hide EncodeFixed32, DecodeFixed32, Extend, Mask, Unmask;
    var n, s := h.size, file[h.offset..h.offset + h.size + kBlockTrailerSize];
    var crc := Extend(step, CrcValue(step, c), [kNoCompression]);
    assert s == c + [kNoCompression] + EncodeFixed32(Mask(crc));
    assert s[..n + 1] == c + [kNoCompression];
    assert s[n + 1..] == EncodeFixed32(Mask(crc)) + [];
    Fixed32RoundTrip(Mask(crc), []);
    UnmaskMask(crc);
    ExtendConcat(step, 0, c, [kNoCompression]);
  }

  /** A block of which one byte has changed, in the contents, the type or the checksum, is
      no block any more, whatever contents one takes it for. */
  lemma DamagedBlock(step: CrcStep, file: Bytes, h: BlockHandle, c: Bytes, j: nat, b: Byte, c': Bytes)
    requires Injective(step) && BlockAt(step, file, h, c)
    requires j < h.size + kBlockTrailerSize && b != file[h.offset + j]
    ensures !BlockAt(step, file[h.offset + j := b], h, c')
  {
    hide Trailer, CrcValue, Unmask, DecodeFixed32, Injective;
    var n, x := h.size, h.offset + j;
    var file' := file[x := b];
    var s, s' := file[h.offset..h.offset + n + kBlockTrailerSize], file'[h.offset..h.offset + n + kBlockTrailerSize];
    assert s' == s[j := b];
    StoredReads(step, file, h, c);
    if j < n {
      assert s'[n + 1..] == s[n + 1..] && s'[..n + 1] == s[..n + 1][j := b];
      OneByteChanged(step, s[..n + 1], j, b);
    } else if j > n {
      assert s'[..n + 1] == s[..n + 1] && s'[n + 1..] == s[n + 1..][j - n - 1 := b];
      OtherWord(s[n + 1..], j - n - 1, b);
    }
    if BlockAt(step, file', h, c') {
      StoredReads(step, file', h, c');
    }
  }

  lemma OtherWord(word: Bytes, j: nat, b: Byte)
    requires |word| == 4 && j < 4 && b != word[j]
    ensures Unmask(DecodeFixed32(word[j := b])) != Unmask(DecodeFixed32(word))
  {
    var word' := word[j := b];
    Fixed32Inverse(word);
    Fixed32Inverse(word');
    assert word'[j] != word[j];
    MaskUnmask(DecodeFixed32(word));
    MaskUnmask(DecodeFixed32(word'));
  }

  // ---------------------------------------------------------------- footer

  /** Footer::EncodeTo: the handles, padding to 40 bytes, the magic number. */
  function FooterBytes(meta: BlockHandle, index: BlockHandle): (r: Bytes)
    requires |HandleBytes(meta)| + |HandleBytes(index)| <= 2 * kMaxEncodedLength
    ensures |r| == kEncodedLength
  {
    var handles := HandleBytes(meta) + HandleBytes(index);
    handles + Zeros(2 * kMaxEncodedLength - |handles|) + EncodeFixed32(kTableMagicNumber % 0x1_0000_0000)
    + EncodeFixed32(kTableMagicNumber / 0x1_0000_0000)
  }

  /** Footer::DecodeFrom on the last 48 bytes of a file. */
  function DecodeFooter(s: Bytes): Option<(BlockHandle, BlockHandle)>
    requires |s| == kEncodedLength
  {
    if DecodeFixed64(s[kEncodedLength - 8..]) != kTableMagicNumber then None
    else
      match DecodeHandle(s)
      case None => None
      case Some((meta, rest)) =>
        match DecodeHandle(rest)
        case None => None
        case Some((index, _)) => Some((meta, index))
  }

  lemma MagicBytes()
    ensures EncodeFixed32(0x8b80_fb57) == [0x57, 0xfb, 0x80, 0x8b] && EncodeFixed32(0xdb47_7524) == [0x24, 0x75, 0x47, 0xdb]
  {
  }

  lemma MagicWords(low: Word, high: Word)
    requires low + 0x1_0000_0000 * high == kTableMagicNumber
    ensures low == 0x8b80_fb57 && high == 0xdb47_7524
  {
  }

  /** Bytes that do not end with the magic number are no footer. */
  lemma MagicThere(s: Bytes)
    requires |s| == 48 && DecodeFooter(s).Some?
    ensures s[40..] == [0x57, 0xfb, 0x80, 0x8b, 0x24, 0x75, 0x47, 0xdb]
  {
    hide DecodeFixed32, EncodeFixed32, DecodeHandle;
    var b := s[40..];
    SameFour(b);
    Fixed32Inverse(b[..4]);
    Fixed32Inverse(b[4..]);
    MagicBytes();
    MagicWords(DecodeFixed32(b[..4]), DecodeFixed32(b[4..]));
    assert b == b[..4] + b[4..];
  }

  lemma SameFour(b: Bytes)
    requires |b| >= 4
    ensures DecodeFixed32(b) == DecodeFixed32(b[..4])
  {
  }

  lemma FooterRoundTrip(meta: BlockHandle, index: BlockHandle)
    requires meta.offset < TWO64 && meta.size < TWO64 && index.offset < TWO64 && index.size < TWO64
    ensures |HandleBytes(meta)| + |HandleBytes(index)| <= 2 * kMaxEncodedLength
    ensures DecodeFooter(FooterBytes(meta, index)) == Some((meta, index))
  {
    hide HandleBytes, DecodeHandle, EncodeFixed32, DecodeFixed64;
    HandleRoundTrip(meta, []);
    HandleRoundTrip(index, []);
    var handles := HandleBytes(meta) + HandleBytes(index);
    var magic := EncodeFixed32(kTableMagicNumber % 0x1_0000_0000) + EncodeFixed32(kTableMagicNumber / 0x1_0000_0000);
    var tail := Zeros(2 * kMaxEncodedLength - |handles|) + magic;
    var s := FooterBytes(meta, index);
    assert s == HandleBytes(meta) + (HandleBytes(index) + tail);
    HandleRoundTrip(meta, HandleBytes(index) + tail);
    HandleRoundTrip(index, tail);
    assert s[kEncodedLength - 8..] == EncodeFixed64(kTableMagicNumber) + [];
    Fixed64RoundTrip(kTableMagicNumber, []);
  }
}
