/** Files and messages written by one release are read by the next: bytes of every format,
    written out. */
module FormatVectors {
  import opened DbFormat
  import opened Coding
  import Batches = WriteBatch
  import Log
  import Tables = TableFormat
  import Keys = Comparators
  import opened MemTables
  import Blocks = Block
  import Edits = EditCodec
  import Filters = FilterBlock
  import Bloom
  import opened PbMessage

  lemma WordBytes()
    ensures EncodeFixed32(0x0403_0201) == [1, 2, 3, 4] && EncodeFixed64(0x0807_0605_0403_0201) == [1, 2, 3, 4, 5, 6, 7, 8]
    ensures EncodeVarint(300) == [0xac, 0x02] && LengthPrefixed([0x61, 0x62]) == [2, 0x61, 0x62]
    ensures Mask(0) == 0xa282_ead8 && Mask(0x8001) == 0xa284_ead9
  {
  }

  /** A batch at sequence number 7 that puts "k" as "v" and deletes "k". */
  lemma BatchBytes()
    ensures Batches.Rep(7, 2, [Batches.Put([0x6b], [0x76]), Batches.Delete([0x6b])]) ==
            [7, 0, 0, 0, 0, 0, 0, 0, 2, 0, 0, 0, 1, 1, 0x6b, 1, 0x76, 0, 1, 0x6b]
  {
    var put, delete := Batches.Put([0x6b], [0x76]), Batches.Delete([0x6b]);
    SmallVarint(1);
    assert EncodeFixed64(7) == [7, 0, 0, 0, 0, 0, 0, 0] && EncodeFixed32(2) == [2, 0, 0, 0];
    hide EncodeVarint, EncodeFixed32, EncodeFixed64;
    assert Batches.EncodeOp(put) == [1, 1, 0x6b, 1, 0x76] && Batches.EncodeOp(delete) == [0, 1, 0x6b];
    hide Batches.EncodeOp;
    assert [put, delete][1..] == [delete] && [delete][1..] == [];
    assert Batches.EncodeOps([delete]) == [0, 1, 0x6b];
  }

  lemma FragmentBytes(step: CrcStep, t: Byte, payload: Bytes)
    requires |payload| < 0x100
    ensures Log.Physical(step, t, payload) == EncodeFixed32(Mask(Extend(step, step(0, t), payload))) + [|payload|, 0, t] + payload
  {
    hide Mask, EncodeFixed32;
    assert [t][1..] == [] && |payload| / 0x100 == 0 && |payload| % 0x100 == |payload|;
    assert Extend(step, 0, [t]) == Extend(step, step(0, t), []) == step(0, t);
  }

  /** The record "ab" at the beginning of a block. */
  lemma LogBytes(step: CrcStep)
    ensures Log.Encoding(step, 0, [0x61, 0x62], true) ==
            EncodeFixed32(Mask(step(step(step(0, 1), 0x61), 0x62))) + [2, 0, 1, 0x61, 0x62]
  {
    var data: Bytes := [0x61, 0x62];
    Log.EncodingFragment(step, 0, data, true, 2);
    FragmentBytes(step, 1, data);
    assert data[..2] == data && data[1..] == [0x62] && [0x62 as Byte][1..] == [];
    assert Extend(step, step(0, 1), data) == step(step(step(0, 1), 0x61), 0x62);
  }

  /** The record "a" where only a header has room, and where not even that has. */
  lemma LogBytesAtEnd(step: CrcStep)
    ensures Log.Encoding(step, 32761, [0x61], true) ==
            EncodeFixed32(Mask(step(0, 2))) + [0, 0, 2] + EncodeFixed32(Mask(step(step(0, 4), 0x61))) + [1, 0, 4, 0x61]
    ensures Log.Encoding(step, 32766, [0x61], true) == [0, 0] + EncodeFixed32(Mask(step(step(0, 1), 0x61))) + [1, 0, 1, 0x61]
  {
    hide Mask, EncodeFixed32, Log.Physical, Log.Encoding;
    var data: Bytes := [0x61];
    assert data[..0] == [] && data[0..] == data && data[..1] == data && data[1..] == [];
    Log.EncodingFragment(step, 32761, data, true, 0);
    Log.EncodingFragment(step, 32768, data, false, 1);
    Log.EncodingTrailer(step, 32766, data, true);
    Log.EncodingFragment(step, 32768, data, true, 1);
    FragmentBytes(step, 2, []);
    FragmentBytes(step, 4, data);
    FragmentBytes(step, 1, data);
    assert Zeros(2) == [0, 0];
    assert Extend(step, step(0, 4), data) == step(step(0, 4), 0x61) && Extend(step, step(0, 1), data) == step(step(0, 1), 0x61);
  }

  lemma SmallVarint(n: nat)
    requires n < 128
    ensures EncodeVarint(n) == [n]
  {
  }

  lemma TableBytes(step: CrcStep)
    ensures Tables.FooterBytes(Tables.BlockHandle(1, 2), Tables.BlockHandle(300, 4)) ==
            [1, 2, 0xac, 0x02, 4] + Zeros(35) + [0x57, 0xfb, 0x80, 0x8b, 0x24, 0x75, 0x47, 0xdb]
    ensures Tables.Trailer(step, [0x61]) == [0] + EncodeFixed32(Mask(step(step(0, 0x61), 0)))
  {
    WordBytes();
    SmallVarint(1);
    SmallVarint(2);
    SmallVarint(4);
    Tables.MagicBytes();
    Tables.MagicWords(Tables.kTableMagicNumber % 0x1_0000_0000, Tables.kTableMagicNumber / 0x1_0000_0000);
    hide EncodeVarint, EncodeFixed32, Mask;
    assert Tables.HandleBytes(Tables.BlockHandle(1, 2)) + Tables.HandleBytes(Tables.BlockHandle(300, 4)) == [1, 2, 0xac, 0x02, 4];
    assert [0x61 as Byte][1..] == [] && [0 as Byte][1..] == [];
  }

  /** The key "k" at sequence number 0x102. */
  lemma KeyBytes()
    ensures Keys.InternalBytes([0x6b], Keys.PackSequenceAndType(0x102, 1)) == [0x6b, 1, 2, 1, 0, 0, 0, 0, 0]
    ensures Keys.InternalBytes([0x6b], Keys.PackSequenceAndType(0x102, 0)) == [0x6b, 0, 2, 1, 0, 0, 0, 0, 0]
  {
  }

  /** Its records in a memtable. */
  lemma RecordBytes()
    ensures Encoded(Record([0x6b], 0x102, Some([0x76]))) == [9, 0x6b, 1, 2, 1, 0, 0, 0, 0, 0, 1, 0x76]
    ensures Encoded(Record([0x6b], 0x102, None)) == [9, 0x6b, 0, 2, 1, 0, 0, 0, 0, 0, 0]
  {
    hide Keys.InternalBytes, EncodeFixed64;
    KeyBytes();
    SmallVarint(9);
    SmallVarint(1);
    SmallVarint(0);
    hide EncodeVarint;
    assert KeyOf(Record([0x6b], 0x102, Some([0x76]))) == [0x6b, 1, 2, 1, 0, 0, 0, 0, 0];
    assert KeyOf(Record([0x6b], 0x102, None)) == [0x6b, 0, 2, 1, 0, 0, 0, 0, 0];
  }

  ghost function TwoPairs(): Blocks.Layout {
    Blocks.Layout([Blocks.Pair([0x61, 0x61], [1]), Blocks.Pair([0x61, 0x62], [2])], [0, 1], [0])
  }

  lemma TwoPairsOk()
    ensures Blocks.LayoutOk(TwoPairs())
  {
    var l := TwoPairs();
    assert Blocks.EntryOk(l, 0) && Blocks.EntryOk(l, 1);
  }

  lemma EntryBytes()
    ensures Blocks.EntryBytes(0, TwoPairs().kvs[0]) == [0, 2, 1, 0x61, 0x61, 1]
    ensures Blocks.EntryBytes(1, TwoPairs().kvs[1]) == [1, 1, 1, 0x62, 2]
  {
    SmallVarint(0);
    SmallVarint(1);
    SmallVarint(2);
    hide EncodeVarint;
  }

  lemma DataBytes()
    requires Blocks.LayoutOk(TwoPairs())
    ensures Blocks.DataUpTo(TwoPairs(), 0) == [] && Blocks.Data(TwoPairs()) == [0, 2, 1, 0x61, 0x61, 1, 1, 1, 1, 0x62, 2]
  {
    EntryBytes();
    hide Blocks.LayoutOk, Blocks.EntryBytes;
    var l := TwoPairs();
    assert Blocks.DataUpTo(l, 1) == Blocks.DataUpTo(l, 0) + Blocks.EntryOf(l, 0);
    assert Blocks.DataUpTo(l, 2) == Blocks.DataUpTo(l, 1) + Blocks.EntryOf(l, 1);
  }

  /** "aa" and "ab" in one block, the second sharing its first byte with the first. */
  lemma BlockBytes()
    ensures Blocks.Fits(TwoPairs())
    ensures Blocks.Contents(TwoPairs()) == [0, 2, 1, 0x61, 0x61, 1, 1, 1, 1, 0x62, 2, 0, 0, 0, 0, 1, 0, 0, 0]
  {
    TwoPairsOk();
    DataBytes();
    assert Blocks.Fixed32s([0]) == [] + [0, 0, 0, 0];
    hide Blocks.LayoutOk, Blocks.Data, Blocks.DataUpTo, Blocks.Fixed32s;
    assert Blocks.RestartOffsets(TwoPairs()) == [0];
  }

  /** Every kind of item once. */
  lemma EditBytes()
    ensures Edits.ItemBytes(Edits.Comparator([0x63])) == [1, 1, 0x63] && Edits.ItemBytes(Edits.LogNumber(2)) == [2, 2]
    ensures Edits.ItemBytes(Edits.NextFileNumber(3)) == [3, 3] && Edits.ItemBytes(Edits.LastSequence(300)) == [4, 0xac, 0x02]
    ensures Edits.ItemBytes(Edits.CompactPointer(1, [0x70])) == [5, 1, 1, 0x70] && Edits.ItemBytes(Edits.DeletedFile(0, 5)) == [6, 0, 5]
    ensures Edits.ItemBytes(Edits.AddedFile(6, Edits.NewFile(7, 8, [0x61], [0x62]))) == [7, 6, 7, 8, 1, 0x61, 1, 0x62]
    ensures Edits.ItemBytes(Edits.PrevLogNumber(0)) == [9, 0]
  {
    WordBytes();
    forall n: nat | n < 128
      ensures EncodeVarint(n) == [n]
    {
    }
    hide EncodeVarint;
  }

  /** A filter block without filters. */
  lemma FilterBytes(hash: Bloom.Hash)
    ensures Filters.IsFilterBlock(hash, 10, [], [0, 0, 0, 0, 11])
  {
    assert Filters.StoredAs(hash, 10, [], [], [], [0, 0, 0, 0, 11]);
  }

  /** The examples of the guide "Encoding" of Protocol Buffers. */
  lemma VarintBytes()
    ensures EncodeSlot(Field(1, Optional, Varint(4)), Maybe(Some(Int(150)))) == [0x08, 0x96, 0x01]
    ensures EncodeSlot(Field(1, Required, Svarint(4)), Single(Int(-1))) == [0x08, 0x01]
    ensures EncodeSlot(Field(1, Required, Varint(4)), Single(Int(-1))) ==
            [0x08, 0xff, 0xff, 0xff, 0xff, 0xff, 0xff, 0xff, 0xff, 0xff, 0x01]
  {
    MinusOne();
    SmallVarint(1);
    SmallVarint(8);
    OneFifty();
    hide EncodeVarint;
  }

  lemma OneFifty()
    ensures EncodeVarint(150) == [0x96, 0x01]
  {
  }

  lemma MinusOne()
    ensures EncodeVarint(0xffff_ffff_ffff_ffff) == [0xff, 0xff, 0xff, 0xff, 0xff, 0xff, 0xff, 0xff, 0xff, 0x01]
  {
    SmallVarint(1);
    SevenOnes(0x01);
    SevenOnes(0xff);
    SevenOnes(0x7fff);
    SevenOnes(0x3f_ffff);
    SevenOnes(0x1fff_ffff);
    SevenOnes(0xf_ffff_ffff);
    SevenOnes(0x7ff_ffff_ffff);
    SevenOnes(0x3_ffff_ffff_ffff);
    SevenOnes(0x1ff_ffff_ffff_ffff);
    hide EncodeVarint;
  }

  lemma SevenOnes(n: nat)
    requires n > 0
    ensures EncodeVarint(128 * n + 127) == [0xff] + EncodeVarint(n)
  {
  }

  lemma FixedBytes()
    ensures EncodeSlot(Field(1, Required, Fixed64), Single(Int(1))) == [0x09, 1, 0, 0, 0, 0, 0, 0, 0]
    ensures EncodeSlot(Field(1, Required, Fixed32), Single(Int(1))) == [0x0d, 1, 0, 0, 0]
  {
    SmallVarint(9);
    SmallVarint(13);
    hide EncodeVarint;
  }

  lemma StringBytes()
    ensures EncodeSlot(Field(2, Optional, Str(8)), Maybe(Some(Raw([0x74, 0x65, 0x73, 0x74, 0x69, 0x6e, 0x67])))) ==
            [0x12, 0x07, 0x74, 0x65, 0x73, 0x74, 0x69, 0x6e, 0x67]
  {
    SmallVarint(18);
    SmallVarint(7);
    hide EncodeVarint;
  }

  lemma PackedBytes()
    ensures EncodeSlot(Field(6, Repeated(3), Uvarint(4)), Many([Int(3), Int(270), Int(86942)])) ==
            [0x32, 0x06, 0x03, 0x8e, 0x02, 0x9e, 0xa7, 0x05]
  {
    var a, b, c := Int(3), Int(270), Int(86942);
    assert EncodeVarint(270) == [0x8e, 0x02] && EncodeVarint(86942) == [0x9e, 0xa7, 0x05];
    SmallVarint(3);
    SmallVarint(6);
    SmallVarint(50);
    hide EncodeVarint;
    assert [a, b, c][1..] == [b, c] && [b, c][1..] == [c] && [c][1..] == [];
    assert EncodeItems(Uvarint(4), [c]) == [0x9e, 0xa7, 0x05];
    assert EncodeItems(Uvarint(4), [b, c]) == [0x8e, 0x02, 0x9e, 0xa7, 0x05];
    assert EncodeItems(Uvarint(4), [a, b, c]) == [0x03, 0x8e, 0x02, 0x9e, 0xa7, 0x05];
  }

  lemma SubmessageBytes()
    ensures var sub := Desc([Field(1, Optional, Varint(4))]);
            && SlotOk(Field(3, Optional, Submessage(sub)), Maybe(Some(Msg([Maybe(Some(Int(150)))]))))
            && FieldOk(Field(3, Optional, Submessage(sub)))
            && EncodeSlot(Field(3, Optional, Submessage(sub)), Maybe(Some(Msg([Maybe(Some(Int(150)))])))) == [0x1a, 0x03, 0x08, 0x96, 0x01]
  {
  }
}
