/** `EncodingCI14X2`: colour-indexed texture blocks of 4x4 pixels, each index
    stored in a 16-bit word of which only the low 14 bits are used. */
module EncodingCI14X2 {
  import opened Digits
  import opened BinaryStream

  const BlockWidth: nat := 4
  const BlockHeight: nat := 4
  const BitsPerIndex: nat := 14
  /** `1 << 14`: one palette entry per 14-bit index. */
  const MaxPaletteSize: nat := 0x4000

  lemma {:induction false} MaxPaletteSizeIsIndexRange()
    ensures MaxPaletteSize == Pow(2, BitsPerIndex) == 16384
  {
  }

  /** `index16 & 0b_00111111_11111111`: the low 14 bits of a 16-bit word. */
  function Mask14(word: uint16): (index: uint16)
    ensures index < MaxPaletteSize
    ensures word < MaxPaletteSize ==> index == word
  {
    word % 0x4000
  }

  /** Two words that differ only in bits 14 and 15 give the same index. */
  lemma {:induction false} Mask14IgnoresHighBits(high: nat, low: uint16)
    requires high < 4 && low < MaxPaletteSize
    ensures Mask14(high * MaxPaletteSize + low) == Mask14(low)
  {
  }

  /** `Mask14` applied to every word, in order. */
  function MaskAll(words: seq<uint16>): (indexes: seq<uint16>)
    ensures |indexes| == |words|
    ensures forall i :: 0 <= i < |words| ==> indexes[i] == words[i] % MaxPaletteSize
  {
    if |words| == 0 then [] else [Mask14(words[0])] + MaskAll(words[1..])
  }

  /** Masking changes no index that already fits in 14 bits. */
  lemma {:induction false} MaskAllKeepsIndexes(indexes: seq<uint16>)
    requires forall i :: 0 <= i < |indexes| ==> indexes[i] < MaxPaletteSize
    ensures MaskAll(indexes) == indexes
  {
    var masked := MaskAll(indexes);
    forall i | 0 <= i < |indexes|
      ensures masked[i] == indexes[i]
    {
    }
  }

  /** `ReadBlock`: one 16-bit word per pixel of the 4x4 block, in order, each
      reduced to its low 14 bits. */
  function ReadBlock(r: Reader): (res: Result<(seq<uint16>, Reader)>)
    ensures res.Ok? <==> r.pos + 2 * BlockWidth * BlockHeight <= |r.data|
    ensures res.Ok? ==>
      var (indexes, r') := res.value;
      && |indexes| == BlockWidth * BlockHeight
      && r' == Reader(r.data, r.pos + 2 * BlockWidth * BlockHeight)
      && (forall i :: 0 <= i < |indexes| ==> indexes[i] < MaxPaletteSize)
      && ReadUInt16s(r, 16).Ok?
      && var words := ReadUInt16s(r, 16).value.0;
         forall i :: 0 <= i < 16 ==> indexes[i] == words[i] % MaxPaletteSize
    ensures res.Err? ==> res.error == EndOfStream
  {
    var p := ReadUInt16s(r, 16);
    if p.Err? then Err(p.error)
    else Ok((MaskAll(p.value.0), p.value.1))
  }

  /** `WriteBlock`: an index of 14 bits or more fails the assertion; otherwise
      every index is appended as one 16-bit word, in array order. */
  function WriteBlock(out: seq<byte>, indexes: seq<uint16>): (res: Result<seq<byte>>)
    ensures res.Ok? <==> forall i :: 0 <= i < |indexes| ==> indexes[i] < MaxPaletteSize
    ensures res.Ok? ==>
      var bytes := res.value;
      && |bytes| == |out| + 2 * |indexes|
      && bytes[..|out|] == out
      && ReadUInt16s(Reader(bytes, |out|), |indexes|) == Ok((indexes, Reader(bytes, |bytes|)))
    ensures res.Err? ==> res.error == AssertionFailed
  {
    if exists i :: 0 <= i < |indexes| && indexes[i] >= MaxPaletteSize then Err(AssertionFailed)
    else
      ReadEncodedUInt16s(out, indexes, []);
      assert out + EncodeUInt16s(indexes) + [] == out + EncodeUInt16s(indexes);
      Ok(out + EncodeUInt16s(indexes))
  }

  /** Round trip: a block of 14-bit indexes is read back unchanged, because the
      mask is the identity below `2^14`. */
  lemma {:induction false} ReadWrittenBlock(out: seq<byte>, indexes: seq<uint16>, after: seq<byte>)
    requires |indexes| == BlockWidth * BlockHeight
    requires forall i :: 0 <= i < |indexes| ==> indexes[i] < MaxPaletteSize
    ensures WriteBlock(out, indexes).Ok?
    ensures
      var data := WriteBlock(out, indexes).value + after;
      ReadBlock(Reader(data, |out|)) == Ok((indexes, Reader(data, |out| + 32)))
  {
    var data := WriteBlock(out, indexes).value + after;
    var r := Reader(data, |out|);
    assert data == out + EncodeUInt16s(indexes) + after;
    assert ReadUInt16s(r, 16) == Ok((indexes, Reader(data, |out| + 32))) by {
      ReadEncodedUInt16s(out, indexes, after);
    }
    MaskAllKeepsIndexes(indexes);
    assert ReadBlock(r) == Ok((MaskAll(indexes), Reader(data, |out| + 32)));
  }

  /** Every block `ReadBlock` produces is accepted by `WriteBlock`, which writes
      back the bytes read with bits 14 and 15 of every word cleared. */
  lemma {:induction false} WriteReadBlock(r: Reader, out: seq<byte>)
    requires ReadBlock(r).Ok?
    ensures
      var (indexes, r') := ReadBlock(r).value;
      var words := ReadUInt16s(r, 16).value.0;
      && WriteBlock(out, indexes).Ok?
      && WriteBlock(out, indexes).value[|out|..]
           == EncodeUInt16s(MaskAll(words))
  {
    var (indexes, r') := ReadBlock(r).value;
    var words := ReadUInt16s(r, 16).value.0;
    assert indexes == MaskAll(words);
    var bytes := WriteBlock(out, indexes).value;
    assert bytes[|out|..] == EncodeUInt16s(indexes);
  }
}
