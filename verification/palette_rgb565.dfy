/** `PaletteRGB565`: a palette stored as one 16-bit RGB565 word per colour. */
module PaletteRGB565 {
  import opened BinaryStream
  import opened TextureColors

  /** `ReadPalette`: exactly `maxPaletteSize` colours, colour `i` converted from
      the `i`-th word read. */
  function ReadPalette<C>(r: Reader, maxPaletteSize: nat, ops: ColorOps<C>): (res: Result<(seq<C>, Reader)>)
    ensures res.Ok? <==> maxPaletteSize == 0 || r.pos + 2 * maxPaletteSize <= |r.data|
    ensures res.Ok? ==>
      var (colors, r') := res.value;
      && |colors| == maxPaletteSize
      && r' == Reader(r.data, r.pos + 2 * maxPaletteSize)
      && ReadUInt16s(r, maxPaletteSize).Ok?
      && var words := ReadUInt16s(r, maxPaletteSize).value.0;
         forall i :: 0 <= i < maxPaletteSize ==> colors[i] == ops.fromRGB565(words[i])
    ensures res.Err? ==> res.error == EndOfStream
  {
    var p := ReadUInt16s(r, maxPaletteSize);
    if p.Err? then Err(p.error)
    else
      var (words, r') := p.value;
      Ok((seq(|words|, i requires 0 <= i < |words| => ops.fromRGB565(words[i])), r'))
  }

  /** The RGB565 words of `colors`, in order. */
  function ToWords<C>(colors: seq<C>, ops: ColorOps<C>): (words: seq<uint16>)
    ensures |words| == |colors|
    ensures forall i :: 0 <= i < |colors| ==> words[i] == ops.toRGB565(colors[i])
  {
    seq(|colors|, i requires 0 <= i < |colors| => ops.toRGB565(colors[i]))
  }

  /** `WritePalette`: a palette of the wrong size fails the assertion; otherwise
      one word per colour is appended, in index order. */
  function WritePalette<C>(out: seq<byte>, colors: seq<C>, maxPaletteSize: nat, ops: ColorOps<C>)
    : (res: Result<seq<byte>>)
    ensures res.Ok? <==> |colors| == maxPaletteSize
    ensures res.Ok? ==>
      var bytes := res.value;
      && |bytes| == |out| + 2 * |colors|
      && bytes[..|out|] == out
      && ReadUInt16s(Reader(bytes, |out|), |colors|) == Ok((ToWords(colors, ops), Reader(bytes, |bytes|)))
    ensures res.Err? ==> res.error == AssertionFailed
  {
    if |colors| != maxPaletteSize then Err(AssertionFailed)
    else
      var words := ToWords(colors, ops);
      ReadEncodedUInt16s(out, words, []);
      assert out + EncodeUInt16s(words) + [] == out + EncodeUInt16s(words);
      Ok(out + EncodeUInt16s(words))
  }

  /** Round trip: when the conversions invert each other on the palette's
      colours, reading back a written palette yields the palette. */
  lemma {:induction false} ReadWrittenPalette<C>(out: seq<byte>, colors: seq<C>, ops: ColorOps<C>, after: seq<byte>)
    requires forall i :: 0 <= i < |colors| ==> ops.fromRGB565(ops.toRGB565(colors[i])) == colors[i]
    ensures WritePalette(out, colors, |colors|, ops).Ok?
    ensures
      var data := WritePalette(out, colors, |colors|, ops).value + after;
      ReadPalette(Reader(data, |out|), |colors|, ops)
        == Ok((colors, Reader(data, |out| + 2 * |colors|)))
  {
    var words := ToWords(colors, ops);
    var data := WritePalette(out, colors, |colors|, ops).value + after;
    assert data == out + EncodeUInt16s(words) + after;
    ReadEncodedUInt16s(out, words, after);
    var (read, _) := ReadPalette(Reader(data, |out|), |colors|, ops).value;
    assert read == colors;
  }

  /** Round trip the other way: when the conversions invert each other on
      every 16-bit word, writing back a palette that was read reproduces the
      bytes it was read from. */
  lemma {:induction false} WriteReadPalette<C>(r: Reader, maxPaletteSize: nat, ops: ColorOps<C>, out: seq<byte>)
    requires forall w: uint16 {:trigger ops.fromRGB565(w)} :: ops.toRGB565(ops.fromRGB565(w)) == w
    requires 0 < maxPaletteSize
    requires ReadPalette(r, maxPaletteSize, ops).Ok?
    ensures
      var (colors, r') := ReadPalette(r, maxPaletteSize, ops).value;
      WritePalette(out, colors, maxPaletteSize, ops) == Ok(out + r.data[r.pos..r'.pos])
  {
    var (colors, r') := ReadPalette(r, maxPaletteSize, ops).value;
    var words := ReadUInt16s(r, maxPaletteSize).value.0;
    ReadUInt16sEncoding(r, maxPaletteSize);
    assert ToWords(colors, ops) == words by {
      forall i | 0 <= i < maxPaletteSize
        ensures ToWords(colors, ops)[i] == words[i]
      {
        assert colors[i] == ops.fromRGB565(words[i]);
      }
    }
  }
}
