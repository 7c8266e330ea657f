/** `EncodingCMPR`: the GameCube's DXT1-style compressed texture format. An
    8x8 block is stored as four 4x4 sub-blocks, each two RGB565 endpoint
    colours followed by sixteen 2-bit palette indexes packed into 32 bits. */
module EncodingCMPR {
  import opened Digits
  import opened BinaryStream
  import opened TextureColors

  const BlockWidth: nat := 8
  const BlockHeight: nat := 8
  const BitsPerColor: nat := 4
  /** The bytes one block occupies: `BitsPerColor` bits for each of its colours. */
  const BlockBytes: nat := BlockWidth * BlockHeight * BitsPerColor / 8

  /** Sixteen 2-bit fields fill a 32-bit word exactly. */
  lemma {:induction false} SixteenIndexesFillAWord()
    ensures Pow(2, 32) == Pow(4, 16) == 0x1_0000_0000
  {
    PowSquare(16);
    assert Pow(4, 1) == 4;
    assert Pow(4, 2) == 0x10;
    assert Pow(4, 3) == 0x40;
    assert Pow(4, 4) == 0x100;
    assert Pow(4, 5) == 0x400;
    assert Pow(4, 6) == 0x1000;
    assert Pow(4, 7) == 0x4000;
    assert Pow(4, 8) == 0x1_0000;
    assert Pow(4, 9) == 0x4_0000;
    assert Pow(4, 10) == 0x10_0000;
    assert Pow(4, 11) == 0x40_0000;
    assert Pow(4, 12) == 0x100_0000;
    assert Pow(4, 13) == 0x400_0000;
    assert Pow(4, 14) == 0x1000_0000;
    assert Pow(4, 15) == 0x4000_0000;
  }

  // ----- Packed indexes -----

  /** `UnpackIndexes`: index `i` is the two bits `(packed >> (15 - i) * 2) & 0b11`,
      so index 0 comes from the most significant bits. */
  function UnpackIndexes(packed: uint32): (indexes: seq<byte>)
    ensures |indexes| == 16
    ensures forall i :: 0 <= i < 16 ==> indexes[i] < 4
    ensures indexes == ToDigits(packed, 16, 4)
    ensures FromDigits(indexes, 4) == packed
  {
    var indexes := seq(16, i requires 0 <= i < 16 => (packed / Pow(2, (15 - i) * 2)) % 4);
    UnpackIsBase4(packed, indexes);
    indexes
  }

  lemma {:induction false} UnpackIsBase4(packed: uint32, indexes: seq<byte>)
    requires |indexes| == 16
    requires forall i :: 0 <= i < 16 ==> indexes[i] == (packed / Pow(2, (15 - i) * 2)) % 4
    ensures indexes == ToDigits(packed, 16, 4)
    ensures FromDigits(indexes, 4) == packed
  {
    var ds := ToDigits(packed, 16, 4);
    forall i | 0 <= i < 16
      ensures indexes[i] == ds[i]
    {
      DigitAt(packed, 16, 4, i);
      PowSquare(15 - i);
    }
    SixteenIndexesFillAWord();
    FromToDigits(packed, 16, 4);
  }

  /** The low two bits of every index, `indexes[i] & 0b11`. */
  function LowBits(indexes: seq<byte>): (low: seq<nat>)
    ensures |low| == |indexes|
    ensures forall i :: 0 <= i < |indexes| ==> low[i] == indexes[i] % 4
  {
    if |indexes| == 0 then [] else [indexes[0] % 4] + LowBits(indexes[1..])
  }

  /** The packing loop over the indexes still to pack: OR the low bits of the
      first one, shifted left by twice the number of indexes after it (for
      index `i` of sixteen, `(15 - i) * 2`), into `acc`. The shifted fields do
      not overlap, so the OR is an addition, and the loop adds the base-4
      value of the remaining low bits to its accumulator. */
  function PackFrom(rest: seq<byte>, acc: nat): (packed: nat)
    ensures packed == acc + FromDigits(LowBits(rest), 4)
    decreases |rest|
  {
    if |rest| == 0 then acc
    else
      var low, tail := LowBits(rest), LowBits(rest[1..]);
      var shifted := (rest[0] % 4) * Pow(2, (|rest| - 1) * 2);
      assert FromDigits(low, 4) == shifted + FromDigits(tail, 4) by {
        assert low == [low[0]] + tail;
        FromDigitsCons(low[0], tail, 4);
        PowSquare(|rest| - 1);
        assert |tail| == |rest| - 1;
      }
      PackFrom(rest[1..], acc + shifted)
  }

  /** `PackIndexes`: anything but sixteen indexes is an argument error;
      otherwise the low two bits of index 0 land in the most significant bits
      and those of index 15 in the least. */
  function PackIndexes(indexes: seq<byte>): (res: Result<uint32>)
    ensures res.Ok? <==> |indexes| == 16
    ensures res.Ok? ==> res.value == FromDigits(LowBits(indexes), 4)
    ensures res.Err? ==> res.error == ArgumentError
  {
    if |indexes| != 16 then Err(ArgumentError)
    else
      PackFromFitsAWord(indexes);
      Ok(PackFrom(indexes, 0))
  }

  lemma {:induction false} PackFromFitsAWord(indexes: seq<byte>)
    requires |indexes| == 16
    ensures PackFrom(indexes, 0) == FromDigits(LowBits(indexes), 4) < 0x1_0000_0000
  {
    var low := LowBits(indexes);
    assert FromDigits(low, 4) < Pow(4, 16) by {
      assert AllBelow(low, 4);
      FromDigitsBound(low, 4);
    }
    SixteenIndexesFillAWord();
  }

  /** Unpacking then packing gives back the packed word. */
  lemma {:induction false} PackUnpack(packed: uint32)
    ensures PackIndexes(UnpackIndexes(packed)) == Ok(packed)
  {
    var indexes := UnpackIndexes(packed);
    LowBitsKeepsIndexes(indexes);
    assert PackIndexes(indexes).value == FromDigits(indexes, 4);
  }

  /** Taking the low two bits changes no index below 4. */
  lemma {:induction false} LowBitsKeepsIndexes(indexes: seq<byte>)
    requires forall i :: 0 <= i < |indexes| ==> indexes[i] < 4
    ensures LowBits(indexes) == indexes
  {
    var low := LowBits(indexes);
    forall i | 0 <= i < |indexes|
      ensures low[i] == indexes[i]
    {
    }
  }

  /** Packing then unpacking gives back the low two bits of every index, which
      are the indexes themselves when they are all below 4. */
  lemma {:induction false} UnpackPack(indexes: seq<byte>)
    requires |indexes| == 16
    ensures UnpackIndexes(PackIndexes(indexes).value) == LowBits(indexes)
    ensures (forall i :: 0 <= i < 16 ==> indexes[i] < 4) ==> UnpackIndexes(PackIndexes(indexes).value) == indexes
  {
    var low := LowBits(indexes);
    SixteenIndexesFillAWord();
    ToFromDigits(low, 4);
    if forall i :: 0 <= i < 16 ==> indexes[i] < 4 {
      LowBitsKeepsIndexes(indexes);
    }
  }

  /** Packing reads only the low two bits of each index. */
  lemma {:induction false} PackUsesLowBits(indexes: seq<byte>, other: seq<byte>)
    requires |indexes| == |other| == 16
    requires forall i :: 0 <= i < 16 ==> indexes[i] % 4 == other[i] % 4
    ensures PackIndexes(indexes) == PackIndexes(other)
  {
    assert LowBits(indexes) == LowBits(other);
  }

  // ----- Quadrants -----

  /** A pixel of the 8x8 block: quadrant `(qx, qy)` of the 2x2 grid of
      quadrants, and position `(x, y)` inside that 4x4 quadrant. */
  datatype Pixel = Pixel(qx: nat, qy: nat, x: nat, y: nat)
  {
    predicate Valid() { qx < 2 && qy < 2 && x < 4 && y < 4 }
  }

  /** `blockIndex8x8 = x + y * 8 + (qx * 4 + qy * 32)`: the pixel's index in
      the row-major 8x8 block. */
  function PixelIndex(p: Pixel): (i: nat)
    requires p.Valid()
    ensures i < BlockWidth * BlockHeight
  {
    p.x + p.y * 8 + (p.qx * 4 + p.qy * 32)
  }

  /** The inverse of `PixelIndex`: column `i % 8` and row `i / 8` of the block,
      each split into a quadrant and an offset. */
  function Locate(i: nat): (p: Pixel)
    requires i < BlockWidth * BlockHeight
    ensures p.Valid()
  {
    Pixel((i % 8) / 4, (i / 8) / 4, i % 4, (i / 8) % 4)
  }

  /** Every pixel's index leads back to the pixel. */
  lemma {:induction false} LocatePixelIndex(p: Pixel)
    requires p.Valid()
    ensures Locate(PixelIndex(p)) == p
  {
    var i := PixelIndex(p);
    var col, row := p.qx * 4 + p.x, p.qy * 4 + p.y;
    assert i == row * 8 + col;
    assert i == (row * 2 + p.qx) * 4 + p.x;
    DivModOf(row, col, 8);
    DivModOf(row * 2 + p.qx, p.x, 4);
    DivModOf(p.qx, p.x, 4);
    DivModOf(p.qy, p.y, 4);
  }

  /** Every index of the block is the index of its located pixel: the
      quadrant loops together visit each of the 64 pixels. */
  lemma {:induction false} PixelIndexLocate(i: nat)
    requires i < BlockWidth * BlockHeight
    ensures PixelIndex(Locate(i)) == i
  {
  }

  /** Quadrants are handled in the loop order: `qy` outer, `qx` inner. */
  function QuadrantPixel(q: nat, j: nat): (p: Pixel)
    requires q < 4 && j < 16
    ensures p.Valid()
  {
    Pixel(q % 2, q / 2, j % 4, j / 4)
  }

  /** `blockIndex4x4 = x + y * 4`: the pixel's index inside its quadrant. */
  function QuadrantIndex(p: Pixel): (q: nat)
    requires p.Valid()
    ensures q < 4
  {
    p.qx + p.qy * 2
  }

  function SubIndex(p: Pixel): (j: nat)
    requires p.Valid()
    ensures j < 16
  {
    p.x + p.y * 4
  }

  lemma {:induction false} QuadrantPixelInverse(q: nat, j: nat, p: Pixel)
    requires q < 4 && j < 16 && p.Valid()
    ensures QuadrantPixel(q, j) == p <==> QuadrantIndex(p) == q && SubIndex(p) == j
  {
    if QuadrantIndex(p) == q && SubIndex(p) == j {
      DivModOf(p.qy, p.qx, 2);
      DivModOf(p.y, p.x, 4);
    }
  }

  /** The colours of quadrant `q` gathered from the 8x8 block, in 4x4 order:
      the inner loop of `WriteBlock`. */
  function Gather<C>(colors: seq<C>, q: nat): (quadrant: seq<C>)
    requires |colors| >= BlockWidth * BlockHeight && q < 4
    ensures |quadrant| == 16
    ensures forall j :: 0 <= j < 16 ==> quadrant[j] == colors[PixelIndex(QuadrantPixel(q, j))]
  {
    seq(16, j requires 0 <= j < 16 => colors[PixelIndex(QuadrantPixel(q, j))])
  }

  /** The 8x8 block the quadrant loops of `ReadBlock` fill in: every pixel
      holds the colour its quadrant gives it. */
  function Scatter<C>(quadrants: seq<seq<C>>): (colors: seq<C>)
    requires |quadrants| == 4 && forall q :: 0 <= q < 4 ==> |quadrants[q]| == 16
    ensures |colors| == BlockWidth * BlockHeight
    ensures forall p: Pixel {:trigger PixelIndex(p)} :: p.Valid() ==>
      colors[PixelIndex(p)] == quadrants[QuadrantIndex(p)][SubIndex(p)]
  {
    var colors := seq(64, i requires 0 <= i < 64 =>
      var p := Locate(i); quadrants[QuadrantIndex(p)][SubIndex(p)]);
    forall p: Pixel | p.Valid()
      ensures colors[PixelIndex(p)] == quadrants[QuadrantIndex(p)][SubIndex(p)]
    {
      LocatePixelIndex(p);
    }
    colors
  }

  /** Gathering a quadrant out of a scattered block gives back the quadrant. */
  lemma {:induction false} GatherScatter<C>(quadrants: seq<seq<C>>, q: nat)
    requires |quadrants| == 4 && forall k :: 0 <= k < 4 ==> |quadrants[k]| == 16
    requires q < 4
    ensures Gather(Scatter(quadrants), q) == quadrants[q]
  {
    var gathered := Gather(Scatter(quadrants), q);
    forall j | 0 <= j < 16
      ensures gathered[j] == quadrants[q][j]
    {
      var p := QuadrantPixel(q, j);
      QuadrantPixelInverse(q, j, p);
    }
  }

  /** Scattering the four gathered quadrants rebuilds the 8x8 block. */
  lemma {:induction false} ScatterGather<C>(colors: seq<C>)
    requires |colors| >= BlockWidth * BlockHeight
    ensures Scatter(seq(4, q requires 0 <= q < 4 => Gather(colors, q))) == colors[..BlockWidth * BlockHeight]
  {
    var quadrants := seq(4, q requires 0 <= q < 4 => Gather(colors, q));
    var block := Scatter(quadrants);
    forall i | 0 <= i < 64
      ensures block[i] == colors[i]
    {
      var p := Locate(i);
      PixelIndexLocate(i);
      QuadrantPixelInverse(QuadrantIndex(p), SubIndex(p), p);
    }
  }

  // ----- Palette -----

  /** `GetCmprPalette`: the two endpoints, then two colours between them when
      `c0 > c1` (four-colour mode), or their midpoint and transparent black
      `TextureColor(0)` otherwise (three-colour mode). */
  function GetCmprPalette<C>(c0: uint16, c1: uint16, ops: ColorOps<C>): (palette: seq<C>)
    ensures |palette| == 4
    ensures palette[0] == ops.fromRGB565(c0) && palette[1] == ops.fromRGB565(c1)
    ensures c0 > c1 ==>
      && palette[2] == ops.lerp(palette[0], palette[1], OneThird)
      && palette[3] == ops.lerp(palette[0], palette[1], TwoThirds)
    ensures c0 <= c1 ==>
      && palette[2] == ops.lerp(palette[0], palette[1], OneHalf)
      && palette[3] == ops.fromRaw(0)
  {
    var e0, e1 := ops.fromRGB565(c0), ops.fromRGB565(c1);
    if c0 > c1 then [e0, e1, ops.lerp(e0, e1, OneThird), ops.lerp(e0, e1, TwoThirds)]
    else [e0, e1, ops.lerp(e0, e1, OneHalf), ops.fromRaw(0)]
  }

  // ----- Sub-blocks -----

  /** One 4x4 sub-block as stored: the endpoint colours and the packed indexes. */
  datatype SubBlock = SubBlock(c0: uint16, c1: uint16, packed: uint32)

  /** The eight bytes of a sub-block as `WriteBlock` writes them: `c0` in the
      first two, `c1` in the next two, the packed indexes in the last four. */
  function EncodeSubBlock(s: SubBlock): (bs: seq<byte>)
    ensures |bs| == 8
    ensures DecodeUInt16(bs[..2]) == s.c0 && DecodeUInt16(bs[2..4]) == s.c1
    ensures DecodeUInt32(bs[4..]) == s.packed
  {
    var bs := EncodeUInt16(s.c0) + EncodeUInt16(s.c1) + EncodeUInt32(s.packed);
    assert bs[..2] == EncodeUInt16(s.c0) && bs[2..4] == EncodeUInt16(s.c1);
    assert bs[4..] == EncodeUInt32(s.packed);
    DecodeEncodeUInt16(s.c0);
    DecodeEncodeUInt16(s.c1);
    DecodeEncodeUInt32(s.packed);
    bs
  }

  /** The concatenated encodings of `subs`, in order. */
  function EncodeSubBlocks(subs: seq<SubBlock>): (bs: seq<byte>)
    ensures |bs| == 8 * |subs|
  {
    if |subs| == 0 then [] else EncodeSubBlock(subs[0]) + EncodeSubBlocks(subs[1..])
  }

  /** Sub-block `k` occupies bytes `8 * k` to `8 * k + 8` of the encoding. */
  lemma {:induction false} EncodeSubBlocksLayout(subs: seq<SubBlock>)
    ensures forall k :: 0 <= k < |subs| ==>
      EncodeSubBlocks(subs)[8 * k..8 * k + 8] == EncodeSubBlock(subs[k])
  {
    forall k | 0 <= k < |subs|
      ensures EncodeSubBlocks(subs)[8 * k..8 * k + 8] == EncodeSubBlock(subs[k])
    {
      EncodeSubBlocksAt(subs, k);
    }
  }

  lemma {:induction false} EncodeSubBlocksAt(subs: seq<SubBlock>, k: nat)
    requires k < |subs|
    ensures EncodeSubBlocks(subs)[8 * k..8 * k + 8] == EncodeSubBlock(subs[k])
    decreases k
  {
    var head, tail := EncodeSubBlock(subs[0]), EncodeSubBlocks(subs[1..]);
    assert EncodeSubBlocks(subs) == head + tail;
    if k == 0 {
      assert (head + tail)[..8] == head;
    } else {
      EncodeSubBlocksAt(subs[1..], k - 1);
      ShiftedSlice(head, tail, 8 * (k - 1), 8);
      assert subs[1..][k - 1] == subs[k];
    }
  }

  /** The sub-block eight bytes encode: `c0`, `c1`, then the packed indexes. */
  function DecodeSubBlockBytes(bs: seq<byte>): (s: SubBlock)
    requires |bs| == 8
    ensures EncodeSubBlock(s) == bs
  {
    var s := SubBlock(DecodeUInt16(bs[..2]), DecodeUInt16(bs[2..4]), DecodeUInt32(bs[4..]));
    EncodeDecodeUInt16(bs[..2]);
    EncodeDecodeUInt16(bs[2..4]);
    EncodeDecodeUInt32(bs[4..]);
    assert bs == bs[..2] + bs[2..4] + bs[4..];
    s
  }

  /** One quadrant's reads in `ReadBlock`: eight bytes holding `c0`, `c1` and
      the packed indexes. */
  function ReadSubBlock(r: Reader): (res: Result<(SubBlock, Reader)>)
    ensures res.Ok? <==> r.pos + 8 <= |r.data|
    ensures res.Ok? ==> res.value.1 == Reader(r.data, r.pos + 8)
    ensures res.Err? ==> res.error == EndOfStream
  {
    var b := ReadBytes(r, 8);
    if b.Err? then Err(b.error)
    else Ok((DecodeSubBlockBytes(b.value.0), b.value.1))
  }

  /** `ReadSubBlock` is the three reads `ReadBlock` makes in turn: a 16-bit
      `c0`, a 16-bit `c1` and the 32-bit packed indexes. */
  lemma {:induction false} ReadSubBlockIsThreeReads(r: Reader)
    requires r.pos + 8 <= |r.data|
    ensures
      var (c0, r1) := ReadUInt16(r).value;
      var (c1, r2) := ReadUInt16(r1).value;
      var (packed, r3) := ReadUInt32(r2).value;
      ReadSubBlock(r) == Ok((SubBlock(c0, c1, packed), r3))
  {
    var s := ReadSubBlock(r).value.0;
    ReadSubBlockEncoding(r);
    SplitSlice(r.data, r.pos, r.pos + 8, EncodeUInt16(s.c0), EncodeUInt16(s.c1) + EncodeUInt32(s.packed));
    SplitSlice(r.data, r.pos + 2, r.pos + 8, EncodeUInt16(s.c1), EncodeUInt32(s.packed));
    ReadUInt16At(r.data, r.pos, s.c0);
    ReadUInt16At(r.data, r.pos + 2, s.c1);
    ReadUInt32At(r.data, r.pos + 4, s.packed);
  }

  /** The sub-block read is what its eight bytes encode. */
  lemma {:induction false} ReadSubBlockEncoding(r: Reader)
    requires ReadSubBlock(r).Ok?
    ensures EncodeSubBlock(ReadSubBlock(r).value.0) == r.data[r.pos..r.pos + 8]
  {
  }

  /** A sub-block is read back from its encoding. */
  lemma {:induction false} ReadSubBlockAt(data: seq<byte>, pos: nat, s: SubBlock)
    requires pos + 8 <= |data|
    requires data[pos..pos + 8] == EncodeSubBlock(s)
    ensures ReadSubBlock(Reader(data, pos)) == Ok((s, Reader(data, pos + 8)))
  {
    var s' := ReadSubBlock(Reader(data, pos)).value.0;
    EncodeSubBlockInjective(s, s');
  }

  /** Distinct sub-blocks have distinct encodings. */
  lemma {:induction false} EncodeSubBlockInjective(s: SubBlock, t: SubBlock)
    requires EncodeSubBlock(s) == EncodeSubBlock(t)
    ensures s == t
  {
    var bs := EncodeSubBlock(s);
    assert EncodeUInt16(s.c0) == bs[..2] == EncodeUInt16(t.c0);
    assert EncodeUInt16(s.c1) == bs[2..4] == EncodeUInt16(t.c1);
    assert EncodeUInt32(s.packed) == bs[4..] == EncodeUInt32(t.packed);
    DecodeEncodeUInt16(s.c0);
    DecodeEncodeUInt16(t.c0);
    DecodeEncodeUInt16(s.c1);
    DecodeEncodeUInt16(t.c1);
    DecodeEncodeUInt32(s.packed);
    DecodeEncodeUInt32(t.packed);
  }

  /** The four quadrants' sub-blocks, read one after another. */
  function ReadSubBlocks(r: Reader, count: nat): (res: Result<(seq<SubBlock>, Reader)>)
    ensures res.Ok? <==> count == 0 || r.pos + 8 * count <= |r.data|
    ensures res.Ok? ==>
      var (subs, r') := res.value;
      |subs| == count && r' == Reader(r.data, r.pos + 8 * count)
    ensures res.Err? ==> res.error == EndOfStream
    decreases count
  {
    if count == 0 then Ok(([], r))
    else
      var first := ReadSubBlock(r);
      if first.Err? then Err(first.error)
      else
        var rest := ReadSubBlocks(first.value.1, count - 1);
        if rest.Err? then Err(rest.error)
        else Ok(([first.value.0] + rest.value.0, rest.value.1))
  }

  /** Sub-blocks are read back from their encoding. */
  lemma {:induction false} ReadSubBlocksAt(data: seq<byte>, pos: nat, subs: seq<SubBlock>)
    requires pos + 8 * |subs| <= |data|
    requires data[pos..pos + 8 * |subs|] == EncodeSubBlocks(subs)
    ensures ReadSubBlocks(Reader(data, pos), |subs|) == Ok((subs, Reader(data, pos + 8 * |subs|)))
  {
    EncodedSubBlocksAt(data, pos, subs);
    ReadSubBlocksFrom(data, pos, subs, 0);
    assert subs[0..] == subs;
  }

  /** The read of sub-block `j` of a run of sub-blocks that starts at `pos`. */
  ghost function SubBlockRead(data: seq<byte>, pos: nat, j: nat): Result<(SubBlock, Reader)>
  {
    ReadSubBlock(Reader(data, pos + 8 * j))
  }

  /** Each sub-block of `subs` is read, in turn, from the stream starting at `pos`. */
  ghost predicate SubBlocksAt(data: seq<byte>, pos: nat, subs: seq<SubBlock>)
  {
    forall j {:trigger SubBlockRead(data, pos, j)} :: 0 <= j < |subs| ==>
      SubBlockRead(data, pos, j) == Ok((subs[j], Reader(data, pos + 8 * (j + 1))))
  }

  /** Every sub-block of an encoding is read from its own eight bytes. */
  lemma {:induction false} EncodedSubBlocksAt(data: seq<byte>, pos: nat, subs: seq<SubBlock>)
    requires pos + 8 * |subs| <= |data|
    requires data[pos..pos + 8 * |subs|] == EncodeSubBlocks(subs)
    ensures SubBlocksAt(data, pos, subs)
  {
    forall j | 0 <= j < |subs|
      ensures SubBlockRead(data, pos, j) == Ok((subs[j], Reader(data, pos + 8 * (j + 1))))
    {
      SubBlockAtIndex(data, pos, subs, j);
    }
  }

  /** Sub-block `k` of an encoding is read from its own eight bytes. */
  lemma {:induction false} SubBlockAtIndex(data: seq<byte>, pos: nat, subs: seq<SubBlock>, k: nat)
    requires k < |subs|
    requires pos + 8 * |subs| <= |data|
    requires data[pos..pos + 8 * |subs|] == EncodeSubBlocks(subs)
    ensures ReadSubBlock(Reader(data, pos + 8 * k)) == Ok((subs[k], Reader(data, pos + 8 * (k + 1))))
  {
    EncodeSubBlocksAt(subs, k);
    InnerSlice(data, pos, pos + 8 * |subs|, 8 * k, 8 * k + 8);
    ReadSubBlockAt(data, pos + 8 * k, subs[k]);
  }

  /** Reading the sub-blocks from the start of sub-block `k` yields sub-blocks
      `k` onwards. */
  lemma {:induction false} ReadSubBlocksFrom(data: seq<byte>, pos: nat, subs: seq<SubBlock>, k: nat)
    requires k <= |subs|
    requires SubBlocksAt(data, pos, subs)
    ensures ReadSubBlocks(Reader(data, pos + 8 * k), |subs| - k)
      == Ok((subs[k..], Reader(data, pos + 8 * |subs|)))
    decreases |subs| - k
  {
    if k == |subs| {
      assert subs[k..] == [];
    } else {
      assert SubBlockRead(data, pos, k) == Ok((subs[k], Reader(data, pos + 8 * (k + 1))));
      ReadSubBlocksFrom(data, pos, subs, k + 1);
      var next, end := pos + 8 * (k + 1), pos + 8 * |subs|;
      assert ReadSubBlocks(Reader(data, next), |subs| - (k + 1)) == Ok((subs[k + 1..], Reader(data, end)));
      SubBlocksConsSlice(subs, k);
      assert ReadSubBlocks(Reader(data, pos + 8 * k), |subs| - k)
        == Ok(([subs[k]] + subs[k + 1..], Reader(data, end)));
    }
  }

  lemma {:induction false} SubBlocksConsSlice(subs: seq<SubBlock>, k: nat)
    requires k < |subs|
    ensures subs[k..] == [subs[k]] + subs[k + 1..]
  {
  }

  /** The sixteen colours of a sub-block, in 4x4 order: each index picks from
      the palette of the endpoints. */
  function DecodeSubBlock<C>(s: SubBlock, ops: ColorOps<C>): (colors: seq<C>)
    ensures |colors| == 16
    ensures forall j :: 0 <= j < 16 ==>
      colors[j] == GetCmprPalette(s.c0, s.c1, ops)[UnpackIndexes(s.packed)[j]]
  {
    var palette := GetCmprPalette(s.c0, s.c1, ops);
    var indexes := UnpackIndexes(s.packed);
    seq(16, j requires 0 <= j < 16 => palette[indexes[j]])
  }

  /** With equal endpoints, palette entries 0 and 1 coincide, so a sub-block
      whose indexes are all 0 and one whose indexes are all 1 decode to the
      same colours: the bytes of a sub-block are not recoverable from its
      colours in general. */
  lemma {:induction false} EqualEndpointsLoseIndexes<C>(c: uint16, ops: ColorOps<C>)
    ensures
      var ones := PackIndexes(seq(16, _ => 1 as byte)).value;
      && ones != 0
      && DecodeSubBlock(SubBlock(c, c, 0), ops) == DecodeSubBlock(SubBlock(c, c, ones), ops)
  {
    var oneIndexes: seq<byte> := seq(16, _ => 1 as byte);
    var ones := PackIndexes(oneIndexes).value;
    UnpackPack(oneIndexes);
    UnpackZero();
    assert UnpackIndexes(ones)[0] != UnpackIndexes(0)[0];
    LowIndexesAlike(c, 0, ones, ops);
  }

  lemma {:induction false} UnpackZero()
    ensures forall j :: 0 <= j < 16 ==> UnpackIndexes(0)[j] == 0
  {
  }

  /** With equal endpoints, indexes 0 and 1 select the same colour. */
  lemma {:induction false} LowIndexesAlike<C>(c: uint16, p: uint32, p': uint32, ops: ColorOps<C>)
    requires forall j :: 0 <= j < 16 ==> UnpackIndexes(p)[j] < 2 && UnpackIndexes(p')[j] < 2
    ensures DecodeSubBlock(SubBlock(c, c, p), ops) == DecodeSubBlock(SubBlock(c, c, p'), ops)
  {
    var palette := GetCmprPalette(c, c, ops);
    assert palette[0] == palette[1];
    var a, b := DecodeSubBlock(SubBlock(c, c, p), ops), DecodeSubBlock(SubBlock(c, c, p'), ops);
    forall j | 0 <= j < 16
      ensures a[j] == b[j]
    {
    }
  }

  // ----- Blocks -----

  /** `ReadBlock`: the four sub-blocks in quadrant order; every pixel of the
      8x8 block takes the palette colour its quadrant's index selects. */
  function ReadBlock<C>(r: Reader, ops: ColorOps<C>): (res: Result<(seq<C>, Reader)>)
    ensures res.Ok? <==> r.pos + BlockBytes <= |r.data|
    ensures res.Ok? ==>
      var (colors, r') := res.value;
      && |colors| == BlockWidth * BlockHeight
      && r' == Reader(r.data, r.pos + BlockBytes)
      && ReadSubBlocks(r, 4).Ok?
      && var subs := ReadSubBlocks(r, 4).value.0;
         forall p: Pixel {:trigger PixelIndex(p)} :: p.Valid() ==>
           colors[PixelIndex(p)] == DecodeSubBlock(subs[QuadrantIndex(p)], ops)[SubIndex(p)]
    ensures res.Err? ==> res.error == EndOfStream
  {
    var sr := ReadSubBlocks(r, 4);
    if sr.Err? then Err(sr.error)
    else
      var (subs, r') := sr.value;
      Ok((Scatter(DecodeAll(subs, ops)), r'))
  }

  /** Every sub-block decoded, in order. */
  function DecodeAll<C>(subs: seq<SubBlock>, ops: ColorOps<C>): (quadrants: seq<seq<C>>)
    ensures |quadrants| == |subs|
    ensures forall q :: 0 <= q < |subs| ==> quadrants[q] == DecodeSubBlock(subs[q], ops)
  {
    seq(|subs|, q requires 0 <= q < |subs| => DecodeSubBlock(subs[q], ops))
  }

  /** The sub-blocks `WriteBlock` hands to the compressor's output, quadrant by
      quadrant from quadrant `q` on. */
  function CompressFrom<C>(colors: seq<C>, q: nat, compress: seq<C> -> SubBlock): (subs: seq<SubBlock>)
    requires |colors| >= BlockWidth * BlockHeight && q <= 4
    ensures |subs| == 4 - q
    ensures forall k :: 0 <= k < 4 - q ==> subs[k] == compress(Gather(colors, q + k))
    decreases 4 - q
  {
    if q == 4 then [] else [compress(Gather(colors, q))] + CompressFrom(colors, q + 1, compress)
  }

  /** `WriteBlock`: for each quadrant in turn, gather its sixteen colours, let
      the compressor choose endpoints and indexes, and write them. A block with
      fewer than 64 colours fails on the first missing one. */
  function WriteBlock<C>(out: seq<byte>, colors: seq<C>, compress: seq<C> -> SubBlock): (res: Result<seq<byte>>)
    ensures res.Ok? <==> |colors| >= BlockWidth * BlockHeight
    ensures res.Ok? ==>
      && |res.value| == |out| + 32
      && res.value[..|out|] == out
      && ReadSubBlocks(Reader(res.value, |out|), 4)
           == Ok((CompressFrom(colors, 0, compress), Reader(res.value, |out| + 32)))
    ensures res.Err? ==> res.error == IndexOutOfRange
  {
    if |colors| < BlockWidth * BlockHeight then Err(IndexOutOfRange)
    else
      var subs := CompressFrom(colors, 0, compress);
      var bytes := out + EncodeSubBlocks(subs);
      assert bytes[|out|..|out| + 32] == EncodeSubBlocks(subs);
      ReadSubBlocksAt(bytes, |out|, subs);
      Ok(bytes)
  }

  /** What `ReadSubBlocks` returns is exactly what the bytes consumed encode. */
  lemma {:induction false} ReadSubBlocksEncoding(r: Reader, count: nat)
    requires count > 0
    requires ReadSubBlocks(r, count).Ok?
    ensures
      var (subs, r') := ReadSubBlocks(r, count).value;
      r'.pos <= |r.data| && EncodeSubBlocks(subs) == r.data[r.pos..r'.pos]
    decreases count
  {
    var (subs, r') := ReadSubBlocks(r, count).value;
    var (first, r1) := ReadSubBlock(r).value;
    var (rest, _) := ReadSubBlocks(r1, count - 1).value;
    assert subs == [first] + rest;
    ReadSubBlockEncoding(r);
    if count > 1 {
      ReadSubBlocksEncoding(r1, count - 1);
    }
    EncodeSubBlocksCons(r.data, r.pos, r'.pos, first, rest);
  }

  /** Gluing the encoding of one sub-block to the encoding of the rest. */
  lemma {:induction false} EncodeSubBlocksCons(data: seq<byte>, pos: nat, end: nat, first: SubBlock, rest: seq<SubBlock>)
    requires end == pos + 8 + 8 * |rest| <= |data|
    requires data[pos..pos + 8] == EncodeSubBlock(first)
    requires data[pos + 8..end] == EncodeSubBlocks(rest)
    ensures data[pos..end] == EncodeSubBlocks([first] + rest)
  {
    assert ([first] + rest)[1..] == rest;
    assert data[pos..end] == data[pos..pos + 8] + data[pos + 8..end];
  }

  /** `ReadBlock` at the encoding of four sub-blocks decodes exactly those. */
  lemma {:induction false} ReadBlockAt<C>(data: seq<byte>, pos: nat, subs: seq<SubBlock>, ops: ColorOps<C>)
    requires |subs| == 4
    requires pos + 32 <= |data|
    requires data[pos..pos + 32] == EncodeSubBlocks(subs)
    ensures ReadBlock(Reader(data, pos), ops) == Ok((Scatter(DecodeAll(subs, ops)), Reader(data, pos + 32)))
  {
    ReadSubBlocksAt(data, pos, subs);
  }

  /** A compressor lossless on every quadrant hands back the quadrants. */
  lemma {:induction false} DecodeCompressed<C>(colors: seq<C>, compress: seq<C> -> SubBlock, ops: ColorOps<C>)
    requires |colors| >= BlockWidth * BlockHeight
    requires forall q :: 0 <= q < 4 ==> DecodeSubBlock(compress(Gather(colors, q)), ops) == Gather(colors, q)
    ensures DecodeAll(CompressFrom(colors, 0, compress), ops) == seq(4, q requires 0 <= q < 4 => Gather(colors, q))
  {
  }

  /** Round trip: when the compressor is lossless on each of the block's
      quadrants, reading back a written block yields its first 64 colours. */
  lemma {:induction false} ReadWrittenBlock<C>(out: seq<byte>, colors: seq<C>, compress: seq<C> -> SubBlock,
                                               ops: ColorOps<C>, after: seq<byte>)
    requires |colors| >= BlockWidth * BlockHeight
    requires forall q :: 0 <= q < 4 ==> DecodeSubBlock(compress(Gather(colors, q)), ops) == Gather(colors, q)
    ensures WriteBlock(out, colors, compress).Ok?
    ensures
      var data := WriteBlock(out, colors, compress).value + after;
      ReadBlock(Reader(data, |out|), ops) == Ok((colors[..BlockWidth * BlockHeight], Reader(data, |out| + 32)))
  {
    var subs := CompressFrom(colors, 0, compress);
    assert WriteBlock(out, colors, compress).value == out + EncodeSubBlocks(subs);
    ReadWrittenSubBlocks(out, subs, ops, after);
    DecodeCompressed(colors, compress, ops);
    ScatterGather(colors);
  }

  /** Four sub-blocks written after `out` read back as the block they make. */
  lemma {:induction false} ReadWrittenSubBlocks<C>(out: seq<byte>, subs: seq<SubBlock>, ops: ColorOps<C>, after: seq<byte>)
    requires |subs| == 4
    ensures
      var data := out + EncodeSubBlocks(subs) + after;
      ReadBlock(Reader(data, |out|), ops) == Ok((Scatter(DecodeAll(subs, ops)), Reader(data, |out| + 32)))
  {
    SliceOfConcat(out, EncodeSubBlocks(subs), after, 32);
    ReadBlockAt(out + EncodeSubBlocks(subs) + after, |out|, subs, ops);
  }

  /** A compressor that recovers each of four sub-blocks from its decoded
      colours recovers them from the block assembled out of them. */
  lemma {:induction false} CompressDecoded<C>(subs: seq<SubBlock>, ops: ColorOps<C>, compress: seq<C> -> SubBlock)
    requires |subs| == 4
    requires forall q :: 0 <= q < 4 ==> compress(DecodeSubBlock(subs[q], ops)) == subs[q]
    ensures CompressFrom(Scatter(DecodeAll(subs, ops)), 0, compress) == subs
  {
    var quadrants := DecodeAll(subs, ops);
    var written := CompressFrom(Scatter(quadrants), 0, compress);
    forall q | 0 <= q < 4
      ensures written[q] == subs[q]
    {
      GatherScatter(quadrants, q);
    }
  }

  /** Round trip the other way: when the compressor gives back each of the
      four sub-blocks read from its decoded colours, writing the block that
      was read reproduces the bytes it was read from. (Decoding is not
      injective: equal endpoints make every index pick the same colour, so no
      compressor inverts it on all sub-blocks.) */
  lemma {:induction false} WriteReadBlock<C>(r: Reader, ops: ColorOps<C>, compress: seq<C> -> SubBlock, out: seq<byte>)
    requires ReadBlock(r, ops).Ok?
    requires forall q :: 0 <= q < 4 ==>
      compress(DecodeSubBlock(ReadSubBlocks(r, 4).value.0[q], ops)) == ReadSubBlocks(r, 4).value.0[q]
    ensures
      var (colors, r') := ReadBlock(r, ops).value;
      WriteBlock(out, colors, compress) == Ok(out + r.data[r.pos..r'.pos])
  {
    var subs := ReadSubBlocks(r, 4).value.0;
    CompressDecoded(subs, ops, compress);
    ReadSubBlocksEncoding(r, 4);
  }
}
