/** The binary cursor the formats are read from and written to: a reader is the
    stream's bytes together with the current absolute position, a writer is the
    output produced so far. Multi-byte words are big-endian, the GameCube's byte
    order. */
module BinaryStream {
  import opened Digits

  type byte = x: nat | x < 0x100
  type uint16 = x: nat | x < 0x1_0000
  type uint32 = x: nat | x < 0x1_0000_0000
  type uint64 = x: nat | x < 0x1_0000_0000_0000_0000

  /** The exceptions the modelled code can raise. */
  datatype Error =
    | EndOfStream       // a read past the end of the stream
    | ArgumentError     // an argument of the wrong size or sign
    | IndexOutOfRange   // an array index outside the array
    | AssertionFailed   // a failed `Assert.IsTrue`

  datatype Result<T> = Ok(value: T) | Err(error: Error)

  datatype Reader = Reader(data: seq<byte>, pos: nat)

  /** `JumpToAddress`: moving the cursor never fails; reading past the end does. */
  function Seek(r: Reader, address: nat): Reader
  {
    Reader(r.data, address)
  }

  function ReadBytes(r: Reader, n: nat): (res: Result<(seq<byte>, Reader)>)
    ensures res.Ok? <==> r.pos + n <= |r.data|
    ensures res.Ok? ==> res.value == (r.data[r.pos..r.pos + n], Reader(r.data, r.pos + n))
    ensures res.Err? ==> res.error == EndOfStream
  {
    if r.pos + n <= |r.data| then Ok((r.data[r.pos..r.pos + n], Reader(r.data, r.pos + n)))
    else Err(EndOfStream)
  }

  // Big-endian words. A word of 2n bytes is its high half followed by its low
  // half, each of n bytes.

  function EncodeUInt16(w: uint16): (bs: seq<byte>)
    ensures |bs| == 2
  {
    [w / 0x100, w % 0x100]
  }

  function DecodeUInt16(bs: seq<byte>): uint16
    requires |bs| == 2
  {
    (bs[0] as nat) * 0x100 + bs[1]
  }

  function EncodeUInt32(w: uint32): (bs: seq<byte>)
    ensures |bs| == 4
  {
    EncodeUInt16(w / 0x1_0000) + EncodeUInt16(w % 0x1_0000)
  }

  function DecodeUInt32(bs: seq<byte>): uint32
    requires |bs| == 4
  {
    DecodeUInt16(bs[..2]) * 0x1_0000 + DecodeUInt16(bs[2..])
  }

  function EncodeUInt64(w: uint64): (bs: seq<byte>)
    ensures |bs| == 8
  {
    EncodeUInt32(w / 0x1_0000_0000) + EncodeUInt32(w % 0x1_0000_0000)
  }

  function DecodeUInt64(bs: seq<byte>): uint64
    requires |bs| == 8
  {
    DecodeUInt32(bs[..4]) * 0x1_0000_0000 + DecodeUInt32(bs[4..])
  }

  lemma {:induction false} DecodeEncodeUInt16(w: uint16)
    ensures DecodeUInt16(EncodeUInt16(w)) == w
  {
  }

  lemma {:induction false} EncodeDecodeUInt16(bs: seq<byte>)
    requires |bs| == 2
    ensures EncodeUInt16(DecodeUInt16(bs)) == bs
  {
    DivModOf(bs[0], bs[1], 0x100);
  }

  lemma {:induction false} DecodeEncodeUInt32(w: uint32)
    ensures DecodeUInt32(EncodeUInt32(w)) == w
  {
    var hi, lo := EncodeUInt16(w / 0x1_0000), EncodeUInt16(w % 0x1_0000);
    assert EncodeUInt32(w)[..2] == hi && EncodeUInt32(w)[2..] == lo;
    DecodeEncodeUInt16(w / 0x1_0000);
    DecodeEncodeUInt16(w % 0x1_0000);
  }

  lemma {:induction false} EncodeDecodeUInt32(bs: seq<byte>)
    requires |bs| == 4
    ensures EncodeUInt32(DecodeUInt32(bs)) == bs
  {
    var hi, lo := DecodeUInt16(bs[..2]), DecodeUInt16(bs[2..]);
    DivModOf(hi, lo, 0x1_0000);
    EncodeDecodeUInt16(bs[..2]);
    EncodeDecodeUInt16(bs[2..]);
    assert bs == bs[..2] + bs[2..];
  }

  lemma {:induction false} DecodeEncodeUInt64(w: uint64)
    ensures DecodeUInt64(EncodeUInt64(w)) == w
  {
    var hi, lo := EncodeUInt32(w / 0x1_0000_0000), EncodeUInt32(w % 0x1_0000_0000);
    assert EncodeUInt64(w)[..4] == hi && EncodeUInt64(w)[4..] == lo;
    DecodeEncodeUInt32(w / 0x1_0000_0000);
    DecodeEncodeUInt32(w % 0x1_0000_0000);
  }

  lemma {:induction false} EncodeDecodeUInt64(bs: seq<byte>)
    requires |bs| == 8
    ensures EncodeUInt64(DecodeUInt64(bs)) == bs
  {
    var hi, lo := DecodeUInt32(bs[..4]), DecodeUInt32(bs[4..]);
    DivModOf(hi, lo, 0x1_0000_0000);
    EncodeDecodeUInt32(bs[..4]);
    EncodeDecodeUInt32(bs[4..]);
    assert bs == bs[..4] + bs[4..];
  }

  /** `ReadUInt16`: two bytes, big-endian. */
  function ReadUInt16(r: Reader): (res: Result<(uint16, Reader)>)
    ensures res.Ok? <==> r.pos + 2 <= |r.data|
    ensures res.Ok? ==>
      && res.value.1 == Reader(r.data, r.pos + 2)
      && EncodeUInt16(res.value.0) == r.data[r.pos..r.pos + 2]
    ensures res.Err? ==> res.error == EndOfStream
  {
    if r.pos + 2 > |r.data| then Err(EndOfStream)
    else
      var bs := r.data[r.pos..r.pos + 2];
      EncodeDecodeUInt16(bs);
      Ok((DecodeUInt16(bs), Reader(r.data, r.pos + 2)))
  }

  /** `ReadUInt32`: four bytes, big-endian. */
  function ReadUInt32(r: Reader): (res: Result<(uint32, Reader)>)
    ensures res.Ok? <==> r.pos + 4 <= |r.data|
    ensures res.Ok? ==>
      && res.value.1 == Reader(r.data, r.pos + 4)
      && EncodeUInt32(res.value.0) == r.data[r.pos..r.pos + 4]
    ensures res.Err? ==> res.error == EndOfStream
  {
    if r.pos + 4 > |r.data| then Err(EndOfStream)
    else
      var bs := r.data[r.pos..r.pos + 4];
      EncodeDecodeUInt32(bs);
      Ok((DecodeUInt32(bs), Reader(r.data, r.pos + 4)))
  }

  /** `ReadUInt64`: eight bytes, big-endian. */
  function ReadUInt64(r: Reader): (res: Result<(uint64, Reader)>)
    ensures res.Ok? <==> r.pos + 8 <= |r.data|
    ensures res.Ok? ==> res.value.1 == Reader(r.data, r.pos + 8)
    ensures res.Err? ==> res.error == EndOfStream
  {
    if r.pos + 8 > |r.data| then Err(EndOfStream)
    else Ok((DecodeUInt64(r.data[r.pos..r.pos + 8]), Reader(r.data, r.pos + 8)))
  }

  /** The word `ReadUInt64` returns is the one whose encoding it consumed. */
  lemma {:induction false} ReadUInt64Encoding(r: Reader)
    requires ReadUInt64(r).Ok?
    ensures EncodeUInt64(ReadUInt64(r).value.0) == r.data[r.pos..r.pos + 8]
  {
    EncodeDecodeUInt64(r.data[r.pos..r.pos + 8]);
  }

  /** A 16-bit word whose encoding sits at the cursor is read back. */
  lemma {:induction false} ReadUInt16At(data: seq<byte>, pos: nat, w: uint16)
    requires pos + 2 <= |data|
    requires data[pos..pos + 2] == EncodeUInt16(w)
    ensures ReadUInt16(Reader(data, pos)) == Ok((w, Reader(data, pos + 2)))
  {
    DecodeEncodeUInt16(w);
  }

  /** A 32-bit word whose encoding sits at the cursor is read back. */
  lemma {:induction false} ReadUInt32At(data: seq<byte>, pos: nat, w: uint32)
    requires pos + 4 <= |data|
    requires data[pos..pos + 4] == EncodeUInt32(w)
    ensures ReadUInt32(Reader(data, pos)) == Ok((w, Reader(data, pos + 4)))
  {
    DecodeEncodeUInt32(w);
  }

  /** A 64-bit word whose encoding sits at the cursor is read back. */
  lemma {:induction false} ReadUInt64At(data: seq<byte>, pos: nat, w: uint64)
    requires pos + 8 <= |data|
    requires data[pos..pos + 8] == EncodeUInt64(w)
    ensures ReadUInt64(Reader(data, pos)) == Ok((w, Reader(data, pos + 8)))
  {
    DecodeEncodeUInt64(w);
  }

  /** A slice that is `head + rest` splits at the length of `head`. */
  lemma {:induction false} SplitSlice(data: seq<byte>, pos: nat, end: nat, head: seq<byte>, rest: seq<byte>)
    requires pos + |head| <= end <= |data|
    requires data[pos..end] == head + rest
    ensures data[pos..pos + |head|] == head
    ensures data[pos + |head|..end] == rest
  {
    assert data[pos..pos + |head|] == data[pos..end][..|head|];
    assert data[pos + |head|..end] == data[pos..end][|head|..];
  }

  lemma {:induction false} SliceOfConcat(a: seq<byte>, b: seq<byte>, c: seq<byte>, n: nat)
    requires n == |b|
    ensures |a| + n <= |a + b + c|
    ensures (a + b + c)[|a|..|a| + n] == b
  {
  }

  /** A slice of a slice is a slice of the whole. */
  lemma {:induction false} InnerSlice(data: seq<byte>, pos: nat, end: nat, i: nat, j: nat)
    requires i <= j && pos + j <= end <= |data|
    ensures data[pos..end][i..j] == data[pos + i..pos + j]
  {
    var inner, whole := data[pos..end][i..j], data[pos + i..pos + j];
    assert |inner| == |whole|;
    forall t | 0 <= t < |inner|
      ensures inner[t] == whole[t]
    {
      assert inner[t] == data[pos..end][i + t] == data[pos + i + t];
    }
  }

  /** A slice of the part after `head` sits `|head|` further on in `head + tail`. */
  lemma {:induction false} ShiftedSlice(head: seq<byte>, tail: seq<byte>, i: nat, n: nat)
    requires i + n <= |tail|
    ensures (head + tail)[|head| + i..|head| + i + n] == tail[i..i + n]
  {
  }

  /** The big-endian encoding of 16-bit words, two bytes each, in order. */
  function EncodeUInt16s(ws: seq<uint16>): (bs: seq<byte>)
    ensures |bs| == 2 * |ws|
  {
    if |ws| == 0 then [] else EncodeUInt16(ws[0]) + EncodeUInt16s(ws[1..])
  }

  /** `count` consecutive 16-bit words. */
  function ReadUInt16s(r: Reader, count: nat): (res: Result<(seq<uint16>, Reader)>)
    decreases count
    ensures res.Ok? <==> count == 0 || r.pos + 2 * count <= |r.data|
    ensures res.Ok? ==> |res.value.0| == count && res.value.1 == Reader(r.data, r.pos + 2 * count)
    ensures res.Err? ==> res.error == EndOfStream
  {
    if count == 0 then Ok(([], r))
    else
      var w := ReadUInt16(r);
      if w.Err? then Err(w.error)
      else
        var rest := ReadUInt16s(w.value.1, count - 1);
        if rest.Err? then Err(rest.error)
        else Ok(([w.value.0] + rest.value.0, rest.value.1))
  }

  /** The 16-bit words read are exactly those whose encoding is the bytes consumed. */
  lemma {:induction false} ReadUInt16sEncoding(r: Reader, count: nat)
    requires count > 0
    requires ReadUInt16s(r, count).Ok?
    ensures
      var (ws, r') := ReadUInt16s(r, count).value;
      EncodeUInt16s(ws) == r.data[r.pos..r'.pos]
    decreases count
  {
    var (ws, r') := ReadUInt16s(r, count).value;
    var (w, r1) := ReadUInt16(r).value;
    if count == 1 {
      assert ws == [w];
      assert EncodeUInt16s(ws) == EncodeUInt16(w) + EncodeUInt16s([]);
    } else {
      ReadUInt16sEncoding(r1, count - 1);
      var rest := ReadUInt16s(r1, count - 1).value.0;
      assert ws[1..] == rest;
      assert r.data[r.pos..r'.pos] == r.data[r.pos..r1.pos] + r.data[r1.pos..r'.pos];
    }
    assert EncodeUInt16s(ws) == r.data[r.pos..r'.pos];
  }

  /** Reading `|ws|` words where the bytes at the cursor encode `ws` yields `ws`. */
  lemma {:induction false} ReadUInt16sAt(data: seq<byte>, pos: nat, ws: seq<uint16>)
    requires pos + 2 * |ws| <= |data|
    requires data[pos..pos + 2 * |ws|] == EncodeUInt16s(ws)
    ensures ReadUInt16s(Reader(data, pos), |ws|) == Ok((ws, Reader(data, pos + 2 * |ws|)))
    decreases |ws|
  {
    if |ws| > 0 {
      var head, tail := EncodeUInt16(ws[0]), EncodeUInt16s(ws[1..]);
      SplitSlice(data, pos, pos + 2 * |ws|, head, tail);
      ReadUInt16At(data, pos, ws[0]);
      ReadUInt16sAt(data, pos + 2, ws[1..]);
      ReadUInt16sCons(data, pos, ws);
    }
  }

  lemma {:induction false} ReadUInt16sCons(data: seq<byte>, pos: nat, ws: seq<uint16>)
    requires |ws| > 0
    requires ReadUInt16(Reader(data, pos)) == Ok((ws[0], Reader(data, pos + 2)))
    requires ReadUInt16s(Reader(data, pos + 2), |ws| - 1) == Ok((ws[1..], Reader(data, pos + 2 * |ws|)))
    ensures ReadUInt16s(Reader(data, pos), |ws|) == Ok((ws, Reader(data, pos + 2 * |ws|)))
  {
    assert [ws[0]] + ws[1..] == ws;
  }

  /** 16-bit words appended to an output are read back from where they start. */
  lemma {:induction false} ReadEncodedUInt16s(before: seq<byte>, ws: seq<uint16>, after: seq<byte>)
    ensures
      var data := before + EncodeUInt16s(ws) + after;
      ReadUInt16s(Reader(data, |before|), |ws|) == Ok((ws, Reader(data, |before| + 2 * |ws|)))
  {
    var data := before + EncodeUInt16s(ws) + after;
    SliceOfConcat(before, EncodeUInt16s(ws), after, 2 * |ws|);
    ReadUInt16sAt(data, |before|, ws);
    assert ReadUInt16s(Reader(data, |before|), |ws|) == Ok((ws, Reader(data, |before| + 2 * |ws|)));
  }

  /** `AsciiCString`: the bytes up to the next zero byte, which is consumed but
      not returned. */
  function ReadCString(r: Reader): (res: Result<(seq<byte>, Reader)>)
    decreases |r.data| - r.pos
    ensures res.Ok? ==>
      var (s, r') := res.value;
      && r' == Reader(r.data, r.pos + |s| + 1)
      && r'.pos <= |r.data|
    ensures res.Err? ==> res.error == EndOfStream
  {
    if r.pos >= |r.data| then Err(EndOfStream)
    else if r.data[r.pos] == 0 then Ok(([], Reader(r.data, r.pos + 1)))
    else
      var rest := ReadCString(Reader(r.data, r.pos + 1));
      if rest.Err? then Err(rest.error)
      else Ok(([r.data[r.pos]] + rest.value.0, rest.value.1))
  }

  /** A string read is the bytes before the first zero byte at the cursor, and
      reading fails exactly when no zero byte follows the cursor. */
  lemma {:induction false} ReadCStringContents(r: Reader)
    ensures ReadCString(r).Ok? ==>
      var (s, r') := ReadCString(r).value;
      0 !in s && r.data[r.pos..r'.pos] == s + [0]
    ensures ReadCString(r).Err? <==> r.pos > |r.data| || 0 !in r.data[r.pos..]
    decreases |r.data| - r.pos
  {
    if r.pos < |r.data| {
      assert r.data[r.pos..] == [r.data[r.pos]] + r.data[r.pos + 1..];
      if r.data[r.pos] != 0 {
        var r1 := Reader(r.data, r.pos + 1);
        ReadCStringContents(r1);
        if ReadCString(r1).Ok? {
          var (rest, r') := ReadCString(r1).value;
          assert r.data[r.pos..r'.pos] == [r.data[r.pos]] + r.data[r1.pos..r'.pos];
          assert [r.data[r.pos]] + rest + [0] == [r.data[r.pos]] + (rest + [0]);
        }
      }
    }
  }

  /** Reading a string that was written with its terminator yields the string. */
  lemma {:induction false} ReadWrittenCString(before: seq<byte>, s: seq<byte>, after: seq<byte>)
    requires 0 !in s
    ensures
      var data := before + s + [0] + after;
      ReadCString(Reader(data, |before|)) == Ok((s, Reader(data, |before| + |s| + 1)))
    decreases |s|
  {
    var data := before + s + [0] + after;
    if |s| == 0 {
      assert data[|before|] == 0;
    } else {
      assert data == (before + [s[0]]) + s[1..] + [0] + after;
      ReadWrittenCString(before + [s[0]], s[1..], after);
      assert [s[0]] + s[1..] == s;
    }
    assert ReadCString(Reader(data, |before|)) == Ok((s, Reader(data, |before| + |s| + 1)));
  }
}
