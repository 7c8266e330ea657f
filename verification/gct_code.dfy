/** A GCT cheat code: a run of 64-bit code lines closed by a fixed terminator
    line. The code's `name` is not part of its binary form. */
module GctCodes {
  import opened Digits
  import opened BinaryStream

  const CodeTerminator: uint64 := 0xE000_0000_8000_8000

  datatype GctCode = GctCode(name: string, payload: seq<uint64>)

  /** The payload shape `Deserialize` produces: the terminator occurs exactly
      once, as the last line. */
  ghost predicate Terminated(lines: seq<uint64>)
  {
    && |lines| > 0
    && lines[|lines| - 1] == CodeTerminator
    && forall i :: 0 <= i < |lines| - 1 ==> lines[i] != CodeTerminator
  }

  /** The 64-bit big-endian encoding of `lines`, in order. */
  function EncodeLines(lines: seq<uint64>): (bs: seq<byte>)
    ensures |bs| == 8 * |lines|
  {
    if |lines| == 0 then [] else EncodeUInt64(lines[0]) + EncodeLines(lines[1..])
  }

  /** Line `k` is the word held in bytes `8 * k` to `8 * k + 8` of the encoding. */
  lemma {:induction false} EncodeLinesLayout(lines: seq<uint64>)
    ensures forall k :: 0 <= k < |lines| ==>
      DecodeUInt64(EncodeLines(lines)[8 * k..8 * k + 8]) == lines[k]
  {
    forall k | 0 <= k < |lines|
      ensures DecodeUInt64(EncodeLines(lines)[8 * k..8 * k + 8]) == lines[k]
    {
      EncodeLinesAt(lines, k);
      DecodeEncodeUInt64(lines[k]);
    }
  }

  /** Bytes `8 * k` to `8 * k + 8` of the encoding are the encoding of line `k`. */
  lemma {:induction false} EncodeLinesAt(lines: seq<uint64>, k: nat)
    requires k < |lines|
    ensures EncodeLines(lines)[8 * k..8 * k + 8] == EncodeUInt64(lines[k])
    decreases k
  {
    var head, tail := EncodeUInt64(lines[0]), EncodeLines(lines[1..]);
    assert EncodeLines(lines) == head + tail;
    if k == 0 {
      assert (head + tail)[..8] == head;
    } else {
      EncodeLinesAt(lines[1..], k - 1);
      ShiftedSlice(head, tail, 8 * (k - 1), 8);
      assert lines[1..][k - 1] == lines[k];
    }
  }

  /** The whole 64-bit lines from the cursor to the end of the stream, each
      decoded from its own 8 bytes; a trailing partial line is dropped. */
  function WholeLines(r: Reader): (lines: seq<uint64>)
    requires r.pos <= |r.data|
    ensures |lines| == (|r.data| - r.pos) / 8
    decreases |r.data| - r.pos
  {
    if r.pos + 8 > |r.data| then []
    else [DecodeUInt64(r.data[r.pos..r.pos + 8])] + WholeLines(Reader(r.data, r.pos + 8))
  }

  /** The loop of `Deserialize`: read a line, keep it, stop after the first
      terminator; running out of data first raises end-of-stream. */
  function ReadLines(r: Reader): (res: Result<(seq<uint64>, Reader)>)
    decreases |r.data| - r.pos
    ensures res.Ok? ==>
      var (lines, r') := res.value;
      && |lines| > 0
      && r' == Reader(r.data, r.pos + 8 * |lines|)
      && r'.pos <= |r.data|
    ensures res.Err? ==> res.error == EndOfStream
  {
    var w := ReadUInt64(r);
    if w.Err? then Err(w.error)
    else
      var (line, r1) := w.value;
      if line == CodeTerminator then Ok(([line], r1))
      else
        var rest := ReadLines(r1);
        if rest.Err? then Err(rest.error)
        else Ok(([line] + rest.value.0, rest.value.1))
  }

  /** What `ReadLines` returns is terminated, and it is exactly what the bytes
      consumed encode. */
  lemma {:induction false} ReadLinesEncoding(r: Reader)
    requires ReadLines(r).Ok?
    ensures
      var (lines, r') := ReadLines(r).value;
      Terminated(lines) && EncodeLines(lines) == r.data[r.pos..r'.pos]
    decreases |r.data| - r.pos
  {
    var (lines, r') := ReadLines(r).value;
    var (line, r1) := ReadUInt64(r).value;
    ReadUInt64Encoding(r);
    if line == CodeTerminator {
      assert lines == [line];
      assert EncodeLines(lines) == EncodeUInt64(line) + EncodeLines([]);
    } else {
      var rest := ReadLines(r1).value.0;
      assert lines == [line] + rest;
      ReadLinesEncoding(r1);
      assert Terminated(lines) by {
        TerminatedCons(line, rest);
      }
      assert EncodeLines(lines) == r.data[r.pos..r'.pos] by {
        assert lines[1..] == rest;
        assert r.data[r.pos..r'.pos] == r.data[r.pos..r1.pos] + r.data[r1.pos..r'.pos];
      }
    }
    assert Terminated(lines) && EncodeLines(lines) == r.data[r.pos..r'.pos];
  }

  lemma {:induction false} TerminatedCons(line: uint64, rest: seq<uint64>)
    requires line != CodeTerminator && Terminated(rest)
    ensures Terminated([line] + rest)
  {
    var lines := [line] + rest;
    assert forall i :: 1 <= i < |lines| ==> lines[i] == rest[i - 1];
  }

  /** `GctCode.Deserialize`: replaces the payload, leaves the name as it was. */
  function Deserialize(code: GctCode, r: Reader): (res: Result<(GctCode, Reader)>)
    ensures res.Ok? ==>
      var (code', r') := res.value;
      && code'.name == code.name
      && Terminated(code'.payload)
      && r'.data == r.data
      && r'.pos == r.pos + 8 * |code'.payload|
      && r'.pos <= |r.data|
      && EncodeLines(code'.payload) == r.data[r.pos..r'.pos]
    ensures res.Err? ==> res.error == EndOfStream
  {
    var p := ReadLines(r);
    if p.Err? then Err(p.error)
    else
      ReadLinesEncoding(r);
      Ok((code.(payload := p.value.0), p.value.1))
  }

  /** `GctCode.Serialize`: appends the payload verbatim, one 64-bit line
      after another; the name is not written. */
  function Serialize(code: GctCode, out: seq<byte>): (bytes: seq<byte>)
    ensures |bytes| == |out| + 8 * |code.payload|
    ensures bytes[..|out|] == out
    ensures WholeLines(Reader(bytes, |out|)) == code.payload
  {
    var bytes := out + EncodeLines(code.payload);
    assert bytes[|out|..] == EncodeLines(code.payload);
    WholeLinesOfEncoding(bytes, |out|, code.payload);
    bytes
  }

  /** The bytes written depend on the payload alone: two codes that differ
      only in their names serialize alike. */
  lemma {:induction false} SerializeIgnoresName(code: GctCode, other: GctCode, out: seq<byte>)
    requires code.payload == other.payload
    ensures Serialize(code, out) == Serialize(other, out)
  {
  }

  /** Cutting an encoding into whole lines recovers the lines. */
  lemma {:induction false} WholeLinesOfEncoding(data: seq<byte>, pos: nat, lines: seq<uint64>)
    requires pos <= |data|
    requires data[pos..] == EncodeLines(lines)
    ensures WholeLines(Reader(data, pos)) == lines
    decreases |lines|
  {
    if |lines| > 0 {
      var head, tail := EncodeUInt64(lines[0]), EncodeLines(lines[1..]);
      assert EncodeLines(lines) == head + tail;
      assert data[pos..|data|] == data[pos..];
      SplitSlice(data, pos, |data|, head, tail);
      assert data[pos + 8..] == tail;
      DecodeEncodeUInt64(lines[0]);
      WholeLinesOfEncoding(data, pos + 8, lines[1..]);
      assert [lines[0]] + lines[1..] == lines;
    }
    assert WholeLines(Reader(data, pos)) == lines;
  }

  /** Reading lines back from their encoding stops at the terminator. */
  lemma {:induction false} ReadEncodedLines(data: seq<byte>, pos: nat, lines: seq<uint64>)
    requires Terminated(lines)
    requires pos + 8 * |lines| <= |data|
    requires data[pos..pos + 8 * |lines|] == EncodeLines(lines)
    ensures ReadLines(Reader(data, pos)) == Ok((lines, Reader(data, pos + 8 * |lines|)))
  {
    EncodedLinesAt(data, pos, lines);
    ReadLinesFrom(data, pos, lines, 0);
    assert lines[0..] == lines;
  }

  /** Every line of an encoding is read from its own eight bytes. */
  lemma {:induction false} EncodedLinesAt(data: seq<byte>, pos: nat, lines: seq<uint64>)
    requires pos + 8 * |lines| <= |data|
    requires data[pos..pos + 8 * |lines|] == EncodeLines(lines)
    ensures LinesAt(data, pos, lines)
  {
    forall j | 0 <= j < |lines|
      ensures LineRead(data, pos, j) == Ok((lines[j], Reader(data, pos + 8 * (j + 1))))
    {
      LineAt(data, pos, lines, j);
    }
  }

  /** The read of line `j` of a run of lines that starts at `pos`. */
  ghost function LineRead(data: seq<byte>, pos: nat, j: nat): Result<(uint64, Reader)>
  {
    ReadUInt64(Reader(data, pos + 8 * j))
  }

  /** Each line of `lines` is read, in turn, from the stream starting at `pos`. */
  ghost predicate LinesAt(data: seq<byte>, pos: nat, lines: seq<uint64>)
  {
    forall j {:trigger LineRead(data, pos, j)} :: 0 <= j < |lines| ==>
      LineRead(data, pos, j) == Ok((lines[j], Reader(data, pos + 8 * (j + 1))))
  }

  /** Reading from the start of line `k` yields lines `k` onwards and stops
      after the last of them. */
  lemma {:induction false} ReadLinesFrom(data: seq<byte>, pos: nat, lines: seq<uint64>, k: nat)
    requires Terminated(lines) && k < |lines|
    requires LinesAt(data, pos, lines)
    ensures ReadLines(Reader(data, pos + 8 * k)) == Ok((lines[k..], Reader(data, pos + 8 * |lines|)))
    decreases |lines| - k
  {
    assert LineRead(data, pos, k) == Ok((lines[k], Reader(data, pos + 8 * (k + 1))));
    if k == |lines| - 1 {
      ReadLinesLastAt(data, pos + 8 * k, pos + 8 * (k + 1), lines, k);
    } else {
      ReadLinesFrom(data, pos, lines, k + 1);
      var next, end := pos + 8 * (k + 1), pos + 8 * |lines|;
      assert lines[k] != CodeTerminator;
      assert ReadLines(Reader(data, next)) == Ok((lines[k + 1..], Reader(data, end)));
      ConsSlice(lines, k);
      assert ReadLines(Reader(data, pos + 8 * k)) == Ok(([lines[k]] + lines[k + 1..], Reader(data, end)));
    }
  }

  /** Line `k` of an encoding is read from its own eight bytes. */
  lemma {:induction false} LineAt(data: seq<byte>, pos: nat, lines: seq<uint64>, k: nat)
    requires k < |lines|
    requires pos + 8 * |lines| <= |data|
    requires data[pos..pos + 8 * |lines|] == EncodeLines(lines)
    ensures ReadUInt64(Reader(data, pos + 8 * k)) == Ok((lines[k], Reader(data, pos + 8 * (k + 1))))
  {
    EncodeLinesAt(lines, k);
    InnerSlice(data, pos, pos + 8 * |lines|, 8 * k, 8 * k + 8);
    ReadUInt64At(data, pos + 8 * k, lines[k]);
  }

  /** The terminator line ends the code. */
  lemma {:induction false} ReadLinesLastAt(data: seq<byte>, at: nat, next: nat, lines: seq<uint64>, k: nat)
    requires k == |lines| - 1 && lines[k] == CodeTerminator
    requires ReadUInt64(Reader(data, at)) == Ok((lines[k], Reader(data, next)))
    ensures ReadLines(Reader(data, at)) == Ok((lines[k..], Reader(data, next)))
  {
    assert lines[k..] == [lines[k]];
  }

  lemma {:induction false} ConsSlice(lines: seq<uint64>, k: nat)
    requires k < |lines|
    ensures lines[k..] == [lines[k]] + lines[k + 1..]
  {
  }

  /** Round trip: a terminated payload survives `Serialize` then `Deserialize`,
      and exactly its bytes are consumed. The reading code keeps its own name. */
  lemma {:induction false} DeserializeSerialize(code: GctCode, reading: GctCode, out: seq<byte>, after: seq<byte>)
    requires Terminated(code.payload)
    ensures
      var data := Serialize(code, out) + after;
      Deserialize(reading, Reader(data, |out|))
        == Ok((reading.(payload := code.payload), Reader(data, |out| + 8 * |code.payload|)))
  {
    var lines := code.payload;
    var data := Serialize(code, out) + after;
    assert data == out + EncodeLines(lines) + after;
    SliceOfConcat(out, EncodeLines(lines), after, 8 * |lines|);
    DeserializeEncoded(reading, data, |out|, lines);
  }

  /** `Deserialize` at an encoding of a terminated payload reads that payload. */
  lemma {:induction false} DeserializeEncoded(reading: GctCode, data: seq<byte>, pos: nat, lines: seq<uint64>)
    requires Terminated(lines)
    requires pos + 8 * |lines| <= |data|
    requires data[pos..pos + 8 * |lines|] == EncodeLines(lines)
    ensures Deserialize(reading, Reader(data, pos))
      == Ok((reading.(payload := lines), Reader(data, pos + 8 * |lines|)))
  {
    ReadEncodedLines(data, pos, lines);
  }

  /** Round trip the other way: serializing what was deserialized writes back
      exactly the bytes that were consumed. */
  lemma {:induction false} SerializeDeserialize(code: GctCode, r: Reader, out: seq<byte>)
    requires Deserialize(code, r).Ok?
    ensures
      var (code', r') := Deserialize(code, r).value;
      Serialize(code', out) == out + r.data[r.pos..r'.pos]
  {
  }

  /** `Deserialize` succeeds exactly when a terminator occurs among the whole
      lines left in the stream, and then returns them up to the first one;
      otherwise it runs into the end of the stream. */
  lemma {:induction false} ReadLinesSucceedsIffTerminator(r: Reader)
    requires r.pos <= |r.data|
    ensures ReadLines(r).Ok? <==> CodeTerminator in WholeLines(r)
    ensures ReadLines(r).Ok? ==> ReadLines(r).value.0 <= WholeLines(r)
    decreases |r.data| - r.pos
  {
    if r.pos + 8 <= |r.data| {
      var r1 := Reader(r.data, r.pos + 8);
      var line := DecodeUInt64(r.data[r.pos..r.pos + 8]);
      assert ReadUInt64(r) == Ok((line, r1));
      assert WholeLines(r) == [line] + WholeLines(r1);
      if line != CodeTerminator {
        ReadLinesSucceedsIffTerminator(r1);
      }
    }
  }
}
