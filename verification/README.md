# GameCube.Core formats in Dafny

This project models five binary formats from the GameCube.Core library. It states, and proves, what reading and writing each format does.

- **Disc file system table** (`DiskFileSystem`, model of `FileSystem.Deserialize`):
  - The root entry gives `RootEntries`, the number of entries including itself.
  - The remaining entries follow it, then one zero-terminated name per non-root entry.
  - The path loop builds every entry's path. It starts from `"ROOT"` and `""`. A directory appends `name/` to every path in `[i, DirectoryStackCount)`. A file appends its name to its own path.
  - The file loop then collects `(path, bytes)` for every non-directory entry.
  - Finally, the whole table is read again as one raw block, which leaves the cursor at its end address.
- **CMPR textures** (`EncodingCMPR`, the GameCube's DXT1 variant): an 8x8 block is four 4x4 quadrants.
  - Each quadrant is stored as two RGB565 endpoints and sixteen 2-bit palette indexes packed MSB-first into 32 bits.
  - The model covers unpacking and packing the indexes, the quadrant index arithmetic, the palette rule and whole-block reading and writing.
- **CI14X2 textures** (`EncodingCI14X2`): 4x4 blocks of palette indexes, one 16-bit word per pixel. Only the low 14 bits of each word are used.
- **GCT cheat codes** (`GctCodes`): 64-bit code lines, read up to and including the first terminator line `0xE000000080008000`.
- **RGB565 palettes** (`PaletteRGB565`): one 16-bit word per colour.

The shared modules are:
- `BinaryStream`: a big-endian byte reader and writer, with the `Result` error type.
- `Digits`: positional notation and integer arithmetic facts.
- `TextureColors`: the colour operations the codecs use, passed in as parameters.

Every operation is a pure function over immutable values. A reader is `(data, pos)`, a writer is the byte sequence written so far, and exceptions are `Err` values. Most reading operations are paired with the matching write, and lemmas state the round trips in both directions. Others are paired with an independent description of their result, such as the base-4 reading of the packed indexes or the per-pixel placement of colours. Two things have no such partner. The palette rule is stated only in terms of the colour operations it is given. The CMPR round trip from bytes to colours and back holds only under a hypothesis on the compressor, and `EqualEndpointsLoseIndexes` shows that some sub-blocks cannot meet it.

## Model

| member | source | states |
|---|---|---|
| DiskFileSystem.ReadEntry | src/GameCube.DiskImage/FileSystem.cs:22 | the root entry is read iff an entry's worth of bytes remains; it is the layout's decoding of exactly those bytes, and the cursor moves past them |
| DiskFileSystem.ReadEntries | src/GameCube.DiskImage/FileSystem.cs:22-23 | reading `count` entries succeeds exactly when `count * size` bytes remain; it yields `count` entries and advances past them |
| DiskFileSystem.ReadEntriesContents | src/GameCube.DiskImage/FileSystem.cs:23 | entry `k` is decoded from the `k`-th run of entry-sized bytes after the cursor |
| DiskFileSystem.ReadTable | src/GameCube.DiskImage/FileSystem.cs:20-30 | the table is the root entry read at the start address, followed by `RootEntries - 1` entries; a root claiming zero entries is an argument error; the read succeeds exactly when the root entry reads, claims at least one entry, and that many entries fit in the stream |
| DiskFileSystem.Table.All | src/GameCube.DiskImage/FileSystem.cs:28-30 | the combined entry array has one more element than the entries read after the root: the root at index 0, entry `k` at index `k + 1` |
| DiskFileSystem.InitialPaths | src/GameCube.DiskImage/FileSystem.cs:33-36 | there is one path per entry; the root's is `ROOT` and every other path starts empty |
| DiskFileSystem.AppendFrom | src/GameCube.DiskImage/FileSystem.cs:47-51 | appends the suffix to exactly the paths in `[j, stop)` and leaves every other path as it was; a range reaching past the last path is an index error |
| DiskFileSystem.AppendName | src/GameCube.DiskImage/FileSystem.cs:44-56 | one path-loop step succeeds iff the entry is a file or its directory range fits; path `k` gains exactly that entry's contribution to `k`; paths before `i` are untouched |
| DiskFileSystem.BuildPaths | src/GameCube.DiskImage/FileSystem.cs:38-60 | the path loop keeps the number of paths and only moves the cursor forward; its only failures are end-of-stream and index errors |
| DiskFileSystem.ReadNames | src/GameCube.DiskImage/FileSystem.cs:41-42 | reads `count` names one after another, moving only forward within the stream |
| DiskFileSystem.ReadNamesEncoding | src/GameCube.DiskImage/FileSystem.cs:41-42 | each name read is a run of non-zero bytes, and the bytes consumed are exactly those names, each followed by a zero byte |
| DiskFileSystem.ReadWrittenNames | src/GameCube.DiskImage/FileSystem.cs:41-42 | names without zero bytes, each written followed by a zero, read back as the same names, and the cursor stops right after the last terminator whatever follows |
| DiskFileSystem.BuildPathsSucceeds | src/GameCube.DiskImage/FileSystem.cs:38-56 | the path loop succeeds iff all the names can be read and no directory reaches past the last entry |
| DiskFileSystem.BuildPathsMeaning | src/GameCube.DiskImage/FileSystem.cs:38-56 | the loop reads the names in order, one per entry, and ends where they end; path `k` becomes its initial value followed by every entry's contribution to `k`, in entry order |
| DiskFileSystem.BuildPathsKeepsEarlier | src/GameCube.DiskImage/FileSystem.cs:38-56 | the loop from entry `i` on never changes a path before `i` |
| DiskFileSystem.CoveringIsDirPrefix | src/GameCube.DiskImage/FileSystem.cs:45-56 | path `j` receives the `name/` of every earlier directory whose range covers `j`, in index order, and then entry `j`'s own contribution |
| DiskFileSystem.FinalPathShape | src/GameCube.DiskImage/FileSystem.cs:33-56 | the root's path is `ROOT`; a file's path is its covering directories' prefixes followed by its name; a directory's path ends in `name/` when its own range includes it |
| DiskFileSystem.FileIndexes | src/GameCube.DiskImage/FileSystem.cs:68-72 | lists only in-range indexes of non-directory entries |
| DiskFileSystem.FileIndexesExact | src/GameCube.DiskImage/FileSystem.cs:68-72 | every non-directory entry is listed, in strictly increasing order |
| DiskFileSystem.CollectFiles | src/GameCube.DiskImage/FileSystem.cs:67-85 | the file loop succeeds iff every file's bytes lie within the stream, and then yields one entry per non-directory entry |
| DiskFileSystem.CollectFilesContents | src/GameCube.DiskImage/FileSystem.cs:74-84 | file entry `k` is named by the path of the `k`-th file and holds exactly the bytes at its offset and length |
| DiskFileSystem.Deserialize | src/GameCube.DiskImage/FileSystem.cs:18-92 | the entries hold `RootEntries` elements including the root; `Raw` is the stream between the start and end addresses; the reader ends at the end address; there is one file entry per non-directory entry; a zero `RootEntries` is an argument error |
| DiskFileSystem.DeserializeReads | src/GameCube.DiskImage/FileSystem.cs:20-63 | the names are read right after the entry array, and the end address is where the last name ends; the file entries are those of the paths the names build |
| DiskFileSystem.DeserializeFileEntry | src/GameCube.DiskImage/FileSystem.cs:67-85 | each file entry belongs to a non-directory entry; it holds the bytes at its offset and is named `ROOT` or by its directory prefixes followed by its own name |
| DiskFileSystem.DeserializeSucceeds | src/GameCube.DiskImage/FileSystem.cs:18-92 | deserializing succeeds iff the table and every name can be read, no directory range overruns, and every file lies within the stream |
| BinaryStream.ReadCStringContents | src/GameCube.DiskImage/FileSystem.cs:41-42 | a name is the bytes before the first zero byte at the cursor, and that zero byte is consumed too; reading fails iff no zero byte follows |
| BinaryStream.ReadWrittenCString | src/GameCube.DiskImage/FileSystem.cs:41-42 | a zero-free string followed by a zero byte is read back as that string |
| EncodingCMPR.UnpackIndexes | src/GameCube.GX.Texture/EncodingCMPR.cs:143-153 | yields sixteen indexes, each below 4; they are the base-4 digits of the word, most significant first, so index 0 comes from the top bits |
| EncodingCMPR.PackIndexes | src/GameCube.GX.Texture/EncodingCMPR.cs:165-184 | any length but 16 is an argument error; otherwise the word is the base-4 number whose digits are the indexes' low two bits, index 0 most significant |
| EncodingCMPR.PackFrom | src/GameCube.GX.Texture/EncodingCMPR.cs:174-181 | the shift-and-OR loop adds the base-4 value of the remaining indexes' low two bits to its accumulator |
| EncodingCMPR.PackFromFitsAWord | src/GameCube.GX.Texture/EncodingCMPR.cs:174-183 | packing sixteen indexes never overflows 32 bits |
| EncodingCMPR.PackUnpack | src/GameCube.GX.Texture/EncodingCMPR.cs:143-184 | unpacking and then packing gives back every 32-bit word |
| EncodingCMPR.UnpackPack | src/GameCube.GX.Texture/EncodingCMPR.cs:143-184 | packing and then unpacking gives back each index's low two bits, and hence the indexes themselves when all are below 4 |
| EncodingCMPR.PackUsesLowBits | src/GameCube.GX.Texture/EncodingCMPR.cs:179 | index arrays that agree modulo 4 pack to the same word |
| EncodingCMPR.PixelIndex | src/GameCube.GX.Texture/EncodingCMPR.cs:54 | the 8x8 index of a pixel in a quadrant lies within the 64 colours of the block |
| EncodingCMPR.SubIndex | src/GameCube.GX.Texture/EncodingCMPR.cs:49 | the 4x4 index of a pixel lies within the 16 unpacked indexes of its quadrant |
| EncodingCMPR.LocatePixelIndex | src/GameCube.GX.Texture/EncodingCMPR.cs:42-55 | the 8x8 index `x + y*8 + qx*4 + qy*32` determines the quadrant and in-quadrant position, so distinct pixels get distinct indexes |
| EncodingCMPR.PixelIndexLocate | src/GameCube.GX.Texture/EncodingCMPR.cs:42-55 | every index below 64 is some pixel's index, so the quadrant loops visit all 64 pixels |
| EncodingCMPR.QuadrantPixelInverse | src/GameCube.GX.Texture/EncodingCMPR.cs:25-27 | the `n`-th quadrant in loop order and the `j`-th slot in 4x4 order name a pixel iff that pixel's quadrant index is `n` and its `x + y*4` is `j` |
| EncodingCMPR.Scatter | src/GameCube.GX.Texture/EncodingCMPR.cs:42-55 | every pixel of the 8x8 block holds its quadrant's colour at its in-quadrant slot |
| EncodingCMPR.GatherScatter | src/GameCube.GX.Texture/EncodingCMPR.cs:42-82 | gathering a quadrant out of a scattered block gives back that quadrant |
| EncodingCMPR.ScatterGather | src/GameCube.GX.Texture/EncodingCMPR.cs:42-82 | scattering the four gathered quadrants rebuilds the first 64 colours of the block |
| EncodingCMPR.GetCmprPalette | src/GameCube.GX.Texture/EncodingCMPR.cs:105-121 | four colours, starting with the two endpoints; when `c0 > c1`, the points 1/3 and 2/3 of the way between them; otherwise their midpoint and `TextureColor(0)` |
| EncodingCMPR.DecodeSubBlockBytes | src/GameCube.GX.Texture/EncodingCMPR.cs:30-34 | the decoded sub-block re-encodes to the same eight bytes |
| EncodingCMPR.ReadSubBlock | src/GameCube.GX.Texture/EncodingCMPR.cs:30-34 | a quadrant's header is read iff eight bytes remain, and the read consumes exactly eight bytes |
| EncodingCMPR.ReadSubBlockIsThreeReads | src/GameCube.GX.Texture/EncodingCMPR.cs:30-34 | reading a sub-block is the same as reading a 16-bit `c0`, a 16-bit `c1` and the 32-bit packed indexes, in that order |
| EncodingCMPR.EncodeSubBlock | src/GameCube.GX.Texture/EncodingCMPR.cs:89-91 | eight bytes are written; the first two decode to `c0`, the next two to `c1` and the last four to the packed indexes |
| EncodingCMPR.EncodeSubBlocksLayout | src/GameCube.GX.Texture/EncodingCMPR.cs:68-91 | the `k`-th quadrant's sub-block occupies bytes `8k` to `8k + 8` of what the quadrant loop writes |
| EncodingCMPR.EncodeSubBlockInjective | src/GameCube.GX.Texture/EncodingCMPR.cs:89-91 | different sub-blocks are written as different bytes |
| EncodingCMPR.ReadSubBlocks | src/GameCube.GX.Texture/EncodingCMPR.cs:25-34 | the quadrants' headers are read one after another; this succeeds iff `8 * count` bytes remain |
| EncodingCMPR.ReadSubBlocksAt | src/GameCube.GX.Texture/EncodingCMPR.cs:25-34 | sub-blocks are read back from their encoding |
| EncodingCMPR.ReadSubBlocksEncoding | src/GameCube.GX.Texture/EncodingCMPR.cs:25-34 | the sub-blocks read are exactly what the bytes consumed encode |
| EncodingCMPR.ReadBlock | src/GameCube.GX.Texture/EncodingCMPR.cs:14-61 | a block is read iff `BlockBytes` bytes remain, that is 8x8 colours of `BitsPerColor = 4` bits each, or 32 bytes; each of the 64 pixels takes the colour that its quadrant's sub-block gives to its in-quadrant slot |
| EncodingCMPR.CompressFrom | src/GameCube.GX.Texture/EncodingCMPR.cs:68-87 | the `k`-th sub-block written is the compressor's output for the `k`-th gathered quadrant, in `qy`-then-`qx` order |
| EncodingCMPR.WriteBlock | src/GameCube.GX.Texture/EncodingCMPR.cs:63-94 | writing succeeds iff the block has at least 64 colours, of which only the first 64 are used; it appends 32 bytes that read back as the compressed quadrants, in order |
| EncodingCMPR.ReadWrittenBlock | src/GameCube.GX.Texture/EncodingCMPR.cs:20-94 | with a compressor that is lossless on each quadrant, a written block reads back as its 64 colours |
| EncodingCMPR.WriteReadBlock | src/GameCube.GX.Texture/EncodingCMPR.cs:20-94 | with a compressor that recovers each of the four sub-blocks read from its decoded colours, writing back the block that was read reproduces the bytes read |
| EncodingCMPR.EqualEndpointsLoseIndexes | src/GameCube.GX.Texture/EncodingCMPR.cs:105-121 | with equal endpoints, palette entries 0 and 1 coincide: a sub-block whose indexes are all 0 and one whose indexes are all 1 differ but decode to the same colours |
| EncodingCI14X2.MaxPaletteSizeIsIndexRange | src/GameCube/GX.Texture/EncodingCI14X2.cs:9-10 | the palette size `1 << 14` is `2^14 = 16384`: one entry per 14-bit index |
| EncodingCI14X2.Mask14 | src/GameCube/GX.Texture/EncodingCI14X2.cs:20 | the masked index is below `2^14` and equals the word whenever the word already fits in 14 bits |
| EncodingCI14X2.Mask14IgnoresHighBits | src/GameCube/GX.Texture/EncodingCI14X2.cs:20 | bits 14 and 15 of the word do not affect the index |
| EncodingCI14X2.MaskAll | src/GameCube/GX.Texture/EncodingCI14X2.cs:17-22 | the read loop keeps one index per word, in order, each the word reduced modulo `2^14` |
| EncodingCI14X2.MaskAllKeepsIndexes | src/GameCube/GX.Texture/EncodingCI14X2.cs:20 | masking leaves unchanged any sequence of indexes that already fit in 14 bits |
| EncodingCI14X2.ReadBlock | src/GameCube/GX.Texture/EncodingCI14X2.cs:14-24 | a block is read iff 32 bytes remain; it yields 16 indexes below `2^14`, index `i` being word `i` reduced to 14 bits |
| EncodingCI14X2.WriteBlock | src/GameCube/GX.Texture/EncodingCI14X2.cs:26-36 | writing fails the assertion iff some index is `2^14` or more; otherwise it appends one 16-bit word per index, in order |
| EncodingCI14X2.ReadWrittenBlock | src/GameCube/GX.Texture/EncodingCI14X2.cs:14-36 | a written block of 14-bit indexes reads back unchanged |
| EncodingCI14X2.WriteReadBlock | src/GameCube/GX.Texture/EncodingCI14X2.cs:14-36 | a block that was read is always accepted for writing; it writes back the words read, with bits 14 and 15 cleared |
| GctCodes.ReadLines | src/GameCube.Cheats/GctCode.cs:18-28 | the read loop returns at least one line and consumes exactly eight bytes per line; its only failure is the end of the stream |
| GctCodes.ReadLinesEncoding | src/GameCube.Cheats/GctCode.cs:18-28 | the lines read end with the terminator, contain no earlier terminator, and are exactly what the consumed bytes encode |
| GctCodes.ReadLinesSucceedsIffTerminator | src/GameCube.Cheats/GctCode.cs:19-28 | reading succeeds iff a terminator occurs among the whole lines left in the stream, and then yields a prefix of those lines |
| GctCodes.Deserialize | src/GameCube.Cheats/GctCode.cs:16-30 | the payload is terminated, encodes exactly the bytes consumed, and the name is left as it was |
| GctCodes.Serialize | src/GameCube.Cheats/GctCode.cs:32-35 | appends `8 * |payload|` bytes whose whole 64-bit lines are the payload, in order |
| GctCodes.SerializeIgnoresName | src/GameCube.Cheats/GctCode.cs:13 | the name is not written: codes with equal payloads serialize alike |
| GctCodes.EncodeLinesLayout | src/GameCube.Cheats/GctCode.cs:34 | line `k` of the payload is the 64-bit word held in bytes `8k` to `8k + 8` of what is written |
| GctCodes.WholeLinesOfEncoding | src/GameCube.Cheats/GctCode.cs:34 | cutting an encoding of lines into 8-byte words gives back the lines |
| GctCodes.ReadEncodedLines | src/GameCube.Cheats/GctCode.cs:19-28 | reading stops exactly at the terminator of an encoded terminated payload |
| GctCodes.DeserializeSerialize | src/GameCube.Cheats/GctCode.cs:16-35 | a terminated payload survives serializing and then deserializing, whatever follows it; the reading code keeps its own name |
| GctCodes.SerializeDeserialize | src/GameCube.Cheats/GctCode.cs:16-35 | serializing what was deserialized writes back exactly the bytes consumed |
| PaletteRGB565.ReadPalette | src/GameCube.GX.Texture/PaletteRGB565.cs:14-22 | reads exactly `MaxPaletteSize` colours from `2 * MaxPaletteSize` bytes; colour `i` is converted from word `i` |
| PaletteRGB565.WritePalette | src/GameCube.GX.Texture/PaletteRGB565.cs:24-33 | writing fails the assertion iff the palette is not `MaxPaletteSize` long; otherwise it appends one word per colour, in index order |
| PaletteRGB565.ReadWrittenPalette | src/GameCube.GX.Texture/PaletteRGB565.cs:14-33 | when the conversions invert each other on its colours, a written palette reads back unchanged |
| PaletteRGB565.WriteReadPalette | src/GameCube.GX.Texture/PaletteRGB565.cs:14-33 | when the conversions invert each other on every word, writing back a palette that was read reproduces its bytes |

## Left out

- `FileSystem.Serialize` is not modelled; the source throws `NotImplementedException`. The FST tree, mutation, padding and canonical forms are not part of the source's code either.
- The binary layout of `FileSystemEntry` is a parameter (`EntryLayout`: a size and a decoding function). Only the fields `Deserialize` consults are modelled.
- `RootEntries == 0` is modelled as `ArgumentError`. In the source, the negative entry count fails inside the reader library, which is not part of this model.
- `AsciiCString` is decoded one character per byte. Character-set conversion is not modelled.
- `reader.ReadBytes` past the end of the stream is modelled as end-of-stream. .NET may instead return a shorter array, but the reader library is not part of this model.
- Partial output before an exception is not modelled: each failure is an `Err` with no partial state. This covers:
  - an out-of-range directory in the path loop;
  - an oversized CI14X2 index, after earlier words are written;
  - a short CMPR block;
  - a short palette. `ReadPalette` replaces `Colors` with a new array of `MaxPaletteSize` entries (src/GameCube.GX.Texture/PaletteRGB565.cs:16) before reading any colour (:17-21), so an end-of-stream failure leaves a new array that is only partly filled;
  - the `FileSystem` object itself. `Deserialize` assigns `root` and `entries` before anything can fail (src/GameCube.DiskImage/FileSystem.cs:22-23). It replaces `FileEntries` and fills it one file at a time (:67-84), so a later failure leaves these fields partly updated.
- Seeking (`JumpToAddress`, `RecordStartAddress`, `RecordEndAddress`) is a change of cursor. Streams, writers and byte order come from the library and are modelled as a big-endian cursor over a byte sequence.
- `TextureColor`, `FromRGB565`, `ToRGB565`, `Lerp` (floating point) and `new TextureColor(0)` are not modelled. They are the uninterpreted `ColorOps` parameter, so the palette contents are stated in terms of them.
- `DXT1.RangeFitColors`, the CMPR compressor, is the `compress` parameter. The round trips are stated under hypotheses about it, one per quadrant.
- EncodingCMPR.WriteReadBlock: promised only when the compressor recovers each of the four sub-blocks read. No compressor can do that for every input, because two sub-blocks with equal endpoints decode alike when one uses palette entry 0 wherever the other uses entry 1 (`EqualEndpointsLoseIndexes`).
- EncodingCMPR.GetCmprPalette: has no inverse or reference partner. `Lerp` and the RGB565 conversions are uninterpreted, so only the shape of the palette and its use of them is stated.
- `EncodingCMPR.PackIndexes` ORs disjoint shifted fields. The model adds them instead, which gives the same result for non-overlapping fields. The C# `int` shift for index 0 becomes negative before the `uint` cast, and the cast restores the same bits, so no overflow is modelled.
- EncodingCI14X2.WriteBlock: assumes each index is a 16-bit `ushort`, so that `writer.Write(index)` (src/GameCube/GX.Texture/EncodingCI14X2.cs:34) writes exactly two bytes. `IndirectBlock`, which declares the index type, is not part of this model. `ReadBlock` stores a `ushort` into it (:21). If the element type were wider, each index would take more bytes, and the model would not cover that.
- Block and palette objects (`DirectBlock`, `IndirectBlock`, `Palette`) are plain sequences. The CI14X2 `WriteBlock` accepts any number of indexes, as the source's `foreach` does.
- `Texture.cs`, which drives the codecs over a whole image, is not part of this model.
