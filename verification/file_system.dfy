/** The disc's file system table (FST) as `FileSystem.Deserialize` reads it: a
    root entry giving the number of entries, the other entries, then one name
    per non-root entry; every entry's path is accumulated from the names of
    the directories that cover it, and every file's bytes are fetched from the
    stream. */
module DiskFileSystem {
  import opened BinaryStream

  datatype EntryType = File | Directory

  /** One FST entry, as far as `Deserialize` looks at it. For a directory,
      `directoryStackCount` is the index one past its last descendant. */
  datatype FileSystemEntry = FileSystemEntry(
    entryType: EntryType,
    directoryStackCount: nat,
    fileOffset: nat,
    fileLength: nat,
    rootEntries: nat)

  /** How an entry is stored: a fixed number of bytes and their decoding. The
      binary layout of `FileSystemEntry` is not part of this model. */
  datatype EntryLayout = EntryLayout(size: nat, decode: seq<byte> -> FileSystemEntry)

  datatype AddressRange = AddressRange(startAddress: nat, endAddress: nat)

  datatype FileEntry = FileEntry(name: string, data: seq<byte>)

  datatype FileSystem = FileSystem(
    addressRange: AddressRange,
    root: FileSystemEntry,
    entries: seq<FileSystemEntry>,
    fileEntries: seq<FileEntry>,
    raw: seq<byte>)

  // ----- Entries -----

  /** One entry: `layout.size` bytes, decoded by the layout. */
  function ReadEntry(r: Reader, layout: EntryLayout): (res: Result<(FileSystemEntry, Reader)>)
    ensures res.Ok? <==> r.pos + layout.size <= |r.data|
    ensures res.Ok? ==>
      && res.value.0 == layout.decode(r.data[r.pos..r.pos + layout.size])
      && res.value.1 == Reader(r.data, r.pos + layout.size)
    ensures res.Err? ==> res.error == EndOfStream
  {
    var b := ReadBytes(r, layout.size);
    if b.Err? then Err(b.error) else Ok((layout.decode(b.value.0), b.value.1))
  }

  /** `reader.Read(ref entries, count)`: `count` entries, one after another. */
  function ReadEntries(r: Reader, layout: EntryLayout, count: nat): (res: Result<(seq<FileSystemEntry>, Reader)>)
    ensures res.Ok? <==> count == 0 || r.pos + layout.size * count <= |r.data|
    ensures res.Ok? ==>
      |res.value.0| == count && res.value.1 == Reader(r.data, r.pos + layout.size * count)
    ensures res.Err? ==> res.error == EndOfStream
    decreases count
  {
    if count == 0 then Ok(([], r))
    else
      assert layout.size * count == layout.size + layout.size * (count - 1);
      var e := ReadEntry(r, layout);
      if e.Err? then Err(e.error)
      else
        var rest := ReadEntries(e.value.1, layout, count - 1);
        if rest.Err? then Err(rest.error)
        else Ok(([e.value.0] + rest.value.0, rest.value.1))
  }

  /** Where entry `k` of a run starting at `pos` begins. */
  function EntryOffset(pos: nat, size: nat, k: nat): nat
  {
    pos + size * k
  }

  lemma {:induction false} EntryOffsetStep(pos: nat, size: nat, k: nat)
    requires k > 0
    ensures EntryOffset(pos, size, k) == EntryOffset(pos + size, size, k - 1)
  {
    assert size * k == size + size * (k - 1);
  }

  /** Entry `k` is decoded from the `k`-th run of `layout.size` bytes. */
  lemma {:induction false} ReadEntriesContents(r: Reader, layout: EntryLayout, count: nat)
    requires ReadEntries(r, layout, count).Ok?
    ensures
      var entries := ReadEntries(r, layout, count).value.0;
      forall k :: 0 <= k < count ==>
        && EntryOffset(r.pos, layout.size, k) + layout.size <= |r.data|
        && entries[k] == layout.decode(r.data[EntryOffset(r.pos, layout.size, k)..EntryOffset(r.pos, layout.size, k) + layout.size])
    decreases count
  {
    if count > 0 {
      var entries := ReadEntries(r, layout, count).value.0;
      var (first, r1) := ReadEntry(r, layout).value;
      var rest := ReadEntries(r1, layout, count - 1).value.0;
      assert entries == [first] + rest;
      ReadEntriesContents(r1, layout, count - 1);
      forall k | 0 <= k < count
        ensures EntryOffset(r.pos, layout.size, k) + layout.size <= |r.data|
        ensures entries[k] == layout.decode(r.data[EntryOffset(r.pos, layout.size, k)..EntryOffset(r.pos, layout.size, k) + layout.size])
      {
        if k > 0 {
          EntryOffsetStep(r.pos, layout.size, k);
          assert entries[k] == rest[k - 1];
        }
      }
    }
  }

  // ----- Paths -----

  /** The text of a name read from the stream, one character per byte. */
  function Chars(bs: seq<byte>): (s: string)
    ensures |s| == |bs|
    ensures forall i :: 0 <= i < |bs| ==> s[i] as int == bs[i]
  {
    seq(|bs|, i requires 0 <= i < |bs| => bs[i] as char)
  }

  /** The paths before any name is read: `"ROOT"` for the root, empty otherwise. */
  function InitialPaths(count: nat): (paths: seq<string>)
    requires count > 0
    ensures |paths| == count
    ensures paths[0] == "ROOT"
    ensures forall k :: 0 < k < count ==> paths[k] == ""
  {
    ["ROOT"] + seq(count - 1, _ => "")
  }

  /** The inner loop for a directory: append `suffix` to every path from `j` up
      to (not including) `stop`; a path index past the end raises
      `IndexOutOfRange`. */
  function AppendFrom(paths: seq<string>, j: nat, stop: nat, suffix: string): (res: Result<seq<string>>)
    ensures res.Ok? <==> stop <= j || stop <= |paths|
    ensures res.Ok? ==>
      && |res.value| == |paths|
      && forall k :: 0 <= k < |paths| ==>
           res.value[k] == if j <= k < stop then paths[k] + suffix else paths[k]
    ensures res.Err? ==> res.error == IndexOutOfRange
    decreases stop - j
  {
    if stop <= j then Ok(paths)
    else if j >= |paths| then Err(IndexOutOfRange)
    else AppendFrom(paths[j := paths[j] + suffix], j + 1, stop, suffix)
  }

  /** Entry `i` is a file, or a directory whose range stops within `count`
      paths (a range that stops at or before `i` is empty). */
  predicate InRange(entry: FileSystemEntry, i: nat, count: nat)
  {
    entry.entryType != Directory || entry.directoryStackCount <= count || entry.directoryStackCount <= i
  }

  /** What processing entry `i`, named `name`, appends to path `k`. */
  function Contribution(entry: FileSystemEntry, i: nat, name: string, k: nat): string
  {
    if entry.entryType == Directory then
      if i <= k < entry.directoryStackCount then name + "/" else ""
    else
      if k == i then name else ""
  }

  /** One iteration of the path loop: a directory appends `name + "/"` to the
      paths of `[i, DirectoryStackCount)`, a file appends its name to its own. */
  function AppendName(paths: seq<string>, i: nat, entry: FileSystemEntry, name: string): (res: Result<seq<string>>)
    requires i < |paths|
    ensures res.Ok? <==> InRange(entry, i, |paths|)
    ensures res.Ok? ==>
      && |res.value| == |paths|
      && forall k :: 0 <= k < |paths| ==> res.value[k] == paths[k] + Contribution(entry, i, name, k)
    ensures res.Ok? ==> forall k :: 0 <= k < i ==> res.value[k] == paths[k]
    ensures res.Err? ==> res.error == IndexOutOfRange
  {
    if entry.entryType == Directory then AppendFrom(paths, i, entry.directoryStackCount, name + "/")
    else Ok(paths[i := paths[i] + name])
  }

  /** The outer path loop from entry `i` on: read the entry's name, then apply
      it. Reading and appending alternate, so the first failure of either
      ends the loop. */
  function BuildPaths(r: Reader, all: seq<FileSystemEntry>, i: nat, paths: seq<string>)
    : (res: Result<(seq<string>, Reader)>)
    requires i <= |all| == |paths|
    ensures res.Ok? ==>
      var (paths', r') := res.value;
      && |paths'| == |paths|
      && r'.data == r.data
      && r.pos <= r'.pos
      && (r.pos <= |r.data| ==> r'.pos <= |r.data|)
    ensures res.Err? ==> res.error == EndOfStream || res.error == IndexOutOfRange
    decreases |all| - i
  {
    if i == |all| then Ok((paths, r))
    else
      var s := ReadCString(r);
      if s.Err? then Err(s.error)
      else
        var p := AppendName(paths, i, all[i], Chars(s.value.0));
        if p.Err? then Err(p.error)
        else BuildPaths(s.value.1, all, i + 1, p.value)
  }

  /** `count` names, one C string after another. */
  function ReadNames(r: Reader, count: nat): (res: Result<(seq<string>, Reader)>)
    ensures res.Ok? ==>
      var (names, r') := res.value;
      && |names| == count
      && r'.data == r.data
      && r.pos <= r'.pos
      && (count > 0 ==> r'.pos <= |r.data|)
    ensures res.Err? ==> res.error == EndOfStream
    decreases count
  {
    if count == 0 then Ok(([], r))
    else
      var s := ReadCString(r);
      if s.Err? then Err(s.error)
      else
        var rest := ReadNames(s.value.1, count - 1);
        if rest.Err? then Err(rest.error)
        else Ok(([Chars(s.value.0)] + rest.value.0, rest.value.1))
  }

  /** The raw names, each followed by its terminating zero byte, in order. */
  function JoinNames(ns: seq<seq<byte>>): (bs: seq<byte>)
  {
    if |ns| == 0 then [] else ns[0] + [0] + JoinNames(ns[1..])
  }

  /** The text of each raw name. */
  function CharsAll(ns: seq<seq<byte>>): (names: seq<string>)
    ensures |names| == |ns|
  {
    seq(|ns|, k requires 0 <= k < |ns| => Chars(ns[k]))
  }

  /** No raw name contains the terminating zero byte. */
  ghost predicate ZeroFree(ns: seq<seq<byte>>)
  {
    forall k :: 0 <= k < |ns| ==> 0 !in ns[k]
  }

  /** One more name in front: its bytes and zero come first, its text first. */
  lemma {:induction false} NamesCons(s: seq<byte>, ns: seq<seq<byte>>)
    ensures JoinNames([s] + ns) == s + [0] + JoinNames(ns)
    ensures CharsAll([s] + ns) == [Chars(s)] + CharsAll(ns)
    ensures ZeroFree([s] + ns) <==> 0 !in s && ZeroFree(ns)
  {
    assert ([s] + ns)[1..] == ns;
    assert forall k :: 0 < k <= |ns| ==> ([s] + ns)[k] == ns[k - 1];
  }

  /** The names read are zero-free byte strings, and the bytes consumed are
      exactly those strings, each followed by its zero byte. */
  lemma {:induction false} ReadNamesEncoding(r: Reader, count: nat)
    requires ReadNames(r, count).Ok?
    requires count > 0 || r.pos <= |r.data|
    ensures
      var (names, r') := ReadNames(r, count).value;
      exists ns :: && |ns| == count && ZeroFree(ns) && names == CharsAll(ns)
                   && r.data[r.pos..r'.pos] == JoinNames(ns)
    decreases count
  {
    var (names, r') := ReadNames(r, count).value;
    if count == 0 {
      var ns: seq<seq<byte>> := [];
      assert names == CharsAll(ns) && r.data[r.pos..r'.pos] == JoinNames(ns);
    } else {
      var (s, r1) := ReadCString(r).value;
      ReadCStringContents(r);
      var rest := ReadNames(r1, count - 1).value.0;
      assert names == [Chars(s)] + rest;
      ReadNamesEncoding(r1, count - 1);
      var ns' :| && |ns'| == count - 1 && ZeroFree(ns') && rest == CharsAll(ns')
                 && r.data[r1.pos..r'.pos] == JoinNames(ns');
      NamesCons(s, ns');
      JoinSlices(r.data, r.pos, r1.pos, r'.pos);
      assert |[s] + ns'| == count;
    }
  }

  /** Adjacent slices join. */
  lemma {:induction false} JoinSlices(data: seq<byte>, i: nat, j: nat, k: nat)
    requires i <= j <= k <= |data|
    ensures data[i..k] == data[i..j] + data[j..k]
  {
  }

  /** Zero-free names written one after another, each followed by a zero byte,
      are read back as those names, whatever precedes and follows them. */
  lemma {:induction false} ReadWrittenNames(before: seq<byte>, ns: seq<seq<byte>>, after: seq<byte>)
    requires ZeroFree(ns)
    ensures
      var data := before + JoinNames(ns) + after;
      ReadNames(Reader(data, |before|), |ns|) == Ok((CharsAll(ns), Reader(data, |before| + |JoinNames(ns)|)))
    decreases |ns|
  {
    if |ns| == 0 {
      ReadNoNames(before, ns, after);
    } else {
      var s, tail := ns[0], ns[1..];
      assert ns == [s] + tail;
      NamesCons(s, tail);
      var more := JoinNames(tail);
      var data := before + JoinNames(ns) + after;
      var before' := before + s + [0];
      AroundTerminator(before, s, more, after);
      ReadWrittenCString(before, s, more + after);
      ReadWrittenNames(before', tail, after);
      var e := |before'| + |more|;
      assert |tail| == |ns| - 1;
      ReadNamesCons(data, |before|, |before'|, e, s, CharsAll(tail), |ns|);
      assert |JoinNames(ns)| == |s| + 1 + |more|;
    }
  }

  /** Reading no names consumes nothing. */
  lemma {:induction false} ReadNoNames(before: seq<byte>, ns: seq<seq<byte>>, after: seq<byte>)
    requires |ns| == 0
    ensures
      var data := before + JoinNames(ns) + after;
      ReadNames(Reader(data, |before|), |ns|) == Ok((CharsAll(ns), Reader(data, |before| + |JoinNames(ns)|)))
  {
    assert JoinNames(ns) == [];
    assert CharsAll(ns) == [];
  }

  /** The bytes after one name's terminator, seen from either side. */
  lemma {:induction false} AroundTerminator(before: seq<byte>, s: seq<byte>, more: seq<byte>, after: seq<byte>)
    ensures before + (s + [0] + more) + after == before + s + [0] + (more + after)
    ensures before + (s + [0] + more) + after == (before + s + [0]) + more + after
  {
  }

  /** A name read at `p` that ends at `q`, followed by `count - 1` names
      read from `q`, are `count` names read from `p`. */
  lemma {:induction false} ReadNamesCons(data: seq<byte>, p: nat, q: nat, e: nat, s: seq<byte>, names: seq<string>, count: nat)
    requires count > 0
    requires ReadCString(Reader(data, p)) == Ok((s, Reader(data, q)))
    requires ReadNames(Reader(data, q), count - 1) == Ok((names, Reader(data, e)))
    ensures ReadNames(Reader(data, p), count) == Ok(([Chars(s)] + names, Reader(data, e)))
  {
  }

  /** Everything entries `i..` append to path `k`, given their names in order. */
  function Covering(all: seq<FileSystemEntry>, names: seq<string>, i: nat, k: nat): string
    requires i <= |all| && |names| == |all| - i
    decreases |all| - i
  {
    if i == |all| then ""
    else Contribution(all[i], i, names[0], k) + Covering(all, names[1..], i + 1, k)
  }

  /** No directory from entry `i` on reaches past the last path. */
  ghost predicate DirectoriesInRange(all: seq<FileSystemEntry>, i: nat)
  {
    forall m :: i <= m < |all| ==> InRange(all[m], m, |all|)
  }

  lemma {:induction false} DirectoriesInRangeStep(all: seq<FileSystemEntry>, i: nat)
    requires i < |all|
    ensures DirectoriesInRange(all, i) <==> InRange(all[i], i, |all|) && DirectoriesInRange(all, i + 1)
  {
  }

  /** The path loop succeeds exactly when every name can be read and no
      directory reaches past the last path. */
  lemma {:induction false} BuildPathsSucceeds(r: Reader, all: seq<FileSystemEntry>, i: nat, paths: seq<string>)
    requires i <= |all| == |paths|
    ensures BuildPaths(r, all, i, paths).Ok? <==> ReadNames(r, |all| - i).Ok? && DirectoriesInRange(all, i)
    decreases |all| - i
  {
    if i < |all| {
      BuildPathsOkStep(r, all, i, paths);
      DirectoriesInRangeStep(all, i);
      var s := ReadCString(r);
      if s.Err? {
        assert !BuildPaths(r, all, i, paths).Ok?;
        assert ReadNames(r, |all| - i).Err?;
      } else {
        ReadNamesStep(r, |all| - i);
        if InRange(all[i], i, |all|) {
          var p := AppendName(paths, i, all[i], Chars(s.value.0));
          BuildPathsSucceeds(s.value.1, all, i + 1, p.value);
          assert BuildPaths(r, all, i, paths).Ok? <==> BuildPaths(s.value.1, all, i + 1, p.value).Ok?;
          assert DirectoriesInRange(all, i) <==> DirectoriesInRange(all, i + 1);
        } else {
          assert !BuildPaths(r, all, i, paths).Ok?;
          assert !DirectoriesInRange(all, i);
        }
      }
    }
  }

  /** The loop from entry `i` succeeds when its name reads, applying it
      succeeds, and the rest of the loop succeeds. */
  lemma {:induction false} BuildPathsOkStep(r: Reader, all: seq<FileSystemEntry>, i: nat, paths: seq<string>)
    requires i < |all| == |paths|
    ensures BuildPaths(r, all, i, paths).Ok? <==>
      && ReadCString(r).Ok?
      && InRange(all[i], i, |all|)
      && var p := AppendName(paths, i, all[i], Chars(ReadCString(r).value.0));
         BuildPaths(ReadCString(r).value.1, all, i + 1, p.value).Ok?
  {
    if ReadCString(r).Ok? && InRange(all[i], i, |all|) {
      BuildPathsStep(r, all, i, paths);
    }
  }

  /** One name read, then the rest. */
  lemma {:induction false} ReadNamesStep(r: Reader, count: nat)
    requires count > 0 && ReadCString(r).Ok?
    ensures ReadNames(r, count).Ok? <==> ReadNames(ReadCString(r).value.1, count - 1).Ok?
  {
  }

  /** One entry's name applied, then the rest of the loop. */
  lemma {:induction false} BuildPathsStep(r: Reader, all: seq<FileSystemEntry>, i: nat, paths: seq<string>)
    requires i < |all| == |paths|
    requires ReadCString(r).Ok?
    requires AppendName(paths, i, all[i], Chars(ReadCString(r).value.0)).Ok?
    ensures
      var p := AppendName(paths, i, all[i], Chars(ReadCString(r).value.0)).value;
      BuildPaths(r, all, i, paths) == BuildPaths(ReadCString(r).value.1, all, i + 1, p)
  {
  }

  /** The path loop reads the names in order and gives path `k` everything the
      entries append to it. */
  lemma {:induction false} BuildPathsMeaning(r: Reader, all: seq<FileSystemEntry>, i: nat, paths: seq<string>)
    requires i <= |all| == |paths|
    requires BuildPaths(r, all, i, paths).Ok?
    ensures ReadNames(r, |all| - i).Ok?
    ensures
      var (paths', r') := BuildPaths(r, all, i, paths).value;
      var (names, r'') := ReadNames(r, |all| - i).value;
      && r' == r''
      && forall k :: 0 <= k < |paths| ==> paths'[k] == paths[k] + Covering(all, names, i, k)
    decreases |all| - i
  {
    if i < |all| {
      var (bytes, r1) := ReadCString(r).value;
      var name := Chars(bytes);
      var paths1 := AppendName(paths, i, all[i], name).value;
      BuildPathsMeaning(r1, all, i + 1, paths1);
      var paths' := BuildPaths(r1, all, i + 1, paths1).value.0;
      var rest := ReadNames(r1, |all| - i - 1).value.0;
      assert ReadNames(r, |all| - i).value.0 == [name] + rest;
      forall k | 0 <= k < |paths|
        ensures paths'[k] == paths[k] + Covering(all, [name] + rest, i, k)
      {
        CoveringStep(all, name, rest, i, k, paths[k], paths1[k], paths'[k]);
      }
    }
  }

  /** The path loop from entry `i` on leaves the paths before `i` as they
      were. */
  lemma {:induction false} BuildPathsKeepsEarlier(r: Reader, all: seq<FileSystemEntry>, i: nat, paths: seq<string>)
    requires i <= |all| == |paths|
    requires BuildPaths(r, all, i, paths).Ok?
    ensures forall k :: 0 <= k < i ==> BuildPaths(r, all, i, paths).value.0[k] == paths[k]
  {
    BuildPathsMeaning(r, all, i, paths);
    var names := ReadNames(r, |all| - i).value.0;
    forall k | 0 <= k < i
      ensures BuildPaths(r, all, i, paths).value.0[k] == paths[k]
    {
      CoveringAfter(all, names, i, k);
    }
  }

  lemma {:induction false} CoveringStep(all: seq<FileSystemEntry>, name: string, rest: seq<string>, i: nat, k: nat,
                                        before: string, mid: string, after: string)
    requires i < |all| && |rest| == |all| - i - 1
    requires mid == before + Contribution(all[i], i, name, k)
    requires after == mid + Covering(all, rest, i + 1, k)
    ensures after == before + Covering(all, [name] + rest, i, k)
  {
    var names := [name] + rest;
    assert names[0] == name && names[1..] == rest;
    var c, cov := Contribution(all[i], i, name, k), Covering(all, rest, i + 1, k);
    assert Covering(all, names, i, k) == c + cov;
    assert (before + c) + cov == before + (c + cov);
  }

  /** The names of the directories from entry `i` on, before entry `j`, whose
      range covers `j`, each followed by `/`. */
  function DirPrefix(all: seq<FileSystemEntry>, names: seq<string>, i: nat, j: nat): string
    requires i <= j < |all| && |names| == |all| - i
    decreases j - i
  {
    if i == j then ""
    else
      var own := if all[i].entryType == Directory && j < all[i].directoryStackCount then names[0] + "/" else "";
      own + DirPrefix(all, names[1..], i + 1, j)
  }

  /** Entries after `k` append nothing to path `k`. */
  lemma {:induction false} CoveringAfter(all: seq<FileSystemEntry>, names: seq<string>, i: nat, k: nat)
    requires i <= |all| && |names| == |all| - i
    requires k < i
    ensures Covering(all, names, i, k) == ""
    decreases |all| - i
  {
    if i < |all| {
      CoveringAfter(all, names[1..], i + 1, k);
    }
  }

  /** Path `j` receives the names of the covering directories before it, in
      index order, then what entry `j` itself appends. */
  lemma {:induction false} CoveringIsDirPrefix(all: seq<FileSystemEntry>, names: seq<string>, i: nat, j: nat)
    requires i <= j < |all| && |names| == |all| - i
    ensures Covering(all, names, i, j) == DirPrefix(all, names, i, j) + Contribution(all[j], j, names[j - i], j)
    decreases j - i
  {
    if i == j {
      CoveringAfter(all, names[1..], i + 1, j);
      assert Covering(all, names, i, j) == Contribution(all[i], i, names[0], j) + "";
      assert DirPrefix(all, names, i, j) == "";
    } else {
      var c := Contribution(all[i], i, names[0], j);
      var d := DirPrefix(all, names[1..], i + 1, j);
      var e := Contribution(all[j], j, names[j - i], j);
      CoveringIsDirPrefix(all, names[1..], i + 1, j);
      assert names[1..][j - (i + 1)] == names[j - i];
      CoveringDirPrefixStep(all, names, i, j);
      assert Covering(all, names, i, j) == c + (d + e);
      assert DirPrefix(all, names, i, j) == c + d;
      assert c + (d + e) == (c + d) + e;
    }
  }

  /** Before `j`, entry `i` adds the same to `Covering` as to `DirPrefix`. */
  lemma {:induction false} CoveringDirPrefixStep(all: seq<FileSystemEntry>, names: seq<string>, i: nat, j: nat)
    requires i < j < |all| && |names| == |all| - i
    ensures Covering(all, names, i, j) ==
      Contribution(all[i], i, names[0], j) + Covering(all, names[1..], i + 1, j)
    ensures DirPrefix(all, names, i, j) ==
      Contribution(all[i], i, names[0], j) + DirPrefix(all, names[1..], i + 1, j)
  {
  }

  /** The paths once every name has been applied. */
  function FinalPaths(all: seq<FileSystemEntry>, names: seq<string>): (paths: seq<string>)
    requires |all| > 0 && |names| == |all| - 1
    ensures |paths| == |all|
  {
    var initial := InitialPaths(|all|);
    seq(|all|, k requires 0 <= k < |all| => initial[k] + Covering(all, names, 1, k))
  }

  /** The root's path is `ROOT`; a file's path is the names of the
      directories covering it, each followed by `/`, then its own name; a
      directory's path ends in its own name and `/` when its range includes
      itself. */
  lemma {:induction false} FinalPathShape(all: seq<FileSystemEntry>, names: seq<string>, j: nat)
    requires |all| > 0 && |names| == |all| - 1
    requires j < |all|
    ensures j == 0 ==> FinalPaths(all, names)[j] == "ROOT"
    ensures 0 < j && all[j].entryType != Directory ==>
      FinalPaths(all, names)[j] == DirPrefix(all, names, 1, j) + names[j - 1]
    ensures 0 < j && all[j].entryType == Directory ==>
      FinalPaths(all, names)[j]
        == DirPrefix(all, names, 1, j) + (if j < all[j].directoryStackCount then names[j - 1] + "/" else "")
  {
    var path := FinalPaths(all, names)[j];
    if j == 0 {
      CoveringAfter(all, names, 1, 0);
      assert path == "ROOT" + "";
    } else {
      CoveringIsDirPrefix(all, names, 1, j);
      assert path == "" + Covering(all, names, 1, j);
    }
  }

  // ----- File entries -----

  /** The indexes of the non-directory entries from `i` on, in order. */
  function FileIndexes(all: seq<FileSystemEntry>, i: nat): (indexes: seq<nat>)
    requires i <= |all|
    ensures forall k :: 0 <= k < |indexes| ==>
      i <= indexes[k] < |all| && all[indexes[k]].entryType != Directory
    decreases |all| - i
  {
    if i == |all| then []
    else if all[i].entryType == Directory then FileIndexes(all, i + 1)
    else [i] + FileIndexes(all, i + 1)
  }

  /** Every non-directory entry from `i` on is listed, once, in index order. */
  lemma {:induction false} FileIndexesExact(all: seq<FileSystemEntry>, i: nat)
    requires i <= |all|
    ensures forall m :: i <= m < |all| && all[m].entryType != Directory ==> m in FileIndexes(all, i)
    ensures forall k, l :: 0 <= k < l < |FileIndexes(all, i)| ==> FileIndexes(all, i)[k] < FileIndexes(all, i)[l]
    decreases |all| - i
  {
    if i < |all| {
      FileIndexesExact(all, i + 1);
      var indexes, rest := FileIndexes(all, i), FileIndexes(all, i + 1);
      if all[i].entryType != Directory {
        assert indexes == [i] + rest;
        forall k, l | 0 <= k < l < |indexes|
          ensures indexes[k] < indexes[l]
        {
          assert indexes[l] == rest[l - 1];
          if k > 0 {
            assert indexes[k] == rest[k - 1];
          }
        }
      }
    }
  }

  /** Every file's bytes lie within the stream. */
  ghost predicate FilesInRange(data: seq<byte>, all: seq<FileSystemEntry>, i: nat)
  {
    forall m :: i <= m < |all| && all[m].entryType != Directory ==>
      all[m].fileOffset + all[m].fileLength <= |data|
  }

  /** The file-entry loop from entry `i` on: skip directories; for a file,
      jump to its offset and read its length in bytes. */
  function CollectFiles(data: seq<byte>, all: seq<FileSystemEntry>, paths: seq<string>, i: nat)
    : (res: Result<seq<FileEntry>>)
    requires i <= |all| == |paths|
    ensures res.Ok? <==> FilesInRange(data, all, i)
    ensures res.Ok? ==> |res.value| == |FileIndexes(all, i)|
    ensures res.Err? ==> res.error == EndOfStream
    decreases |all| - i
  {
    if i == |all| then Ok([])
    else
      var rest := CollectFiles(data, all, paths, i + 1);
      if all[i].entryType == Directory then rest
      else
        var e := all[i];
        var b := ReadBytes(Reader(data, e.fileOffset), e.fileLength);
        if b.Err? then Err(b.error)
        else if rest.Err? then Err(rest.error)
        else Ok([FileEntry(paths[i], b.value.0)] + rest.value)
  }

  /** `file` is entry `j`'s file entry: named by path `j`, holding the bytes
      the entry points at. */
  predicate IsFileOf(data: seq<byte>, all: seq<FileSystemEntry>, paths: seq<string>, j: nat, file: FileEntry)
    requires j < |all| == |paths|
  {
    var e := all[j];
    && e.fileOffset + e.fileLength <= |data|
    && file == FileEntry(paths[j], data[e.fileOffset..e.fileOffset + e.fileLength])
  }

  /** File entry `k` is named after the path of the `k`-th file and holds
      exactly that file's bytes. */
  lemma {:induction false} CollectFilesContents(data: seq<byte>, all: seq<FileSystemEntry>, paths: seq<string>, i: nat)
    requires i <= |all| == |paths|
    requires CollectFiles(data, all, paths, i).Ok?
    ensures
      var files, indexes := CollectFiles(data, all, paths, i).value, FileIndexes(all, i);
      forall k :: 0 <= k < |files| ==> IsFileOf(data, all, paths, indexes[k], files[k])
    decreases |all| - i
  {
    if i < |all| {
      CollectFilesStep(data, all, paths, i);
      CollectFilesContents(data, all, paths, i + 1);
      var files, indexes := CollectFiles(data, all, paths, i).value, FileIndexes(all, i);
      var rest, restIndexes := CollectFiles(data, all, paths, i + 1).value, FileIndexes(all, i + 1);
      if all[i].entryType != Directory {
        forall k | 0 < k < |files|
          ensures IsFileOf(data, all, paths, indexes[k], files[k])
        {
          assert files[k] == rest[k - 1] && indexes[k] == restIndexes[k - 1];
        }
      }
      assert forall k :: 0 <= k < |files| ==> IsFileOf(data, all, paths, indexes[k], files[k]);
    }
  }

  /** One entry of the file loop: a directory adds nothing, a file adds its
      own entry in front of the rest. */
  lemma {:induction false} CollectFilesStep(data: seq<byte>, all: seq<FileSystemEntry>, paths: seq<string>, i: nat)
    requires i < |all| == |paths|
    requires CollectFiles(data, all, paths, i).Ok?
    ensures CollectFiles(data, all, paths, i + 1).Ok?
    ensures all[i].entryType == Directory ==>
      && CollectFiles(data, all, paths, i) == CollectFiles(data, all, paths, i + 1)
      && FileIndexes(all, i) == FileIndexes(all, i + 1)
    ensures all[i].entryType != Directory ==>
      && FileIndexes(all, i) == [i] + FileIndexes(all, i + 1)
      && var files := CollectFiles(data, all, paths, i).value;
         && IsFileOf(data, all, paths, i, files[0])
         && files == [files[0]] + CollectFiles(data, all, paths, i + 1).value
  {
  }

  // ----- Deserialize -----

  /** The entry array: the root entry and the entries after it. */
  datatype Table = Table(root: FileSystemEntry, entries: seq<FileSystemEntry>)
  {
    /** `allFileEntries`: the root at index 0, then the other entries in order. */
    function All(): (all: seq<FileSystemEntry>)
      ensures |all| == 1 + |entries| && all[0] == root
      ensures forall k :: 0 <= k < |entries| ==> all[k + 1] == entries[k]
    {
      [root] + entries
    }
  }

  /** The first part of `Deserialize`: the root entry, then `RootEntries - 1`
      further entries. A root claiming no entries at all cannot hold even
      itself and is an argument error. */
  function ReadTable(r: Reader, layout: EntryLayout): (res: Result<(Table, Reader)>)
    ensures res.Ok? ==>
      var (t, r') := res.value;
      && t.root.rootEntries == 1 + |t.entries|
      && ReadEntry(r, layout) == Ok((t.root, Reader(r.data, r.pos + layout.size)))
      && ReadEntries(Reader(r.data, r.pos + layout.size), layout, |t.entries|) == Ok((t.entries, r'))
      && r'.data == r.data
      && r.pos <= r'.pos <= |r.data|
    ensures res.Ok? <==>
      && ReadEntry(r, layout).Ok?
      && ReadEntry(r, layout).value.0.rootEntries > 0
      && r.pos + layout.size * ReadEntry(r, layout).value.0.rootEntries <= |r.data|
    ensures ReadEntry(r, layout).Ok? && ReadEntry(r, layout).value.0.rootEntries == 0 ==>
      res == Err(ArgumentError)
    ensures res.Err? ==> res.error == EndOfStream || res.error == ArgumentError
  {
    var e := ReadEntry(r, layout);
    if e.Err? then Err(e.error)
    else
      var (root, r1) := e.value;
      if root.rootEntries == 0 then Err(ArgumentError)
      else
        var n := root.rootEntries;
        assert layout.size * n == layout.size + layout.size * (n - 1);
        var es := ReadEntries(r1, layout, n - 1);
        if es.Err? then Err(es.error)
        else Ok((Table(root, es.value.0), es.value.1))
  }

  /** `FileSystem.Deserialize`: the entry array, one name per non-root entry
      while accumulating paths, the file entries, and finally the whole table
      again as one raw block, which leaves the cursor at the table's end. */
  function Deserialize(r: Reader, layout: EntryLayout): (res: Result<(FileSystem, Reader)>)
    ensures res.Ok? ==>
      var (fs, r') := res.value;
      var range := fs.addressRange;
      && 1 + |fs.entries| == fs.root.rootEntries
      && range.startAddress == r.pos <= range.endAddress <= |r.data|
      && fs.raw == r.data[range.startAddress..range.endAddress]
      && r' == Reader(r.data, range.endAddress)
      && |fs.fileEntries| == |FileIndexes([fs.root] + fs.entries, 0)|
    ensures ReadEntry(r, layout).Ok? && ReadEntry(r, layout).value.0.rootEntries == 0 ==> res == Err(ArgumentError)
    ensures res.Err? ==> res.error == EndOfStream || res.error == IndexOutOfRange || res.error == ArgumentError
  {
    var t := ReadTable(r, layout);
    if t.Err? then Err(t.error)
    else
      var (table, r2) := t.value;
      var all := table.All();
      var b := BuildPaths(r2, all, 1, InitialPaths(|all|));
      if b.Err? then Err(b.error)
      else
        var (paths, r3) := b.value;
        var f := CollectFiles(r.data, all, paths, 0);
        if f.Err? then Err(f.error)
        else
          var raw := ReadBytes(Reader(r.data, r.pos), r3.pos - r.pos);
          Ok((FileSystem(AddressRange(r.pos, r3.pos), table.root, table.entries, f.value, raw.value.0), raw.value.1))
  }

  /** What `Deserialize` reads, in order: the entry array at the cursor, then
      one name per non-root entry right after it, ending at the table's end
      address; the file entries it keeps are those of the paths the names
      build. */
  lemma {:induction false} DeserializeReads(r: Reader, layout: EntryLayout)
    requires Deserialize(r, layout).Ok?
    ensures ReadTable(r, layout).Ok?
    ensures
      var (fs, _) := Deserialize(r, layout).value;
      var (t, namesAt) := ReadTable(r, layout).value;
      && t == Table(fs.root, fs.entries)
      && ReadNames(namesAt, |t.entries|).Ok?
      && ReadNames(namesAt, |t.entries|).value.1.pos == fs.addressRange.endAddress
      && CollectFiles(r.data, t.All(), FinalPaths(t.All(), ReadNames(namesAt, |t.entries|).value.0), 0)
           == Ok(fs.fileEntries)
  {
    var (fs, _) := Deserialize(r, layout).value;
    var (t, namesAt) := ReadTable(r, layout).value;
    var all := t.All();
    var initial := InitialPaths(|all|);
    BuildPathsMeaning(namesAt, all, 1, initial);
    var paths := BuildPaths(namesAt, all, 1, initial).value.0;
    var names := ReadNames(namesAt, |t.entries|).value.0;
    assert paths == FinalPaths(all, names);
  }

  /** Each file entry is named by its path, built from the names of the
      directories covering it and its own name, and holds the file's bytes. */
  lemma {:induction false} DeserializeFileEntry(r: Reader, layout: EntryLayout, k: nat)
    requires Deserialize(r, layout).Ok?
    requires k < |Deserialize(r, layout).value.0.fileEntries|
    ensures ReadTable(r, layout).Ok?
    ensures
      var (t, namesAt) := ReadTable(r, layout).value;
      && ReadNames(namesAt, |t.entries|).Ok?
      && var file := Deserialize(r, layout).value.0.fileEntries[k];
         var names := ReadNames(namesAt, |t.entries|).value.0;
         var j := FileIndexes(t.All(), 0)[k];
         var e := t.All()[j];
         && e.entryType != Directory
         && e.fileOffset + e.fileLength <= |r.data|
         && file.data == r.data[e.fileOffset..e.fileOffset + e.fileLength]
         && (j == 0 ==> file.name == "ROOT")
         && (j > 0 ==> file.name == DirPrefix(t.All(), names, 1, j) + names[j - 1])
  {
    DeserializeReads(r, layout);
    var (t, namesAt) := ReadTable(r, layout).value;
    var all := t.All();
    var names := ReadNames(namesAt, |t.entries|).value.0;
    var paths := FinalPaths(all, names);
    CollectFilesContents(r.data, all, paths, 0);
    FinalPathShape(all, names, FileIndexes(all, 0)[k]);
  }

  /** `Deserialize` succeeds exactly when the entry array can be read, every
      name can be read after it, no directory reaches past the last entry and
      every file lies within the stream. */
  lemma {:induction false} DeserializeSucceeds(r: Reader, layout: EntryLayout)
    ensures Deserialize(r, layout).Ok? <==>
      && ReadTable(r, layout).Ok?
      && var (t, namesAt) := ReadTable(r, layout).value;
         && ReadNames(namesAt, |t.entries|).Ok?
         && DirectoriesInRange(t.All(), 1)
         && FilesInRange(r.data, t.All(), 0)
  {
    if ReadTable(r, layout).Ok? {
      var (t, namesAt) := ReadTable(r, layout).value;
      var all := t.All();
      BuildPathsSucceeds(namesAt, all, 1, InitialPaths(|all|));
    }
  }
}
