/**
 * The directory tree as a packer lays it out: extensions, each with its
 * directories, each with its files, every level closed by an empty string.
 * Decoding such a layout visits every record in file order and stores each
 * one under its rebuilt path, a later record replacing an earlier one with
 * the same path.
 */
module VpkTreeLayout {
  import opened Wrappers
  import opened Bytes
  import opened VpkEntry
  import opened VpkTree

  /** One file: its name, its directory entry and the preload bytes that follow the entry. */
  datatype Record = Record(name: seq<byte>, entry: DirectoryEntry, preload: seq<byte>)
  datatype DirGroup = DirGroup(dir: seq<byte>, records: seq<Record>)
  datatype ExtGroup = ExtGroup(ext: seq<byte>, dirs: seq<DirGroup>)

  predicate NulFree(s: seq<byte>) {
    forall k :: 0 <= k < |s| ==> s[k] != 0
  }

  /** A string the decoder reads back as itself: non-empty, since "" closes a level, and NUL-free. */
  predicate Label(s: seq<byte>) {
    s != [] && NulFree(s)
  }

  predicate WfRecords(rs: seq<Record>) {
    forall i :: 0 <= i < |rs| ==> Label(rs[i].name) && |rs[i].preload| == rs[i].entry.preloadBytes
  }

  predicate WfDirs(ds: seq<DirGroup>) {
    forall i :: 0 <= i < |ds| ==> Label(ds[i].dir) && WfRecords(ds[i].records)
  }

  predicate WfTree(gs: seq<ExtGroup>) {
    forall i :: 0 <= i < |gs| ==> Label(gs[i].ext) && WfDirs(gs[i].dirs)
  }

  /* The layout itself. */

  function EncodeRecord(r: Record): seq<byte> {
    r.name + [0] + EncodeEntry(r.entry) + r.preload
  }

  function EncodeNames(rs: seq<Record>): seq<byte> {
    if rs == [] then [0] else EncodeRecord(rs[0]) + EncodeNames(rs[1..])
  }

  function DirBlock(d: DirGroup): seq<byte> {
    d.dir + [0] + EncodeNames(d.records)
  }

  function EncodeDirs(ds: seq<DirGroup>): seq<byte> {
    if ds == [] then [0] else DirBlock(ds[0]) + EncodeDirs(ds[1..])
  }

  function ExtBlock(g: ExtGroup): seq<byte> {
    g.ext + [0] + EncodeDirs(g.dirs)
  }

  function EncodeTree(gs: seq<ExtGroup>): seq<byte> {
    if gs == [] then [0] else ExtBlock(gs[0]) + EncodeTree(gs[1..])
  }

  /*
   * Positions within a layout that starts at `pos`: after a string and its
   * NUL, where a record's preload bytes start, and where each part ends.
   */

  function After(pos: nat, s: seq<byte>): nat {
    pos + |s| + 1
  }

  function PreloadPos(pos: nat, r: Record): nat {
    After(pos, r.name) + ENTRY_LENGTH
  }

  function RecordEnd(pos: nat, r: Record): nat {
    PreloadPos(pos, r) + |r.preload|
  }

  function NamesEnd(pos: nat, rs: seq<Record>): nat
    decreases |rs|
  {
    if rs == [] then pos + 1 else NamesEnd(RecordEnd(pos, rs[0]), rs[1..])
  }

  function DirEnd(pos: nat, d: DirGroup): nat {
    NamesEnd(After(pos, d.dir), d.records)
  }

  function DirsEnd(pos: nat, ds: seq<DirGroup>): nat
    decreases |ds|
  {
    if ds == [] then pos + 1 else DirsEnd(DirEnd(pos, ds[0]), ds[1..])
  }

  function ExtEnd(pos: nat, g: ExtGroup): nat {
    DirsEnd(After(pos, g.ext), g.dirs)
  }

  function TreeEnd(pos: nat, gs: seq<ExtGroup>): nat
    decreases |gs|
  {
    if gs == [] then pos + 1 else TreeEnd(ExtEnd(pos, gs[0]), gs[1..])
  }

  /*
   * The dictionary the decoder is meant to build: each record, in file
   * order, stored under FullPath(ext, dir, name) with the offset of its
   * preload bytes.
   */

  function FillNames(pos: nat, ext: seq<byte>, dir: seq<byte>, rs: seq<Record>, files: Tree): Tree
    decreases |rs|
  {
    if rs == [] then files
    else
      var r := rs[0];
      FillNames(RecordEnd(pos, r), ext, dir, rs[1..], files[FullPath(ext, dir, r.name) := TreeEntry(r.entry, PreloadPos(pos, r))])
  }

  function FillDirs(pos: nat, ext: seq<byte>, ds: seq<DirGroup>, files: Tree): Tree
    decreases |ds|
  {
    if ds == [] then files
    else
      var d := ds[0];
      FillDirs(DirEnd(pos, d), ext, ds[1..], FillNames(After(pos, d.dir), ext, d.dir, d.records, files))
  }

  function FillExts(pos: nat, gs: seq<ExtGroup>, files: Tree): Tree
    decreases |gs|
  {
    if gs == [] then files
    else
      var g := gs[0];
      FillExts(ExtEnd(pos, g), gs[1..], FillDirs(After(pos, g.ext), g.ext, g.dirs, files))
  }

  /* Filling keeps what is already there and adds every record's path. */

  lemma {:induction false} FillNamesKeys(pos: nat, ext: seq<byte>, dir: seq<byte>, rs: seq<Record>, files: Tree)
    ensures files.Keys <= FillNames(pos, ext, dir, rs, files).Keys
    ensures forall k :: 0 <= k < |rs| ==> FullPath(ext, dir, rs[k].name) in FillNames(pos, ext, dir, rs, files)
    decreases |rs|
  {
    if rs != [] {
      var r := rs[0];
      var next := files[FullPath(ext, dir, r.name) := TreeEntry(r.entry, PreloadPos(pos, r))];
      FillNamesKeys(RecordEnd(pos, r), ext, dir, rs[1..], next);
      forall k | 0 < k < |rs| ensures FullPath(ext, dir, rs[k].name) in FillNames(pos, ext, dir, rs, files) {
        assert rs[k] == rs[1..][k - 1];
      }
    }
  }

  lemma {:induction false} FillDirsKeys(pos: nat, ext: seq<byte>, ds: seq<DirGroup>, files: Tree)
    ensures files.Keys <= FillDirs(pos, ext, ds, files).Keys
    ensures forall j, k :: 0 <= j < |ds| && 0 <= k < |ds[j].records| ==>
      FullPath(ext, ds[j].dir, ds[j].records[k].name) in FillDirs(pos, ext, ds, files)
    decreases |ds|
  {
    if ds != [] {
      var d := ds[0];
      var next := FillNames(After(pos, d.dir), ext, d.dir, d.records, files);
      FillNamesKeys(After(pos, d.dir), ext, d.dir, d.records, files);
      FillDirsKeys(DirEnd(pos, d), ext, ds[1..], next);
      forall j, k | 0 < j < |ds| && 0 <= k < |ds[j].records|
        ensures FullPath(ext, ds[j].dir, ds[j].records[k].name) in FillDirs(pos, ext, ds, files)
      {
        assert ds[j] == ds[1..][j - 1];
      }
    }
  }

  lemma {:induction false} FillExtsKeys(pos: nat, gs: seq<ExtGroup>, files: Tree)
    ensures files.Keys <= FillExts(pos, gs, files).Keys
    ensures forall i, j, k :: 0 <= i < |gs| && 0 <= j < |gs[i].dirs| && 0 <= k < |gs[i].dirs[j].records| ==>
      FullPath(gs[i].ext, gs[i].dirs[j].dir, gs[i].dirs[j].records[k].name) in FillExts(pos, gs, files)
    decreases |gs|
  {
    if gs != [] {
      var g := gs[0];
      var next := FillDirs(After(pos, g.ext), g.ext, g.dirs, files);
      FillDirsKeys(After(pos, g.ext), g.ext, g.dirs, files);
      FillExtsKeys(ExtEnd(pos, g), gs[1..], next);
      forall i, j, k | 0 < i < |gs| && 0 <= j < |gs[i].dirs| && 0 <= k < |gs[i].dirs[j].records|
        ensures FullPath(gs[i].ext, gs[i].dirs[j].dir, gs[i].dirs[j].records[k].name) in FillExts(pos, gs, files)
      {
        assert gs[i] == gs[1..][i - 1];
      }
    }
  }

  /* The end positions are where the encodings end. */

  lemma {:induction false} NamesEndLength(pos: nat, rs: seq<Record>)
    ensures NamesEnd(pos, rs) == pos + |EncodeNames(rs)|
    decreases |rs|
  {
    if rs != [] {
      NamesEndLength(RecordEnd(pos, rs[0]), rs[1..]);
    }
  }

  lemma {:induction false} DirsEndLength(pos: nat, ds: seq<DirGroup>)
    ensures DirsEnd(pos, ds) == pos + |EncodeDirs(ds)|
    decreases |ds|
  {
    if ds != [] {
      NamesEndLength(After(pos, ds[0].dir), ds[0].records);
      DirsEndLength(DirEnd(pos, ds[0]), ds[1..]);
    }
  }

  lemma {:induction false} TreeEndLength(pos: nat, gs: seq<ExtGroup>)
    ensures TreeEnd(pos, gs) == pos + |EncodeTree(gs)|
    decreases |gs|
  {
    if gs != [] {
      DirsEndLength(After(pos, gs[0].ext), gs[0].dirs);
      TreeEndLength(ExtEnd(pos, gs[0]), gs[1..]);
    }
  }

  /** `s` occurs in `data` at `pos`. */
  predicate At(data: seq<byte>, pos: nat, s: seq<byte>) {
    pos + |s| <= |data| && data[pos..pos + |s|] == s
  }

  lemma AtConcat(data: seq<byte>, pos: nat, a: seq<byte>, b: seq<byte>)
    requires At(data, pos, a + b)
    ensures At(data, pos, a) && At(data, pos + |a|, b)
  {
    var n := |a| + |b|;
    assert data[pos..pos + |a|] == data[pos..pos + n][..|a|];
    assert data[pos + |a|..pos + n] == data[pos..pos + n][|a|..];
  }

  /** A label and its NUL read back as the label. */
  lemma LabelAt(data: seq<byte>, pos: nat, s: seq<byte>)
    requires At(data, pos, s + [0]) && Label(s)
    ensures String0At(data, pos) == Ok(Parsed(s, After(pos, s)))
  {
    AtConcat(data, pos, s, [0]);
    String0AtEncoded(data, pos, s);
  }

  /** The empty string that closes a level. */
  lemma CloseAt(data: seq<byte>, pos: nat)
    requires At(data, pos, [0])
    ensures String0At(data, pos) == Ok(Parsed([], pos + 1))
  {
    String0AtEncoded(data, pos, []);
  }

  /** An entry followed by its preload bytes, which start at `off` and end at `end`. */
  lemma EntryAtLayout(data: seq<byte>, pos: nat, e: DirectoryEntry, preload: seq<byte>, off: nat, end: nat)
    requires At(data, pos, EncodeEntry(e)) && |preload| == e.preloadBytes
    requires off == pos + ENTRY_LENGTH && end == off + |preload| && end <= |data|
    ensures TreeEntryAt(data, pos) == Ok(Parsed(TreeEntry(e, off), end))
  {
    DecodeEncodeEntry(e, data, pos);
  }

  /** A record's encoding is its name and NUL, its entry, then its preload bytes. */
  lemma RecordParts(data: seq<byte>, pos: nat, r: Record)
    requires At(data, pos, EncodeRecord(r))
    ensures |EncodeRecord(r)| == RecordEnd(pos, r) - pos && RecordEnd(pos, r) <= |data|
    ensures At(data, pos, r.name + [0]) && At(data, After(pos, r.name), EncodeEntry(r.entry))
  {
    var head: seq<byte> := r.name + [0];
    var entry: seq<byte> := EncodeEntry(r.entry);
    assert EncodeRecord(r) == head + entry + r.preload;
    AtConcat(data, pos, head + entry, r.preload);
    AtConcat(data, pos, head, entry);
  }

  /** One record: its name, then its entry with preload bytes in bounds. */
  lemma RecordAt(data: seq<byte>, pos: nat, r: Record)
    requires At(data, pos, EncodeRecord(r)) && Label(r.name) && |r.preload| == r.entry.preloadBytes
    ensures String0At(data, pos) == Ok(Parsed(r.name, After(pos, r.name)))
    ensures TreeEntryAt(data, After(pos, r.name)) == Ok(Parsed(TreeEntry(r.entry, PreloadPos(pos, r)), RecordEnd(pos, r)))
  {
    RecordParts(data, pos, r);
    assert String0At(data, pos) == Ok(Parsed(r.name, After(pos, r.name))) by {
      LabelAt(data, pos, r.name);
    }
    EntryAtLayout(data, After(pos, r.name), r.entry, r.preload, PreloadPos(pos, r), RecordEnd(pos, r));
  }

  /** A directory group followed by the rest of its extension's groups. */
  lemma DirBlockAt(data: seq<byte>, pos: nat, d: DirGroup, rest: seq<DirGroup>)
    requires At(data, pos, EncodeDirs([d] + rest))
    ensures At(data, pos, d.dir + [0]) && At(data, After(pos, d.dir), EncodeNames(d.records))
    ensures At(data, DirEnd(pos, d), EncodeDirs(rest))
  {
    assert ([d] + rest)[1..] == rest;
    assert EncodeDirs([d] + rest) == DirBlock(d) + EncodeDirs(rest);
    AtConcat(data, pos, DirBlock(d), EncodeDirs(rest));
    AtConcat(data, pos, d.dir + [0], EncodeNames(d.records));
    NamesEndLength(After(pos, d.dir), d.records);
  }

  /** An extension group followed by the rest of the tree. */
  lemma ExtBlockAt(data: seq<byte>, pos: nat, g: ExtGroup, rest: seq<ExtGroup>)
    requires At(data, pos, EncodeTree([g] + rest))
    ensures At(data, pos, g.ext + [0]) && At(data, After(pos, g.ext), EncodeDirs(g.dirs))
    ensures At(data, ExtEnd(pos, g), EncodeTree(rest))
  {
    assert ([g] + rest)[1..] == rest;
    assert EncodeTree([g] + rest) == ExtBlock(g) + EncodeTree(rest);
    AtConcat(data, pos, ExtBlock(g), EncodeTree(rest));
    AtConcat(data, pos, g.ext + [0], EncodeDirs(g.dirs));
    DirsEndLength(After(pos, g.ext), g.dirs);
  }

  /*
   * What each loop reads from a layout, string by string and entry by
   * entry, stated without the loops themselves.
   */

  predicate NamesRead(data: seq<byte>, pos: nat, rs: seq<Record>)
    decreases |rs|
  {
    if rs == [] then String0At(data, pos) == Ok(Parsed([], pos + 1))
    else
      var r := rs[0];
      && r.name != []
      && String0At(data, pos) == Ok(Parsed(r.name, After(pos, r.name)))
      && TreeEntryAt(data, After(pos, r.name)) == Ok(Parsed(TreeEntry(r.entry, PreloadPos(pos, r)), RecordEnd(pos, r)))
      && NamesRead(data, RecordEnd(pos, r), rs[1..])
  }

  predicate DirsRead(data: seq<byte>, pos: nat, ds: seq<DirGroup>)
    decreases |ds|
  {
    if ds == [] then String0At(data, pos) == Ok(Parsed([], pos + 1))
    else
      var d := ds[0];
      && d.dir != []
      && String0At(data, pos) == Ok(Parsed(d.dir, After(pos, d.dir)))
      && NamesRead(data, After(pos, d.dir), d.records)
      && DirsRead(data, DirEnd(pos, d), ds[1..])
  }

  predicate TreeRead(data: seq<byte>, pos: nat, gs: seq<ExtGroup>)
    decreases |gs|
  {
    if gs == [] then String0At(data, pos) == Ok(Parsed([], pos + 1))
    else
      var g := gs[0];
      && g.ext != []
      && String0At(data, pos) == Ok(Parsed(g.ext, After(pos, g.ext)))
      && DirsRead(data, After(pos, g.ext), g.dirs)
      && TreeRead(data, ExtEnd(pos, g), gs[1..])
  }

  /* A well-formed layout is read as laid out. */

  lemma {:induction false} NamesLaidOut(data: seq<byte>, pos: nat, rs: seq<Record>)
    requires At(data, pos, EncodeNames(rs)) && WfRecords(rs)
    ensures NamesRead(data, pos, rs)
    decreases |rs|
  {
    if rs == [] {
      CloseAt(data, pos);
    } else {
      var r, rest := rs[0], rs[1..];
      assert At(data, pos, EncodeRecord(r)) && At(data, RecordEnd(pos, r), EncodeNames(rest)) by {
        assert EncodeNames(rs) == EncodeRecord(r) + EncodeNames(rest);
        AtConcat(data, pos, EncodeRecord(r), EncodeNames(rest));
        RecordParts(data, pos, r);
      }
      RecordAt(data, pos, r);
      assert WfRecords(rest) by {
        forall i | 0 <= i < |rest| ensures Label(rest[i].name) && |rest[i].preload| == rest[i].entry.preloadBytes {
          assert rest[i] == rs[i + 1];
        }
      }
      NamesLaidOut(data, RecordEnd(pos, r), rest);
    }
  }

  lemma {:induction false} DirsLaidOut(data: seq<byte>, pos: nat, ds: seq<DirGroup>)
    requires At(data, pos, EncodeDirs(ds)) && WfDirs(ds)
    ensures DirsRead(data, pos, ds)
    decreases |ds|
  {
    if ds == [] {
      CloseAt(data, pos);
    } else {
      var d, rest := ds[0], ds[1..];
      assert ds == [d] + rest;
      DirBlockAt(data, pos, d, rest);
      assert Label(d.dir) && WfRecords(d.records) by {
        assert ds[0] == d;
      }
      assert String0At(data, pos) == Ok(Parsed(d.dir, After(pos, d.dir))) by {
        LabelAt(data, pos, d.dir);
      }
      assert NamesRead(data, After(pos, d.dir), d.records) by {
        NamesLaidOut(data, After(pos, d.dir), d.records);
      }
      assert DirsRead(data, DirEnd(pos, d), rest) by {
        assert WfDirs(rest) by {
          forall i | 0 <= i < |rest| ensures Label(rest[i].dir) && WfRecords(rest[i].records) {
            assert rest[i] == ds[i + 1];
          }
        }
        DirsLaidOut(data, DirEnd(pos, d), rest);
      }
    }
  }

  lemma {:induction false} TreeLaidOut(data: seq<byte>, pos: nat, gs: seq<ExtGroup>)
    requires At(data, pos, EncodeTree(gs)) && WfTree(gs)
    ensures TreeRead(data, pos, gs)
    decreases |gs|
  {
    if gs == [] {
      CloseAt(data, pos);
    } else {
      var g, rest := gs[0], gs[1..];
      assert gs == [g] + rest;
      ExtBlockAt(data, pos, g, rest);
      assert Label(g.ext) && WfDirs(g.dirs) by {
        assert gs[0] == g;
      }
      assert String0At(data, pos) == Ok(Parsed(g.ext, After(pos, g.ext))) by {
        LabelAt(data, pos, g.ext);
      }
      assert DirsRead(data, After(pos, g.ext), g.dirs) by {
        DirsLaidOut(data, After(pos, g.ext), g.dirs);
      }
      assert TreeRead(data, ExtEnd(pos, g), rest) by {
        assert WfTree(rest) by {
          forall i | 0 <= i < |rest| ensures Label(rest[i].ext) && WfDirs(rest[i].dirs) {
            assert rest[i] == gs[i + 1];
          }
        }
        TreeLaidOut(data, ExtEnd(pos, g), rest);
      }
    }
  }

  /* What is read is what the loops decode. */

  /** The name loop reads every record of the list and then hands over to the directory loop. */
  lemma {:induction false} NameLoopReads(data: seq<byte>, pos: nat, ext: seq<byte>, dir: seq<byte>,
                                         rs: seq<Record>, files: Tree)
    requires pos <= |data| && NamesRead(data, pos, rs)
    ensures NamesEnd(pos, rs) <= |data|
    ensures NameLoop(data, pos, ext, dir, files) == DirLoop(data, NamesEnd(pos, rs), ext, FillNames(pos, ext, dir, rs, files))
    decreases |rs|
  {
    if rs == [] {
      NameStep(data, pos, ext, dir, files, Ok([]), pos + 1);
    } else {
      var r := rs[0];
      var t := TreeEntry(r.entry, PreloadPos(pos, r));
      EntryStep(data, pos, ext, dir, files, r.name, After(pos, r.name), Ok(t), RecordEnd(pos, r));
      NameLoopReads(data, RecordEnd(pos, r), ext, dir, rs[1..], files[FullPath(ext, dir, r.name) := t]);
    }
  }

  /** The directory loop reads every directory group and then hands over to the extension loop. */
  lemma {:induction false} DirLoopReads(data: seq<byte>, pos: nat, ext: seq<byte>, ds: seq<DirGroup>, files: Tree)
    requires pos <= |data| && DirsRead(data, pos, ds)
    ensures DirsEnd(pos, ds) <= |data|
    ensures DirLoop(data, pos, ext, files) == ExtLoop(data, DirsEnd(pos, ds), FillDirs(pos, ext, ds, files))
    decreases |ds|
  {
    if ds == [] {
      DirStep(data, pos, ext, files, Ok([]), pos + 1);
    } else {
      var d := ds[0];
      DirStep(data, pos, ext, files, Ok(d.dir), After(pos, d.dir));
      NameLoopReads(data, After(pos, d.dir), ext, d.dir, d.records, files);
      DirLoopReads(data, DirEnd(pos, d), ext, ds[1..], FillNames(After(pos, d.dir), ext, d.dir, d.records, files));
    }
  }

  /** The extension loop reads every extension group and stops after the closing empty string. */
  lemma {:induction false} ExtLoopReads(data: seq<byte>, pos: nat, gs: seq<ExtGroup>, files: Tree)
    requires pos <= |data| && TreeRead(data, pos, gs)
    ensures ExtLoop(data, pos, files) == Ok(Parsed(FillExts(pos, gs, files), TreeEnd(pos, gs)))
    decreases |gs|
  {
    if gs == [] {
      ExtStep(data, pos, files, Ok([]), pos + 1);
    } else {
      var g := gs[0];
      ExtStep(data, pos, files, Ok(g.ext), After(pos, g.ext));
      DirLoopReads(data, After(pos, g.ext), g.ext, g.dirs, files);
      ExtLoopReads(data, ExtEnd(pos, g), gs[1..], FillDirs(After(pos, g.ext), g.ext, g.dirs, files));
    }
  }

  /**
   * Completeness of the tree decode: a well-formed layout found at `pos`
   * decodes to exactly the dictionary FillExts describes, ending right
   * after the layout.
   */
  lemma DecodeEncodeTree(data: seq<byte>, pos: nat, gs: seq<ExtGroup>)
    requires At(data, pos, EncodeTree(gs)) && WfTree(gs)
    ensures DecodeTree(data, pos) == Ok(Parsed(FillExts(pos, gs, map[]), pos + |EncodeTree(gs)|))
  {
    var end := TreeEnd(pos, gs);
    assert end == pos + |EncodeTree(gs)| by {
      TreeEndLength(pos, gs);
    }
    assert ExtLoop(data, pos, map[]) == Ok(Parsed(FillExts(pos, gs, map[]), end)) by {
      TreeLaidOut(data, pos, gs);
      ExtLoopReads(data, pos, gs, map[]);
    }
  }

  /** No record of a well-formed layout is lost: each one's path is a key of the decoded tree. */
  lemma DecodeTreeKeepsEveryRecord(data: seq<byte>, pos: nat, gs: seq<ExtGroup>)
    requires At(data, pos, EncodeTree(gs)) && WfTree(gs)
    ensures DecodeTree(data, pos).Ok?
    ensures forall i, j, k :: 0 <= i < |gs| && 0 <= j < |gs[i].dirs| && 0 <= k < |gs[i].dirs[j].records| ==>
      FullPath(gs[i].ext, gs[i].dirs[j].dir, gs[i].dirs[j].records[k].name) in DecodeTree(data, pos).value.value
  {
    DecodeEncodeTree(data, pos, gs);
    FillExtsKeys(pos, gs, map[]);
  }

  /*
   * Soundness: a tree that decodes was read from such a layout. Each loop
   * that succeeds read a well-formed list of groups or records laid out at
   * its position, and its result is the one the fill functions describe.
   */

  lemma AtJoin(data: seq<byte>, pos: nat, a: seq<byte>, b: seq<byte>)
    requires At(data, pos, a) && At(data, pos + |a|, b)
    ensures At(data, pos, a + b)
  {
    assert data[pos..pos + |a| + |b|] == data[pos..pos + |a|] + data[pos + |a|..pos + |a| + |b|];
  }

  /** A string read is a NUL-free string followed by its NUL, laid out where it was read. */
  lemma StringRead(data: seq<byte>, pos: nat, s: seq<byte>, next: nat)
    requires String0At(data, pos) == Ok(Parsed(s, next))
    ensures NulFree(s) && next == After(pos, s) && At(data, pos, s + [0])
  {
    String0AtContents(data, pos);
    assert data[pos..next] == data[pos..next - 1] + [data[next - 1]];
  }

  /** An entry read is the layout of the entry it gives, followed by its preload bytes. */
  lemma RecordRead(data: seq<byte>, pos: nat, name: seq<byte>, at: nat, t: TreeEntry, next: nat)
    requires String0At(data, pos) == Ok(Parsed(name, at)) && name != []
    requires TreeEntryAt(data, at) == Ok(Parsed(t, next))
    ensures var r := Record(name, t.entry, data[t.preloadOffset..next]);
      && Label(r.name) && |r.preload| == r.entry.preloadBytes
      && At(data, pos, EncodeRecord(r))
      && RecordEnd(pos, r) == next
      && TreeEntry(r.entry, PreloadPos(pos, r)) == t
  {
    StringRead(data, pos, name, at);
    EncodeDecodeEntry(data, at);
    var r := Record(name, t.entry, data[t.preloadOffset..next]);
    var head: seq<byte> := name + [0];
    var entry: seq<byte> := EncodeEntry(t.entry);
    assert At(data, at, entry);
    assert At(data, at + ENTRY_LENGTH, r.preload);
    AtJoin(data, pos, head, entry);
    AtJoin(data, pos, head + entry, r.preload);
    assert EncodeRecord(r) == head + entry + r.preload;
  }

  /*
   * What a succeeding loop read, as a predicate of the records or groups it
   * read: a well-formed list laid out at `pos`, after which the loop hands
   * over with the filled dictionary.
   */

  ghost predicate NamesFrom(data: seq<byte>, pos: nat, ext: seq<byte>, dir: seq<byte>, files: Tree, rs: seq<Record>)
    requires pos <= |data|
  {
    && WfRecords(rs) && At(data, pos, EncodeNames(rs)) && NamesEnd(pos, rs) <= |data|
    && NameLoop(data, pos, ext, dir, files) == DirLoop(data, NamesEnd(pos, rs), ext, FillNames(pos, ext, dir, rs, files))
  }

  ghost predicate DirsFrom(data: seq<byte>, pos: nat, ext: seq<byte>, files: Tree, ds: seq<DirGroup>)
    requires pos <= |data|
  {
    && WfDirs(ds) && At(data, pos, EncodeDirs(ds)) && DirsEnd(pos, ds) <= |data|
    && DirLoop(data, pos, ext, files) == ExtLoop(data, DirsEnd(pos, ds), FillDirs(pos, ext, ds, files))
  }

  ghost predicate TreeFrom(data: seq<byte>, pos: nat, files: Tree, gs: seq<ExtGroup>)
    requires pos <= |data|
  {
    && WfTree(gs) && At(data, pos, EncodeTree(gs))
    && ExtLoop(data, pos, files) == Ok(Parsed(FillExts(pos, gs, files), TreeEnd(pos, gs)))
  }

  /* Prepending one record or group to a layout. */

  lemma NamesCons(data: seq<byte>, pos: nat, r: Record, rest: seq<Record>)
    requires Label(r.name) && |r.preload| == r.entry.preloadBytes && WfRecords(rest)
    requires At(data, pos, EncodeRecord(r)) && At(data, RecordEnd(pos, r), EncodeNames(rest))
    ensures var rs := [r] + rest;
      && WfRecords(rs) && At(data, pos, EncodeNames(rs))
      && NamesEnd(pos, rs) == NamesEnd(RecordEnd(pos, r), rest)
      && rs[0] == r && rs[1..] == rest
  {
    var rs := [r] + rest;
    assert rs[0] == r && rs[1..] == rest;
    forall i | 0 <= i < |rs| ensures Label(rs[i].name) && |rs[i].preload| == rs[i].entry.preloadBytes {
      if i > 0 { assert rs[i] == rest[i - 1]; }
    }
    RecordParts(data, pos, r);
    assert EncodeNames(rs) == EncodeRecord(r) + EncodeNames(rest);
    AtJoin(data, pos, EncodeRecord(r), EncodeNames(rest));
  }

  lemma DirsCons(data: seq<byte>, pos: nat, d: DirGroup, rest: seq<DirGroup>)
    requires Label(d.dir) && WfRecords(d.records) && WfDirs(rest)
    requires At(data, pos, d.dir + [0]) && At(data, After(pos, d.dir), EncodeNames(d.records))
    requires At(data, DirEnd(pos, d), EncodeDirs(rest))
    ensures var ds := [d] + rest;
      && WfDirs(ds) && At(data, pos, EncodeDirs(ds))
      && DirsEnd(pos, ds) == DirsEnd(DirEnd(pos, d), rest)
      && ds[0] == d && ds[1..] == rest
  {
    var ds := [d] + rest;
    assert ds[0] == d && ds[1..] == rest;
    forall i | 0 <= i < |ds| ensures Label(ds[i].dir) && WfRecords(ds[i].records) {
      if i > 0 { assert ds[i] == rest[i - 1]; }
    }
    NamesEndLength(After(pos, d.dir), d.records);
    AtJoin(data, pos, d.dir + [0], EncodeNames(d.records));
    assert DirBlock(d) == d.dir + [0] + EncodeNames(d.records);
    AtJoin(data, pos, DirBlock(d), EncodeDirs(rest));
    assert EncodeDirs(ds) == DirBlock(d) + EncodeDirs(rest);
  }

  lemma TreeCons(data: seq<byte>, pos: nat, g: ExtGroup, rest: seq<ExtGroup>)
    requires Label(g.ext) && WfDirs(g.dirs) && WfTree(rest)
    requires At(data, pos, g.ext + [0]) && At(data, After(pos, g.ext), EncodeDirs(g.dirs))
    requires At(data, ExtEnd(pos, g), EncodeTree(rest))
    ensures var gs := [g] + rest;
      && WfTree(gs) && At(data, pos, EncodeTree(gs))
      && TreeEnd(pos, gs) == TreeEnd(ExtEnd(pos, g), rest)
      && gs[0] == g && gs[1..] == rest
  {
    var gs := [g] + rest;
    assert gs[0] == g && gs[1..] == rest;
    forall i | 0 <= i < |gs| ensures Label(gs[i].ext) && WfDirs(gs[i].dirs) {
      if i > 0 { assert gs[i] == rest[i - 1]; }
    }
    DirsEndLength(After(pos, g.ext), g.dirs);
    AtJoin(data, pos, g.ext + [0], EncodeDirs(g.dirs));
    assert ExtBlock(g) == g.ext + [0] + EncodeDirs(g.dirs);
    AtJoin(data, pos, ExtBlock(g), EncodeTree(rest));
    assert EncodeTree(gs) == ExtBlock(g) + EncodeTree(rest);
  }

  /* One step of each soundness proof. */

  lemma NamesFromCons(data: seq<byte>, pos: nat, ext: seq<byte>, dir: seq<byte>, files: Tree,
                      name: seq<byte>, at: nat, t: TreeEntry, next: nat, rest: seq<Record>)
    requires pos <= |data| && String0At(data, pos) == Ok(Parsed(name, at)) && name != []
    requires TreeEntryAt(data, at) == Ok(Parsed(t, next))
    requires next <= |data| && NamesFrom(data, next, ext, dir, files[FullPath(ext, dir, name) := t], rest)
    ensures exists rs :: NamesFrom(data, pos, ext, dir, files, rs)
  {
    var r := Record(name, t.entry, data[t.preloadOffset..next]);
    RecordRead(data, pos, name, at, t, next);
    EntryStep(data, pos, ext, dir, files, name, at, Ok(t), next);
    NamesCons(data, pos, r, rest);
    assert NamesFrom(data, pos, ext, dir, files, [r] + rest);
  }

  lemma NamesFromEmpty(data: seq<byte>, pos: nat, ext: seq<byte>, dir: seq<byte>, files: Tree, at: nat)
    requires pos <= |data| && String0At(data, pos) == Ok(Parsed([], at))
    ensures exists rs :: NamesFrom(data, pos, ext, dir, files, rs)
  {
    StringRead(data, pos, [], at);
    NameStep(data, pos, ext, dir, files, Ok([]), at);
    assert NamesFrom(data, pos, ext, dir, files, []);
  }

  lemma DirsFromCons(data: seq<byte>, pos: nat, ext: seq<byte>, files: Tree,
                     dir: seq<byte>, at: nat, rs: seq<Record>, rest: seq<DirGroup>)
    requires pos <= |data| && String0At(data, pos) == Ok(Parsed(dir, at)) && dir != []
    requires at <= |data| && NamesFrom(data, at, ext, dir, files, rs)
    requires DirsFrom(data, NamesEnd(at, rs), ext, FillNames(at, ext, dir, rs, files), rest)
    ensures exists ds :: DirsFrom(data, pos, ext, files, ds)
  {
    StringRead(data, pos, dir, at);
    DirStep(data, pos, ext, files, Ok(dir), at);
    DirsCons(data, pos, DirGroup(dir, rs), rest);
    assert DirsFrom(data, pos, ext, files, [DirGroup(dir, rs)] + rest);
  }

  lemma DirsFromEmpty(data: seq<byte>, pos: nat, ext: seq<byte>, files: Tree, at: nat)
    requires pos <= |data| && String0At(data, pos) == Ok(Parsed([], at))
    ensures exists ds :: DirsFrom(data, pos, ext, files, ds)
  {
    StringRead(data, pos, [], at);
    DirStep(data, pos, ext, files, Ok([]), at);
    assert DirsFrom(data, pos, ext, files, []);
  }

  lemma TreeFromCons(data: seq<byte>, pos: nat, files: Tree,
                     ext: seq<byte>, at: nat, ds: seq<DirGroup>, rest: seq<ExtGroup>)
    requires pos <= |data| && String0At(data, pos) == Ok(Parsed(ext, at)) && ext != []
    requires at <= |data| && DirsFrom(data, at, ext, files, ds)
    requires TreeFrom(data, DirsEnd(at, ds), FillDirs(at, ext, ds, files), rest)
    ensures exists gs :: TreeFrom(data, pos, files, gs)
  {
    StringRead(data, pos, ext, at);
    ExtStep(data, pos, files, Ok(ext), at);
    TreeCons(data, pos, ExtGroup(ext, ds), rest);
    assert TreeFrom(data, pos, files, [ExtGroup(ext, ds)] + rest);
  }

  lemma TreeFromEmpty(data: seq<byte>, pos: nat, files: Tree, at: nat)
    requires pos <= |data| && String0At(data, pos) == Ok(Parsed([], at))
    ensures exists gs :: TreeFrom(data, pos, files, gs)
  {
    StringRead(data, pos, [], at);
    ExtStep(data, pos, files, Ok([]), at);
    assert TreeFrom(data, pos, files, []);
  }

  /* The soundness proofs, by induction on the remaining data. */

  /** A succeeding name loop read a well-formed list of records and the empty string after it. */
  lemma {:induction false} NameLoopSound(data: seq<byte>, pos: nat, ext: seq<byte>, dir: seq<byte>, files: Tree)
    requires pos <= |data| && NameLoop(data, pos, ext, dir, files).Ok?
    ensures exists rs :: NamesFrom(data, pos, ext, dir, files, rs)
    decreases |data| - pos
  {
    var sr := String0At(data, pos);
    assert sr.Ok?;
    var name, at := sr.value.value, sr.value.next;
    if name == [] {
      NamesFromEmpty(data, pos, ext, dir, files, at);
    } else {
      var te := TreeEntryAt(data, at);
      assert te.Ok?;
      var t, next := te.value.value, te.value.next;
      var filled := files[FullPath(ext, dir, name) := t];
      EntryStep(data, pos, ext, dir, files, name, at, Ok(t), next);
      NameLoopSound(data, next, ext, dir, filled);
      var rest :| NamesFrom(data, next, ext, dir, filled, rest);
      NamesFromCons(data, pos, ext, dir, files, name, at, t, next, rest);
    }
  }

  /** A succeeding directory loop read a well-formed list of directory groups and the empty string after it. */
  lemma {:induction false} DirLoopSound(data: seq<byte>, pos: nat, ext: seq<byte>, files: Tree)
    requires pos <= |data| && DirLoop(data, pos, ext, files).Ok?
    ensures exists ds :: DirsFrom(data, pos, ext, files, ds)
    decreases |data| - pos
  {
    var sr := String0At(data, pos);
    assert sr.Ok?;
    var dir, at := sr.value.value, sr.value.next;
    if dir == [] {
      DirsFromEmpty(data, pos, ext, files, at);
    } else {
      DirStep(data, pos, ext, files, Ok(dir), at);
      NameLoopSound(data, at, ext, dir, files);
      var rs :| NamesFrom(data, at, ext, dir, files, rs);
      var next, filled := NamesEnd(at, rs), FillNames(at, ext, dir, rs, files);
      assert pos < next by {
        NamesEndLength(at, rs);
      }
      DirLoopSound(data, next, ext, filled);
      var rest :| DirsFrom(data, next, ext, filled, rest);
      DirsFromCons(data, pos, ext, files, dir, at, rs, rest);
    }
  }

  /** A succeeding extension loop read a well-formed tree layout, and its result is the filled dictionary. */
  lemma {:induction false} ExtLoopSound(data: seq<byte>, pos: nat, files: Tree)
    requires pos <= |data| && ExtLoop(data, pos, files).Ok?
    ensures exists gs :: TreeFrom(data, pos, files, gs)
    decreases |data| - pos
  {
    var sr := String0At(data, pos);
    assert sr.Ok?;
    var ext, at := sr.value.value, sr.value.next;
    if ext == [] {
      TreeFromEmpty(data, pos, files, at);
    } else {
      ExtStep(data, pos, files, Ok(ext), at);
      DirLoopSound(data, at, ext, files);
      var ds :| DirsFrom(data, at, ext, files, ds);
      var next, filled := DirsEnd(at, ds), FillDirs(at, ext, ds, files);
      assert pos < next by {
        DirsEndLength(at, ds);
      }
      ExtLoopSound(data, next, filled);
      var rest :| TreeFrom(data, next, filled, rest);
      TreeFromCons(data, pos, files, ext, at, ds, rest);
    }
  }

  /**
   * The converse of DecodeEncodeTree: every tree that decodes is the
   * decode of a well-formed layout found at its start, so bytes outside
   * such layouts never decode.
   */
  lemma DecodeTreeSound(data: seq<byte>, pos: nat)
    requires pos <= |data| && DecodeTree(data, pos).Ok?
    ensures exists gs :: (WfTree(gs) && At(data, pos, EncodeTree(gs))
      && DecodeTree(data, pos) == Ok(Parsed(FillExts(pos, gs, map[]), pos + |EncodeTree(gs)|)))
  {
    ExtLoopSound(data, pos, map[]);
    var gs :| TreeFrom(data, pos, map[], gs);
    TreeEndLength(pos, gs);
    assert WfTree(gs) && At(data, pos, EncodeTree(gs))
      && DecodeTree(data, pos) == Ok(Parsed(FillExts(pos, gs, map[]), pos + |EncodeTree(gs)|));
  }

  /**
   * A bad entry aborts the whole decode: after an extension, a directory
   * and a file name, an entry whose terminator is not 0xffff makes the
   * tree fail with BadTerminator.
   */
  lemma DecodeTreeBadTerminator(data: seq<byte>, pos: nat, ext: seq<byte>, dir: seq<byte>, name: seq<byte>)
    requires Label(ext) && Label(dir) && Label(name)
    requires At(data, pos, ext + [0])
    requires At(data, After(pos, ext), dir + [0])
    requires At(data, After(After(pos, ext), dir), name + [0])
    requires var e := After(After(After(pos, ext), dir), name);
      e + ENTRY_LENGTH <= |data| && LeU16(data, e + 16) != ENTRY_TERMINATOR
    ensures DecodeTree(data, pos) == Err(BadTerminator)
  {
    var a1 := After(pos, ext);
    var a2 := After(a1, dir);
    var a3 := After(a2, name);
    LabelAt(data, pos, ext);
    LabelAt(data, a1, dir);
    LabelAt(data, a2, name);
    ExtStep(data, pos, map[], Ok(ext), a1);
    DirStep(data, a1, ext, map[], Ok(dir), a2);
    assert TreeEntryAt(data, a3) == Err(BadTerminator);
    EntryStep(data, a2, ext, dir, map[], name, a3, Err(BadTerminator), 0);
  }
}
