/**
 * A VPK archive opened by the path of its directory file: checking the
 * header, loading header and tree, listing the logical paths, and extracting
 * one file's bytes from the preload area and its archive, checked by CRC-32.
 * Files are looked up in a file system given as a map from path to contents;
 * CRC-32 is a parameter.
 */
module Vpk {
  import opened Wrappers
  import opened Bytes
  import opened ByteCursor
  import opened VpkHeader
  import opened VpkEntry
  import opened VpkTree
  import opened VpkLocator

  type FileSystem = map<string, seq<byte>>
  type Crc32 = seq<byte> -> u32

  /**
   * A positioned read: copies the bytes of `file` from `position` into `buf`
   * from `offset`, at most `length` of them and none past the end of the
   * file, and returns how many it copied. Its caller must leave room for
   * `length` bytes.
   */
  method ReadSync(file: seq<byte>, buf: array<byte>, offset: nat, length: nat, position: nat)
    returns (bytesRead: nat)
    requires offset + length <= buf.Length
    modifies buf
    ensures bytesRead == |Available(file, position, length)|
    ensures buf[..] == Splice(old(buf[..]), offset, Available(file, position, length))
  {
    bytesRead := if position < |file| then Min(length, |file| - position) else 0;
    for i := 0 to bytesRead
      invariant forall k :: 0 <= k < buf.Length ==>
        buf[k] == if offset <= k < offset + i then file[position + k - offset] else old(buf[k])
    {
      buf[offset + i] := file[position + i];
    }
    assert buf[..] == Splice(old(buf[..]), offset, Available(file, position, length));
  }

  /*
   * Checking a directory file: the first HEADER_2_LENGTH bytes, read into a
   * zeroed buffer, must decode as a header.
   */

  function Validity(file: seq<byte>): bool {
    DecodeHeader(ReadPadded(file, 0, HEADER_2_LENGTH), 0).Ok?
  }

  /** A file is valid exactly when its first words, padded with zeros, are the signature and a known version. */
  lemma ValidityIff(file: seq<byte>)
    ensures var pad := ReadPadded(file, 0, HEADER_2_LENGTH);
      Validity(file) <==> LeU32(pad, 0) == SIGNATURE && (LeU32(pad, 4) == 1 || LeU32(pad, 4) == 2)
  {
  }

  /** A directory file whose header decodes is valid. */
  lemma DecodableIsValid(file: seq<byte>)
    requires DecodeHeader(file, 0).Ok?
    ensures Validity(file)
  {
    var pad := ReadPadded(file, 0, HEADER_2_LENGTH);
    assert pad[..8] == file[..8];
    assert LeU32(pad, 0) == LeU32(file, 0);
    assert LeU32(pad, 4) == LeU32(file, 4);
  }

  /**
   * The converse fails: eight bytes holding the signature and version 1 are
   * valid, yet too short to decode as a header.
   */
  lemma TruncatedIsValid()
    ensures var file := EncodeU32(SIGNATURE) + EncodeU32(1);
      Validity(file) && DecodeHeader(file, 0) == Err(OutOfBounds)
  {
    var file := EncodeU32(SIGNATURE) + EncodeU32(1);
    var pad := ReadPadded(file, 0, HEADER_2_LENGTH);
    assert LeU32(file, 0) == SIGNATURE by {
      assert file[..4] == EncodeU32(SIGNATURE);
      LeU32Encodes(file, 0, SIGNATURE);
    }
    assert LeU32(file, 4) == 1 by {
      assert file[4..8] == EncodeU32(1);
      LeU32Encodes(file, 4, 1);
    }
    assert LeU32(pad, 0) == LeU32(file, 0);
    assert LeU32(pad, 4) == LeU32(file, 4);
  }

  /** The header and the tree right after it, as load decodes them. */
  function DecodeDirectory(data: seq<byte>): (r: Result<(Header, Tree), Error>)
    ensures r.Ok? ==> DecodeHeader(data, 0).Ok? && r.value.0 == DecodeHeader(data, 0).value.value
    ensures r.Ok? ==> WellFormed(r.value.0) && DecodeTree(data, HeaderLength(r.value.0.version)).Ok?
    ensures r.Ok? ==> r.value.1 == DecodeTree(data, HeaderLength(r.value.0.version)).value.value
  {
    var h :- DecodeHeader(data, 0);
    var t :- DecodeTree(data, h.next);
    Ok((h.value, t.value))
  }

  /** Every entry of a loaded tree was decoded from the directory data. */
  lemma DecodeDirectoryEntriesAt(data: seq<byte>)
    requires DecodeDirectory(data).Ok?
    ensures AllEntriesAt(data, DecodeDirectory(data).value.1)
  {
    DecodedEntriesAt(data, HeaderLength(DecodeDirectory(data).value.0.version));
  }

  /*
   * Extraction. A buffer of preload + entry length zero bytes receives the
   * preload bytes from the directory file and then the main bytes from where
   * MainLocation says; each read opens its file first and fails if it is
   * missing, and a read that is not needed (zero length) opens nothing.
   */

  function ReadInto(fs: FileSystem, path: string, buf: seq<byte>, at: nat, length: nat, position: nat)
    : (r: Result<seq<byte>, Error>)
    requires at + length <= |buf|
    ensures r.Ok? ==> |r.value| == |buf|
  {
    if path !in fs then Err(IoError(path))
    else Ok(Splice(buf, at, Available(fs[path], position, length)))
  }

  /**
   * The buffer getFile fills for entry `t`, before its CRC is checked: the
   * preload bytes read into a zeroed buffer, then the main bytes after them.
   */
  function Assemble(fs: FileSystem, dirPath: string, h: Header, t: TreeEntry): (r: Result<seq<byte>, Error>)
    ensures r.Ok? ==> |r.value| == t.entry.preloadBytes + t.entry.entryLength
  {
    var e := t.entry;
    var buf0 := Zeros(e.preloadBytes + e.entryLength);
    var buf1 :- if e.preloadBytes > 0 then ReadInto(fs, dirPath, buf0, 0, e.preloadBytes, t.preloadOffset)
                else Ok(buf0);
    var loc := MainLocation(dirPath, h, e);
    if e.entryLength > 0 then ReadInto(fs, loc.path, buf1, e.preloadBytes, e.entryLength, loc.position)
    else Ok(buf1)
  }

  /** The outcome of getFile: Ok(None) for a path not in the tree. */
  function ExtractFile(fs: FileSystem, crc32: Crc32, dirPath: string, h: Header, files: Tree, path: Path)
    : Result<Option<seq<byte>>, Error>
  {
    if path !in files then Ok(None)
    else
      var buf :- Assemble(fs, dirPath, h, files[path]);
      if crc32(buf) != files[path].entry.crc then Err(CrcMismatch) else Ok(Some(buf))
  }

  /** The two positioned reads of getFile into one fresh buffer. */
  method ReadEntryBytes(fs: FileSystem, dirPath: string, h: Header, t: TreeEntry) returns (r: Result<seq<byte>, Error>)
    ensures r == Assemble(fs, dirPath, h, t)
  {
    var e := t.entry;
    var file := new byte[e.preloadBytes + e.entryLength](_ => 0);
    assert file[..] == Zeros(e.preloadBytes + e.entryLength);
    if e.preloadBytes > 0 {
      if dirPath !in fs {
        return Err(IoError(dirPath));
      }
      var _ := ReadSync(fs[dirPath], file, 0, e.preloadBytes, t.preloadOffset);
    }
    if e.entryLength > 0 {
      var loc := MainLocation(dirPath, h, e);
      if loc.path !in fs {
        return Err(IoError(loc.path));
      }
      var _ := ReadSync(fs[loc.path], file, e.preloadBytes, e.entryLength, loc.position);
    }
    return Ok(file[..]);
  }

  /** Every file an entry's bytes come from exists. */
  predicate Reachable(fs: FileSystem, dirPath: string, h: Header, t: TreeEntry) {
    && (t.entry.preloadBytes > 0 ==> dirPath in fs)
    && (t.entry.entryLength > 0 ==> MainLocation(dirPath, h, t.entry).path in fs)
  }

  /**
   * The bytes of an entry, independently of the buffer: its preload bytes
   * read from the directory file, then its main bytes, each padded with
   * zeros past the end of its file.
   */
  function Contents(fs: FileSystem, dirPath: string, h: Header, t: TreeEntry): (s: seq<byte>)
    requires Reachable(fs, dirPath, h, t)
    ensures |s| == t.entry.preloadBytes + t.entry.entryLength
  {
    var e := t.entry;
    var loc := MainLocation(dirPath, h, e);
    (if e.preloadBytes > 0 then ReadPadded(fs[dirPath], t.preloadOffset, e.preloadBytes) else []) +
    (if e.entryLength > 0 then ReadPadded(fs[loc.path], loc.position, e.entryLength) else [])
  }

  lemma PreloadRead(fs: FileSystem, dirPath: string, h: Header, t: TreeEntry)
    requires t.entry.preloadBytes > 0 && dirPath in fs
    ensures var e := t.entry; var buf0 := Zeros(e.preloadBytes + e.entryLength);
      var buf1 := Splice(buf0, 0, Available(fs[dirPath], t.preloadOffset, e.preloadBytes));
      buf1 == ReadPadded(fs[dirPath], t.preloadOffset, e.preloadBytes) + Zeros(e.entryLength)
  {
  }

  lemma MainRead(fs: FileSystem, path: string, position: nat, prefix: seq<byte>, length: nat)
    requires length > 0 && path in fs
    ensures Splice(prefix + Zeros(length), |prefix|, Available(fs[path], position, length))
      == prefix + ReadPadded(fs[path], position, length)
  {
    var buf := prefix + Zeros(length);
    var r := Splice(buf, |prefix|, Available(fs[path], position, length));
    var want := prefix + ReadPadded(fs[path], position, length);
    assert forall k :: 0 <= k < |r| ==> r[k] == want[k];
  }

  /**
   * The buffer is the entry's contents when every file it needs exists;
   * otherwise the error names the first missing one (the directory file for
   * preload bytes, then the main location).
   */
  lemma AssembleCases(fs: FileSystem, dirPath: string, h: Header, t: TreeEntry)
    ensures var r := Assemble(fs, dirPath, h, t);
      && (t.entry.preloadBytes > 0 && dirPath !in fs ==> r == Err(IoError(dirPath)))
      && (!(t.entry.preloadBytes > 0 && dirPath !in fs) && t.entry.entryLength > 0 &&
          MainLocation(dirPath, h, t.entry).path !in fs ==>
            r == Err(IoError(MainLocation(dirPath, h, t.entry).path)))
      && (Reachable(fs, dirPath, h, t) ==> r == Ok(Contents(fs, dirPath, h, t)))
  {
    var e := t.entry;
    if Reachable(fs, dirPath, h, t) {
      var buf0 := Zeros(e.preloadBytes + e.entryLength);
      var loc := MainLocation(dirPath, h, e);
      var pre: seq<byte> := if e.preloadBytes > 0 then ReadPadded(fs[dirPath], t.preloadOffset, e.preloadBytes) else [];
      var buf1 := if e.preloadBytes > 0 then Splice(buf0, 0, Available(fs[dirPath], t.preloadOffset, e.preloadBytes)) else buf0;
      if e.preloadBytes > 0 {
        PreloadRead(fs, dirPath, h, t);
      } else {
        assert buf1 == pre + Zeros(e.entryLength);
      }
      if e.entryLength > 0 {
        MainRead(fs, loc.path, loc.position, pre, e.entryLength);
      } else {
        assert buf1 == pre + [];
      }
    }
  }

  /**
   * What getFile returns: nothing for a path not in the tree; an I/O error
   * for the first missing file it needs; otherwise the entry's contents when
   * their CRC-32 matches, and a CRC error when it does not.
   */
  lemma ExtractFileCases(fs: FileSystem, crc32: Crc32, dirPath: string, h: Header, files: Tree, path: Path)
    ensures ExtractFile(fs, crc32, dirPath, h, files, path) == Ok(None) <==> path !in files
    ensures path in files ==>
      var t := files[path];
      var r := ExtractFile(fs, crc32, dirPath, h, files, path);
      && (t.entry.preloadBytes > 0 && dirPath !in fs ==> r == Err(IoError(dirPath)))
      && (!(t.entry.preloadBytes > 0 && dirPath !in fs) && t.entry.entryLength > 0 &&
          MainLocation(dirPath, h, t.entry).path !in fs ==>
            r == Err(IoError(MainLocation(dirPath, h, t.entry).path)))
      && (Reachable(fs, dirPath, h, t) ==>
            r == if crc32(Contents(fs, dirPath, h, t)) == t.entry.crc
                 then Ok(Some(Contents(fs, dirPath, h, t))) else Err(CrcMismatch))
  {
    if path in files {
      AssembleCases(fs, dirPath, h, files[path]);
    }
  }

  /** An extracted file has the entry's length and CRC. */
  lemma ExtractedMatches(fs: FileSystem, crc32: Crc32, dirPath: string, h: Header, files: Tree, path: Path)
    requires ExtractFile(fs, crc32, dirPath, h, files, path).Ok?
    requires ExtractFile(fs, crc32, dirPath, h, files, path).value.Some?
    ensures path in files
    ensures var b := ExtractFile(fs, crc32, dirPath, h, files, path).value.value;
      |b| == files[path].entry.preloadBytes + files[path].entry.entryLength && crc32(b) == files[path].entry.crc
  {
  }

  /** Every entry of a loaded tree lies inside the directory data. */
  lemma LoadedEntryAt(d: seq<byte>, h: Header, files: Tree, path: Path)
    requires DecodeDirectory(d) == Ok((h, files)) && path in files
    ensures EntryAt(d, files[path])
  {
    DecodeDirectoryEntriesAt(d);
  }

  /**
   * For a tree decoded from the directory file, the preload part of an
   * extracted file is exactly the bytes after the entry, never padding.
   */
  lemma LoadedPreloadExact(fs: FileSystem, dirPath: string, h: Header, files: Tree, path: Path)
    requires dirPath in fs && DecodeDirectory(fs[dirPath]) == Ok((h, files))
    requires path in files && Reachable(fs, dirPath, h, files[path])
    ensures var t := files[path]; var d := fs[dirPath];
      t.preloadOffset + t.entry.preloadBytes <= |d|
      && Contents(fs, dirPath, h, t)[..t.entry.preloadBytes] == d[t.preloadOffset..t.preloadOffset + t.entry.preloadBytes]
  {
    LoadedEntryAt(fs[dirPath], h, files, path);
    PreloadExact(fs, dirPath, h, files[path]);
  }

  /** Preload bytes that lie inside the directory file are read exactly. */
  lemma PreloadExact(fs: FileSystem, dirPath: string, h: Header, t: TreeEntry)
    requires dirPath in fs && Reachable(fs, dirPath, h, t)
    requires t.preloadOffset + t.entry.preloadBytes <= |fs[dirPath]|
    ensures Contents(fs, dirPath, h, t)[..t.entry.preloadBytes]
      == fs[dirPath][t.preloadOffset..t.preloadOffset + t.entry.preloadBytes]
  {
    var d := fs[dirPath];
    var n := t.entry.preloadBytes;
    if n > 0 {
      var pre := ReadPadded(d, t.preloadOffset, n);
      assert Contents(fs, dirPath, h, t)[..n] == pre;
      assert pre == d[t.preloadOffset..t.preloadOffset + n];
    }
  }

  class Archive {
    const directoryPath: string
    /** The decoded header, once load has read it. */
    var header: Option<Header>
    /** The decoded tree, once load has read it. */
    var tree: Option<Tree>

    /** load stores the header before it decodes the tree. */
    ghost predicate Valid()
      reads this
    {
      tree.Some? ==> header.Some?
    }

    constructor (path: string)
      ensures directoryPath == path && header == None && tree == None && Valid()
    {
      directoryPath := path;
      header := None;
      tree := None;
    }

    /** isValid: a missing directory file is an error, otherwise whether its header decodes. */
    method IsValid(fs: FileSystem) returns (r: Result<bool, Error>)
      ensures directoryPath !in fs ==> r == Err(IoError(directoryPath))
      ensures directoryPath in fs ==> r == Ok(Validity(fs[directoryPath]))
    {
      if directoryPath !in fs {
        return Err(IoError(directoryPath));
      }
      var buf := new byte[HEADER_2_LENGTH](_ => 0);
      assert buf[..] == Zeros(HEADER_2_LENGTH);
      var _ := ReadSync(fs[directoryPath], buf, 0, HEADER_2_LENGTH, 0);
      var c := new Cursor(buf[..]);
      var h := ReadHeader(c);
      return Ok(h.Ok?);
    }

    /**
     * load: decodes the header and then the tree from the whole directory
     * file; a header that fails changes nothing, a tree that fails leaves
     * the new header in place.
     */
    method Load(fs: FileSystem) returns (r: Result<(), Error>)
      requires Valid()
      modifies this
      ensures Valid()
      ensures directoryPath !in fs ==> r == Err(IoError(directoryPath)) && header == old(header) && tree == old(tree)
      ensures directoryPath in fs ==>
        var d := fs[directoryPath];
        var h := DecodeHeader(d, 0);
        && (h.Err? ==> r == Err(h.error) && header == old(header) && tree == old(tree))
        && (h.Ok? ==> header == Some(h.value.value))
        && (h.Ok? && DecodeTree(d, h.value.next).Err? ==>
              r == Err(DecodeTree(d, h.value.next).error) && tree == old(tree))
        && (h.Ok? && DecodeTree(d, h.value.next).Ok? ==>
              r == Ok(()) && tree == Some(DecodeTree(d, h.value.next).value.value))
      ensures r.Ok? <==> directoryPath in fs && DecodeDirectory(fs[directoryPath]).Ok?
      ensures r.Ok? ==> DecodeDirectory(fs[directoryPath]) == Ok((header.value, tree.value))
    {
      if directoryPath !in fs {
        return Err(IoError(directoryPath));
      }
      var c := new Cursor(fs[directoryPath]);
      var h := ReadHeader(c);
      if h.Err? {
        return Err(h.error);
      }
      header := Some(h.value);
      var t := ReadTree(c);
      if t.Err? {
        return Err(t.error);
      }
      tree := Some(t.value);
      return Ok(());
    }

    /** The logical paths of the loaded tree. */
    function Files(): (r: Result<set<Path>, Error>)
      reads this
      ensures r.Ok? <==> tree.Some?
      ensures r.Ok? ==> forall p :: p in r.value <==> p in tree.value
      ensures r.Err? ==> r.error == NotLoaded
    {
      if tree.None? then Err(NotLoaded) else Ok(tree.value.Keys)
    }

    /**
     * getFile: the bytes of the file at `path`, Ok(None) when there is no
     * such path, built in one buffer by up to two positioned reads.
     */
    method GetFile(fs: FileSystem, crc32: Crc32, path: Path) returns (r: Result<Option<seq<byte>>, Error>)
      requires Valid()
      ensures tree.None? ==> r == Err(NotLoaded)
      ensures tree.Some? ==> r == ExtractFile(fs, crc32, directoryPath, header.value, tree.value, path)
    {
      if tree.None? {
        return Err(NotLoaded);
      }
      var files := tree.value;
      if path !in files {
        return Ok(None);
      }
      var bytes :- ReadEntryBytes(fs, directoryPath, header.value, files[path]);
      if crc32(bytes) != files[path].entry.crc {
        return Err(CrcMismatch);
      }
      return Ok(Some(bytes));
    }
  }

  /** A path is listed exactly when getFile finds something for it. */
  lemma ListedIffFound(a: Archive, fs: FileSystem, crc32: Crc32, path: Path)
    requires a.tree.Some? && a.header.Some?
    ensures path in a.Files().value <==>
      ExtractFile(fs, crc32, a.directoryPath, a.header.value, a.tree.value, path) != Ok(None)
  {
    ExtractFileCases(fs, crc32, a.directoryPath, a.header.value, a.tree.value, path);
  }
}
