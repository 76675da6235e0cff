/**
 * The directory tree: extension, directory and file-name strings nested
 * three deep, each level closed by an empty string, with a directory entry
 * and its inline preload bytes after every file name. Decoding yields a
 * dictionary from rebuilt logical path to entry.
 */
module VpkTree {
  import opened Wrappers
  import opened Bytes
  import opened ByteCursor
  import opened VpkEntry

  type Path = seq<byte>

  /** A decoded entry and where its preload bytes start in the directory file. */
  datatype TreeEntry = TreeEntry(entry: DirectoryEntry, preloadOffset: nat)

  type Tree = map<Path, TreeEntry>

  /** The single-space string that stands for "no extension", "no directory", "no name". */
  const SPACE: seq<byte> := [0x20]
  const DOT: byte := 0x2e
  const SLASH: byte := 0x2f

  /**
   * Path reconstruction: a name of " " is empty, "." + extension is appended
   * unless the extension is " ", and directory + "/" is prepended unless the
   * directory is " ".
   */
  function FullPath(ext: seq<byte>, dir: seq<byte>, name: seq<byte>): Path {
    var base := if name == SPACE then [] else name;
    var withExt := if ext != SPACE then base + [DOT] + ext else base;
    if dir != SPACE then dir + [SLASH] + withExt else withExt
  }

  function DirPrefix(dir: seq<byte>): seq<byte> {
    if dir != SPACE then dir + [SLASH] else []
  }

  function ExtSuffix(ext: seq<byte>): seq<byte> {
    if ext != SPACE then [DOT] + ext else []
  }

  /** FullPath is directory prefix, base name and extension suffix, in that order. */
  lemma FullPathParts(ext: seq<byte>, dir: seq<byte>, name: seq<byte>)
    ensures FullPath(ext, dir, name) == DirPrefix(dir) + (if name == SPACE then [] else name) + ExtSuffix(ext)
  {
    var base: seq<byte> := if name == SPACE then [] else name;
    var suffix, prefix := ExtSuffix(ext), DirPrefix(dir);
    var withExt: seq<byte> := if ext != SPACE then base + [DOT] + ext else base;
    assert withExt == base + suffix by {
      if ext != SPACE {
        Regroup(base, [DOT], ext);
      } else {
        assert base + [] == base;
      }
    }
    if dir != SPACE {
      Regroup(prefix, base, suffix);
    } else {
      assert [] + (base + suffix) == base + suffix;
    }
  }

  lemma Regroup(a: seq<byte>, b: seq<byte>, c: seq<byte>)
    ensures a + (b + c) == a + b + c
  {
  }

  /**
   * The inverse of FullPath for a known extension and directory: the base
   * name between the directory prefix and the extension suffix, if the path
   * has that shape.
   */
  function BaseNameOf(path: Path, ext: seq<byte>, dir: seq<byte>): Option<seq<byte>> {
    var prefix, suffix := DirPrefix(dir), ExtSuffix(ext);
    if |prefix| + |suffix| <= |path| && path[..|prefix|] == prefix && path[|path| - |suffix|..] == suffix
    then Some(path[|prefix|..|path| - |suffix|])
    else None
  }

  /** The base name is recovered from the path, " " as the empty name. */
  lemma BaseNameOfFullPath(ext: seq<byte>, dir: seq<byte>, name: seq<byte>)
    ensures BaseNameOf(FullPath(ext, dir, name), ext, dir) == Some(if name == SPACE then [] else name)
  {
    var base := if name == SPACE then [] else name;
    var prefix, suffix := DirPrefix(dir), ExtSuffix(ext);
    var p := FullPath(ext, dir, name);
    FullPathParts(ext, dir, name);
    assert p[..|prefix|] == prefix;
    assert p[|p| - |suffix|..] == suffix;
    assert p[|prefix|..|p| - |suffix|] == base;
  }

  /** Conversely, any path with the shape of (ext, dir) is FullPath of its base name. */
  lemma FullPathOfBaseName(path: Path, ext: seq<byte>, dir: seq<byte>)
    requires BaseNameOf(path, ext, dir).Some?
    requires BaseNameOf(path, ext, dir).value != SPACE
    ensures var b := BaseNameOf(path, ext, dir).value;
      FullPath(ext, dir, if b == [] then SPACE else b) == path
  {
    var prefix, suffix := DirPrefix(dir), ExtSuffix(ext);
    var b := path[|prefix|..|path| - |suffix|];
    assert path == path[..|prefix|] + b + path[|path| - |suffix|..];
    var name := if b == [] then SPACE else b;
    FullPathParts(ext, dir, name);
  }

  /** Two different (directory, name) pairs can rebuild the same path. */
  lemma FullPathCollides()
    ensures FullPath(SPACE, [0x61], [0x62, SLASH, 0x63]) == FullPath(SPACE, [0x61, SLASH, 0x62], [0x63])
  {
  }

  /**
   * The entry after a file name, with its preload offset (the position right
   * after the terminator) and the position after its preload bytes.
   */
  function TreeEntryAt(data: seq<byte>, pos: nat): (r: Result<Parsed<TreeEntry>, Error>)
    ensures r.Ok? ==>
      && DecodeEntry(data, pos).Ok?
      && r.value.value == TreeEntry(DecodeEntry(data, pos).value.value, pos + ENTRY_LENGTH)
      && r.value.next == pos + ENTRY_LENGTH + r.value.value.entry.preloadBytes <= |data|
    ensures r.Err? ==> r.error == if DecodeEntry(data, pos).Err? then DecodeEntry(data, pos).error else OutOfBounds
  {
    var e :- DecodeEntry(data, pos);
    if e.next + e.value.preloadBytes > |data| then Err(OutOfBounds)
    else Ok(Parsed(TreeEntry(e.value, e.next), e.next + e.value.preloadBytes))
  }

  /*
   * Tree decode, one function per loop. Each describes the whole rest of the
   * decode from a cursor position inside its loop, with `files` the dictionary
   * filled so far: ExtLoop reads an extension, DirLoop a directory within
   * extension `ext`, NameLoop a file name within `ext` and `dir`. An empty
   * string ends the innermost open loop; an empty extension ends the tree.
   */

  function ExtLoop(data: seq<byte>, pos: nat, files: Tree): (r: Result<Parsed<Tree>, Error>)
    requires pos <= |data|
    ensures r.Ok? ==> pos < r.value.next <= |data|
    decreases |data| - pos
  {
    var ext :- String0At(data, pos);
    if ext.value == [] then Ok(Parsed(files, ext.next))
    else DirLoop(data, ext.next, ext.value, files)
  }

  function DirLoop(data: seq<byte>, pos: nat, ext: seq<byte>, files: Tree): (r: Result<Parsed<Tree>, Error>)
    requires pos <= |data|
    ensures r.Ok? ==> pos < r.value.next <= |data|
    decreases |data| - pos
  {
    var dir :- String0At(data, pos);
    if dir.value == [] then ExtLoop(data, dir.next, files)
    else NameLoop(data, dir.next, ext, dir.value, files)
  }

  function NameLoop(data: seq<byte>, pos: nat, ext: seq<byte>, dir: seq<byte>, files: Tree)
    : (r: Result<Parsed<Tree>, Error>)
    requires pos <= |data|
    ensures r.Ok? ==> pos < r.value.next <= |data|
    decreases |data| - pos
  {
    var name :- String0At(data, pos);
    if name.value == [] then DirLoop(data, name.next, ext, files)
    else
      var t :- TreeEntryAt(data, name.next);
      NameLoop(data, t.next, ext, dir, files[FullPath(ext, dir, name.value) := t.value])
  }

  /** The whole tree, starting with an empty dictionary at `pos`. */
  function DecodeTree(data: seq<byte>, pos: nat): (r: Result<Parsed<Tree>, Error>)
    requires pos <= |data|
    ensures r.Ok? ==> pos < r.value.next <= |data|
  {
    ExtLoop(data, pos, map[])
  }

  /**
   * An entry really decoded from `data`: the 18 bytes before its preload
   * offset decode to it, and its preload bytes lie within `data`.
   */
  predicate EntryAt(data: seq<byte>, t: TreeEntry) {
    && ENTRY_LENGTH <= t.preloadOffset
    && t.preloadOffset + t.entry.preloadBytes <= |data|
    && DecodeEntry(data, t.preloadOffset - ENTRY_LENGTH) == Ok(Parsed(t.entry, t.preloadOffset))
  }

  predicate AllEntriesAt(data: seq<byte>, files: Tree) {
    forall p :: p in files ==> EntryAt(data, files[p])
  }

  /**
   * Each loop keeps every path it was given and adds only entries decoded
   * from `data`.
   */
  lemma {:induction false} ExtLoopEntries(data: seq<byte>, pos: nat, files: Tree)
    requires pos <= |data| && AllEntriesAt(data, files)
    ensures var r := ExtLoop(data, pos, files);
      r.Ok? ==> files.Keys <= r.value.value.Keys && AllEntriesAt(data, r.value.value)
    decreases |data| - pos, 2
  {
    var ext := String0At(data, pos);
    if ext.Ok? && ext.value.value != [] {
      DirLoopEntries(data, ext.value.next, ext.value.value, files);
    }
  }

  lemma {:induction false} DirLoopEntries(data: seq<byte>, pos: nat, ext: seq<byte>, files: Tree)
    requires pos <= |data| && AllEntriesAt(data, files)
    ensures var r := DirLoop(data, pos, ext, files);
      r.Ok? ==> files.Keys <= r.value.value.Keys && AllEntriesAt(data, r.value.value)
    decreases |data| - pos, 1
  {
    var dir := String0At(data, pos);
    if dir.Ok? {
      if dir.value.value == [] {
        ExtLoopEntries(data, dir.value.next, files);
      } else {
        NameLoopEntries(data, dir.value.next, ext, dir.value.value, files);
      }
    }
  }

  lemma {:induction false} NameLoopEntries(data: seq<byte>, pos: nat, ext: seq<byte>, dir: seq<byte>, files: Tree)
    requires pos <= |data| && AllEntriesAt(data, files)
    ensures var r := NameLoop(data, pos, ext, dir, files);
      r.Ok? ==> files.Keys <= r.value.value.Keys && AllEntriesAt(data, r.value.value)
    decreases |data| - pos, 0
  {
    var name := String0At(data, pos);
    if name.Ok? {
      if name.value.value == [] {
        DirLoopEntries(data, name.value.next, ext, files);
      } else {
        var t := TreeEntryAt(data, name.value.next);
        if t.Ok? {
          var files' := files[FullPath(ext, dir, name.value.value) := t.value.value];
          assert EntryAt(data, t.value.value);
          assert AllEntriesAt(data, files');
          NameLoopEntries(data, t.value.next, ext, dir, files');
        }
      }
    }
  }

  /** Every entry of a decoded tree was decoded from the directory data itself. */
  lemma DecodedEntriesAt(data: seq<byte>, pos: nat)
    requires pos <= |data|
    ensures DecodeTree(data, pos).Ok? ==> AllEntriesAt(data, DecodeTree(data, pos).value.value)
  {
    ExtLoopEntries(data, pos, map[]);
  }

  /* One step of each loop, as ReadTree takes it. */

  lemma ExtStep(data: seq<byte>, pos: nat, files: Tree, ext: Result<seq<byte>, Error>, next: nat)
    requires pos <= |data| && Follows(ext, String0At(data, pos), next)
    ensures ext.Err? ==> ExtLoop(data, pos, files) == Err(ext.error)
    ensures ext.Ok? && ext.value == [] ==> ExtLoop(data, pos, files) == Ok(Parsed(files, next))
    ensures ext.Ok? && ext.value != [] ==>
      pos < next <= |data| && ExtLoop(data, pos, files) == DirLoop(data, next, ext.value, files)
  {
  }

  lemma DirStep(data: seq<byte>, pos: nat, ext: seq<byte>, files: Tree, dir: Result<seq<byte>, Error>, next: nat)
    requires pos <= |data| && Follows(dir, String0At(data, pos), next)
    ensures dir.Err? ==> DirLoop(data, pos, ext, files) == Err(dir.error)
    ensures dir.Ok? ==> pos < next <= |data|
    ensures dir.Ok? && dir.value == [] ==> DirLoop(data, pos, ext, files) == ExtLoop(data, next, files)
    ensures dir.Ok? && dir.value != [] ==>
      DirLoop(data, pos, ext, files) == NameLoop(data, next, ext, dir.value, files)
  {
  }

  lemma NameStep(data: seq<byte>, pos: nat, ext: seq<byte>, dir: seq<byte>, files: Tree,
                 name: Result<seq<byte>, Error>, next: nat)
    requires pos <= |data| && Follows(name, String0At(data, pos), next)
    ensures name.Err? ==> NameLoop(data, pos, ext, dir, files) == Err(name.error)
    ensures name.Ok? ==> pos < next <= |data|
    ensures name.Ok? && name.value == [] ==> NameLoop(data, pos, ext, dir, files) == DirLoop(data, next, ext, files)
  {
  }

  lemma EntryStep(data: seq<byte>, pos: nat, ext: seq<byte>, dir: seq<byte>, files: Tree,
                  name: seq<byte>, namePos: nat, t: Result<TreeEntry, Error>, next: nat)
    requires pos <= |data| && String0At(data, pos) == Ok(Parsed(name, namePos)) && name != []
    requires Follows(t, TreeEntryAt(data, namePos), next)
    ensures t.Err? ==> NameLoop(data, pos, ext, dir, files) == Err(t.error)
    ensures t.Ok? ==> pos < next <= |data|
    ensures t.Ok? ==>
      NameLoop(data, pos, ext, dir, files) == NameLoop(data, next, ext, dir, files[FullPath(ext, dir, name) := t.value])
  {
  }

  /**
   * Tree decode on the shared cursor: the extension loop. Each level of the
   * source's three nested loops is one method below, and every loop fills
   * the same `files` dictionary.
   */
  method ReadTree(c: Cursor) returns (r: Result<Tree, Error>)
    requires c.Valid()
    modifies c
    ensures c.Valid()
    ensures Follows(r, DecodeTree(c.data, old(c.pos)), c.pos)
  {
    ghost var spec := DecodeTree(c.data, c.pos);
    var files: Tree := map[];
    while true
      invariant c.Valid()
      invariant ExtLoop(c.data, c.pos, files) == spec
      decreases |c.data| - c.pos
    {
      ghost var extStart := c.pos;
      var ext := c.ReadString0();
      ExtStep(c.data, extStart, files, ext, c.pos);
      if ext.Err? {
        return Err(ext.error);
      }
      if ext.value == [] {
        return Ok(files);
      }
      var filled := ReadDirectories(c, ext.value, files);
      if filled.Err? {
        return Err(filled.error);
      }
      files := filled.value;
    }
  }

  /** The directory loop within extension `ext`; it ends at an empty directory name. */
  method ReadDirectories(c: Cursor, ext: seq<byte>, files: Tree) returns (r: Result<Tree, Error>)
    requires c.Valid()
    modifies c
    ensures c.Valid()
    ensures r.Ok? ==> old(c.pos) < c.pos
    ensures r.Err? ==> DirLoop(c.data, old(c.pos), ext, files) == Err(r.error)
    ensures r.Ok? ==> DirLoop(c.data, old(c.pos), ext, files) == ExtLoop(c.data, c.pos, r.value)
  {
    ghost var start := c.pos;
    ghost var spec := DirLoop(c.data, start, ext, files);
    var filled := files;
    while true
      invariant c.Valid() && start <= c.pos
      invariant DirLoop(c.data, c.pos, ext, filled) == spec
      decreases |c.data| - c.pos
    {
      ghost var dirStart := c.pos;
      var directory := c.ReadString0();
      DirStep(c.data, dirStart, ext, filled, directory, c.pos);
      if directory.Err? {
        return Err(directory.error);
      }
      if directory.value == [] {
        return Ok(filled);
      }
      filled :- ReadNames(c, ext, directory.value, filled);
    }
  }

  /** The file-name loop within `ext` and `dir`; it ends at an empty name. */
  method ReadNames(c: Cursor, ext: seq<byte>, dir: seq<byte>, files: Tree) returns (r: Result<Tree, Error>)
    requires c.Valid()
    modifies c
    ensures c.Valid()
    ensures r.Ok? ==> old(c.pos) < c.pos
    ensures r.Err? ==> NameLoop(c.data, old(c.pos), ext, dir, files) == Err(r.error)
    ensures r.Ok? ==> NameLoop(c.data, old(c.pos), ext, dir, files) == DirLoop(c.data, c.pos, ext, r.value)
  {
    ghost var start := c.pos;
    ghost var spec := NameLoop(c.data, start, ext, dir, files);
    var filled := files;
    while true
      invariant c.Valid() && start <= c.pos
      invariant NameLoop(c.data, c.pos, ext, dir, filled) == spec
      decreases |c.data| - c.pos
    {
      ghost var nameStart := c.pos;
      var filename := c.ReadString0();
      NameStep(c.data, nameStart, ext, dir, filled, filename, c.pos);
      if filename.Err? {
        return Err(filename.error);
      }
      if filename.value == [] {
        return Ok(filled);
      }
      var fullPath := FullPath(ext, dir, filename.value);
      ghost var entryStart := c.pos;
      var entry := ReadTreeEntry(c);
      EntryStep(c.data, nameStart, ext, dir, filled, filename.value, entryStart, entry, c.pos);
      if entry.Err? {
        return Err(entry.error);
      }
      filled := filled[fullPath := entry.value];
    }
  }

  /** Reads an entry, notes where its preload bytes start, and skips them. */
  method ReadTreeEntry(c: Cursor) returns (r: Result<TreeEntry, Error>)
    requires c.Valid()
    modifies c
    ensures c.Valid()
    ensures Follows(r, TreeEntryAt(c.data, old(c.pos)), c.pos)
  {
    var entry :- ReadEntry(c);
    var preloadOffset := c.pos;
    var skipped := c.Skip(entry.preloadBytes);
    if skipped.Err? {
      return Err(skipped.error);
    }
    return Ok(TreeEntry(entry, preloadOffset));
  }
}
