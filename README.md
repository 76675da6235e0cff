# node-vpk directory decoder in Dafny

This project models the reading side of `index.js` from node-vpk. That code
reads Valve's VPK archive format. A VPK archive is a *directory file*
(`*_dir.vpk`) plus optional numbered *archive files* (`*_000.vpk`,
`*_001.vpk`, …). The directory file holds three things:

- a little-endian header: the signature `0x55aa1234`, a version (1 or 2) and
  the tree length;
- a *tree*: extension, directory and file-name strings, each NUL-terminated
  and nested three deep, with every level closed by an empty string. After
  each file name comes an 18-byte *directory entry*: CRC, preload byte count,
  archive index, entry offset, entry length and the terminator `0xffff`. The
  entry is followed by its inline *preload* bytes;
- entries stored in the directory file itself, after the tree. Their archive
  index is the sentinel `0x7fff`.

What the model covers:

- `VPK.isValid`: checks the header in the first 28 bytes, zero-padded.
- `VPK.load`: decodes the header and then the tree.
- `VPK.files`: the logical paths in the tree.
- `VPK.getFile`: looks up a path and works out where its bytes live. It then
  assembles one buffer, preload bytes first and main bytes after them, and
  checks the buffer's CRC-32.

Modules, in dependency order:

| module | file | contents |
|---|---|---|
| `Wrappers` | wrappers.dfy | `Option`, `Result` |
| `Bytes` | bytes.dfy | `byte`/`u16`/`u32`, error kinds, little-endian reads and their encoders, NUL-terminated strings, and helpers for what a positioned read puts in a zeroed buffer |
| `ByteCursor` | cursor.dfy | `class Cursor`, the shared read position that replaces jBinary. Each read is proved against a function of `Bytes` |
| `VpkHeader` | header.dfy | header decode, its byte layout, both round trips, `ReadHeader` on the cursor |
| `VpkEntry` | entry.dfy | directory-entry decode, its layout, both round trips, `ReadEntry` |
| `VpkTree` | tree.dfy | path reconstruction and its inverse, the three loop levels as functions, the three nested loops as methods, and the invariant that every entry was decoded from the directory data |
| `VpkTreeLayout` | tree_layout.dfy | the tree's byte layout as a packer writes it, the dictionary it should decode to, the proof that `DecodeTree` builds exactly that dictionary, and the converse that only such layouts decode |
| `VpkLocator` | locator.dfy | the sentinel location, archive file naming (as written and corrected), decimal text |
| `Vpk` | vpk.dfy | `ReadSync` on an array, `class Archive` (`IsValid`, `Load`, `Files`, `GetFile`), the extraction specification `ExtractFile` and its lemmas |

The file system is a value `map<string, seq<byte>>`. Opening a path that is
not in it gives `IoError(path)`. If a read at a position goes past the end
of the file, only the bytes the file has are copied; the rest of the
zero-filled buffer stays zero. CRC-32 is a function parameter
`seq<byte> -> u32`. A thrown exception is an `Err` of the matching error
kind. The `null` that `getFile` returns for an unknown path is `Ok(None)`.

Behaviour of the code worth knowing:

- If the directory path does not end in `_dir.vpk`, `getFile` does not fail.
  The regular-expression replace leaves the path unchanged, so main bytes are
  read from the directory file itself at `entryOffset` (`ArchivePathAsWritten`).
- No padding follows an entry's terminator. The decoder consumes exactly 18
  bytes, then the preload bytes (`RecordAt`). It reads any following zero
  byte as an empty string that closes a level.
- The tree is an object keyed by rebuilt path, so distinct
  (directory, name) pairs can rebuild the same path (`FullPathCollides`).
  When that happens, the later entry overwrites the earlier one
  (`files[path] := …` in `NameLoop`; `FillNames` in `VpkTreeLayout`).
- The archive number is `('000' + archiveIndex).slice(-3)`, so indexes of
  1000 or more lose their leading digits. The model opens the file this
  names (see Findings).

## Model

| member | source | states |
|---|---|---|
| Bytes.LeU32 | index.js:14 | no contract of its own: a 32-bit little-endian read of four bytes; `LeU32Encodes` shows it is exactly the inverse of `EncodeU32` |
| Bytes.LeU16 | index.js:46 | no contract of its own: a 16-bit little-endian read of two bytes; `LeU16Encodes` shows it is exactly the inverse of `EncodeU16` |
| Bytes.LeU32Encodes | index.js:9-14 | four bytes hold the little-endian encoding of `x` exactly when a 32-bit read there gives `x` |
| Bytes.LeU16Encodes | index.js:39-46 | the same, for 16-bit reads |
| Bytes.U32At | index.js:14 | a 32-bit read succeeds exactly when four bytes remain, gives the little-endian value and advances by 4, else `OutOfBounds` |
| Bytes.U16At | index.js:46 | a 16-bit read succeeds exactly when two bytes remain, gives the value and advances by 2, else `OutOfBounds` |
| Bytes.NulFrom | index.js:59 | the found index is a NUL at or after `i` with no NUL before it; none is found only when no NUL follows |
| Bytes.String0At | index.js:59 | a string read ends after its NUL, one byte past the string, within the data |
| Bytes.String0AtContents | index.js:59 | the string is the bytes before the first NUL and holds no NUL; the read fails exactly when no NUL follows |
| Bytes.String0AtEncoded | index.js:59 | bytes without NUL followed by a NUL are read back as those bytes |
| Bytes.Available | index.js:154 | a positioned read returns at most `length` bytes, the file's bytes from `position`, and stops at the end of the file |
| Bytes.Splice | index.js:154 | writing bytes into a buffer at an index changes exactly that range |
| Bytes.ReadPadded | index.js:116-118 | a zeroed buffer after a positioned read holds the file's bytes and zeros past the end of the file |
| Bytes.Zeros | index.js:116 | a new buffer of `n` bytes is all zeros |
| ByteCursor.Cursor.constructor | index.js:132 | a new cursor stands at position 0 over the given bytes |
| ByteCursor.Cursor.ReadU32 | index.js:14 | the cursor's 32-bit read returns what `U32At` gives and moves to its end position; a failed read leaves the position alone |
| ByteCursor.Cursor.ReadU16 | index.js:46 | the same for 16-bit reads |
| ByteCursor.Cursor.ReadString0 | index.js:59 | the scanning loop returns what `String0At` gives and moves past the NUL |
| ByteCursor.Cursor.Skip | index.js:93 | a skip succeeds exactly when `n` bytes remain and then moves by `n`; otherwise the position is unchanged |
| VpkHeader.DecodeHeader | index.js:11-34 | decoding succeeds exactly when the signature is `0x55aa1234`, the version is 1 or 2 and the 12 or 28 bytes are present; fields come from offsets 4, 8 and, in version 2, 12–24; every failure is named by the first read that fails: too few bytes for the signature, the version or the rest is `OutOfBounds`, a wrong signature is `BadSignature` and a wrong version is `BadVersion` |
| VpkHeader.HeaderLength | index.js:158-165 | no contract of its own: 12 for version 1, 28 for version 2, nothing for any other; `DecodeHeader`'s contract shows it is exactly the number of bytes a decoded header takes |
| VpkHeader.DecodeEncodeHeader | index.js:11-34 | every well-formed header written at any position decodes to itself and ends after 12 or 28 bytes |
| VpkHeader.EncodeDecodeHeader | index.js:11-34 | a decoded header is exactly the bytes it was read from |
| VpkHeader.EncodedWordReads | index.js:14-30 | word `i` of an encoded word run reads back as that word |
| VpkHeader.ReadHeader | index.js:11-34 | header decode on the cursor returns `DecodeHeader`'s result and ends where it ends |
| VpkEntry.DecodeEntry | index.js:37-52 | decoding succeeds exactly when 18 bytes remain and the terminator at +16 is `0xffff`; fields come from offsets 0, 4, 6, 8 and 12; too few bytes is `OutOfBounds`, otherwise `BadTerminator` |
| VpkEntry.DecodeEncodeEntry | index.js:37-52 | every entry written at any position decodes to itself, ending 18 bytes later |
| VpkEntry.EncodeDecodeEntry | index.js:37-52 | a decoded entry is exactly the 18 bytes it was read from |
| VpkEntry.ReadEntry | index.js:37-52 | entry decode on the cursor returns `DecodeEntry`'s result and ends where it ends |
| VpkTree.FullPath | index.js:79-88 | no contract of its own: the path rule; `FullPathParts` splits it into prefix, base name and suffix, and `BaseNameOfFullPath`/`FullPathOfBaseName` invert it |
| VpkTree.FullPathParts | index.js:79-88 | a rebuilt path is the directory prefix, then the base name (" " as empty), then the extension suffix |
| VpkTree.BaseNameOfFullPath | index.js:79-88 | the base name is recovered from a rebuilt path given its extension and directory |
| VpkTree.FullPathOfBaseName | index.js:79-88 | any path with the prefix and suffix of an (extension, directory) pair is the rebuilt path of its base name |
| VpkTree.FullPathCollides | index.js:79-94 | two different (directory, name) pairs rebuild the same key |
| VpkTree.TreeEntryAt | index.js:90-93 | on success the entry decodes, its preload offset is the position after its 18 bytes, and the next position is after its preload bytes, within the data; on failure the error is the entry's own or `OutOfBounds` for preload bytes past the end |
| VpkTree.ExtLoop | index.js:58-63 | a decoded tree ends strictly after its start, within the data |
| VpkTree.DirLoop | index.js:65-70 | the same, from inside the directory loop |
| VpkTree.NameLoop | index.js:72-95 | the same, from inside the file-name loop |
| VpkTree.DecodeTree | index.js:55-101 | the whole tree from `pos` ends strictly after `pos`, within the data; which paths and entries it holds is `VpkTreeLayout.DecodeEncodeTree` and `VpkTreeLayout.DecodeTreeSound` |
| VpkTree.ExtLoopEntries | index.js:58-98 | the extension loop keeps every path it is given and adds only entries decoded from the data |
| VpkTree.DirLoopEntries | index.js:65-97 | the same for the directory loop |
| VpkTree.NameLoopEntries | index.js:72-96 | the same for the file-name loop |
| VpkTree.DecodedEntriesAt | index.js:55-101 | every entry of a decoded tree is the decode of the 18 bytes before its preload offset, and its preload bytes lie inside the directory data |
| VpkTree.ReadTree | index.js:55-101 | the nested loops on the cursor return what `DecodeTree` gives and end where it ends |
| VpkTree.ReadDirectories | index.js:65-98 | the directory loop on the cursor agrees with `DirLoop`: on success it continues as `ExtLoop` from the new position |
| VpkTree.ReadNames | index.js:72-96 | the file-name loop on the cursor agrees with `NameLoop`: on success it continues as `DirLoop` from the new position |
| VpkTree.ReadTreeEntry | index.js:90-93 | entry, preload offset and preload skip on the cursor follow `TreeEntryAt` |
| VpkTreeLayout.RecordAt | index.js:73-93 | a file name laid out with its NUL, entry and preload bytes reads back as the name, then as the entry with its preload offset after the 18 entry bytes and the next position after the preload bytes |
| VpkTreeLayout.NamesLaidOut | index.js:72-95 | a well-formed list of file records, closed by an empty string, is read record by record as laid out |
| VpkTreeLayout.DirsLaidOut | index.js:65-97 | the same for a list of directory groups |
| VpkTreeLayout.TreeLaidOut | index.js:58-98 | the same for a list of extension groups |
| VpkTreeLayout.NameLoopReads | index.js:72-96 | the file-name loop over such records stores each entry under `FullPath(ext, dir, name)` with its preload offset, in file order, and hands over to the directory loop after the closing empty string |
| VpkTreeLayout.DirLoopReads | index.js:65-97 | the directory loop runs the name loop for each directory in order and hands over to the extension loop after the closing empty string |
| VpkTreeLayout.ExtLoopReads | index.js:58-100 | the extension loop runs the directory loop for each extension in order and returns the filled dictionary, ending after the closing empty string |
| VpkTreeLayout.DecodeEncodeTree | index.js:55-101 | a well-formed tree layout decodes to exactly `FillExts` of its records, the dictionary where each record is stored under its rebuilt path in file order, a later record replacing an earlier one, and ends right after the layout |
| VpkTreeLayout.StringRead | index.js:59 | a string that reads successfully is NUL-free and is laid out with its NUL at the read position |
| VpkTreeLayout.RecordRead | index.js:73-93 | a file record that reads successfully is laid out as its name, NUL, the entry's 18 bytes and its preload bytes, and its entry and preload offset are those of that layout |
| VpkTreeLayout.NameLoopSound | index.js:72-96 | whenever the file-name loop succeeds, the bytes it read are a well-formed list of file records closed by an empty string, and its result is the directory loop's from after that list over the dictionary filled with those records |
| VpkTreeLayout.DirLoopSound | index.js:65-97 | the same for the directory loop and a list of directory groups |
| VpkTreeLayout.ExtLoopSound | index.js:58-100 | whenever the extension loop succeeds, the bytes it read are a well-formed list of extension groups, and its result is the dictionary filled with their records, ending right after them |
| VpkTreeLayout.DecodeTreeSound | index.js:55-101 | every tree that decodes is a well-formed layout, the converse of `DecodeEncodeTree`: its bytes are that layout's encoding and its result is `FillExts` of the layout's records, ending right after it |
| VpkTreeLayout.DecodeTreeBadTerminator | index.js:58-93 | the first entry of a tree with a terminator other than `0xffff` makes the whole tree decode fail with `BadTerminator` |
| VpkTreeLayout.FillNamesKeys | index.js:95 | filling keeps every key already present and adds the rebuilt path of every record |
| VpkTreeLayout.FillDirsKeys | index.js:65-97 | the same across directory groups |
| VpkTreeLayout.FillExtsKeys | index.js:58-98 | the same across extension groups |
| VpkTreeLayout.DecodeTreeKeepsEveryRecord | index.js:55-101 | decoding a well-formed layout succeeds and loses no record: every record's rebuilt path is a key of the result |
| VpkLocator.Decimal | index.js:171 | the decimal text of a number is one or more digits with no leading zero, except for 0 itself |
| VpkLocator.DecimalRoundTrip | index.js:171 | decimal text denotes the number it was written from |
| VpkLocator.Last3AsWritten | index.js:171 | `('000' + index).slice(-3)` is always three digits |
| VpkLocator.Last3Truncates | index.js:171 | index 1234 becomes "234", not "1234" |
| VpkLocator.Last3AgreesBelow1000 | index.js:171 | below 1000, the code as written gives the zero-padded three-digit index |
| VpkLocator.Pad3 | index.js:171 | the corrected archive number has at least three digits, and more only when the index has more |
| VpkLocator.Pad3Denotes | index.js:171 | the corrected archive number always denotes the archive index |
| VpkLocator.Last3Denotes | index.js:171 | the three digits as written denote the archive index modulo 1000 |
| VpkLocator.Last3Injective | index.js:171 | indexes equal modulo 1000 get the same three digits |
| VpkLocator.ArchivePathAsWritten | index.js:172 | a directory path without the `_dir.vpk` suffix is returned unchanged; the suffix case is `ArchivePathAsWrittenParts` |
| VpkLocator.ArchivePathAsWrittenParts | index.js:171-172 | as written, an archive path is the stem, "_", three digits that denote the index modulo 1000, then ".vpk", and is never the directory path |
| VpkLocator.ArchivePathAsWrittenSame | index.js:171-172 | as written, two indexes name the same archive exactly when they agree modulo 1000 |
| VpkLocator.ArchivePathAsWrittenBelow1000 | index.js:171-172 | below 1000 the name as written is the corrected `ArchivePath`, so `ArchivePathParts` holds for it |
| VpkLocator.ArchivePathAsWrittenCollides | index.js:171-172 | as written, archives 1234 and 234 of `pak01_dir.vpk` are both `pak01_234.vpk` |
| VpkLocator.ArchivePath | index.js:172 | a path without the `_dir.vpk` suffix is returned unchanged |
| VpkLocator.ArchivePathParts | index.js:171-172 | an archive path is the stem, "_", digits that denote the index, then ".vpk", and is never the directory path |
| VpkLocator.ArchivePathInjective | index.js:171-172 | two archive paths of one directory path are equal exactly when their indexes are |
| VpkLocator.MainLocation | index.js:156-176 | no contract of its own: where the main bytes are read; stated by `MainLocationCases` |
| VpkLocator.MainLocationCases | index.js:156-176 | the sentinel index reads the directory file at header length plus tree length plus entry offset; any other index reads `entryOffset` into the archive named as written, which is another `.vpk` file of the same length carrying the index modulo 1000, or into the directory file itself when its path lacks `_dir.vpk`; below 1000 this is the corrected `ArchivePath` |
| VpkLocator.EmbeddedDataAfterTree | index.js:156-168 | for a header decoded from the start of the directory file, sentinel entries start at the end of the header, plus the tree length, plus the entry offset |
| Vpk.ReadSync | index.js:154 | a positioned read copies the available bytes into the buffer at the offset, leaves the rest unchanged, and returns how many it copied |
| Vpk.Validity | index.js:115-129 | no contract of its own: whether the zero-padded 28-byte prefix decodes as a header; stated by `ValidityIff` |
| Vpk.ValidityIff | index.js:115-129 | a directory file is valid exactly when, zero-padded to 28 bytes, it starts with the signature and a version of 1 or 2 |
| Vpk.DecodableIsValid | index.js:115-136 | a directory file whose header loads is valid |
| Vpk.TruncatedIsValid | index.js:115-136 | an 8-byte file holding the signature and version 1 is valid, yet its header does not load |
| Vpk.DecodeDirectory | index.js:131-136 | on success the header is the one decoded at offset 0 and is well formed, and the tree is the one decoded right after the header's 12 or 28 bytes |
| Vpk.DecodeDirectoryEntriesAt | index.js:131-136 | every entry of a loaded tree was decoded from the directory data, with its preload bytes inside it |
| Vpk.ReadInto | index.js:152-154 | a successful read into the buffer keeps the buffer's length |
| Vpk.Assemble | index.js:149-176 | the assembled buffer has the preload bytes plus the entry length |
| Vpk.Contents | index.js:149-176 | the entry's contents are preload length plus entry length bytes |
| Vpk.AssembleCases | index.js:149-176 | the buffer equals the preload bytes read from the directory file, then the main bytes from their location, each zero-padded past the end of its file; a missing needed file gives `IoError` for the first one, and a file that is not needed is never opened |
| Vpk.ReadEntryBytes | index.js:149-176 | the two positioned reads into one fresh array give the `Assemble` buffer |
| Vpk.ExtractFile | index.js:142-184 | no contract of its own: lookup, assembly and CRC check; stated by `ExtractFileCases` and `ExtractedMatches` |
| Vpk.ExtractFileCases | index.js:142-184 | getFile gives nothing exactly for a path not in the tree; a missing file gives that file's `IoError`; otherwise it gives the contents when their CRC matches the entry, else `CrcMismatch` |
| Vpk.ExtractedMatches | index.js:149-183 | an extracted file has the preload length plus the entry length, and the entry's CRC |
| Vpk.LoadedPreloadExact | index.js:151-154 | for a tree loaded from the directory file, the preload part of a file is exactly the bytes after its entry, never padding |
| Vpk.Archive.constructor | index.js:111-113 | a new archive keeps its directory path and has neither header nor tree |
| Vpk.Archive.IsValid | index.js:115-129 | a missing directory file is an `IoError`; otherwise the result is whether the zero-padded 28-byte prefix decodes as a header |
| Vpk.Archive.Load | index.js:131-136 | a missing file changes nothing; a header that fails changes nothing; a tree that fails leaves the new header stored; success stores the header and tree that `DecodeDirectory` gives |
| Vpk.Archive.Files | index.js:138-140 | before load it is an error (`NotLoaded`); after load it lists exactly the tree's paths |
| Vpk.Archive.GetFile | index.js:142-184 | before load it is `NotLoaded`; after load it returns `ExtractFile` for the loaded header and tree |
| Vpk.ListedIffFound | index.js:138-148 | a path is listed exactly when getFile finds it |

## Findings

| source | as written | input that shows it | evidently intended | confidence | as-written member | corrected member |
|---|---|---|---|---|---|---|
| index.js:171 | the archive number is `('000' + archiveIndex).slice(-3)`, so indexes of 1000 or more lose their leading digits | archive index 1234 opens `pak01_234.vpk`, the file of archive 234 | the index zero-padded to at least three digits, as the `_NNN.vpk` naming does (`pak01_1234.vpk`) | medium, not executed | VpkLocator.ArchivePathAsWrittenCollides | VpkLocator.ArchivePathInjective |

`GetFile` opens the archive named as written (`ArchivePathAsWritten`, through
`MainLocation`). `ArchivePathAsWrittenSame` states the collision in full, and
`ArchivePathAsWrittenBelow1000` shows the code as written and the correction
agree on every index below 1000.

## Left out

- The archive writer, directory packing and batch extraction to disk: other parts of the repository, not of this reading core.
- `MAX_PATH` (index.js:108) is declared and never used by the reading code.
- File handles: `openSync` and `readSync` on descriptors become a map lookup and `ReadSync` on its contents. Descriptors are never closed in the source, and that is not modelled either.
- CRC-32 computation: the `crc` package is a parameter `crc32`, not modelled.
- jBinary: replaced by `ByteCursor.Cursor`. Reading past the end of the data is `OutOfBounds`. A string with no NUL before the end of the data is `OutOfBounds` too. jBinary's own behaviour in those cases is not modelled.
- Text decoding: paths and strings stay byte sequences. jBinary's `string0` decoding to a JavaScript string is not modelled, so `getFile` takes a path as bytes.
- Key order: `Object.keys` lists keys in insertion order; `Files` gives a set. JavaScript's special object keys (`__proto__`, inherited names such as `toString`) behave as ordinary keys in the model.
- Buffer contents: `new Buffer(n)` is zero-filled here, as in current Node. Older Node versions left it uninitialised, and that is not modelled.
- Integer width: all counts are unbounded naturals. The source's sums `treeLength + 28 + entryOffset` and `preloadBytes + entryLength` are exact in JavaScript's doubles at these sizes.
