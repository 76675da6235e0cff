/**
 * A directory entry: the fixed 16-byte record stored after each file name,
 * followed by a 16-bit terminator that must be 0xffff.
 */
module VpkEntry {
  import opened Wrappers
  import opened Bytes
  import opened ByteCursor

  const ENTRY_TERMINATOR: u16 := 0xffff
  /** The record and its terminator: 4 + 2 + 2 + 4 + 4 + 2 bytes. */
  const ENTRY_LENGTH: nat := 18

  datatype DirectoryEntry = DirectoryEntry(
    crc: u32,
    preloadBytes: u16,
    archiveIndex: u16,
    entryOffset: u32,
    entryLength: u32)

  /** Entry decode as the sequence of cursor reads, terminator last. */
  function DecodeEntry(data: seq<byte>, pos: nat): (r: Result<Parsed<DirectoryEntry>, Error>)
    ensures r.Ok? <==> pos + ENTRY_LENGTH <= |data| && LeU16(data, pos + 16) == ENTRY_TERMINATOR
    ensures r.Ok? ==> r.value.next == pos + ENTRY_LENGTH
    ensures r.Ok? ==> r.value.value == DirectoryEntry(LeU32(data, pos), LeU16(data, pos + 4),
                                                      LeU16(data, pos + 6), LeU32(data, pos + 8),
                                                      LeU32(data, pos + 12))
    ensures r.Err? ==> r.error == if pos + ENTRY_LENGTH <= |data| then BadTerminator else OutOfBounds
  {
    var crc :- U32At(data, pos);
    var preloadBytes :- U16At(data, crc.next);
    var archiveIndex :- U16At(data, preloadBytes.next);
    var entryOffset :- U32At(data, archiveIndex.next);
    var entryLength :- U32At(data, entryOffset.next);
    var terminator :- U16At(data, entryLength.next);
    if terminator.value != ENTRY_TERMINATOR then Err(BadTerminator)
    else Ok(Parsed(DirectoryEntry(crc.value, preloadBytes.value, archiveIndex.value,
                                  entryOffset.value, entryLength.value),
                   terminator.next))
  }

  /** The byte layout of an entry and its terminator: the inverse of DecodeEntry. */
  function EncodeEntry(e: DirectoryEntry): (s: seq<byte>)
    ensures |s| == ENTRY_LENGTH
  {
    EncodeU32(e.crc) + EncodeU16(e.preloadBytes) + EncodeU16(e.archiveIndex) +
    EncodeU32(e.entryOffset) + EncodeU32(e.entryLength) + EncodeU16(ENTRY_TERMINATOR)
  }

  /** `data[pos..pos + 18]` split at the field boundaries. */
  lemma EntrySlices(data: seq<byte>, pos: nat)
    requires pos + ENTRY_LENGTH <= |data|
    ensures data[pos..pos + ENTRY_LENGTH] ==
      data[pos..pos + 4] + data[pos + 4..pos + 6] + data[pos + 6..pos + 8] +
      data[pos + 8..pos + 12] + data[pos + 12..pos + 16] + data[pos + 16..pos + 18]
  {
  }

  /** Two six-part concatenations with parts of equal lengths agree part by part. */
  lemma Concat6(x1: seq<byte>, x2: seq<byte>, x3: seq<byte>, x4: seq<byte>, x5: seq<byte>, x6: seq<byte>,
                y1: seq<byte>, y2: seq<byte>, y3: seq<byte>, y4: seq<byte>, y5: seq<byte>, y6: seq<byte>)
    requires |x1| == |y1| && |x2| == |y2| && |x3| == |y3| && |x4| == |y4| && |x5| == |y5| && |x6| == |y6|
    requires x1 + x2 + x3 + x4 + x5 + x6 == y1 + y2 + y3 + y4 + y5 + y6
    ensures x1 == y1 && x2 == y2 && x3 == y3 && x4 == y4 && x5 == y5 && x6 == y6
  {
    var s := x1 + x2 + x3 + x4 + x5 + x6;
    var t := y1 + y2 + y3 + y4 + y5 + y6;
    var n1 := |x1|;
    var n2 := n1 + |x2|;
    var n3 := n2 + |x3|;
    var n4 := n3 + |x4|;
    var n5 := n4 + |x5|;
    assert x1 == s[..n1] == t[..n1] == y1;
    assert x2 == s[n1..n2] == t[n1..n2] == y2;
    assert x3 == s[n2..n3] == t[n2..n3] == y3;
    assert x4 == s[n3..n4] == t[n3..n4] == y4;
    assert x5 == s[n4..n5] == t[n4..n5] == y5;
    assert x6 == s[n5..] == t[n5..] == y6;
  }

  /** Every entry, wherever it is written, decodes to itself. */
  lemma DecodeEncodeEntry(e: DirectoryEntry, data: seq<byte>, pos: nat)
    requires pos + ENTRY_LENGTH <= |data| && data[pos..pos + ENTRY_LENGTH] == EncodeEntry(e)
    ensures DecodeEntry(data, pos) == Ok(Parsed(e, pos + ENTRY_LENGTH))
  {
    EntrySlices(data, pos);
    var a, b, c := EncodeU32(e.crc), EncodeU16(e.preloadBytes), EncodeU16(e.archiveIndex);
    var d, f, g := EncodeU32(e.entryOffset), EncodeU32(e.entryLength), EncodeU16(ENTRY_TERMINATOR);
    Concat6(data[pos..pos + 4], data[pos + 4..pos + 6], data[pos + 6..pos + 8],
            data[pos + 8..pos + 12], data[pos + 12..pos + 16], data[pos + 16..pos + 18], a, b, c, d, f, g);
    LeU32Encodes(data, pos, e.crc);
    LeU16Encodes(data, pos + 4, e.preloadBytes);
    LeU16Encodes(data, pos + 6, e.archiveIndex);
    LeU32Encodes(data, pos + 8, e.entryOffset);
    LeU32Encodes(data, pos + 12, e.entryLength);
    LeU16Encodes(data, pos + 16, ENTRY_TERMINATOR);
  }

  /** A decoded entry is exactly the 18 bytes it was decoded from. */
  lemma EncodeDecodeEntry(data: seq<byte>, pos: nat)
    requires DecodeEntry(data, pos).Ok?
    ensures EncodeEntry(DecodeEntry(data, pos).value.value) == data[pos..pos + ENTRY_LENGTH]
  {
    var e := DecodeEntry(data, pos).value.value;
    LeU32Encodes(data, pos, e.crc);
    LeU16Encodes(data, pos + 4, e.preloadBytes);
    LeU16Encodes(data, pos + 6, e.archiveIndex);
    LeU32Encodes(data, pos + 8, e.entryOffset);
    LeU32Encodes(data, pos + 12, e.entryLength);
    LeU16Encodes(data, pos + 16, ENTRY_TERMINATOR);
    EntrySlices(data, pos);
  }

  /** Entry decode on the shared cursor, proved against DecodeEntry. */
  method ReadEntry(c: Cursor) returns (r: Result<DirectoryEntry, Error>)
    requires c.Valid()
    modifies c
    ensures c.Valid()
    ensures Follows(r, DecodeEntry(c.data, old(c.pos)), c.pos)
  {
    var crc :- c.ReadU32();
    var preloadBytes :- c.ReadU16();
    var archiveIndex :- c.ReadU16();
    var entryOffset :- c.ReadU32();
    var entryLength :- c.ReadU32();
    var terminator :- c.ReadU16();
    if terminator != ENTRY_TERMINATOR {
      return Err(BadTerminator);
    }
    return Ok(DirectoryEntry(crc, preloadBytes, archiveIndex, entryOffset, entryLength));
  }
}
