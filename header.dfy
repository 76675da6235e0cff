/**
 * The archive header: a signature, a version (1 or 2), the tree length and,
 * in version 2 only, four further 32-bit fields kept verbatim.
 */
module VpkHeader {
  import opened Wrappers
  import opened Bytes
  import opened ByteCursor

  const SIGNATURE: u32 := 0x55aa1234
  const HEADER_1_LENGTH: nat := 12
  const HEADER_2_LENGTH: nat := 28

  datatype V2Fields = V2Fields(unknown1: u32, footerLength: u32, unknown3: u32, unknown4: u32)

  /** `v2` is present exactly when the version is 2. */
  datatype Header = Header(version: u32, treeLength: u32, v2: Option<V2Fields>)

  /** The header length the extractor adds for each version; nothing for any other. */
  function HeaderLength(version: u32): nat {
    if version == 1 then HEADER_1_LENGTH
    else if version == 2 then HEADER_2_LENGTH
    else 0
  }

  /** The headers the decoder can produce. */
  predicate WellFormed(h: Header) {
    (h.version == 1 || h.version == 2) && (h.v2.Some? <==> h.version == 2)
  }

  /**
   * Header decode as a sequence of cursor reads: the signature is checked
   * before the version is read, the version before anything else.
   */
  function DecodeHeader(data: seq<byte>, pos: nat): (r: Result<Parsed<Header>, Error>)
    ensures r.Ok? <==>
      && pos + HEADER_1_LENGTH <= |data|
      && LeU32(data, pos) == SIGNATURE
      && (LeU32(data, pos + 4) == 1 || LeU32(data, pos + 4) == 2)
      && (LeU32(data, pos + 4) == 2 ==> pos + HEADER_2_LENGTH <= |data|)
    ensures r.Ok? ==>
      var h := r.value.value;
      && WellFormed(h)
      && r.value.next == pos + HeaderLength(h.version) <= |data|
      && h.version == LeU32(data, pos + 4)
      && h.treeLength == LeU32(data, pos + 8)
      && (h.version == 2 ==> h.v2 == Some(V2Fields(LeU32(data, pos + 12), LeU32(data, pos + 16),
                                                 LeU32(data, pos + 20), LeU32(data, pos + 24))))
    ensures pos + 4 <= |data| && LeU32(data, pos) != SIGNATURE ==> r == Err(BadSignature)
    ensures (pos + 8 <= |data| && LeU32(data, pos) == SIGNATURE &&
             LeU32(data, pos + 4) != 1 && LeU32(data, pos + 4) != 2) ==> r == Err(BadVersion)
    ensures r.Err? && r.error == OutOfBounds ==> pos + HEADER_2_LENGTH > |data|
    ensures r.Err? ==>
      r.error == (if pos + 4 > |data| then OutOfBounds
                  else if LeU32(data, pos) != SIGNATURE then BadSignature
                  else if pos + 8 > |data| then OutOfBounds
                  else if LeU32(data, pos + 4) != 1 && LeU32(data, pos + 4) != 2 then BadVersion
                  else OutOfBounds)
  {
    var signature :- U32At(data, pos);
    if signature.value != SIGNATURE then Err(BadSignature) else
    var version :- U32At(data, signature.next);
    if version.value != 1 && version.value != 2 then Err(BadVersion) else
    var treeLength :- U32At(data, version.next);
    if version.value == 2 then
      var unknown1 :- U32At(data, treeLength.next);
      var footerLength :- U32At(data, unknown1.next);
      var unknown3 :- U32At(data, footerLength.next);
      var unknown4 :- U32At(data, unknown3.next);
      Ok(Parsed(Header(2, treeLength.value,
                       Some(V2Fields(unknown1.value, footerLength.value, unknown3.value, unknown4.value))),
                unknown4.next))
    else
      Ok(Parsed(Header(1, treeLength.value, None), treeLength.next))
  }

  /** The 32-bit words of a header, in file order. */
  function Words(h: Header): (ws: seq<u32>)
    requires WellFormed(h)
    ensures |ws| == HeaderLength(h.version) / 4
  {
    [SIGNATURE, h.version, h.treeLength] +
    match h.v2
    case None => []
    case Some(f) => [f.unknown1, f.footerLength, f.unknown3, f.unknown4]
  }

  function EncodeWords(ws: seq<u32>): (s: seq<byte>)
    ensures |s| == 4 * |ws|
  {
    if ws == [] then [] else EncodeU32(ws[0]) + EncodeWords(ws[1..])
  }

  /** The byte layout of a header: the reference inverse of DecodeHeader. */
  function EncodeHeader(h: Header): (s: seq<byte>)
    requires WellFormed(h)
    ensures |s| == HeaderLength(h.version)
  {
    EncodeWords(Words(h))
  }

  /** Bytes holding an encoded run hold the encoding of word `i` at 4i. */
  lemma {:induction false} WordSliceAt(data: seq<byte>, pos: nat, ws: seq<u32>, i: nat)
    requires pos + 4 * |ws| <= |data| && data[pos..pos + 4 * |ws|] == EncodeWords(ws)
    requires i < |ws|
    ensures data[pos + 4 * i..pos + 4 * i + 4] == EncodeU32(ws[i])
    decreases i
  {
    var n := 4 * |ws|;
    var s := data[pos..pos + n];
    ConcatAt(s, EncodeU32(ws[0]), EncodeWords(ws[1..]));
    if i == 0 {
      assert data[pos..pos + 4] == s[..4];
    } else {
      assert data[pos + 4..pos + 4 + 4 * |ws[1..]|] == s[4..];
      WordSliceAt(data, pos + 4, ws[1..], i - 1);
      assert pos + 4 + 4 * (i - 1) == pos + 4 * i;
    }
  }

  /** Bytes holding the encoding of each word, in turn, hold the encoded run. */
  lemma {:induction false} SlicesMakeWords(data: seq<byte>, pos: nat, ws: seq<u32>)
    requires pos + 4 * |ws| <= |data|
    requires forall i :: 0 <= i < |ws| ==> data[pos + 4 * i..pos + 4 * i + 4] == EncodeU32(ws[i])
    ensures data[pos..pos + 4 * |ws|] == EncodeWords(ws)
    decreases |ws|
  {
    if ws != [] {
      var n := 4 * |ws|;
      assert data[pos + 4..pos + n] == EncodeWords(ws[1..]) by {
        forall i | 0 <= i < |ws| - 1
          ensures data[pos + 4 + 4 * i..pos + 4 + 4 * i + 4] == EncodeU32(ws[1..][i])
        {
          assert pos + 4 + 4 * i == pos + 4 * (i + 1);
        }
        SlicesMakeWords(data, pos + 4, ws[1..]);
      }
      assert data[pos..pos + 4] == EncodeU32(ws[0]) by {
        assert pos + 4 * 0 == pos;
      }
      SplitSlice(data, pos, pos + 4, pos + n);
    }
  }

  /** Word `i` of an encoded run reads back as that word. */
  lemma EncodedWordReads(data: seq<byte>, pos: nat, ws: seq<u32>, i: nat)
    requires pos + 4 * |ws| <= |data| && data[pos..pos + 4 * |ws|] == EncodeWords(ws)
    requires i < |ws|
    ensures LeU32(data, pos + 4 * i) == ws[i]
  {
    WordSliceAt(data, pos, ws, i);
    LeU32Encodes(data, pos + 4 * i, ws[i]);
  }

  /** Every well-formed header, wherever it is written, decodes to itself. */
  lemma DecodeEncodeHeader(h: Header, data: seq<byte>, pos: nat)
    requires WellFormed(h)
    requires pos + HeaderLength(h.version) <= |data|
    requires data[pos..pos + HeaderLength(h.version)] == EncodeHeader(h)
    ensures DecodeHeader(data, pos) == Ok(Parsed(h, pos + HeaderLength(h.version)))
  {
    var ws := Words(h);
    assert 4 * |ws| == HeaderLength(h.version);
    EncodedWordReads(data, pos, ws, 0);
    EncodedWordReads(data, pos, ws, 1);
    EncodedWordReads(data, pos, ws, 2);
    if h.version == 2 {
      EncodedWordReads(data, pos, ws, 3);
      EncodedWordReads(data, pos, ws, 4);
      EncodedWordReads(data, pos, ws, 5);
      EncodedWordReads(data, pos, ws, 6);
    }
  }

  /** A decoded header is exactly the bytes it was decoded from. */
  lemma EncodeDecodeHeader(data: seq<byte>, pos: nat)
    requires DecodeHeader(data, pos).Ok?
    ensures var p := DecodeHeader(data, pos).value;
      EncodeHeader(p.value) == data[pos..p.next]
  {
    var p := DecodeHeader(data, pos).value;
    var ws := Words(p.value);
    forall i | 0 <= i < |ws|
      ensures data[pos + 4 * i..pos + 4 * i + 4] == EncodeU32(ws[i])
    {
      LeU32Encodes(data, pos + 4 * i, ws[i]);
    }
    SlicesMakeWords(data, pos, ws);
  }

  /** Header decode on the shared cursor, proved against DecodeHeader. */
  method ReadHeader(c: Cursor) returns (r: Result<Header, Error>)
    requires c.Valid()
    modifies c
    ensures c.Valid()
    ensures Follows(r, DecodeHeader(c.data, old(c.pos)), c.pos)
  {
    var signature :- c.ReadU32();
    if signature != SIGNATURE {
      return Err(BadSignature);
    }
    var version :- c.ReadU32();
    if version != 1 && version != 2 {
      return Err(BadVersion);
    }
    var treeLength :- c.ReadU32();
    if version == 2 {
      var unknown1 :- c.ReadU32();
      var footerLength :- c.ReadU32();
      var unknown3 :- c.ReadU32();
      var unknown4 :- c.ReadU32();
      return Ok(Header(2, treeLength, Some(V2Fields(unknown1, footerLength, unknown3, unknown4))));
    }
    return Ok(Header(1, treeLength, None));
  }
}
