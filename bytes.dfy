/**
 * Bytes as the decoder sees them: little-endian fixed-width integers,
 * NUL-terminated strings, and the zero-filled buffers that file reads fill.
 */
module Bytes {
  import opened Wrappers

  type byte = x: int | 0 <= x < 0x100
  type u16 = x: int | 0 <= x < 0x1_0000
  type u32 = x: int | 0 <= x < 0x1_0000_0000

  /** Every way decoding, loading or extracting can fail. */
  datatype Error =
    | OutOfBounds        // a read or skip past the end of the data
    | BadSignature       // "VPK signature is invalid"
    | BadVersion         // "VPK version is invalid"
    | BadTerminator      // "directory terminator is invalid"
    | IoError(path: string) // a file that cannot be opened
    | CrcMismatch        // "CRC does not match"
    | NotLoaded          // the archive's tree was never decoded

  /** A decoded value and the position right after it. */
  datatype Parsed<+T> = Parsed(value: T, next: nat)

  function LeU16(data: seq<byte>, pos: nat): u16
    requires pos + 2 <= |data|
  {
    data[pos] as int + 0x100 * (data[pos + 1] as int)
  }

  function LeU32(data: seq<byte>, pos: nat): u32
    requires pos + 4 <= |data|
  {
    LeU16(data, pos) as int + 0x1_0000 * (LeU16(data, pos + 2) as int)
  }

  /** Little-endian encodings, the inverses of LeU16 and LeU32. */
  function EncodeU16(x: u16): (s: seq<byte>)
    ensures |s| == 2 && LeU16(s, 0) == x
  {
    [x % 0x100, x / 0x100]
  }

  function EncodeU32(x: u32): (s: seq<byte>)
    ensures |s| == 4 && LeU32(s, 0) == x
  {
    var s := EncodeU16(x % 0x1_0000) + EncodeU16(x / 0x1_0000);
    assert LeU16(s, 2) == LeU16(EncodeU16(x / 0x1_0000), 0);
    s
  }

  /** Two bytes encode `x` exactly when they read back as `x`. */
  lemma LeU16Encodes(data: seq<byte>, pos: nat, x: u16)
    requires pos + 2 <= |data|
    ensures data[pos..pos + 2] == EncodeU16(x) <==> LeU16(data, pos) == x
  {
    var e := EncodeU16(x);
    if data[pos..pos + 2] == e {
      assert data[pos] == e[0] && data[pos + 1] == e[1];
    }
  }

  /** Four bytes encode `x` exactly when they read back as `x`. */
  lemma LeU32Encodes(data: seq<byte>, pos: nat, x: u32)
    requires pos + 4 <= |data|
    ensures data[pos..pos + 4] == EncodeU32(x) <==> LeU32(data, pos) == x
  {
    var lo, hi := x % 0x1_0000, x / 0x1_0000;
    var s := data[pos..pos + 4];
    assert s[..2] == data[pos..pos + 2] && s[2..] == data[pos + 2..pos + 4];
    ConcatAt(s, EncodeU16(lo), EncodeU16(hi));
    LeU16Encodes(data, pos, lo);
    LeU16Encodes(data, pos + 2, hi);
    HalvesUnique(LeU16(data, pos), LeU16(data, pos + 2), x);
  }

  /** A 32-bit value has exactly one split into low and high halves. */
  lemma HalvesUnique(a: u16, b: u16, x: u32)
    ensures a + 0x1_0000 * b == x <==> a == x % 0x1_0000 && b == x / 0x1_0000
  {
  }

  lemma SplitSlice(data: seq<byte>, lo: nat, mid: nat, hi: nat)
    requires lo <= mid <= hi <= |data|
    ensures data[lo..hi] == data[lo..mid] + data[mid..hi]
  {
  }

  /** A sequence is a concatenation exactly when its two parts are. */
  lemma ConcatAt(s: seq<byte>, x: seq<byte>, y: seq<byte>)
    requires |s| == |x| + |y|
    ensures s == x + y <==> s[..|x|] == x && s[|x|..] == y
  {
    if s[..|x|] == x && s[|x|..] == y {
      assert s == s[..|x|] + s[|x|..];
    }
  }

  /** A 16-bit read at `pos`, failing when fewer than two bytes remain. */
  function U16At(data: seq<byte>, pos: nat): (r: Result<Parsed<u16>, Error>)
    ensures r.Ok? <==> pos + 2 <= |data|
    ensures r.Ok? ==> r.value == Parsed(LeU16(data, pos), pos + 2)
    ensures r.Err? ==> r.error == OutOfBounds
  {
    if pos + 2 <= |data| then Ok(Parsed(LeU16(data, pos), pos + 2)) else Err(OutOfBounds)
  }

  /** A 32-bit read at `pos`, failing when fewer than four bytes remain. */
  function U32At(data: seq<byte>, pos: nat): (r: Result<Parsed<u32>, Error>)
    ensures r.Ok? <==> pos + 4 <= |data|
    ensures r.Ok? ==> r.value == Parsed(LeU32(data, pos), pos + 4)
    ensures r.Err? ==> r.error == OutOfBounds
  {
    if pos + 4 <= |data| then Ok(Parsed(LeU32(data, pos), pos + 4)) else Err(OutOfBounds)
  }

  /** The index of the first NUL byte at or after `i`, if any. */
  function NulFrom(data: seq<byte>, i: nat): (r: Option<nat>)
    decreases |data| - i
    ensures r.Some? ==> i <= r.value < |data| && data[r.value] == 0
    ensures r.Some? ==> forall k :: i <= k < r.value ==> data[k] != 0
    ensures r.None? ==> forall k :: i <= k < |data| ==> data[k] != 0
  {
    if i >= |data| then None
    else if data[i] == 0 then Some(i)
    else NulFrom(data, i + 1)
  }

  /**
   * A NUL-terminated string at `pos`: the bytes up to the first NUL, and the
   * position after that NUL. Data that ends before a NUL is out of bounds.
   */
  function String0At(data: seq<byte>, pos: nat): (r: Result<Parsed<seq<byte>>, Error>)
    ensures r.Ok? ==> pos < r.value.next <= |data| && r.value.next == pos + |r.value.value| + 1
    ensures r.Err? ==> r.error == OutOfBounds
  {
    match NulFrom(data, pos)
    case None => Err(OutOfBounds)
    case Some(k) => Ok(Parsed(data[pos..k], k + 1))
  }

  /**
   * What String0At reads: the bytes before the first NUL after `pos`; it
   * fails exactly when no NUL follows.
   */
  lemma String0AtContents(data: seq<byte>, pos: nat)
    ensures var r := String0At(data, pos);
      && (r.Ok? ==> data[pos..r.value.next - 1] == r.value.value && data[r.value.next - 1] == 0)
      && (r.Ok? ==> forall k :: 0 <= k < |r.value.value| ==> r.value.value[k] != 0)
      && (r.Err? <==> forall k :: pos <= k < |data| ==> data[k] != 0)
  {
  }

  /** The bytes `s` followed by a NUL are read back as exactly `s`. */
  lemma {:induction false} String0AtEncoded(data: seq<byte>, pos: nat, s: seq<byte>)
    requires pos + |s| < |data|
    requires data[pos..pos + |s|] == s && data[pos + |s|] == 0
    requires forall k :: 0 <= k < |s| ==> s[k] != 0
    ensures String0At(data, pos) == Ok(Parsed(s, pos + |s| + 1))
  {
    NulFromSkips(data, pos, pos + |s|);
  }

  lemma {:induction false} NulFromSkips(data: seq<byte>, i: nat, k: nat)
    requires i <= k < |data| && data[k] == 0
    requires forall j :: i <= j < k ==> data[j] != 0
    ensures NulFrom(data, i) == Some(k)
    decreases k - i
  {
    if i < k {
      NulFromSkips(data, i + 1, k);
    }
  }

  /** `n` zero bytes: the contents of a freshly allocated buffer. */
  function Zeros(n: nat): (s: seq<byte>)
    ensures |s| == n && forall k :: 0 <= k < n ==> s[k] == 0
  {
    seq(n, _ => 0)
  }

  function Min(a: nat, b: nat): nat {
    if a <= b then a else b
  }

  /**
   * The bytes a positioned read of up to `length` bytes at `position`
   * returns: it stops at the end of the file.
   */
  function Available(file: seq<byte>, position: nat, length: nat): (r: seq<byte>)
    ensures |r| <= length
    ensures |r| == if position < |file| then Min(length, |file| - position) else 0
    ensures forall k :: 0 <= k < |r| ==> r[k] == file[position + k]
  {
    if position < |file| then file[position..position + Min(length, |file| - position)] else []
  }

  /** `buf` with `bytes` written over it from index `at`. */
  function Splice(buf: seq<byte>, at: nat, bytes: seq<byte>): (r: seq<byte>)
    requires at + |bytes| <= |buf|
    ensures |r| == |buf|
    ensures forall k :: 0 <= k < |r| ==> r[k] == if at <= k < at + |bytes| then bytes[k - at] else buf[k]
  {
    buf[..at] + bytes + buf[at + |bytes|..]
  }

  /**
   * What a buffer of `length` zero bytes holds after a positioned read of
   * `length` bytes at `position`: the file's bytes, then zeros past its end.
   */
  function ReadPadded(file: seq<byte>, position: nat, length: nat): (r: seq<byte>)
    ensures |r| == length
    ensures forall k :: 0 <= k < length ==>
      r[k] == if position + k < |file| then file[position + k] else 0
  {
    Splice(Zeros(length), 0, Available(file, position, length))
  }
}
