/**
 * The byte cursor the decoders share: a buffer and a position that every
 * read advances. Each read is specified by the pure function of Bytes that
 * describes it; a failed primitive read leaves the position where it was.
 */
module ByteCursor {
  import opened Wrappers
  import opened Bytes

  /**
   * `r` is what the cursor returns for the outcome `spec`, and `pos` is where
   * it stands afterwards when the read succeeded.
   */
  ghost predicate Follows<T>(r: Result<T, Error>, spec: Result<Parsed<T>, Error>, pos: nat) {
    match spec
    case Ok(p) => r == Ok(p.value) && pos == p.next
    case Err(e) => r == Err(e)
  }

  class Cursor {
    const data: seq<byte>
    var pos: nat

    ghost predicate Valid()
      reads this
    {
      pos <= |data|
    }

    constructor (data: seq<byte>)
      ensures this.data == data && pos == 0 && Valid()
    {
      this.data := data;
      pos := 0;
    }

    method ReadU16() returns (r: Result<u16, Error>)
      requires Valid()
      modifies this
      ensures Valid()
      ensures Follows(r, U16At(data, old(pos)), pos)
      ensures r.Err? ==> pos == old(pos)
    {
      if pos + 2 > |data| {
        return Err(OutOfBounds);
      }
      r := Ok(LeU16(data, pos));
      pos := pos + 2;
    }

    method ReadU32() returns (r: Result<u32, Error>)
      requires Valid()
      modifies this
      ensures Valid()
      ensures Follows(r, U32At(data, old(pos)), pos)
      ensures r.Err? ==> pos == old(pos)
    {
      if pos + 4 > |data| {
        return Err(OutOfBounds);
      }
      r := Ok(LeU32(data, pos));
      pos := pos + 4;
    }

    /** Scans forward for the NUL that ends the string at the cursor. */
    method ReadString0() returns (r: Result<seq<byte>, Error>)
      requires Valid()
      modifies this
      ensures Valid()
      ensures Follows(r, String0At(data, old(pos)), pos)
      ensures r.Err? ==> pos == old(pos)
    {
      var i := pos;
      while i < |data| && data[i] != 0
        invariant pos <= i <= |data|
        invariant NulFrom(data, i) == NulFrom(data, pos)
        decreases |data| - i
      {
        i := i + 1;
      }
      if i == |data| {
        return Err(OutOfBounds);
      }
      r := Ok(data[pos..i]);
      pos := i + 1;
    }

    /** Moves the cursor `n` bytes forward; it may stop at the very end. */
    method Skip(n: nat) returns (r: Result<(), Error>)
      requires Valid()
      modifies this
      ensures Valid()
      ensures r.Ok? <==> old(pos) + n <= |data|
      ensures pos == if r.Ok? then old(pos) + n else old(pos)
      ensures r.Err? ==> r.error == OutOfBounds
    {
      if pos + n > |data| {
        return Err(OutOfBounds);
      }
      pos := pos + n;
      return Ok(());
    }
  }
}
