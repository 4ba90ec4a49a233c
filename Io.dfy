/**
 * The byte and error vocabulary shared by the palette code, and the byte
 * reader it takes palettes and index buffers from: a window of bytes plus a
 * read position, as the engine's `IO::Reader` and `IO::BufferedReader`
 * present them.
 */
module Io {
  newtype byte = x: int | 0 <= x < 256

  /** Bitwise AND of two naturals, one bit at a time from the lowest. */
  function BitAndNat(a: nat, b: nat): (r: nat)
    ensures r <= a
    decreases a
  {
    if a == 0 || b == 0 then 0
    else 2 * BitAndNat(a / 2, b / 2) + (if a % 2 == 1 && b % 2 == 1 then 1 else 0)
  }

  /** Bitwise AND of two bytes. */
  function BitAnd(a: byte, b: byte): byte
  {
    BitAndNat(a as nat, b as nat) as byte
  }

  function Pow2(k: nat): (p: nat)
    ensures p >= 1
  {
    if k == 0 then 1 else 2 * Pow2(k - 1)
  }

  /** A k-bit number ANDed with k one-bits is itself. */
  lemma {:induction false} BitAndAllOnes(a: nat, k: nat)
    requires a < Pow2(k)
    ensures BitAndNat(a, Pow2(k) - 1) == a
    decreases k
  {
    if a != 0 {
      var ones := Pow2(k) - 1;
      assert ones / 2 == Pow2(k - 1) - 1 && ones % 2 == 1;
      BitAndAllOnes(a / 2, k - 1);
    }
  }

  /** 0xFF is the identity of AND on bytes and 0 absorbs it. */
  lemma BitAndUnits(a: byte)
    ensures BitAnd(a, 0xFF) == a && BitAnd(a, 0) == 0
  {
    assert Pow2(8) == 256;
    BitAndAllOnes(a as nat, 8);
  }

  datatype Option<T> = None | Some(value: T)

  /** The exceptions that reach callers of the palette code. */
  datatype Error =
    | AssetError(message: string)       // AssetException
    | ConditionFailed(message: string)  // a failed `ensure` check
    | ReadBeyondEnd                     // the reader was asked for bytes past its end

  datatype Result<T> = Ok(value: T) | Err(error: Error)

  /** A reader over a fixed window of bytes with a movable read position. */
  class Reader {
    const bytes: seq<byte>
    var position: nat

    ghost predicate Valid()
      reads this
    {
      position <= |bytes|
    }

    constructor (bytes: seq<byte>)
      ensures Valid() && this.bytes == bytes && position == 0
    {
      this.bytes := bytes;
      position := 0;
    }

    /** The size of the whole window, wherever the position is. */
    function Size(): nat
    {
      |bytes|
    }

    predicate CanRead(n: nat)
      reads this
    {
      position + n <= |bytes|
    }

    /** Reads `n` bytes at the position and moves past them, or fails and stays put. */
    method Read(n: nat) returns (r: Result<seq<byte>>)
      requires Valid()
      modifies this
      ensures Valid()
      ensures old(CanRead(n)) ==> r == Ok(bytes[old(position)..old(position) + n]) && position == old(position) + n
      ensures !old(CanRead(n)) ==> r == Err(ReadBeyondEnd) && position == old(position)
    {
      if position + n <= |bytes| {
        r := Ok(bytes[position..position + n]);
        position := position + n;
      } else {
        r := Err(ReadBeyondEnd);
      }
    }

    /** Moves the position to `n` bytes before the end of the window; fails when the window is shorter. */
    method SeekFromEnd(n: nat) returns (ok: bool)
      requires Valid()
      modifies this
      ensures Valid()
      ensures ok == (n <= |bytes|)
      ensures position == if ok then |bytes| - n else old(position)
    {
      ok := n <= |bytes|;
      if ok {
        position := |bytes| - n;
      }
    }

    method SeekForward(n: nat)
      requires Valid() && CanRead(n)
      modifies this
      ensures Valid() && position == old(position) + n
    {
      position := position + n;
    }
  }
}
