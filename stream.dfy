/**
 * A sequential byte reader: the open file handle of `get_substrate_bytes`
 * and the `BytesIO` of `parse_substrate`. `Read(n)` behaves like Python's
 * `read(n)`: it returns up to `n` bytes (fewer at the end of the data, never
 * an error) and advances the position by what it returned. The `...At`
 * functions give the result of each read from a position, with the position
 * after it.
 */
module Stream {
  import opened Wrappers
  import opened Wire
  import opened StructFormat

  /** A decoded value and the position just past the bytes it was read from. */
  datatype Decoded<T> = Decoded(value: T, next: nat)

  /** Forgets the position of a decode result. */
  function ValueOf<T>(r: Result<Decoded<T>, Error>): (v: Result<T, Error>)
    ensures v.Success? <==> r.Success?
    ensures v.Success? ==> v.value == r.value.value
    ensures v.Failure? ==> v.error == r.error
  {
    match r
    case Success(d) => Success(d.value)
    case Failure(e) => Failure(e)
  }

  /** What `read(n)` returns at position `pos`. */
  function Take(buf: seq<byte>, pos: nat, n: nat): (chunk: seq<byte>)
    requires pos <= |buf|
    ensures |chunk| <= n
    ensures |chunk| == n <==> pos + n <= |buf|
    ensures |chunk| < n ==> pos + |chunk| == |buf|
    ensures chunk <= buf[pos..]
  {
    buf[pos .. Min(pos + n, |buf|)]
  }

  /** `read_size`: `ord` of one byte; with no byte left `ord` raises. */
  function ReadSizeAt(buf: seq<byte>, pos: nat): (r: Result<Decoded<nat>, Error>)
    requires pos <= |buf|
    ensures r.Success? <==> pos < |buf|
    ensures r.Success? ==> r.value == Decoded(buf[pos], pos + 1)
    ensures r.Failure? ==> r.error == MissingLength
  {
    var b := Take(buf, pos, 1);
    if |b| == 0 then Failure(MissingLength) else Success(Decoded(b[0], pos + 1))
  }

  /** `read_int`: unpack `>i` from a 4-byte read; a short read makes `unpack` raise. */
  function ReadIntAt(buf: seq<byte>, pos: nat): (r: Result<Decoded<int>, Error>)
    requires pos <= |buf|
    ensures r.Success? <==> pos + 4 <= |buf|
    ensures r.Success? ==> r.value == Decoded(BeInt32(buf[pos .. pos + 4]), pos + 4)
    ensures r.Failure? ==> r.error == ShortRead(4, |buf| - pos)
  {
    var b := Take(buf, pos, 4);
    if |b| != 4 then Failure(ShortRead(4, |b|)) else Success(Decoded(BeInt32(b), pos + 4))
  }

  /** `read_struct`: read `calcsize(fmt)` bytes and unpack them; a short read makes `unpack` raise. */
  function ReadStructAt(fmt: Format, buf: seq<byte>, pos: nat): (r: Result<Decoded<seq<Value>>, Error>)
    requires pos <= |buf|
    ensures r.Success? <==> pos + CalcSize(fmt) <= |buf|
    ensures r.Success? ==> r.value.next == pos + CalcSize(fmt)
    ensures r.Success? ==> r.value.value == Unpack(fmt, buf[pos .. pos + CalcSize(fmt)])
    ensures r.Failure? ==> r.error == ShortRead(CalcSize(fmt), |buf| - pos)
  {
    var size := CalcSize(fmt);
    var b := Take(buf, pos, size);
    if |b| != size then Failure(ShortRead(size, |b|)) else Success(Decoded(Unpack(fmt, b), pos + size))
  }

  class ByteReader {
    const buf: seq<byte>
    var pos: nat

    ghost predicate Valid()
      reads this
    {
      pos <= |buf|
    }

    /** Opens a reader at the start of `data`. */
    constructor (data: seq<byte>)
      ensures Valid() && buf == data && pos == 0
    {
      buf := data;
      pos := 0;
    }

    /** `read(n)`: up to `n` bytes from the current position. */
    method Read(n: nat) returns (chunk: seq<byte>)
      requires Valid()
      modifies this`pos
      ensures Valid()
      ensures chunk == Take(buf, old(pos), n)
      ensures pos == old(pos) + |chunk|
    {
      var end := if pos + n <= |buf| then pos + n else |buf|;
      chunk := buf[pos .. end];
      pos := end;
    }

    method ReadSize() returns (r: Result<nat, Error>)
      requires Valid()
      modifies this`pos
      ensures Valid()
      ensures r == ValueOf(ReadSizeAt(buf, old(pos)))
      ensures r.Success? ==> pos == ReadSizeAt(buf, old(pos)).value.next
      ensures r.Failure? ==> pos == |buf|
    {
      var b := Read(1);
      if |b| == 0 {
        return Failure(MissingLength);
      }
      return Success(b[0]);
    }

    method ReadInt() returns (r: Result<int, Error>)
      requires Valid()
      modifies this`pos
      ensures Valid()
      ensures r == ValueOf(ReadIntAt(buf, old(pos)))
      ensures r.Success? ==> pos == ReadIntAt(buf, old(pos)).value.next
      ensures r.Failure? ==> pos == |buf|
    {
      var b := Read(4);
      if |b| != 4 {
        return Failure(ShortRead(4, |b|));
      }
      return Success(BeInt32(b));
    }

    method ReadStruct(fmt: Format) returns (r: Result<seq<Value>, Error>)
      requires Valid()
      modifies this`pos
      ensures Valid()
      ensures r == ValueOf(ReadStructAt(fmt, buf, old(pos)))
      ensures r.Success? ==> pos == ReadStructAt(fmt, buf, old(pos)).value.next
      ensures r.Failure? ==> pos == |buf|
    {
      var size := CalcSize(fmt);
      var b := Read(size);
      if |b| != size {
        return Failure(ShortRead(size, |b|));
      }
      return Success(Unpack(fmt, b));
    }
  }
}
