/**
 * The outer framing of the save file: `STREAM_MAGIC` and `STREAM_VERSION`,
 * which the program checks as one 4-byte constant `AC ED 00 05`,
 * followed by one short block-data record (`TC_BLOCKDATA`, a 1-byte length,
 * that many payload bytes) that holds the substrate record. This is the
 * `blockdatashort` production of the Java Object Serialization Stream
 * Protocol (section 6.4.1 of the Java Object Serialization Specification;
 * constants from section 6.4.2). The bytes after that block are the
 * compressed secondary payload.
 */
module BlockData {
  import opened Wrappers
  import opened Wire
  import opened Stream

  /** `STREAM_MAGIC` (`AC ED`) then `STREAM_VERSION` (`00 05`), compared as one constant. */
  const STREAM_MAGIC: seq<byte> := [0xAC, 0xED, 0x00, 0x05]
  const TC_BLOCKDATA: seq<byte> := [0x77]

  /**
   * What reading the substrate block yields: the payload (cut short if the
   * file ends early) and the position just past it, or the reason reading stops.
   */
  function SubstrateBlock(file: seq<byte>): Result<Decoded<seq<byte>>, Error> {
    if |file| < 4 || file[..4] != STREAM_MAGIC then Failure(MissingMagic)
    else if |file| < 5 || file[4..5] != TC_BLOCKDATA then Failure(NotBlockData(file[4 .. Min(5, |file|)]))
    else if |file| < 6 then Failure(MissingLength)
    else
      var end := Min(6 + file[5] as int, |file|);
      Success(Decoded(file[6..end], end))
  }

  /** The offset the trailing payload is read from: magic, tag, length byte, payload. */
  function SeekOffset(payload: seq<byte>): nat {
    |STREAM_MAGIC| + |TC_BLOCKDATA| + 1 + |payload|
  }

  /** The bytes after the substrate block: the compressed secondary payload. */
  function Compressed(file: seq<byte>, payload: seq<byte>): seq<byte>
    requires SeekOffset(payload) <= |file|
  {
    file[SeekOffset(payload)..]
  }

  /** The framing of a payload of at most 255 bytes as one short block after the magic. */
  function Frame(payload: seq<byte>): (f: seq<byte>)
    requires |payload| <= 0xFF
    ensures |f| == SeekOffset(payload)
  {
    STREAM_MAGIC + TC_BLOCKDATA + [|payload|] + payload
  }

  /**
   * `get_substrate_bytes`: reads the magic, the tag and the length through an
   * open file and returns the payload; `consumed` is the file position when
   * the file is closed.
   */
  method GetSubstrateBytes(file: seq<byte>) returns (r: Result<seq<byte>, Error>, ghost consumed: nat)
    ensures r == ValueOf(SubstrateBlock(file))
    ensures r.Success? ==> consumed == SubstrateBlock(file).value.next == SeekOffset(r.value)
  {
    var data: seq<byte> := [];
    var f := new ByteReader(file);
    var header := f.Read(|STREAM_MAGIC|);
    if header != STREAM_MAGIC {
      assert |file| >= 4 ==> header == file[..4];
      return Failure(MissingMagic), f.pos;
    }
    var tc := f.Read(|TC_BLOCKDATA|);
    if tc != TC_BLOCKDATA {
      return Failure(NotBlockData(tc)), f.pos;
    }
    var size := f.ReadSize();
    if size.Failure? {
      return Failure(size.error), f.pos;
    }
    assert header == file[..4] && tc == file[4..5] && size.value == file[5];
    var chunk := f.Read(size.value);
    data := data + chunk;
    assert data == file[6 .. Min(6 + file[5] as int, |file|)];
    return Success(data), f.pos;
  }

  // ----- Lemmas -----

  /** A file that does not start with the magic yields no data. */
  lemma MagicRequired(file: seq<byte>)
    requires |file| < 4 || file[..4] != STREAM_MAGIC
    ensures SubstrateBlock(file) == Failure(MissingMagic)
  {
  }

  /** After the magic, anything but the block-data tag yields no data. */
  lemma BlockTagRequired(file: seq<byte>)
    requires |file| >= 4 && file[..4] == STREAM_MAGIC
    requires |file| == 4 || file[4] != 0x77
    ensures SubstrateBlock(file).Failure? && SubstrateBlock(file).error.NotBlockData?
  {
  }

  /**
   * On success the payload is the bytes after the length byte: never more
   * than the declared length (so at most 255), and exactly that many when
   * the file holds them.
   */
  lemma PayloadFollowsLength(file: seq<byte>)
    requires SubstrateBlock(file).Success?
    ensures var p := SubstrateBlock(file).value.value;
      && |file| >= 6
      && p == file[6 .. 6 + |p|]
      && |p| <= file[5] <= 0xFF
      && (|p| == file[5] <==> 6 + file[5] <= |file|)
  {
  }

  /** The offset computed for the trailing payload is exactly the number of bytes the block reader consumed. */
  lemma SeekOffsetIsConsumed(file: seq<byte>)
    requires SubstrateBlock(file).Success?
    ensures SeekOffset(SubstrateBlock(file).value.value) == SubstrateBlock(file).value.next <= |file|
  {
  }

  /** A framed payload followed by anything decodes to that payload, consuming exactly the frame. */
  lemma {:induction false} FrameRoundTrip(payload: seq<byte>, rest: seq<byte>)
    requires |payload| <= 0xFF
    ensures SubstrateBlock(Frame(payload) + rest) == Success(Decoded(payload, SeekOffset(payload)))
  {
    var file := Frame(payload) + rest;
    assert file[..4] == STREAM_MAGIC;
    assert file[4..5] == TC_BLOCKDATA;
    assert file[5] == |payload|;
    assert file[6 .. 6 + |payload|] == payload;
  }

  /**
   * A file whose block is complete is the frame of its payload followed by
   * the compressed payload; a block cut short leaves no trailing bytes.
   */
  lemma {:induction false} FileSplits(file: seq<byte>)
    requires SubstrateBlock(file).Success?
    ensures var p := SubstrateBlock(file).value.value;
      && SeekOffset(p) <= |file|
      && (|p| == file[5] ==> file == Frame(p) + Compressed(file, p))
      && (|p| < file[5] ==> Compressed(file, p) == [])
  {
    var p := SubstrateBlock(file).value.value;
    if |p| == file[5] {
      assert file == file[..4] + file[4..5] + [file[5]] + file[6 .. 6 + |p|] + file[6 + |p|..];
    }
  }
}
