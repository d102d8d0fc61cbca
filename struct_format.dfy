/**
 * The part of Python's `struct` module the decoder uses, in standard
 * big-endian mode (`>`): no alignment padding, `?` = 1 byte, `i` = 4,
 * `f` = 4, `d` = 8. A format is a list of (repeat count, code) pairs;
 * floating-point words are kept as their raw bytes and never interpreted.
 */
module StructFormat {
  import opened Wire

  /** The format characters `?`, `i`, `f` and `d`. */
  datatype Code = BoolCode | IntCode | FloatCode | DoubleCode

  /** One `<count><code>` group of a format string. */
  datatype Field = Rep(count: nat, code: Code)

  type Format = seq<Field>

  /** One unpacked value: a Python bool, a Python int, or the raw bytes of a float or double. */
  datatype Value =
    | Flag(b: bool)
    | Int(i: int)
    | Float(w: seq<byte>)
    | Double(w: seq<byte>)

  /** Standard size of one item of a code. */
  function Width(c: Code): nat {
    match c
    case BoolCode => 1
    case IntCode => 4
    case FloatCode => 4
    case DoubleCode => 8
  }

  /** `struct.calcsize`: the sum of count times width over the groups, with no padding. */
  function CalcSize(fmt: Format): nat {
    if fmt == [] then 0 else fmt[0].count * Width(fmt[0].code) + CalcSize(fmt[1..])
  }

  /** The number of values `struct.unpack` yields: the sum of the repeat counts. */
  function Count(fmt: Format): nat {
    if fmt == [] then 0 else fmt[0].count + Count(fmt[1..])
  }

  /** The format expanded to one code per value. */
  function Codes(fmt: Format): (cs: seq<Code>)
    ensures |cs| == Count(fmt)
  {
    if fmt == [] then [] else seq(fmt[0].count, _ => fmt[0].code) + Codes(fmt[1..])
  }

  /** Total width of a run of codes. */
  function WidthSum(cs: seq<Code>): nat {
    if cs == [] then 0 else Width(cs[0]) + WidthSum(cs[1..])
  }

  /** A value is of the kind its code produces. */
  predicate Fits(c: Code, v: Value) {
    match c
    case BoolCode => v.Flag?
    case IntCode => v.Int?
    case FloatCode => v.Float?
    case DoubleCode => v.Double?
  }

  /** A value that `>`-packing accepts for its code: an int32, or a word of the code's width. */
  predicate Packable(c: Code, v: Value) {
    match c
    case BoolCode => v.Flag?
    case IntCode => v.Int? && INT32_MIN <= v.i <= INT32_MAX
    case FloatCode => v.Float? && |v.w| == 4
    case DoubleCode => v.Double? && |v.w| == 8
  }

  /** Decodes one item: a bool is "byte is not zero", an int is big-endian two's complement. */
  function DecodeItem(c: Code, b: seq<byte>): (v: Value)
    requires |b| == Width(c)
    ensures Packable(c, v)
  {
    match c
    case BoolCode => Flag(b[0] != 0)
    case IntCode => Int(BeInt32(b))
    case FloatCode => Float(b)
    case DoubleCode => Double(b)
  }

  /** Decodes one item of code `c` from the bytes of `b` that start at `off`. */
  function DecodeAt(c: Code, b: seq<byte>, off: nat): (v: Value)
    requires off + Width(c) <= |b|
  {
    DecodeItem(c, b[off .. off + Width(c)])
  }

  /**
   * Decodes the items of `cs` one after another, starting at `off`: each item
   * starts where the previous one ended.
   */
  function UnpackFrom(cs: seq<Code>, b: seq<byte>, off: nat): (vs: seq<Value>)
    requires off + WidthSum(cs) <= |b|
    ensures |vs| == |cs|
  {
    if cs == [] then []
    else [DecodeAt(cs[0], b, off)] + UnpackFrom(cs[1..], b, off + Width(cs[0]))
  }

  /** `struct.unpack(fmt, b)` for a buffer of exactly `calcsize(fmt)` bytes. */
  function Unpack(fmt: Format, b: seq<byte>): (vs: seq<Value>)
    requires |b| == CalcSize(fmt)
    ensures |vs| == Count(fmt)
  {
    CodesMeasure(fmt);
    UnpackFrom(Codes(fmt), b, 0)
  }

  /** Encodes one item as `>`-packing does; the reference inverse of DecodeItem. */
  function EncodeItem(c: Code, v: Value): (b: seq<byte>)
    requires Packable(c, v)
    ensures |b| == Width(c)
  {
    match c
    case BoolCode => if v.b then [1] else [0]
    case IntCode => EncodeInt32(v.i)
    case FloatCode => v.w
    case DoubleCode => v.w
  }

  /** Packs values item by item, with no padding; the reference inverse of UnpackCodes. */
  function PackCodes(cs: seq<Code>, vs: seq<Value>): (b: seq<byte>)
    requires |vs| == |cs| && forall i :: 0 <= i < |cs| ==> Packable(cs[i], vs[i])
    ensures |b| == WidthSum(cs)
  {
    if cs == [] then []
    else EncodeItem(cs[0], vs[0]) + PackCodes(cs[1..], vs[1..])
  }

  // ----- Lemmas -----

  lemma {:induction false} WidthSumAppend(a: seq<Code>, b: seq<Code>)
    ensures WidthSum(a + b) == WidthSum(a) + WidthSum(b)
  {
    if a == [] {
      assert a + b == b;
    } else {
      assert (a + b)[1..] == a[1..] + b;
      WidthSumAppend(a[1..], b);
    }
  }

  lemma {:induction false} WidthSumRepeat(c: Code, n: nat)
    ensures WidthSum(seq(n, _ => c)) == n * Width(c)
  {
    if n > 0 {
      assert seq(n, _ => c)[1..] == seq(n - 1, _ => c);
      WidthSumRepeat(c, n - 1);
    }
  }

  /** The expanded codes span exactly `calcsize` bytes. */
  lemma {:induction false} CodesMeasure(fmt: Format)
    ensures WidthSum(Codes(fmt)) == CalcSize(fmt)
  {
    if fmt != [] {
      CodesMeasure(fmt[1..]);
      WidthSumAppend(seq(fmt[0].count, _ => fmt[0].code), Codes(fmt[1..]));
      WidthSumRepeat(fmt[0].code, fmt[0].count);
    }
  }

  /** Codes and sizes of a concatenation of formats are the concatenations and sums. */
  lemma {:induction false} FormatAppend(f: Format, g: Format)
    ensures Codes(f + g) == Codes(f) + Codes(g)
    ensures CalcSize(f + g) == CalcSize(f) + CalcSize(g)
    ensures Count(f + g) == Count(f) + Count(g)
  {
    if f == [] {
      assert f + g == g;
    } else {
      assert (f + g)[1..] == f[1..] + g;
      FormatAppend(f[1..], g);
    }
  }

  /** Where the i-th item of a run of codes starts: the widths of the items before it. */
  function Offset(cs: seq<Code>, i: nat): nat
    requires i < |cs|
  {
    if i == 0 then 0 else Width(cs[0]) + Offset(cs[1..], i - 1)
  }

  /**
   * No padding: the i-th value is decoded from the bytes that start where
   * the items before it end.
   */
  lemma {:induction false} UnpackAt(cs: seq<Code>, b: seq<byte>, off: nat, i: nat)
    requires off + WidthSum(cs) <= |b| && i < |cs|
    ensures off + Offset(cs, i) + Width(cs[i]) <= |b|
    ensures UnpackFrom(cs, b, off)[i] == DecodeAt(cs[i], b, off + Offset(cs, i))
  {
    if i > 0 {
      UnpackAt(cs[1..], b, off + Width(cs[0]), i - 1);
      assert cs[1..][i - 1] == cs[i];
      assert UnpackFrom(cs, b, off)[i] == UnpackFrom(cs[1..], b, off + Width(cs[0]))[i - 1];
    }
  }

  /** Inside a leading run of one code, the k-th item starts k widths in. */
  lemma {:induction false} OffsetInRun(c: Code, cs: seq<Code>, k: nat)
    requires k < |cs| && forall j :: 0 <= j < k ==> cs[j] == c
    ensures Offset(cs, k) == k * Width(c)
  {
    if k > 0 {
      assert forall j :: 0 <= j < k - 1 ==> cs[1..][j] == cs[j + 1];
      OffsetInRun(c, cs[1..], k - 1);
    }
  }

  /** The k-th item of a leading run of one code is decoded from the k-th slot of that code's width. */
  lemma UnpackInRun(c: Code, cs: seq<Code>, b: seq<byte>, k: nat)
    requires WidthSum(cs) <= |b| && k < |cs| && forall j :: 0 <= j <= k ==> cs[j] == c
    ensures k * Width(c) + Width(c) <= |b|
    ensures UnpackFrom(cs, b, 0)[k] == DecodeAt(c, b, k * Width(c))
  {
    OffsetInRun(c, cs, k);
    UnpackAt(cs, b, 0, k);
  }

  /** The last item ends exactly where the run ends. */
  lemma {:induction false} OffsetOfLast(cs: seq<Code>)
    requires cs != []
    ensures Offset(cs, |cs| - 1) + Width(cs[|cs| - 1]) == WidthSum(cs)
  {
    if |cs| > 1 {
      OffsetOfLast(cs[1..]);
    }
  }

  /** Every unpacked value is of its code's kind, and an int is an int32. */
  lemma UnpackFits(cs: seq<Code>, b: seq<byte>, off: nat, i: nat)
    requires off + WidthSum(cs) <= |b| && i < |cs|
    ensures Packable(cs[i], UnpackFrom(cs, b, off)[i])
  {
    UnpackAt(cs, b, off, i);
  }

  /** Unpacking does not depend on the bytes before the starting offset. */
  lemma {:induction false} UnpackShift(cs: seq<Code>, p: seq<byte>, b: seq<byte>, off: nat)
    requires off + WidthSum(cs) <= |b|
    ensures UnpackFrom(cs, p + b, |p| + off) == UnpackFrom(cs, b, off)
  {
    if cs != [] {
      var w := Width(cs[0]);
      assert (p + b)[|p| + off .. |p| + off + w] == b[off .. off + w];
      UnpackShift(cs[1..], p, b, off + w);
    }
  }

  /** One packed item is decoded back into the same value. */
  lemma DecodeEncodeItem(c: Code, v: Value)
    requires Packable(c, v)
    ensures DecodeItem(c, EncodeItem(c, v)) == v
  {
    if c == IntCode {
      DecodeEncodeInt32(v.i);
    }
  }

  /** A packed run of items of a format is unpacked into the same values. */
  lemma {:induction false} UnpackPack(cs: seq<Code>, vs: seq<Value>)
    requires |vs| == |cs| && forall i :: 0 <= i < |cs| ==> Packable(cs[i], vs[i])
    ensures UnpackFrom(cs, PackCodes(cs, vs), 0) == vs
  {
    if cs != [] {
      var head, tail := EncodeItem(cs[0], vs[0]), PackCodes(cs[1..], vs[1..]);
      var w := Width(cs[0]);
      assert DecodeAt(cs[0], head + tail, 0) == vs[0] by {
        assert (head + tail)[0 .. w] == head;
        DecodeEncodeItem(cs[0], vs[0]);
      }
      assert UnpackFrom(cs[1..], head + tail, w) == vs[1..] by {
        UnpackShift(cs[1..], head, tail, 0);
        UnpackPack(cs[1..], vs[1..]);
      }
      assert vs == [vs[0]] + vs[1..];
    }
  }
}
