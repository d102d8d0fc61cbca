/**
 * `parse_substrate`: decodes the substrate (environment) record held in the
 * payload of the first block. A big-endian int32 version, a fixed prefix
 * `>1d 2i 7d 1i` whose last value is `cell_type_count`, then
 * `cell_type_count + 1` one-byte species toggles and a fixed suffix of
 * doubles, ints, floats and booleans. The values are paired in order with
 * 48 field names, as `OrderedDict(zip(names, values))` does.
 */
module Substrate {
  import opened Wrappers
  import opened Wire
  import opened StructFormat
  import opened Stream

  /** The one version the program knows; any other is only reported, never rejected. */
  const SUBSTRATE_VERSION: int := 95

  /** The names given to the decoded values, in order, six to a row; the value at index 10 is unnamed. */
  const SUBSTRATE_FIELDS: seq<Option<string>> :=
    [Some("substrate_version"), Some("substrate_age"), Some("cell_count"), Some("environment_version"), Some("nutrient_rate"), Some("nutrient_chunk_size")]
    + [Some("radiation_level"), Some("light_amount"), Some("light_direction_change"), Some("light_range"), None, Some("cell_type_count")]
    + [Some("spawn_phagocytes"), Some("spawn_flagellocytes"), Some("spawn_photocytes"), Some("spawn_devorocytes"), Some("spawn_lipocytes"), Some("spawn_keratinocytes")]
    + [Some("spawn_buoyocytes"), Some("spawn_glueocytes"), Some("spawn_virocytes"), Some("spawn_nitrocytes"), Some("spawn_stereocytes"), Some("spawn_senseocytes")]
    + [Some("spawn_myocytes"), Some("spawn_neurocytes"), Some("spawn_secrocytes"), Some("spawn_stemocytes"), Some("spawn_gametes"), Some("spawn_ciliocytes")]
    + [Some("contaminate_with_random_cells"), Some("gravity"), Some("density"), Some("density_gradient"), Some("kill_cells_at_edge"), Some("nitrates")]
    + [Some("max_cell_count"), Some("max_food_count"), Some("substrate_diameter"), Some("dynamic_friction"), Some("static_friction"), Some("only_point_mutations")]
    + [Some("salinity"), Some("cell_aging"), Some("nutrient_lumpiness"), Some("nutrient_lump_size"), Some("mobile_food"), Some("nutrient_coating")]

  /** The fixed prefix `>1d 2i 7d 1i`. */
  const PREFIX: Format := [Rep(1, DoubleCode), Rep(2, IntCode), Rep(7, DoubleCode), Rep(1, IntCode)]

  /**
   * The fixed part of the second format, after the booleans:
   * `3d 1? 1d 2i 3d 1? 1f 1? 2d 1? 1f`, from `gravity` to `nutrient_coating`.
   */
  const SUFFIX_TAIL: Format := [
    Rep(3, DoubleCode), Rep(1, BoolCode), Rep(1, DoubleCode), Rep(2, IntCode), Rep(3, DoubleCode), Rep(1, BoolCode),
    Rep(1, FloatCode), Rep(1, BoolCode), Rep(2, DoubleCode), Rep(1, BoolCode), Rep(1, FloatCode)]

  /** One key/value pair of the resulting ordered mapping. */
  datatype Entry = Entry(key: Option<string>, value: Value)

  /**
   * The second format, `>{size+1}? 3d 1? 1d 2i 3d 1? 1f 1? 2d 1? 1f`: one
   * boolean per cell type plus `contaminate_with_random_cells`, then the
   * fixed part SUFFIX_TAIL (SuffixSplit). A `size` below -1 writes a negative
   * count into the format string, which `struct` rejects.
   */
  function SuffixFormat(size: int): (r: Result<Format, Error>)
    ensures r.Success? <==> size >= -1
    ensures r.Failure? ==> r.error == BadFormat(size + 1)
  {
    if size + 1 < 0 then Failure(BadFormat(size + 1))
    else Success([
      Rep(size + 1, BoolCode), Rep(3, DoubleCode), Rep(1, BoolCode), Rep(1, DoubleCode), Rep(2, IntCode),
      Rep(3, DoubleCode), Rep(1, BoolCode), Rep(1, FloatCode), Rep(1, BoolCode), Rep(2, DoubleCode),
      Rep(1, BoolCode), Rep(1, FloatCode)])
  }

  /** `zip(names, values)`: pairs in order, as many as the shorter list has. */
  function Zip(names: seq<Option<string>>, values: seq<Value>): (es: seq<Entry>)
    ensures |es| == Min(|names|, |values|)
    ensures forall i :: 0 <= i < |es| ==> es[i] == Entry(names[i], values[i])
  {
    if names == [] || values == [] then []
    else [Entry(names[0], values[0])] + Zip(names[1..], values[1..])
  }

  /** The `cell_type_count` field: the int in bytes 76..80, the last value of the prefix. */
  function CellTypeCount(data: seq<byte>): int
    requires |data| >= 80
  {
    BeInt32(data[76..80])
  }

  /**
   * The list of values `parse_substrate` builds, laid out by absolute
   * offsets: the version in bytes 0..4, the prefix in 4..80, then the
   * booleans and the fixed part; with the number of bytes consumed.
   */
  function SubstrateParams(data: seq<byte>): Result<Decoded<seq<Value>>, Error> {
    if |data| < 4 then Failure(ShortRead(4, |data|))
    else if |data| < 80 then Failure(ShortRead(76, |data| - 4))
    else
      var n := CellTypeCount(data);
      if n < -1 then Failure(BadFormat(n + 1))
      else if |data| < 80 + (n + 1) + 92 then Failure(ShortRead((n + 1) + 92, |data| - 80))
      else
        var suffix := SuffixFormat(n).value;
        SuffixSize(n);
        PrefixSize();
        Success(Decoded([Int(BeInt32(data[..4]))] + Unpack(PREFIX, data[4..80]) + Unpack(suffix, data[80 .. 80 + (n + 1) + 92]),
                        80 + (n + 1) + 92))
  }

  /** The ordered mapping `parse_substrate` returns. */
  function SubstrateMap(data: seq<byte>): Result<seq<Entry>, Error> {
    var params :- SubstrateParams(data);
    Success(Zip(SUBSTRATE_FIELDS, params.value))
  }

  /**
   * `parse_substrate`, reading through a cursor over `data`. The version is
   * compared with SUBSTRATE_VERSION only to print a message, which is not
   * modelled: it never stops decoding.
   */
  method ParseSubstrate(data: seq<byte>) returns (r: Result<seq<Entry>, Error>, ghost consumed: nat)
    ensures r == SubstrateMap(data)
    ensures r.Success? ==> consumed == SubstrateParams(data).value.next
  {
    SubstrateOutcome(data);
    var f := new ByteReader(data);
    consumed := 0;
    var version :- f.ReadInt();
    var params := [Int(version)];
    PrefixRead(data);
    var prefix :- f.ReadStruct(PREFIX);
    params := params + prefix;
    var size := params[11].i;
    var suffix :- SuffixFormat(size);
    SuffixRead(data, size);
    var rest :- f.ReadStruct(suffix);
    params := params + rest;
    return Success(Zip(SUBSTRATE_FIELDS, params)), f.pos;
  }

  // ----- Decoding, step by step -----

  /**
   * Each way decoding can end: a short version, a short prefix, a count
   * below -1, a short second read, or every value in place.
   */
  lemma SubstrateOutcome(data: seq<byte>)
    ensures |data| < 4 ==> SubstrateParams(data) == Failure(ShortRead(4, |data|))
    ensures 4 <= |data| < 80 ==> SubstrateParams(data) == Failure(ShortRead(76, |data| - 4))
    ensures |data| >= 80 ==>
      CalcSize(PREFIX) == 76 &&
      |Unpack(PREFIX, data[4..80])| == 11 && Unpack(PREFIX, data[4..80])[10] == Int(CellTypeCount(data))
    ensures |data| >= 80 && CellTypeCount(data) < -1 ==>
      SubstrateParams(data) == Failure(BadFormat(CellTypeCount(data) + 1))
    ensures |data| >= 80 && CellTypeCount(data) >= -1 ==>
      CalcSize(SuffixFormat(CellTypeCount(data)).value) == CellTypeCount(data) + 93
    ensures |data| >= 80 && CellTypeCount(data) >= -1 && |data| < 173 + CellTypeCount(data) ==>
      SubstrateParams(data) == Failure(ShortRead(CellTypeCount(data) + 93, |data| - 80))
    ensures |data| >= 80 && CellTypeCount(data) >= -1 && |data| >= 173 + CellTypeCount(data) ==>
      SubstrateParams(data) == Success(Decoded(
        [Int(BeInt32(data[..4]))] + Unpack(PREFIX, data[4..80])
          + Unpack(SuffixFormat(CellTypeCount(data)).value, data[80 .. 173 + CellTypeCount(data)]),
        173 + CellTypeCount(data)))
  {
    PrefixSize();
    if |data| >= 80 {
      PrefixEndsWithInt(data[4..80]);
      var n := CellTypeCount(data);
      if n >= -1 {
        SuffixSize(n);
      }
    }
  }

  /** Reading the prefix after the version takes bytes 4..80, or fails on fewer. */
  lemma PrefixRead(data: seq<byte>)
    requires |data| >= 4
    ensures CalcSize(PREFIX) == 76
    ensures |data| < 80 ==> ReadStructAt(PREFIX, data, 4) == Failure(ShortRead(76, |data| - 4))
    ensures |data| >= 80 ==> ReadStructAt(PREFIX, data, 4) == Success(Decoded(Unpack(PREFIX, data[4..80]), 80))
  {
    PrefixSize();
  }

  /** Reading the second format after the prefix takes `size + 93` bytes from 80, or fails on fewer. */
  lemma SuffixRead(data: seq<byte>, size: int)
    requires |data| >= 80 && size >= -1
    ensures CalcSize(SuffixFormat(size).value) == size + 93
    ensures |data| < 173 + size ==>
      ReadStructAt(SuffixFormat(size).value, data, 80) == Failure(ShortRead(size + 93, |data| - 80))
    ensures |data| >= 173 + size ==>
      ReadStructAt(SuffixFormat(size).value, data, 80) ==
        Success(Decoded(Unpack(SuffixFormat(size).value, data[80 .. 173 + size]), 173 + size))
  {
    SuffixSize(size);
  }

  // ----- Format arithmetic -----

  lemma PrefixSize()
    ensures CalcSize(PREFIX) == 76
  {
  }

  lemma PrefixCount()
    ensures Count(PREFIX) == 11
  {
  }

  lemma PrefixLastCode()
    ensures |Codes(PREFIX)| == 11 && Codes(PREFIX)[10] == IntCode
  {
    assert PREFIX == PREFIX[..3] + [Rep(1, IntCode)];
    FormatAppend(PREFIX[..3], [Rep(1, IntCode)]);
    assert Codes([Rep(1, IntCode)]) == [IntCode];
    PrefixCount();
  }

  lemma TailSize()
    ensures CalcSize(SUFFIX_TAIL) == 92
  {
  }

  lemma TailCount()
    ensures Count(SUFFIX_TAIL) == 17
  {
  }

  /** The second format is the run of booleans followed by the fixed part. */
  lemma SuffixSplit(size: int)
    requires size >= -1
    ensures SuffixFormat(size).value == [Rep(size + 1, BoolCode)] + SUFFIX_TAIL
  {
  }

  /** The second format spans one byte per boolean plus 92 bytes. */
  lemma SuffixSize(size: int)
    requires size >= -1
    ensures CalcSize(SuffixFormat(size).value) == (size + 1) + 92
  {
    SuffixSplit(size);
    FormatAppend([Rep(size + 1, BoolCode)], SUFFIX_TAIL);
    TailSize();
  }

  /** The second format yields one value per boolean plus 17. */
  lemma SuffixCount(size: int)
    requires size >= -1
    ensures Count(SuffixFormat(size).value) == (size + 1) + 17
  {
    SuffixSplit(size);
    FormatAppend([Rep(size + 1, BoolCode)], SUFFIX_TAIL);
    TailCount();
  }

  /** The second format starts with one boolean code per boolean. */
  lemma SuffixCodes(size: int)
    requires size >= -1
    ensures |Codes(SuffixFormat(size).value)| == (size + 1) + 17
    ensures forall j :: 0 <= j <= size ==> Codes(SuffixFormat(size).value)[j] == BoolCode
  {
    SuffixSplit(size);
    FormatAppend([Rep(size + 1, BoolCode)], SUFFIX_TAIL);
    assert Codes([Rep(size + 1, BoolCode)]) == seq(size + 1, _ => BoolCode) + [];
    SuffixCount(size);
  }

  /** The last value of the prefix is an int: the one in its last four bytes. */
  lemma PrefixEndsWithInt(b: seq<byte>)
    requires |b| == CalcSize(PREFIX)
    ensures |Unpack(PREFIX, b)| == 11
    ensures Unpack(PREFIX, b)[10] == Int(BeInt32(b[72..76]))
  {
    PrefixSize();
    PrefixLastCode();
    var cs := Codes(PREFIX);
    CodesMeasure(PREFIX);
    UnpackAt(cs, b, 0, 10);
    OffsetOfLast(cs);
  }

  /** The k-th value of the second read is the boolean "byte k is not zero", for each of the `size + 1` booleans. */
  lemma BooleanAt(size: int, b: seq<byte>, k: nat)
    requires size >= -1 && |b| == CalcSize(SuffixFormat(size).value) && k <= size
    ensures |Unpack(SuffixFormat(size).value, b)| == size + 18
    ensures Unpack(SuffixFormat(size).value, b)[k] == Flag(b[k] != 0)
  {
    var fmt := SuffixFormat(size).value;
    SuffixCodes(size);
    CodesMeasure(fmt);
    UnpackInRun(BoolCode, Codes(fmt), b, k);
  }

  // ----- What a decoded record holds -----

  /** The names the lemmas below refer to, by position. */
  lemma FieldNames()
    ensures |SUBSTRATE_FIELDS| == 48
    ensures SUBSTRATE_FIELDS[0] == Some("substrate_version")
    ensures SUBSTRATE_FIELDS[11] == Some("cell_type_count")
    ensures SUBSTRATE_FIELDS[12] == Some("spawn_phagocytes")
    ensures SUBSTRATE_FIELDS[30] == Some("contaminate_with_random_cells")
  {
  }

  /**
   * A successful decode consumes 4 + 76 + (cell_type_count + 1) + 92 bytes
   * and yields cell_type_count + 30 values: the version as read, the count
   * as the twelfth value, then one boolean per following byte.
   */
  lemma SubstrateLayout(data: seq<byte>)
    requires SubstrateParams(data).Success?
    ensures |data| >= 80 && CellTypeCount(data) >= -1
    ensures var n, d := CellTypeCount(data), SubstrateParams(data).value;
      && d.next == 4 + 76 + (n + 1) + 92 <= |data|
      && |d.value| == n + 30
      && d.value[0] == Int(BeInt32(data[..4]))
      && d.value[11] == Int(n)
      && forall i :: 12 <= i <= n + 12 ==> d.value[i] == Flag(data[68 + i] != 0)
  {
    SubstrateSuccess(data);
    var n, d := CellTypeCount(data), SubstrateParams(data).value;
    var b := data[80 .. 173 + n];
    var p, q := Unpack(PREFIX, data[4..80]), Unpack(SuffixFormat(n).value, b);
    PrefixEndsWithInt(data[4..80]);
    SuffixCount(n);
    forall i | 12 <= i <= n + 12
      ensures d.value[i] == Flag(data[68 + i] != 0)
    {
      BooleanAt(n, b, i - 12);
      assert d.value[i] == q[i - 12];
    }
  }

  /** Decoding succeeds exactly when the prefix is whole, the count is at least -1 and the second read is whole. */
  lemma SubstrateSucceedsWhen(data: seq<byte>)
    ensures SubstrateParams(data).Success? <==>
      |data| >= 80 && CellTypeCount(data) >= -1 && |data| >= 173 + CellTypeCount(data)
  {
    SubstrateOutcome(data);
  }

  /** A successful decode is the version, the prefix's values and the second read's values. */
  lemma SubstrateSuccess(data: seq<byte>)
    requires SubstrateParams(data).Success?
    ensures |data| >= 80 && CellTypeCount(data) >= -1 && |data| >= 173 + CellTypeCount(data)
    ensures CalcSize(PREFIX) == 76 && CalcSize(SuffixFormat(CellTypeCount(data)).value) == CellTypeCount(data) + 93
    ensures SubstrateParams(data) == Success(Decoded(
        [Int(BeInt32(data[..4]))] + Unpack(PREFIX, data[4..80])
          + Unpack(SuffixFormat(CellTypeCount(data)).value, data[80 .. 173 + CellTypeCount(data)]),
        173 + CellTypeCount(data)))
  {
    SubstrateOutcome(data);
  }

  /**
   * The mapping pairs the names with the values in order and stops at the
   * shorter list: min(48, cell_type_count + 30) entries, the first holding
   * the version and the twelfth `cell_type_count`.
   */
  lemma SubstrateEntries(data: seq<byte>)
    requires SubstrateMap(data).Success?
    ensures SubstrateParams(data).Success? && |data| >= 80
    ensures var es, vs := SubstrateMap(data).value, SubstrateParams(data).value.value;
      && |es| == Min(|SUBSTRATE_FIELDS|, CellTypeCount(data) + 30)
      && (forall i :: 0 <= i < |es| ==> es[i] == Entry(SUBSTRATE_FIELDS[i], vs[i]))
      && es[0] == Entry(Some("substrate_version"), Int(BeInt32(data[..4])))
      && es[11] == Entry(Some("cell_type_count"), Int(CellTypeCount(data)))
  {
    SubstrateLayout(data);
    FieldNames();
    var vs := SubstrateParams(data).value.value;
    assert SubstrateMap(data).value == Zip(SUBSTRATE_FIELDS, vs);
  }

  /**
   * With 18 cell types a record of at least 4 + 76 + 19 + 92 = 191 bytes
   * decodes, and every one of the 48 names gets exactly one value:
   * `cell_type_count` maps to 18, and the names from `spawn_phagocytes` to
   * `contaminate_with_random_cells` map to the 19 booleans it sized.
   */
  lemma EighteenCellTypes(data: seq<byte>)
    requires |data| >= 191 && CellTypeCount(data) == 18
    ensures SubstrateMap(data).Success?
    ensures var es := SubstrateMap(data).value;
      && |es| == |SUBSTRATE_FIELDS| == 48
      && (forall i :: 0 <= i < 48 ==> es[i].key == SUBSTRATE_FIELDS[i])
      && es[11] == Entry(Some("cell_type_count"), Int(18))
      && es[12].key == Some("spawn_phagocytes")
      && es[30].key == Some("contaminate_with_random_cells")
      && (forall i :: 12 <= i <= 30 ==> es[i].value == Flag(data[68 + i] != 0))
  {
    SubstrateSucceedsWhen(data);
    SubstrateLayout(data);
    SubstrateEntries(data);
    FieldNames();
    var es, vs := SubstrateMap(data).value, SubstrateParams(data).value.value;
    forall i | 12 <= i <= 30
      ensures es[i].value == Flag(data[68 + i] != 0)
    {
      assert es[i] == Entry(SUBSTRATE_FIELDS[i], vs[i]);
    }
  }

  /**
   * Decoding reads the version and nothing else from the first four bytes:
   * two inputs that agree after them either both fail or both succeed with
   * the same values after the version.
   */
  lemma OnlyVersionFromHead(data: seq<byte>, other: seq<byte>)
    requires |data| >= 4 && |other| == |data| && other[4..] == data[4..]
    ensures SubstrateParams(other).Success? <==> SubstrateParams(data).Success?
    ensures SubstrateParams(data).Success? ==>
      SubstrateParams(other).value.value == [Int(BeInt32(other[..4]))] + SubstrateParams(data).value.value[1..]
  {
    SubstrateSucceedsWhen(data);
    SubstrateSucceedsWhen(other);
    if |data| >= 80 {
      assert other[76..80] == data[76..80];
    }
    if SubstrateParams(data).Success? {
      SameValuesAfterHead(data, other);
    }
  }

  /** Two successful decodes of inputs that agree after byte 4 differ at most in the version. */
  lemma SameValuesAfterHead(data: seq<byte>, other: seq<byte>)
    requires |data| >= 4 && |other| == |data| && other[4..] == data[4..]
    requires SubstrateParams(data).Success? && SubstrateParams(other).Success?
    ensures SubstrateParams(other).value.value == [Int(BeInt32(other[..4]))] + SubstrateParams(data).value.value[1..]
  {
    SubstrateSuccess(data);
    SubstrateSuccess(other);
    var n := CellTypeCount(data);
    SameSlice(data, other, 76, 80);
    assert CellTypeCount(other) == n;
    SameSlice(data, other, 4, 80);
    SameSlice(data, other, 80, 173 + n);
    var p, q := Unpack(PREFIX, data[4..80]), Unpack(SuffixFormat(n).value, data[80 .. 173 + n]);
    assert SubstrateParams(other).value.value == [Int(BeInt32(other[..4]))] + p + q;
    assert SubstrateParams(data).value.value[1..] == p + q;
  }

  /** Inputs that agree from byte 4 on agree on every slice that starts there or later. */
  lemma SameSlice(data: seq<byte>, other: seq<byte>, i: nat, j: nat)
    requires |data| >= 4 && |other| == |data| && other[4..] == data[4..]
    requires 4 <= i <= j <= |data|
    ensures other[i..j] == data[i..j]
  {
    assert forall k :: i <= k < j ==> other[k] == other[4..][k - 4] == data[4..][k - 4] == data[k];
  }

  /** The same input with its version field replaced by `v`. */
  function WithVersion(data: seq<byte>, v: int): (other: seq<byte>)
    requires |data| >= 4 && INT32_MIN <= v <= INT32_MAX
    ensures |other| == |data| && other[4..] == data[4..] && BeInt32(other[..4]) == v
  {
    DecodeEncodeInt32(v);
    EncodeInt32(v) + data[4..]
  }

  /**
   * The version is only reported: replacing it with any other int32 neither
   * changes whether decoding succeeds nor any entry but the first, which
   * holds the new version.
   */
  lemma VersionOnlyReported(data: seq<byte>, v: int)
    requires |data| >= 4 && INT32_MIN <= v <= INT32_MAX
    ensures SubstrateMap(WithVersion(data, v)).Success? <==> SubstrateMap(data).Success?
    ensures SubstrateMap(data).Success? ==>
      |SubstrateMap(WithVersion(data, v)).value| == |SubstrateMap(data).value| > 0
    ensures SubstrateMap(data).Success? ==>
      && SubstrateMap(WithVersion(data, v)).value[0] == Entry(Some("substrate_version"), Int(v))
      && SubstrateMap(WithVersion(data, v)).value[1..] == SubstrateMap(data).value[1..]
  {
    var other := WithVersion(data, v);
    OnlyVersionFromHead(data, other);
    if SubstrateMap(data).Success? {
      SubstrateEntries(data);
      SubstrateEntries(other);
      var es, fs := SubstrateMap(data).value, SubstrateMap(other).value;
      assert fs[1..] == es[1..];
    }
  }

  /**
   * A file whose version is not the supported one decodes as the same file
   * with the supported version would, apart from the version entry itself.
   */
  lemma UnsupportedVersionIsKept(data: seq<byte>)
    requires |data| >= 4 && BeInt32(data[..4]) != SUBSTRATE_VERSION
    ensures SubstrateMap(data).Success? <==> SubstrateMap(WithVersion(data, SUBSTRATE_VERSION)).Success?
    ensures SubstrateMap(data).Success? ==>
      && |SubstrateMap(data).value| > 0
      && SubstrateMap(data).value[0] == Entry(Some("substrate_version"), Int(BeInt32(data[..4])))
      && SubstrateMap(data).value[1..] == SubstrateMap(WithVersion(data, SUBSTRATE_VERSION)).value[1..]
  {
    VersionOnlyReported(data, SUBSTRATE_VERSION);
    if SubstrateMap(data).Success? {
      SubstrateEntries(data);
    }
  }
}
