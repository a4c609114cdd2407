/**
 * The binary Criteo dataset: a file of fixed-size entries, each holding
 * batch_size records of 40 little-endian int32 features (one label, 13
 * dense features, 26 categorical ids), and the feature transform that
 * reduces categorical ids modulo the embedding-table size and reshapes the
 * labels into a column.
 *
 * The file is modelled by its contents, a sequence of bytes, and the open
 * file object by a cursor position that __getitem__ moves.
 */
module Criteo {
  import opened Results
  import Dense

  const TargetFeatures: nat := 1
  const DenseFeatures: nat := 13
  const SparseFeatures: nat := 26
  const LabelAndDense: nat := TargetFeatures + DenseFeatures
  const TotalFeatures: nat := LabelAndDense + SparseFeatures

  /** The bytes of an int32 feature as frombuffer reads them. */
  const Int32Bytes: nat := 4

  newtype byte = x: int | 0 <= x < 256

  // ---------------------------------------------------------------------
  // Feature transform

  /**
   * torch's % with a positive divisor: the remainder takes the sign of the
   * divisor, which for a positive divisor is Dafny's Euclidean remainder.
   */
  function Remainder(a: int, m: int): (r: int)
    requires m > 0
    ensures 0 <= r < m
    ensures (a - r) % m == 0
    ensures 0 <= a < m ==> r == a
  {
    assert a - a % m == a / m * m;
    Dense.DivModOf(a / m, m, 0);
    a % m
  }

  /** The transformed batch: dense features, categorical ids and the label column. */
  datatype Features = Features(dense: seq<seq<int>>, categorical: seq<seq<int>>, labels: seq<seq<int>>)

  function ReduceIds(ids: seq<seq<int>>, maxIndRange: int): (r: seq<seq<int>>)
    requires maxIndRange > 0
    ensures |r| == |ids|
    ensures forall i :: 0 <= i < |ids| ==>
      |r[i]| == |ids[i]| && forall j :: 0 <= j < |ids[i]| ==> r[i][j] == Remainder(ids[i][j], maxIndRange)
  {
    seq(|ids|, i requires 0 <= i < |ids| =>
      seq(|ids[i]|, j requires 0 <= j < |ids[i]| => Remainder(ids[i][j], maxIndRange)))
  }

  /** view(-1, 1): each label on a row of its own. */
  function LabelColumn(y: seq<int>): (c: seq<seq<int>>)
    ensures |c| == |y| && forall i :: 0 <= i < |y| ==> c[i] == [y[i]]
  {
    seq(|y|, i requires 0 <= i < |y| => [y[i]])
  }

  /**
   * _transform_features: categorical ids are taken modulo max_ind_range
   * when it is positive and left alone otherwise; labels become an (n, 1)
   * column. The dense features are returned as given (their log transform
   * is floating point).
   */
  function TransformFeatures(xInt: seq<seq<int>>, xCat: seq<seq<int>>, y: seq<int>, maxIndRange: int): (f: Features)
    ensures f.dense == xInt && |f.categorical| == |xCat|
    ensures f.labels == LabelColumn(y)
  {
    Features(xInt, if maxIndRange > 0 then ReduceIds(xCat, maxIndRange) else xCat, LabelColumn(y))
  }

  /**
   * With a positive range every categorical id lands in [0, max_ind_range)
   * and differs from the original id by a multiple of it; otherwise the ids
   * pass through unchanged. The shape is kept either way.
   */
  lemma TransformedIds(xInt: seq<seq<int>>, xCat: seq<seq<int>>, y: seq<int>, maxIndRange: int)
    ensures var c := TransformFeatures(xInt, xCat, y, maxIndRange).categorical;
      && |c| == |xCat|
      && (forall i :: 0 <= i < |xCat| ==> |c[i]| == |xCat[i]|)
      && (maxIndRange <= 0 ==> c == xCat)
      && (maxIndRange > 0 ==> forall i, j :: 0 <= i < |xCat| && 0 <= j < |xCat[i]| ==>
            0 <= c[i][j] < maxIndRange && (xCat[i][j] - c[i][j]) % maxIndRange == 0)
  {
  }

  /** Transforming already transformed ids changes nothing. */
  lemma {:induction false} TransformIdempotent(xInt: seq<seq<int>>, xCat: seq<seq<int>>, y: seq<int>, maxIndRange: int)
    ensures var c := TransformFeatures(xInt, xCat, y, maxIndRange).categorical;
      TransformFeatures(xInt, c, y, maxIndRange).categorical == c
  {
    if maxIndRange > 0 {
      var c := ReduceIds(xCat, maxIndRange);
      var c2 := ReduceIds(c, maxIndRange);
      forall i | 0 <= i < |c|
        ensures c2[i] == c[i]
      {
        assert forall j :: 0 <= j < |c[i]| ==> c2[i][j] == Remainder(c[i][j], maxIndRange) == c[i][j];
      }
    }
  }

  /** The labels come back as a column of the same length, in order. */
  lemma LabelColumnKeepsOrder(y: seq<int>)
    ensures |LabelColumn(y)| == |y|
    ensures forall i :: 0 <= i < |y| ==> |LabelColumn(y)[i]| == 1 && LabelColumn(y)[i][0] == y[i]
  {
  }

  // ---------------------------------------------------------------------
  // Records

  /** A little-endian int32 in two's complement. */
  function Int32At(bytes: seq<byte>, k: nat): (v: int)
    requires 4 * k + 4 <= |bytes|
    ensures -0x8000_0000 <= v < 0x8000_0000
  {
    var u := bytes[4 * k] as int + 0x100 * bytes[4 * k + 1] as int
      + 0x1_0000 * bytes[4 * k + 2] as int + 0x100_0000 * bytes[4 * k + 3] as int;
    if u >= 0x8000_0000 then u - 0x1_0000_0000 else u
  }

  /** The four little-endian bytes of an int32. */
  function Int32Bytes4(v: int): (b: seq<byte>)
    requires -0x8000_0000 <= v < 0x8000_0000
    ensures |b| == 4
  {
    var u0 := if v < 0 then v + 0x1_0000_0000 else v;
    var u1 := u0 / 0x100;
    var u2 := u1 / 0x100;
    [(u0 % 0x100) as byte, (u1 % 0x100) as byte, (u2 % 0x100) as byte, (u2 / 0x100) as byte]
  }

  /** Decoding the encoding of an int32 gives it back. */
  lemma Int32RoundTrip(v: int)
    requires -0x8000_0000 <= v < 0x8000_0000
    ensures Int32At(Int32Bytes4(v), 0) == v
  {
    var u0 := if v < 0 then v + 0x1_0000_0000 else v;
    var u1 := u0 / 0x100;
    var u2 := u1 / 0x100;
    var b := Int32Bytes4(v);
    assert u0 == 0x100 * u1 + b[0] as int;
    assert u1 == 0x100 * u2 + b[1] as int;
    assert u2 == 0x100 * (b[3] as int) + b[2] as int;
    assert b[0] as int + 0x100 * b[1] as int + 0x1_0000 * b[2] as int + 0x100_0000 * b[3] as int == u0;
  }

  datatype ReadError =
    | NegativeSeek(offset: int)          // seek to a negative position
    | PartialFeature(bytes: nat)         // frombuffer of a length that is not a multiple of 4
    | PartialRecord(features: nat)       // view(-1, 40) of a count that is not a multiple of 40

  /** frombuffer(dtype=int32): the buffer read as consecutive int32 values. */
  function DecodeInt32s(bytes: seq<byte>): (r: Result<seq<int>, ReadError>)
    ensures r.Ok? <==> |bytes| % Int32Bytes == 0
    ensures r.Ok? ==> (|r.value| * 4 == |bytes|
      && forall k :: 0 <= k < |r.value| ==> 4 * k + 4 <= |bytes| && r.value[k] == Int32At(bytes, k))
  {
    if |bytes| % Int32Bytes != 0 then Err(PartialFeature(|bytes|))
    else Ok(seq(|bytes| / 4, k requires 0 <= k < |bytes| / 4 => Int32At(bytes, k)))
  }

  /** view(-1, 40): consecutive runs of 40 features. */
  function Records(ints: seq<int>): (r: Result<seq<seq<int>>, ReadError>)
    ensures r.Ok? <==> |ints| % TotalFeatures == 0
    ensures r.Ok? ==> |r.value| * TotalFeatures == |ints|
    ensures r.Ok? ==> forall i :: 0 <= i < |r.value| ==> |r.value[i]| == TotalFeatures
  {
    if |ints| % TotalFeatures != 0 then Err(PartialRecord(|ints|))
    else
      var n := |ints| / TotalFeatures;
      Ok(seq(n, i requires 0 <= i < n =>
        Dense.InBlocks(n, TotalFeatures, i, TotalFeatures - 1);
        ints[i * TotalFeatures..i * TotalFeatures + TotalFeatures]))
  }

  lemma RecordAt(ints: seq<int>, i: nat, c: nat)
    requires Records(ints).Ok? && i < |Records(ints).value| && c < TotalFeatures
    ensures |Records(ints).value[i]| == TotalFeatures
    ensures i * TotalFeatures + c < |ints| && Records(ints).value[i][c] == ints[i * TotalFeatures + c]
  {
    Dense.InBlocks(|Records(ints).value|, TotalFeatures, i, c);
    Dense.InBlocks(|Records(ints).value|, TotalFeatures, i, TotalFeatures - 1);
  }

  /** tensor[:, 1:14], tensor[:, 14:] and tensor[:, 0], then the transform. */
  function SplitColumns(rows: seq<seq<int>>, maxIndRange: int): (f: Features)
    requires forall i :: 0 <= i < |rows| ==> |rows[i]| == TotalFeatures
    ensures |f.dense| == |f.categorical| == |f.labels| == |rows|
  {
    TransformFeatures(
      seq(|rows|, i requires 0 <= i < |rows| => rows[i][TargetFeatures..LabelAndDense]),
      seq(|rows|, i requires 0 <= i < |rows| => rows[i][LabelAndDense..]),
      seq(|rows|, i requires 0 <= i < |rows| => rows[i][0]),
      maxIndRange)
  }

  /** The raw bytes of an entry decoded and split into its columns. */
  function DecodeEntry(raw: seq<byte>, maxIndRange: int): (r: Result<Features, ReadError>)
    ensures r.Ok? ==> |r.value.labels| * Int32Bytes * TotalFeatures == |raw|
  {
    match DecodeInt32s(raw)
    case Err(e) => Err(e)
    case Ok(ints) =>
      match Records(ints)
      case Err(e) => Err(e)
      case Ok(rows) => Ok(SplitColumns(rows, maxIndRange))
  }

  /** An entry decodes exactly when its length is a whole number of 160-byte records. */
  lemma DecodeEntryDefined(raw: seq<byte>, maxIndRange: int)
    ensures DecodeEntry(raw, maxIndRange).Ok? <==> |raw| % (Int32Bytes * TotalFeatures) == 0
  {
    var n := |raw|;
    if n % 4 == 0 && (n / 4) % 40 == 0 {
      Dense.DivModOf(n / 4 / 40, 160, 0);
      assert n == n / 4 / 40 * 160;
    }
    if n % 160 == 0 {
      var q := n / 160;
      assert n == q * 40 * 4;
      Dense.DivModOf(q * 40, 4, 0);
      Dense.DivModOf(q, 40, 0);
    }
  }

  /** A categorical id as the transform leaves it. */
  function CategoricalId(x: int, maxIndRange: int): int {
    if maxIndRange > 0 then Remainder(x, maxIndRange) else x
  }

  /**
   * Record r of a decoded entry: its label is int32 number 40*r of the
   * buffer, its dense features the 13 after it and its categorical ids the
   * 26 after those, reduced by the transform.
   */
  lemma DecodeEntryAt(raw: seq<byte>, maxIndRange: int, r: nat)
    requires DecodeEntry(raw, maxIndRange).Ok? && r < |DecodeEntry(raw, maxIndRange).value.labels|
    ensures var f := DecodeEntry(raw, maxIndRange).value;
      && 4 * (r * TotalFeatures + TotalFeatures) <= |raw|
      && f.labels[r] == [Int32At(raw, r * TotalFeatures)]
      && |f.dense[r]| == DenseFeatures && |f.categorical[r]| == SparseFeatures
      && (forall c :: 0 <= c < DenseFeatures ==>
            f.dense[r][c] == Int32At(raw, r * TotalFeatures + TargetFeatures + c))
      && (forall c :: 0 <= c < SparseFeatures ==>
            f.categorical[r][c] == CategoricalId(Int32At(raw, r * TotalFeatures + LabelAndDense + c), maxIndRange))
  {
    var ints := DecodeInt32s(raw).value;
    var rows := Records(ints).value;
    var f := DecodeEntry(raw, maxIndRange).value;
    assert f == SplitColumns(rows, maxIndRange);
    Dense.InBlocks(|rows|, TotalFeatures, r, TotalFeatures - 1);
    RecordAt(ints, r, 0);
    forall c | 0 <= c < DenseFeatures
      ensures f.dense[r][c] == Int32At(raw, r * TotalFeatures + TargetFeatures + c)
    {
      RecordAt(ints, r, TargetFeatures + c);
    }
    forall c | 0 <= c < SparseFeatures
      ensures f.categorical[r][c] == CategoricalId(Int32At(raw, r * TotalFeatures + LabelAndDense + c), maxIndRange)
    {
      RecordAt(ints, r, LabelAndDense + c);
    }
  }

  /** A buffer of 40 * p bytes decodes exactly when p is a multiple of 4, into p / 4 records. */
  lemma DecodedCount(raw: seq<byte>, maxIndRange: int, p: nat)
    requires |raw| == TotalFeatures * p
    ensures DecodeEntry(raw, maxIndRange).Ok? <==> p % Int32Bytes == 0
    ensures DecodeEntry(raw, maxIndRange).Ok? ==> |DecodeEntry(raw, maxIndRange).value.labels| * Int32Bytes == p
  {
    DecodeEntryDefined(raw, maxIndRange);
    WholeRecords(p);
  }

  /** 40 * p int32 values fill whole 160-byte records exactly when p is a multiple of 4. */
  lemma WholeRecords(p: nat)
    ensures (TotalFeatures * p) % (Int32Bytes * TotalFeatures) == 0 <==> p % Int32Bytes == 0
  {
    var q, a := p / Int32Bytes, p % Int32Bytes;
    assert TotalFeatures * p == q * (Int32Bytes * TotalFeatures) + a * TotalFeatures;
    Dense.DivModOf(q, Int32Bytes * TotalFeatures, a * TotalFeatures);
  }

  /** file.read(n) at a position: what of [pos, pos+n) lies inside the file. */
  function ReadBytes(file: seq<byte>, pos: nat, n: nat): (r: seq<byte>)
    ensures pos + n <= |file| ==> r == file[pos..pos + n]
    ensures |r| <= n
  {
    if pos >= |file| then [] else if pos + n <= |file| then file[pos..pos + n] else file[pos..]
  }

  /** The dataset: the file's contents, the entry layout, and the open file's cursor. */
  class CriteoBinDataset {
    const batchSize: int
    const maxIndRange: int
    const bytesPerFeature: int
    const bytesPerEntry: nat
    const numEntries: nat
    const file: seq<byte>
    var position: nat

    /** The fields the constructor sets, and the positive entry size they need. */
    predicate Valid() {
      && bytesPerEntry == bytesPerFeature * TotalFeatures * batchSize > 0
      && numEntries == |file| / bytesPerEntry
    }

    constructor(data: seq<byte>, batchSize: int, maxIndRange: int, bytesPerFeature: int)
      requires bytesPerFeature * TotalFeatures * batchSize > 0
      ensures Valid() && file == data && position == 0
      ensures this.batchSize == batchSize && this.maxIndRange == maxIndRange && this.bytesPerFeature == bytesPerFeature
    {
      this.batchSize := batchSize;
      this.maxIndRange := maxIndRange;
      this.bytesPerFeature := bytesPerFeature;
      var entry := bytesPerFeature * TotalFeatures * batchSize;
      bytesPerEntry := entry;
      numEntries := |data| / entry;
      file := data;
      position := 0;
    }

    /** __len__: the number of whole entries in the file. */
    function Length(): (n: nat)
      requires Valid()
      ensures n * bytesPerEntry <= |file| < (n + 1) * bytesPerEntry
    {
      Dense.DivModOf(numEntries, bytesPerEntry, |file| % bytesPerEntry);
      numEntries
    }

    /** The bytes __getitem__(idx) reads: [idx * bytes_per_entry, (idx+1) * bytes_per_entry) within the file. */
    function Entry(idx: nat): seq<byte> {
      ReadBytes(file, idx * bytesPerEntry, bytesPerEntry)
    }

    /** Every entry below __len__ lies wholly inside the file and is read in full. */
    lemma EntryInFile(idx: nat)
      requires Valid() && idx < Length()
      ensures (idx + 1) * bytesPerEntry <= |file|
      ensures Entry(idx) == file[idx * bytesPerEntry..(idx + 1) * bytesPerEntry]
      ensures |Entry(idx)| == bytesPerEntry
    {
      Dense.MulMono(idx + 1, numEntries, bytesPerEntry);
    }

    /** Distinct entries occupy disjoint byte ranges, in index order. */
    lemma EntriesDisjoint(i: nat, j: nat)
      requires Valid() && i < j
      ensures (i + 1) * bytesPerEntry <= j * bytesPerEntry
    {
      Dense.MulMono(i + 1, j, bytesPerEntry);
    }

    /**
     * At __len__ the read is short: it holds the bytes left over after the
     * whole entries. Beyond it nothing is read, and the empty buffer decodes
     * to an empty batch.
     */
    lemma EntryPastEnd(idx: nat)
      requires Valid() && idx >= Length()
      ensures |Entry(idx)| < bytesPerEntry
      ensures idx == numEntries ==> Entry(idx) == file[numEntries * bytesPerEntry..]
      ensures idx > numEntries ==>
        Entry(idx) == [] && DecodeEntry(Entry(idx), maxIndRange) == Ok(Features([], [], []))
    {
      var n := Length();
      if idx > numEntries {
        Dense.MulMono(numEntries + 1, idx, bytesPerEntry);
        var f := DecodeEntry([], maxIndRange).value;
        assert |f.labels| == 0;
      }
    }

    /**
     * An entry inside the file decodes exactly when bytes_per_feature *
     * batch_size is a multiple of 4, and then holds that many bytes' worth
     * of int32 records: batch_size records when bytes_per_feature is 4.
     */
    lemma EntryRecordCount(idx: nat)
      requires Valid() && idx < Length()
      ensures DecodeEntry(Entry(idx), maxIndRange).Ok? <==> (bytesPerFeature * batchSize) % Int32Bytes == 0
      ensures DecodeEntry(Entry(idx), maxIndRange).Ok? ==>
        |DecodeEntry(Entry(idx), maxIndRange).value.labels| * Int32Bytes == bytesPerFeature * batchSize
      ensures bytesPerFeature == Int32Bytes ==>
        DecodeEntry(Entry(idx), maxIndRange).Ok? && |DecodeEntry(Entry(idx), maxIndRange).value.labels| == batchSize
    {
      EntryInFile(idx);
      var p := bytesPerFeature * batchSize;
      assert bytesPerEntry == TotalFeatures * p;
      DecodedCount(Entry(idx), maxIndRange, p);
      if bytesPerFeature == Int32Bytes {
        assert p == Int32Bytes * batchSize;
        Dense.DivModOf(batchSize, Int32Bytes, 0);
      }
    }

    /** __getitem__: seek to the entry, read it, decode and transform it. */
    method GetItem(idx: int) returns (r: Result<Features, ReadError>)
      requires Valid()
      modifies this
      ensures idx < 0 ==> r == Err(NegativeSeek(idx * bytesPerEntry)) && position == old(position)
      ensures idx >= 0 ==> (r == DecodeEntry(Entry(idx), maxIndRange)
        && position == idx * bytesPerEntry + |Entry(idx)|)
    {
      if idx < 0 {
        return Err(NegativeSeek(idx * bytesPerEntry));
      }
      position := idx * bytesPerEntry;
      var raw := ReadBytes(file, position, bytesPerEntry);
      position := position + |raw|;
      r := DecodeEntry(raw, maxIndRange);
    }
  }
}
