/**
 * The character-level language-model data pipeline: a vocabulary mapping
 * characters to ids and back, a dataset holding the encoded text, and the
 * deterministic sliding-window batcher that groups (x, y, mask) windows into
 * batches of a fixed size.
 */
module CharData {
  import opened Results
  import Dense

  // ---------------------------------------------------------------------
  // Vocabulary

  /** A vocabulary: the id of a character is its position. */
  datatype Vocab = Vocab(chars: seq<char>)

  datatype VocabError =
    | KeyError(ch: char)     // a character of the text is not in the vocabulary
    | IndexError(id: int)    // an id outside -len(vocab) .. len(vocab)-1

  /**
   * char_to_idx, built by a dict comprehension over the enumerated
   * vocabulary: every vocabulary character is a key, and when a character
   * occurs twice the later position overwrites the earlier one.
   */
  function CharToIdx(chars: seq<char>): (r: map<char, nat>)
    ensures forall c :: c in r <==> c in chars
    ensures forall c :: c in r ==>
      r[c] < |chars| && chars[r[c]] == c && forall j :: r[c] < j < |chars| ==> chars[j] != c
  {
    if chars == [] then map[]
    else CharToIdx(chars[..|chars| - 1])[chars[|chars| - 1] := |chars| - 1]
  }

  /** __len__ of the vocabulary. */
  function VocabLen(v: Vocab): (n: nat)
    ensures n == |v.chars|
  {
    |v.chars|
  }

  /** Looks each character up in a char-to-id map; the first one missing raises. */
  function Encode(idx: map<char, nat>, text: string): (r: Result<seq<int>, VocabError>)
    ensures r.Ok? <==> forall i :: 0 <= i < |text| ==> text[i] in idx
    ensures r.Ok? ==> |r.value| == |text| && forall i :: 0 <= i < |text| ==> r.value[i] == idx[text[i]]
    ensures r.Err? ==> r.error.KeyError? && r.error.ch in text && r.error.ch !in idx
    ensures r.Err? ==> exists j :: 0 <= j < |text| && text[j] == r.error.ch && forall i :: 0 <= i < j ==> text[i] in idx
  {
    if text == [] then Ok([])
    else if text[0] !in idx then Err(KeyError(text[0]))
    else match Encode(idx, text[1..])
      case Ok(rest) => Ok([idx[text[0]] as int] + rest)
      case Err(e) => Err(e)
  }

  /** str_to_ids: each character looked up in char_to_idx; an unknown one raises. */
  function StrToIds(v: Vocab, text: string): (r: Result<seq<int>, VocabError>)
    ensures r.Ok? <==> forall i :: 0 <= i < |text| ==> text[i] in v.chars
    ensures r.Ok? ==> |r.value| == |text|
    ensures r.Ok? ==> forall i :: 0 <= i < |text| ==>
      0 <= r.value[i] < |v.chars| && v.chars[r.value[i]] == text[i]
    ensures r.Err? ==> r.error.KeyError? && r.error.ch in text && r.error.ch !in v.chars
  {
    Encode(CharToIdx(v.chars), text)
  }

  /** Python's reading of an index into a sequence of length n: a negative one counts from the end. */
  function Normalize(i: int, n: nat): int {
    if i < 0 then i + n else i
  }

  predicate InPythonRange(i: int, n: nat) {
    -(n as int) <= i < n
  }

  /** ids_to_str: each id indexes the vocabulary; the first id out of range raises. */
  function IdsToStr(v: Vocab, ids: seq<int>): (r: Result<string, VocabError>)
    ensures r.Ok? <==> forall i :: 0 <= i < |ids| ==> InPythonRange(ids[i], |v.chars|)
    ensures r.Ok? ==> |r.value| == |ids|
    ensures r.Ok? ==> forall i :: 0 <= i < |ids| ==>
      0 <= Normalize(ids[i], |v.chars|) < |v.chars| && r.value[i] == v.chars[Normalize(ids[i], |v.chars|)]
    ensures r.Err? ==> r.error.IndexError? && r.error.id in ids && !InPythonRange(r.error.id, |v.chars|)
  {
    if ids == [] then Ok([])
    else if !InPythonRange(ids[0], |v.chars|) then Err(IndexError(ids[0]))
    else match IdsToStr(v, ids[1..])
      case Ok(rest) => Ok([v.chars[Normalize(ids[0], |v.chars|)]] + rest)
      case Err(e) => Err(e)
  }

  predicate DistinctChars(chars: seq<char>) {
    forall i, j :: 0 <= i < j < |chars| ==> chars[i] != chars[j]
  }

  /** Decoding the encoding of a text over the vocabulary gives the text back. */
  lemma DecodeEncode(v: Vocab, text: string)
    requires forall i :: 0 <= i < |text| ==> text[i] in v.chars
    ensures StrToIds(v, text).Ok? && IdsToStr(v, StrToIds(v, text).value) == Ok(text)
  {
    var ids := StrToIds(v, text).value;
    var n := |v.chars|;
    assert forall i :: 0 <= i < |ids| ==> 0 <= ids[i] < n && Normalize(ids[i], n) == ids[i];
    var s := IdsToStr(v, ids).value;
    assert forall i :: 0 <= i < |text| ==> s[i] == v.chars[ids[i]] == text[i];
    assert s == text;
  }

  /**
   * Encoding the decoding of ids gives the ids back, negative ones read
   * from the end; this needs a vocabulary without duplicates.
   */
  lemma EncodeDecode(v: Vocab, ids: seq<int>)
    requires DistinctChars(v.chars)
    requires forall i :: 0 <= i < |ids| ==> InPythonRange(ids[i], |v.chars|)
    ensures IdsToStr(v, ids).Ok?
    ensures var s := IdsToStr(v, ids).value;
      && StrToIds(v, s).Ok?
      && |StrToIds(v, s).value| == |ids|
      && forall i :: 0 <= i < |ids| ==> StrToIds(v, s).value[i] == Normalize(ids[i], |v.chars|)
  {
    var s := IdsToStr(v, ids).value;
    assert forall i :: 0 <= i < |s| ==> s[i] in v.chars;
    var back := StrToIds(v, s).value;
    forall i | 0 <= i < |ids|
      ensures back[i] == Normalize(ids[i], |v.chars|)
    {
      var a, b := back[i], Normalize(ids[i], |v.chars|);
      assert v.chars[a] == s[i] == v.chars[b];
      assert a == b;
    }
  }

  /** With non-negative ids the round trip is the identity. */
  lemma EncodeDecodeExact(v: Vocab, ids: seq<int>)
    requires DistinctChars(v.chars)
    requires forall i :: 0 <= i < |ids| ==> 0 <= ids[i] < |v.chars|
    ensures IdsToStr(v, ids).Ok? && StrToIds(v, IdsToStr(v, ids).value) == Ok(ids)
  {
    EncodeDecode(v, ids);
    var back := StrToIds(v, IdsToStr(v, ids).value).value;
    assert forall i :: 0 <= i < |ids| ==> back[i] == Normalize(ids[i], |v.chars|) == ids[i];
    assert back == ids;
  }

  /** With a repeated character the ids do not round-trip: the earlier id comes back as the later one. */
  lemma DuplicateLosesId()
    ensures var v := Vocab(['a', 'a']);
      IdsToStr(v, [0]) == Ok(['a']) && StrToIds(v, ['a']) == Ok([1])
  {
    var v := Vocab(['a', 'a']);
    assert CharToIdx(v.chars)['a'] == 1;
    assert ['a'][1..] == [];
    assert [0][1..] == [];
    assert StrToIds(v, []) == Ok([]);
    assert IdsToStr(v, []) == Ok([]);
    assert StrToIds(v, ['a']) == Ok([1] + []);
    assert IdsToStr(v, [0]) == Ok(['a'] + []);
    assert [1] + [] == [1] && ['a'] + [] == ['a'];
  }

  // ---------------------------------------------------------------------
  // Dataset

  /** A dataset: the vocabulary and the encoded text. */
  datatype Dataset = Dataset(vocab: Vocab, data: seq<int>)

  /** The constructor encodes the whole text, raising on an unknown character. */
  function NewDataset(vocab: Vocab, text: string): (r: Result<Dataset, VocabError>)
    ensures r.Ok? <==> StrToIds(vocab, text).Ok?
    ensures r.Ok? ==> r.value.vocab == vocab && |r.value.data| == |text|
    ensures r.Ok? ==> IdsToStr(vocab, r.value.data) == Ok(text)
  {
    match StrToIds(vocab, text)
    case Ok(ids) =>
      DecodeEncode(vocab, text);
      Ok(Dataset(vocab, ids))
    case Err(e) => Err(e)
  }

  /** __len__ of the dataset: the number of encoded ids. */
  function DatasetLen(d: Dataset): (n: nat)
    ensures n == |d.data|
  {
    |d.data|
  }

  // ---------------------------------------------------------------------
  // Deterministic batching

  /** Python's range(lo, hi, step) for a positive step. */
  function Range(lo: nat, hi: int, step: nat): (r: seq<nat>)
    requires step > 0
    decreases hi - lo
  {
    if lo >= hi then [] else [lo] + Range(lo + step, hi, step)
  }

  /** The range counts up from lo in steps, stays below hi, and stops at the first value that does not. */
  lemma {:induction false} RangeFacts(lo: nat, hi: int, step: nat)
    requires step > 0
    ensures forall i :: 0 <= i < |Range(lo, hi, step)| ==> Range(lo, hi, step)[i] == lo + i * step < hi
    ensures lo + |Range(lo, hi, step)| * step >= hi
    decreases hi - lo
  {
    if lo < hi {
      var r, rest := Range(lo, hi, step), Range(lo + step, hi, step);
      RangeFacts(lo + step, hi, step);
      Dense.MulSucc(|rest|, step);
      forall i | 0 <= i < |r|
        ensures r[i] == lo + i * step < hi
      {
        if i > 0 {
          Dense.MulSucc(i - 1, step);
          assert r[i] == rest[i - 1];
        }
      }
    }
  }

  /** Python's data[lo:hi] for a non-negative lo: the part of [lo, hi) inside the data. */
  function Slice(data: seq<int>, lo: nat, hi: int): (r: seq<int>)
    ensures hi <= |data| ==> |r| == if hi <= lo then 0 else hi - lo
    ensures forall k :: 0 <= k < |r| ==> lo + k < |data| && r[k] == data[lo + k]
  {
    if hi <= lo || lo >= |data| then []
    else if hi <= |data| then data[lo..hi]
    else data[lo..]
  }

  /** The overlap mask: 1 past the overlap, 0 inside it. */
  function Mask(length: nat, overlap: int): (m: seq<int>)
    ensures |m| == length
    ensures forall i :: 0 <= i < length ==> (m[i] == 1 <==> i >= overlap) && (m[i] == 0 <==> i < overlap)
  {
    seq(length, i => if i >= overlap then 1 else 0)
  }

  /** One yielded dict: the stacked input windows, target windows and masks. */
  datatype Batch = Batch(x: seq<seq<int>>, y: seq<seq<int>>, mask: seq<seq<int>>)

  /** The windows data[s + off : s + off + L] at the given starts, in order. */
  function Windows(data: seq<int>, starts: seq<nat>, off: nat, length: nat): (w: seq<seq<int>>)
    ensures |w| == |starts|
  {
    seq(|starts|, k requires 0 <= k < |starts| => Slice(data, starts[k] + off, starts[k] + off + length))
  }

  /** The batch stacked from the windows at the given starts, in order. */
  function MakeBatch(data: seq<int>, starts: seq<nat>, length: nat, overlap: int): (b: Batch)
    ensures |b.x| == |b.y| == |b.mask| == |starts|
  {
    Batch(Windows(data, starts, 0, length), Windows(data, starts, 1, length), seq(|starts|, k => Mask(length, overlap)))
  }

  /** One more start adds one more window at the end. */
  lemma WindowsSnoc(data: seq<int>, starts: seq<nat>, lo: nat, i: nat, off: nat, length: nat)
    requires lo <= i < |starts|
    ensures Windows(data, starts[lo..i + 1], off, length)
      == Windows(data, starts[lo..i], off, length) + [Slice(data, starts[i] + off, starts[i] + off + length)]
  {
    var longer, shorter := Windows(data, starts[lo..i + 1], off, length), Windows(data, starts[lo..i], off, length);
    var w := Slice(data, starts[i] + off, starts[i] + off + length);
    forall k | 0 <= k < |longer|
      ensures longer[k] == (shorter + [w])[k]
    {
      if k < i - lo {
        assert starts[lo..i + 1][k] == starts[lo..i][k];
      }
    }
  }

  /**
   * A start below len(data) - L has a full input window data[s : s+L] and
   * a full target window, the input shifted by one.
   */
  lemma WindowFacts(data: seq<int>, start: nat, length: nat)
    requires start < |data| - length
    ensures var x, y := Slice(data, start, start + length), Slice(data, start + 1, start + length + 1);
      && x == data[start..start + length] && y == data[start + 1..start + length + 1]
      && |x| == length == |y|
      && (forall i :: 0 <= i < length ==> x[i] == data[start + i])
      && (forall i :: 0 <= i < length - 1 ==> y[i] == x[i + 1])
  {
  }

  lemma DivStep(m: nat, size: nat)
    requires size > 0 && m >= size
    ensures m / size == (m - size) / size + 1
  {
    var q, a := (m - size) / size, (m - size) % size;
    Dense.DivModOf(q + 1, size, a);
    assert (q + 1) * size + a == m;
  }

  /**
   * Chunks of `size` taken in order, where a chunk is emitted only once a
   * further row arrives: the last chunk, full or not, is never emitted.
   */
  function BatchesOf<T>(rows: seq<T>, size: nat): (r: seq<seq<T>>)
    requires size > 0
    decreases |rows|
  {
    if |rows| <= size then [] else [rows[..size]] + BatchesOf(rows[size..], size)
  }

  /** n rows give (n - 1) div size chunks: the rows after the last full chunk are always dropped. */
  lemma {:induction false} BatchesOfCount<T>(rows: seq<T>, size: nat)
    requires size > 0
    ensures |BatchesOf(rows, size)| == if rows == [] then 0 else (|rows| - 1) / size
    decreases |rows|
  {
    if |rows| > size {
      BatchesOfCount(rows[size..], size);
      DivStep(|rows| - 1, size);
    }
  }

  /** Chunk b holds rows b*size up to (b+1)*size: chunks have exactly `size` rows and keep their order. */
  lemma {:induction false} BatchesOfChunk<T>(rows: seq<T>, size: nat, b: nat)
    requires size > 0 && b < |BatchesOf(rows, size)|
    ensures (b + 1) * size <= |rows| && BatchesOf(rows, size)[b] == rows[b * size..(b + 1) * size]
    decreases b
  {
    if b > 0 {
      var rest := rows[size..];
      BatchesOfChunk(rest, size, b - 1);
      var lo, hi := (b - 1) * size, b * size;
      assert b * size == lo + size && (b + 1) * size == hi + size;
      DropSlice(rows, size, lo, hi);
    }
  }

  lemma DropSlice<T>(s: seq<T>, k: nat, lo: nat, hi: nat)
    requires k <= |s| && lo <= hi <= |s| - k
    ensures s[k..][lo..hi] == s[k + lo..k + hi]
  {
    assert forall i :: 0 <= i < hi - lo ==> s[k..][lo..hi][i] == s[k + lo + i];
  }

  /** The chunks laid end to end. */
  function Concat<T>(chunks: seq<seq<T>>): seq<T>
  {
    if chunks == [] then [] else chunks[0] + Concat(chunks[1..])
  }

  /** `chunks` are groups of exactly `size` rows that, laid end to end, give `rows`. */
  ghost predicate Chunked<T>(chunks: seq<seq<T>>, rows: seq<T>, size: nat)
  {
    (forall b :: 0 <= b < |chunks| ==> |chunks[b]| == size) && Concat(chunks) == rows
  }

  lemma {:induction false} ConcatSnoc<T>(chunks: seq<seq<T>>, c: seq<T>)
    ensures Concat(chunks + [c]) == Concat(chunks) + c
    decreases |chunks|
  {
    if chunks == [] {
      assert [c][1..] == [];
    } else {
      assert (chunks + [c])[1..] == chunks[1..] + [c];
      ConcatSnoc(chunks[1..], c);
    }
  }

  /** Emitting the full group rows[lo..i] as the next chunk keeps rows[..i] chunked. */
  lemma ChunkedSnoc<T>(chunks: seq<seq<T>>, rows: seq<T>, lo: nat, i: nat, size: nat)
    requires lo <= i <= |rows| && i - lo == size && Chunked(chunks, rows[..lo], size)
    ensures Chunked(chunks + [rows[lo..i]], rows[..i], size)
  {
    ConcatSnoc(chunks, rows[lo..i]);
    assert rows[..lo] + rows[lo..i] == rows[..i];
  }

  /**
   * Chunks of `size` rows followed by a waiting group of one up to `size`
   * rows: those chunks are exactly the ones BatchesOf emits.
   */
  lemma {:induction false} ChunkedBatches<T>(chunks: seq<seq<T>>, rows: seq<T>, lo: nat, size: nat)
    requires size > 0 && lo <= |rows| <= lo + size && (lo == |rows| ==> lo == 0)
    requires Chunked(chunks, rows[..lo], size)
    ensures BatchesOf(rows, size) == chunks
    decreases |chunks|
  {
    if chunks == [] {
      assert |rows[..lo]| == 0;
    } else {
      var head, tail := chunks[0], chunks[1..];
      assert |head| == size;
      assert rows[..lo] == head + Concat(tail);
      assert rows[..size] == rows[..lo][..size] == head;
      var rest := rows[size..];
      assert rest[..lo - size] == rows[..lo][size..] == Concat(tail);
      assert forall b :: 0 <= b < |tail| ==> |tail[b]| == |chunks[b + 1]|;
      ChunkedBatches(tail, rest, lo - size, size);
    }
  }

  /** The batches stacked from consecutive chunks of starts, in order. */
  function MakeBatches(data: seq<int>, chunks: seq<seq<nat>>, length: nat, overlap: int): (bs: seq<Batch>)
    ensures |bs| == |chunks|
  {
    seq(|chunks|, b requires 0 <= b < |chunks| => MakeBatch(data, chunks[b], length, overlap))
  }

  /** One more chunk stacks one more batch at the end. */
  lemma MakeBatchesSnoc(data: seq<int>, chunks: seq<seq<nat>>, c: seq<nat>, length: nat, overlap: int)
    ensures MakeBatches(data, chunks + [c], length, overlap)
      == MakeBatches(data, chunks, length, overlap) + [MakeBatch(data, c, length, overlap)]
  {
    var longer, shorter := MakeBatches(data, chunks + [c], length, overlap), MakeBatches(data, chunks, length, overlap);
    forall b | 0 <= b < |longer|
      ensures longer[b] == (shorter + [MakeBatch(data, c, length, overlap)])[b]
    {
      if b < |chunks| {
        assert (chunks + [c])[b] == chunks[b];
      }
    }
  }

  /** Row k of batch b is the window at start b*batch_size + k, and a batch has batch_size rows. */
  lemma BatchRowsOf(data: seq<int>, starts: seq<nat>, batchSize: nat, length: nat, overlap: int, b: nat, k: nat)
    requires batchSize > 0 && b < |BatchesOf<nat>(starts, batchSize)| && k < batchSize
    requires b * batchSize + k < |starts| ==> starts[b * batchSize + k] < |data| - length
    ensures var batch := MakeBatches(data, BatchesOf<nat>(starts, batchSize), length, overlap)[b];
      var j := b * batchSize + k;
      && |batch.x| == |batch.y| == |batch.mask| == batchSize
      && j < |starts|
      && batch.x[k] == data[starts[j]..starts[j] + length]
      && batch.y[k] == data[starts[j] + 1..starts[j] + length + 1]
      && batch.mask[k] == Mask(length, overlap)
  {
    var chunks := BatchesOf<nat>(starts, batchSize);
    var j := b * batchSize + k;
    ChunkAt<nat>(starts, batchSize, b, k);
    var chunk, st := chunks[b], starts[j];
    assert chunk[k] == st;
    WindowFacts(data, st, length);
  }

  /**
   * Row k of batch b is the window at start (b*batch_size + k) * shift:
   * x = data[s : s+L] and y = data[s+1 : s+L+1], both full, with the
   * overlap mask; every batch has exactly batch_size rows.
   */
  lemma BatchRows(data: seq<int>, batchSize: nat, length: nat, overlap: int, b: nat, k: nat)
    requires batchSize > 0 && overlap < length
    requires b < |BatchesOf<nat>(Starts(|data|, length, length - overlap), batchSize)| && k < batchSize
    ensures var batch := MakeBatches(data, BatchesOf<nat>(Starts(|data|, length, length - overlap), batchSize), length, overlap)[b];
      var s := (b * batchSize + k) * (length - overlap);
      && |batch.x| == |batch.y| == |batch.mask| == batchSize
      && 0 <= s < |data| - length
      && batch.x[k] == data[s..s + length] && batch.y[k] == data[s + 1..s + length + 1]
      && batch.mask[k] == Mask(length, overlap)
  {
    var shift := length - overlap;
    var starts := Starts(|data|, length, shift);
    var j := b * batchSize + k;
    ChunkAt<nat>(starts, batchSize, b, k);
    StartAt(|data|, length, shift, j);
    BatchRowsOf(data, starts, batchSize, length, overlap, b, k);
  }

  /** Row k of chunk b is row b*size + k, and a chunk has `size` rows. */
  lemma ChunkAt<T>(rows: seq<T>, size: nat, b: nat, k: nat)
    requires size > 0 && b < |BatchesOf(rows, size)| && k < size
    ensures |BatchesOf(rows, size)[b]| == size
    ensures b * size + k < |rows| && BatchesOf(rows, size)[b][k] == rows[b * size + k]
  {
    BatchesOfChunk(rows, size, b);
    assert (b + 1) * size == b * size + size;
  }

  /** The j-th start is j * shift, below len(data) - L. */
  lemma StartAt(n: nat, length: nat, shift: nat, j: nat)
    requires shift > 0 && j < |Starts(n, length, shift)|
    ensures Starts(n, length, shift)[j] == j * shift < n - length
  {
    RangeFacts(0, n - length, shift);
  }

  datatype BatchError =
    | ZeroStep           // range() with step 0: the overlap equals the sequence length
    | NegativeLength     // arange() of a negative sequence length
    | EmptyStack         // a batch size of 0 stacks an empty list

  /** The starts of the deterministic mode: 0, shift, 2*shift, ... while below len(data) - L. */
  function Starts(n: nat, length: int, shift: nat): (s: seq<nat>)
    requires shift > 0
  {
    Range(0, n - length, shift)
  }

  /** The group starts[lo..i] extended by the next start stacks one more window. */
  lemma AddRow(data: seq<int>, starts: seq<nat>, lo: nat, i: nat, length: nat, overlap: int)
    requires lo <= i < |starts|
    ensures var b := MakeBatch(data, starts[lo..i], length, overlap);
      MakeBatch(data, starts[lo..i + 1], length, overlap)
        == Batch(b.x + [Slice(data, starts[i], starts[i] + length)], b.y + [Slice(data, starts[i] + 1, starts[i] + length + 1)],
                 b.mask + [Mask(length, overlap)])
  {
    WindowsSnoc(data, starts, lo, i, 0, length);
    WindowsSnoc(data, starts, lo, i, 1, length);
    var b, c := MakeBatch(data, starts[lo..i], length, overlap), MakeBatch(data, starts[lo..i + 1], length, overlap);
    assert c.mask == b.mask + [Mask(length, overlap)];
  }

  /**
   * Dataset.batch with no seed: the window starts 0, shift, 2*shift, ...
   * stacked into batches of batch_size windows.
   */
  method Batches(d: Dataset, batchSize: int, length: int, overlap: int) returns (r: Result<seq<Batch>, BatchError>)
    requires overlap <= length
    ensures r.Err? <==> (length == overlap || length < 0
      || (batchSize == 0 && |Starts(|d.data|, length, length - overlap)| > 0))
    ensures r.Err? ==> r.error == (if length == overlap then ZeroStep else if length < 0 then NegativeLength else EmptyStack)
    ensures r.Ok? && batchSize <= 0 ==> r.value == []
    ensures r.Ok? && batchSize > 0 ==>
      r.value == MakeBatches(d.data, BatchesOf<nat>(Starts(|d.data|, length, length - overlap), batchSize), length, overlap)
  {
    var shift := length - overlap;
    if shift == 0 {
      return Err(ZeroStep);
    }
    if length < 0 {
      return Err(NegativeLength);
    }
    var starts: seq<nat> := Starts(|d.data|, length, shift);
    r := StackBatches(d.data, starts, batchSize, length, overlap);
  }

  /**
   * The loop of Dataset.batch: walks the starts, and before adding a
   * window yields the accumulated batch and clears the accumulators once
   * they hold batch_size windows.
   */
  method StackBatches(data: seq<int>, starts: seq<nat>, batchSize: int, length: nat, overlap: int)
      returns (r: Result<seq<Batch>, BatchError>)
    ensures r.Err? <==> batchSize == 0 && |starts| > 0
    ensures r.Err? ==> r.error == EmptyStack
    ensures r.Ok? && batchSize <= 0 ==> r.value == []
    ensures r.Ok? && batchSize > 0 ==> r.value == MakeBatches(data, BatchesOf<nat>(starts, batchSize), length, overlap)
  {
    var mask := Mask(length, overlap);
    var out: seq<Batch> := [];
    var xBatch: seq<seq<int>> := [];
    var yBatch: seq<seq<int>> := [];
    var maskBatch: seq<seq<int>> := [];
    ghost var lo := 0;
    ghost var chunks: seq<seq<nat>> := [];
    for i := 0 to |starts|
      invariant batchSize == 0 ==> i == 0
      invariant batchSize <= 0 ==> chunks == []
      invariant 0 <= lo <= i && |xBatch| == i - lo
      invariant Batch(xBatch, yBatch, maskBatch) == MakeBatch(data, starts[lo..i], length, overlap)
      invariant out == MakeBatches(data, chunks, length, overlap)
      invariant batchSize > 0 ==> i - lo <= batchSize && (lo == i ==> lo == 0) && Chunked(chunks, starts[..lo], batchSize)
    {
      var start := starts[i];
      if |xBatch| == batchSize {
        if batchSize == 0 {
          return Err(EmptyStack);
        }
        ChunkedSnoc(chunks, starts, lo, i, batchSize);
        MakeBatchesSnoc(data, chunks, starts[lo..i], length, overlap);
        chunks := chunks + [starts[lo..i]];
        lo := i;
        out := out + [Batch(xBatch, yBatch, maskBatch)];
        xBatch, yBatch, maskBatch := [], [], [];
      }
      AddRow(data, starts, lo, i, length, overlap);
      xBatch := xBatch + [Slice(data, start, start + length)];
      yBatch := yBatch + [Slice(data, start + 1, start + length + 1)];
      maskBatch := maskBatch + [mask];
    }
    if batchSize > 0 {
      ChunkedBatches(chunks, starts, lo, batchSize);
    }
    r := Ok(out);
  }
}
