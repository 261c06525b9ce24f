/**
 * The compressed WAND data: each posting list's (block docid, quantised score index) pairs are
 * packed into one integer `(docid << score_bits_size) + score`, stored as an Elias-Fano sequence
 * over the universe `(num_docs + 1) << score_bits_size`, and unpacked with a shift and a mask.
 */
module WandDataCompressed {
  import opened BitOps
  import opened Encodings

  /** `configuration::get().reference_size`, the number of score quantisation levels: a power of two. */
  const ReferenceSize: nat := 128

  /** `score_bits_size = msb(reference_size)`. */
  const ScoreBitsSize: nat := Msb(ReferenceSize)

  lemma ReferenceSizeIsPowerOfTwo()
    ensures ReferenceSize == Pow2(ScoreBitsSize) && ScoreBitsSize <= 32
  {
    assert Pow2(7) == 128;
    MsbOfPow2(7);
  }

  lemma Pow2Of32()
    ensures Pow2(32) == 0x1_0000_0000
  {
    assert Pow2(8) == 256;
    assert Pow2(16) == 256 * 256 by {
      assert forall j: nat :: j <= 8 ==> Pow2(8 + j) == Pow2(j) * 256 by {
        forall j: nat | j <= 8 ensures Pow2(8 + j) == Pow2(j) * 256 {
          Pow2Add(8, j);
        }
      }
    }
    Pow2Add(16, 16);
  }

  lemma {:induction false} Pow2Add(a: nat, b: nat)
    ensures Pow2(a + b) == Pow2(a) * Pow2(b)
  {
    if b > 0 {
      Pow2Add(a, b - 1);
      assert Pow2(a + b) == 2 * Pow2(a + b - 1);
    }
  }

  /** Element i of the temporary vector in `add_posting_list`: `(docs[i] << k) + score[i]` in `uint64_t`. */
  function Pack(docid: uint32, score: uint32, k: nat): uint64
  {
    Add(Shl(docid, k), score)
  }

  /** `val >> score_bits_size`: the docid part of a packed value. */
  function UnpackDocid(val: uint64, k: nat): uint64
  {
    Shr(val, k)
  }

  /** `val & (reference_size - 1)`: the score-index part of a packed value. */
  function UnpackScore(val: uint64, referenceSize: nat): uint64
    requires referenceSize >= 1
  {
    BitAnd(val, referenceSize - 1)
  }

  /** `m_num_docs = (num_docs + 1) << score_bits_size`, in `uint64_t`. */
  function DocsUniverse(numDocs: uint64, k: nat): uint64
  {
    Shl(Add(numDocs, 1), k)
  }

  /** With at most 32 score bits a packed uint32 pair never wraps: it is exactly docid * 2^k + score. */
  lemma PackIsExact(docid: uint32, score: uint32, k: nat)
    requires k <= 32
    ensures Pack(docid, score, k) == docid * Pow2(k) + score
  {
    var p := Pow2(k);
    Pow2Monotone(k, 32);
    Pow2Of32();
    MulMonotone(docid, 0xFFFF_FFFF, p);
    MulMonotone(p, 0x1_0000_0000, 0xFFFF_FFFF);
    assert docid * p <= 0xFFFF_FFFF * 0x1_0000_0000;
    ShlExact(docid, k);
    AddExact(docid * p, score);
  }

  /** Unpacking recovers the pair when the score index fits in the score bits. */
  lemma UnpackPack(docid: uint32, score: uint32, k: nat)
    requires k <= 32 && score < Pow2(k)
    ensures UnpackDocid(Pack(docid, score, k), k) == docid
    ensures UnpackScore(Pack(docid, score, k), Pow2(k)) == score
  {
    PackIsExact(docid, score, k);
    DivModOfExact(Pack(docid, score, k), Pow2(k), docid, score);
    MaskIsMod(Pack(docid, score, k), k);
  }

  /** Packed values are ordered exactly as the pairs are ordered lexicographically. */
  lemma PackOrder(d1: uint32, s1: uint32, d2: uint32, s2: uint32, k: nat)
    requires k <= 32 && s1 < Pow2(k) && s2 < Pow2(k)
    ensures Pack(d1, s1, k) < Pack(d2, s2, k) <==> d1 < d2 || (d1 == d2 && s1 < s2)
  {
    PackIsExact(d1, s1, k);
    PackIsExact(d2, s2, k);
    LexOrder(d1, s1, d2, s2, Pow2(k));
  }

  lemma LexOrder(d1: nat, s1: nat, d2: nat, s2: nat, p: nat)
    requires s1 < p && s2 < p
    ensures d1 * p + s1 < d2 * p + s2 <==> d1 < d2 || (d1 == d2 && s1 < s2)
  {
    if d1 < d2 {
      MulMonotone(d1 + 1, d2, p);
      assert (d1 + 1) * p == d1 * p + p;
    } else if d2 < d1 {
      MulMonotone(d2 + 1, d1, p);
      assert (d2 + 1) * p == d2 * p + p;
    }
  }

  /** Packed values stay below the universe `m_num_docs` when docid <= num_docs and no shift overflows. */
  lemma PackBelowUniverse(docid: uint32, score: uint32, numDocs: uint64, k: nat)
    requires k <= 32 && score < Pow2(k) && docid <= numDocs
    requires (numDocs + 1) * Pow2(k) < Word
    ensures DocsUniverse(numDocs, k) == (numDocs + 1) * Pow2(k)
    ensures Pack(docid, score, k) < DocsUniverse(numDocs, k)
  {
    var p := Pow2(k);
    PackIsExact(docid, score, k);
    MulMonotone(docid + 1, numDocs + 1, p);
    assert (docid + 1) * p == docid * p + p;
    MulMonotone(1, p, numDocs + 1);
    AddExact(numDocs, 1);
    ShlExact(numDocs + 1, k);
  }

  /** Shifting the lower bound into the packed domain: v >= lb << k exactly when v's docid >= lb. */
  lemma SeekBound(val: uint64, lowerBound: uint64, k: nat)
    requires lowerBound * Pow2(k) < Word
    ensures Shl(lowerBound, k) == lowerBound * Pow2(k)
    ensures val >= Shl(lowerBound, k) <==> UnpackDocid(val, k) >= lowerBound
  {
    var p := Pow2(k);
    var q, r := val / p, val % p;
    ShlExact(lowerBound, k);
    assert val == q * p + r && 0 <= r < p;
    if q < lowerBound {
      MulMonotone(q + 1, lowerBound, p);
      assert (q + 1) * p == q * p + p;
      assert val < lowerBound * p;
    } else {
      MulMonotone(lowerBound, q, p);
      assert val >= lowerBound * p;
    }
  }

  /** The sentinel universe unpacks to docid num_docs + 1 with score index 0. */
  lemma SentinelUnpacks(numDocs: uint64, k: nat)
    requires (numDocs + 1) * Pow2(k) < Word
    ensures UnpackDocid(DocsUniverse(numDocs, k), k) == numDocs + 1
    ensures UnpackScore(DocsUniverse(numDocs, k), Pow2(k)) == 0
  {
    var u := DocsUniverse(numDocs, k);
    MulMonotone(1, numDocs + 1, Pow2(k));
    assert u == Pow2(k) * (numDocs + 1) + 0;
    DivModUnique(u, Pow2(k), numDocs + 1, 0);
    MaskIsMod(u, k);
  }

  /** The packed posting list, in input order. */
  function PackAll(docs: seq<uint32>, scores: seq<uint32>, k: nat): (packed: seq<uint64>)
    requires |docs| == |scores|
  {
    seq(|docs|, i requires 0 <= i < |docs| => Pack(docs[i], scores[i], k))
  }

  /** Every score index fits in `k` score bits. */
  predicate ScoresFit(scores: seq<uint32>, k: nat)
  {
    forall i :: 0 <= i < |scores| ==> scores[i] < Pow2(k)
  }

  /** Strictly increasing docids give a strictly increasing packed list, as the Elias-Fano writer needs. */
  lemma PackedStrictlyIncreasing(docs: seq<uint32>, scores: seq<uint32>, k: nat)
    requires |docs| == |scores| && k <= 32 && ScoresFit(scores, k)
    requires StrictlyIncreasing(docs)
    ensures StrictlyIncreasing(PackAll(docs, scores, k))
  {
    var packed := PackAll(docs, scores, k);
    forall i, j | 0 <= i < j < |packed| ensures packed[i] < packed[j] {
      PackOrder(docs[i], scores[i], docs[j], scores[j], k);
    }
  }

  /** Every packed value lies below the universe `(num_docs + 1) << k`. */
  lemma PackedBelowUniverse(docs: seq<uint32>, scores: seq<uint32>, numDocs: uint64, k: nat)
    requires |docs| == |scores| && k <= 32 && ScoresFit(scores, k)
    requires forall i :: 0 <= i < |docs| ==> docs[i] <= numDocs
    requires (numDocs + 1) * Pow2(k) < Word
    ensures forall i :: 0 <= i < |docs| ==> PackAll(docs, scores, k)[i] < DocsUniverse(numDocs, k)
  {
    forall i | 0 <= i < |docs| ensures PackAll(docs, scores, k)[i] < DocsUniverse(numDocs, k) {
      PackBelowUniverse(docs[i], scores[i], numDocs, k);
    }
  }

  /** Seeking the shifted lower bound among packed values finds the first entry whose docid is >= lb. */
  lemma SeekPackedFindsFirstDocid(docs: seq<uint32>, scores: seq<uint32>, lowerBound: uint64, k: nat)
    requires |docs| == |scores| && k <= 32 && ScoresFit(scores, k)
    requires lowerBound * Pow2(k) < Word
    ensures FirstGeq(PackAll(docs, scores, k), Shl(lowerBound, k)) == FirstGeq(docs, lowerBound)
  {
    var packed := PackAll(docs, scores, k);
    var p := FirstGeq(packed, Shl(lowerBound, k));
    var q := FirstGeq(docs, lowerBound);
    forall i | 0 <= i < |docs|
      ensures packed[i] >= Shl(lowerBound, k) <==> docs[i] >= lowerBound
    {
      SeekBound(packed[i], lowerBound, k);
      UnpackPack(docs[i], scores[i], k);
    }
    FirstGeqUnique(docs, lowerBound, p);
  }

  datatype Outcome = Done | InvalidArgument(message: string)

  /** `uniform_score_compressor::builder`. */
  class UniformScoreBuilder {
    const params: GlobalParameters
    /** `m_num_docs`: already shifted into the packed domain, it is the universe of every list. */
    const numDocs: uint64
    /** `m_docs_sequences`: one Elias-Fano segment per posting list added. */
    var docsSequences: seq<Segment>

    constructor (numDocs: uint64, params: GlobalParameters)
      ensures this.numDocs == DocsUniverse(numDocs, ScoreBitsSize) && this.params == params
      ensures docsSequences == []
    {
      this.params := params;
      this.numDocs := DocsUniverse(numDocs, ScoreBitsSize);
      docsSequences := [];
    }

    /**
     * `add_posting_list(n, docs, scores)`: packs the first n pairs in order and appends their
     * Elias-Fano encoding; an empty list is refused with `invalid_argument` and nothing is added.
     * Nothing is validated: the caller must give a packed list the Elias-Fano writer can encode.
     */
    method AddPostingList(n: uint64, docs: seq<uint32>, scores: seq<uint32>) returns (result: Outcome)
      requires n <= |docs| && n <= |scores|
      requires AcceptedBy(EliasFano, PackAll(docs[..n], scores[..n], ScoreBitsSize), numDocs)
      modifies this
      ensures n == 0 ==> result == InvalidArgument("List must be nonempty")
      ensures n == 0 ==> docsSequences == old(docsSequences)
      ensures n > 0 ==> result == Done
      ensures n > 0 ==> docsSequences == old(docsSequences)
                        + [Encode(EliasFano, PackAll(docs[..n], scores[..n], ScoreBitsSize), numDocs, n)]
    {
      var temp: seq<uint64> := [];
      var i := 0;
      while i < n
        invariant 0 <= i <= n
        invariant |temp| == i
        invariant forall j :: 0 <= j < i ==> temp[j] == Pack(docs[j], scores[j], ScoreBitsSize)
      {
        var elem: uint64 := docs[i];
        elem := Shl(elem, ScoreBitsSize);
        elem := Add(elem, scores[i]);
        temp := temp + [elem];
        i := i + 1;
      }
      if n == 0 {
        return InvalidArgument("List must be nonempty");
      }
      assert temp == PackAll(docs[..n], scores[..n], ScoreBitsSize);
      var docsBits := new BitVectorBuilder();
      WriteEncoding(EliasFano, docsBits, temp, numDocs, n, params);
      docsSequences := docsSequences + docsBits.segments;
      result := Done;
    }
  }

  /** `wand_data_compressed::enumerator`: the current block's docid and score index over a packed list. */
  class WandEnumerator {
    var curDocid: uint64
    var curScoreIndex: uint64
    const docsEnum: EncodingCursor

    ghost predicate Valid()
      reads this, docsEnum
    {
      docsEnum.Valid() && docsEnum.format == EliasFano
    }

    /** `docid()`. */
    function Docid(): uint64
      reads this
    {
      curDocid
    }

    /** Takes over the Elias-Fano cursor and positions on element 0. */
    constructor (docsEnum: EncodingCursor)
      requires docsEnum.Valid() && docsEnum.format == EliasFano
      modifies docsEnum
      ensures Valid() && this.docsEnum == docsEnum
      ensures docsEnum.last == Some(docsEnum.At(0))
      ensures curDocid == UnpackDocid(docsEnum.At(0).value, ScoreBitsSize)
      ensures curScoreIndex == UnpackScore(docsEnum.At(0).value, ReferenceSize)
    {
      this.docsEnum := docsEnum;
      new;
      Reset();
    }

    /** `reset()`: moves to element 0 and unpacks it. */
    method Reset()
      requires Valid()
      modifies this, docsEnum
      ensures Valid()
      ensures docsEnum.last == Some(docsEnum.At(0))
      ensures curDocid == UnpackDocid(docsEnum.At(0).value, ScoreBitsSize)
      ensures curScoreIndex == UnpackScore(docsEnum.At(0).value, ReferenceSize)
    {
      var e := docsEnum.Move(0);
      var val := e.value;
      curDocid := Shr(val, ScoreBitsSize);
      var mask := ReferenceSize - 1;
      curScoreIndex := BitAnd(val, mask);
    }

    /**
     * `next_geq(lower_bound)`: nothing changes when the current docid already equals the bound;
     * otherwise seeks the first packed value >= `lower_bound << score_bits_size` and unpacks it.
     */
    method NextGeq(lowerBound: uint64)
      requires Valid()
      modifies this, docsEnum
      ensures Valid()
      ensures old(curDocid) == lowerBound ==>
                curDocid == old(curDocid) && curScoreIndex == old(curScoreIndex)
                && docsEnum.last == old(docsEnum.last)
      ensures old(curDocid) != lowerBound ==>
                var e := docsEnum.At(FirstGeq(docsEnum.Contents(), Shl(lowerBound, ScoreBitsSize)));
                && docsEnum.last == Some(e)
                && curDocid == UnpackDocid(e.value, ScoreBitsSize)
                && curScoreIndex == UnpackScore(e.value, ReferenceSize)
    {
      if Docid() != lowerBound {
        var lb := Shl(lowerBound, ScoreBitsSize);
        var val := docsEnum.NextGeq(lb);
        curDocid := Shr(val.value, ScoreBitsSize);
        var mask := ReferenceSize - 1;
        curScoreIndex := BitAnd(val.value, mask);
      }
    }
  }

  /**
   * End to end: a posting list added to the builder, opened with an Elias-Fano cursor and sought
   * with `next_geq(lb)`, yields the first block whose docid is >= lb with its own score index,
   * or the sentinel docid num_docs + 1 with score index 0 when no such block exists.
   */
  method AddThenSeek(numDocs: uint64, params: GlobalParameters, docs: seq<uint32>, scores: seq<uint32>,
                     lowerBound: uint64)
    returns (docid: uint64, scoreIndex: uint64)
    requires 0 < |docs| == |scores| < Word
    requires (numDocs + 1) * ReferenceSize < Word
    requires StrictlyIncreasing(docs)
    requires forall i :: 0 <= i < |docs| ==> docs[i] <= numDocs && scores[i] < ReferenceSize
    requires lowerBound <= numDocs
    ensures FirstGeq(docs, lowerBound) < |docs| ==>
              docid == docs[FirstGeq(docs, lowerBound)] && scoreIndex == scores[FirstGeq(docs, lowerBound)]
    ensures FirstGeq(docs, lowerBound) == |docs| ==> docid == numDocs + 1 && scoreIndex == 0
  {
    ReferenceSizeIsPowerOfTwo();
    var k := ScoreBitsSize;
    var builder := new UniformScoreBuilder(numDocs, params);
    var n: uint64 := |docs|;
    assert docs[..n] == docs && scores[..n] == scores;
    PackedStrictlyIncreasing(docs, scores, k);
    PackedBelowUniverse(docs, scores, numDocs, k);
    var outcome := builder.AddPostingList(n, docs, scores);
    var cursor := new EncodingCursor(builder.docsSequences, 0, builder.numDocs, n, EliasFano);
    var e := new WandEnumerator(cursor);
    e.NextGeq(lowerBound);
    docid, scoreIndex := e.curDocid, e.curScoreIndex;

    MulMonotone(lowerBound, numDocs + 1, Pow2(k));
    SeekPackedFindsFirstDocid(docs, scores, lowerBound, k);
    SentinelUnpacks(numDocs, k);
    var p := FirstGeq(docs, lowerBound);
    if p < |docs| {
      UnpackPack(docs[p], scores[p], k);
    }
    if p > 0 {
      UnpackPack(docs[0], scores[0], k);
    }
  }
}
