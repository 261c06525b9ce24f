/**
 * `indexed_sequence`: picks the cheapest of the three encodings for (params, universe, n),
 * writes a sequence with it, and reads it back through one enumerator that recomputes the
 * same choice and forwards every navigation call to the one concrete cursor it built.
 */
module IndexedSequence {
  import opened BitOps
  import opened Encodings

  /** `CompressionCost`: an encoding paired with its cost. */
  datatype CompressionCost = CompressionCost(kind: IndexType, cost: uint64)

  /**
   * `std::min_element` under `lhs.second < rhs.second`: it keeps the smallest seen so far and
   * replaces it only by a strictly smaller one, so it lands on the FIRST minimum.
   */
  function MinElement(s: seq<CompressionCost>): (i: nat)
    requires |s| > 0
    ensures i < |s|
    ensures forall j :: 0 <= j < |s| ==> s[i].cost <= s[j].cost
    ensures forall j :: 0 <= j < i ==> s[i].cost < s[j].cost
  {
    if |s| == 1 then 0
    else
      var m := MinElement(s[..|s| - 1]);
      if s[|s| - 1].cost < s[m].cost then |s| - 1 else m
  }

  /** The candidate vector `type_cost`, in the order elias_fano, ranked_bitvector, all_ones. */
  function TypeCost(costs: CostModel, params: GlobalParameters, universe: uint64, n: uint64): seq<CompressionCost>
  {
    [CompressionCost(EliasFano, costs.efBitsize(params, universe, n)),
     CompressionCost(RankedBitvector, costs.rbBitsize(params, universe, n)),
     CompressionCost(AllOnes, costs.aoBitsize(params, universe, n))]
  }

  /** `best_compressor`: the cheapest encoding, earliest in the fixed order on ties, with its cost. */
  function BestCompressor(costs: CostModel, params: GlobalParameters, universe: uint64, n: uint64): (r: CompressionCost)
    ensures r.cost == costs.Bitsize(r.kind, params, universe, n)
    ensures forall t: IndexType :: r.cost <= costs.Bitsize(t, params, universe, n)
    ensures forall t: IndexType :: Rank(t) < Rank(r.kind) ==> r.cost < costs.Bitsize(t, params, universe, n)
  {
    var candidates := TypeCost(costs, params, universe, n);
    var i := MinElement(candidates);
    assert forall t: IndexType :: candidates[Rank(t)] == CompressionCost(t, costs.Bitsize(t, params, universe, n));
    candidates[i]
  }

  /** Reference definition of the winner: no encoding is cheaper, every earlier one is dearer. */
  ghost predicate IsFirstMinimum(costs: CostModel, params: GlobalParameters, universe: uint64, n: uint64, t: IndexType)
  {
    && (forall u: IndexType :: costs.Bitsize(t, params, universe, n) <= costs.Bitsize(u, params, universe, n))
    && (forall u: IndexType :: Rank(u) < Rank(t) ==>
          costs.Bitsize(t, params, universe, n) < costs.Bitsize(u, params, universe, n))
  }

  /** The selector picks exactly the first minimum: the one encoding satisfying the reference definition. */
  lemma BestCompressorIsFirstMinimum(costs: CostModel, params: GlobalParameters, universe: uint64, n: uint64, t: IndexType)
    ensures BestCompressor(costs, params, universe, n).kind == t <==> IsFirstMinimum(costs, params, universe, n, t)
  {
  }

  /** `indexed_sequence::bitsize`: the minimum of the three encodings' costs. */
  function Bitsize(costs: CostModel, params: GlobalParameters, universe: uint64, n: uint64): (r: uint64)
    ensures r <= costs.efBitsize(params, universe, n)
    ensures r <= costs.rbBitsize(params, universe, n)
    ensures r <= costs.aoBitsize(params, universe, n)
    ensures r == costs.efBitsize(params, universe, n) || r == costs.rbBitsize(params, universe, n)
         || r == costs.aoBitsize(params, universe, n)
  {
    var best := BestCompressor(costs, params, universe, n);
    assert best.cost <= costs.Bitsize(EliasFano, params, universe, n);
    assert best.cost <= costs.Bitsize(RankedBitvector, params, universe, n);
    assert best.cost <= costs.Bitsize(AllOnes, params, universe, n);
    best.cost
  }

  /**
   * What the all-ones cost function must do for the selector never to pick it wrongly: whenever
   * `n != universe` it costs at least as much as Elias-Fano (for instance the largest `uint64_t`),
   * so the tie-break in favour of Elias-Fano rules it out.
   */
  ghost predicate AllOnesPricedOut(costs: CostModel)
  {
    forall params: GlobalParameters, universe: uint64, n: uint64 :: universe != n ==>
      costs.efBitsize(params, universe, n) <= costs.aoBitsize(params, universe, n)
  }

  /** With such a cost model, all-ones wins only for a dense sequence, `n == universe`. */
  lemma AllOnesOnlyWhenDense(costs: CostModel, params: GlobalParameters, universe: uint64, n: uint64)
    requires AllOnesPricedOut(costs)
    ensures BestCompressor(costs, params, universe, n).kind == AllOnes ==> universe == n
  {
    if universe != n {
      assert costs.Bitsize(EliasFano, params, universe, n) <= costs.Bitsize(AllOnes, params, universe, n);
    }
  }

  /** In a strictly increasing sequence the values at least keep pace with the positions. */
  lemma {:induction false} IncreasingGap(s: seq<int>, i: nat, j: nat)
    requires StrictlyIncreasing(s) && i <= j < |s|
    ensures s[j] >= s[i] + (j - i)
  {
    if i < j {
      IncreasingGap(s, i, j - 1);
      assert s[j - 1] < s[j];
    }
  }

  /** n strictly increasing values in [0, n) are exactly 0, ..., n - 1. */
  lemma DenseIsIdentity(values: seq<uint64>, n: uint64)
    requires |values| == n && StrictlyIncreasing(values) && Below(values, n)
    ensures values == Identity(n)
  {
    forall i | 0 <= i < n ensures values[i] == i {
      IncreasingGap(values, 0, i);
      IncreasingGap(values, i, n - 1);
    }
  }

  /**
   * `write` validates nothing: on a strictly increasing sequence below the universe, the writer
   * the selector picks can encode it, whichever encoding that is.
   */
  lemma ChosenWriterAccepts(costs: CostModel, params: GlobalParameters, universe: uint64, values: seq<uint64>)
    requires |values| < Word && StrictlyIncreasing(values) && Below(values, universe)
    requires AllOnesPricedOut(costs)
    ensures AcceptedBy(BestCompressor(costs, params, universe, |values|).kind, values, universe)
  {
    var n: uint64 := |values|;
    if BestCompressor(costs, params, universe, n).kind == AllOnes {
      AllOnesOnlyWhenDense(costs, params, universe, n);
      DenseIsIdentity(values, n);
    }
  }

  /** The segment `write(params, universe, n)` lays down: the winner's layout over that triple. */
  ghost predicate WrittenBy(s: Segment, costs: CostModel, params: GlobalParameters, universe: uint64, n: uint64)
  {
    && s.format == BestCompressor(costs, params, universe, n).kind
    && s.universe == universe
    && s.n == n
    && (s.format != AllOnes ==> |s.payload| == n)
  }

  /** `indexed_sequence::write`: recomputes the winner and calls that one encoding's writer. */
  method Write(bvb: BitVectorBuilder, values: seq<uint64>, universe: uint64, n: uint64,
               params: GlobalParameters, costs: CostModel)
    requires |values| == n && StrictlyIncreasing(values) && Below(values, universe)
    requires AllOnesPricedOut(costs)
    modifies bvb
    ensures bvb.segments == old(bvb.segments)
                          + [Encode(BestCompressor(costs, params, universe, n).kind, values, universe, n)]
    ensures WrittenBy(bvb.segments[|bvb.segments| - 1], costs, params, universe, n)
    ensures Decoded(bvb.segments[|bvb.segments| - 1]) == values
  {
    var bestType := BestCompressor(costs, params, universe, n).kind;
    ChosenWriterAccepts(costs, params, universe, values);
    match bestType
    case EliasFano =>
      WriteEncoding(EliasFano, bvb, values, universe, n, params);
    case RankedBitvector =>
      WriteEncoding(RankedBitvector, bvb, values, universe, n, params);
    case AllOnes =>
      WriteEncoding(AllOnes, bvb, values, universe, n, params);
  }

  /** The anonymous union of the three concrete enumerators: exactly one is alive. */
  datatype ActiveCursor =
    | EfEnumerator(ef: EncodingCursor)
    | RbEnumerator(rb: EncodingCursor)
    | AoEnumerator(ao: EncodingCursor)
  {
    function Tag(): IndexType
    {
      match this
      case EfEnumerator(_) => EliasFano
      case RbEnumerator(_) => RankedBitvector
      case AoEnumerator(_) => AllOnes
    }

    function Cursor(): EncodingCursor
    {
      match this
      case EfEnumerator(c) => c
      case RbEnumerator(c) => c
      case AoEnumerator(c) => c
    }
  }

  /**
   * `indexed_sequence::enumerator`: the tag `m_type` and the one live concrete cursor, both
   * fixed at construction; every navigation call goes to that cursor.
   */
  class Enumerator {
    const mType: IndexType
    const active: ActiveCursor

    /** The live concrete cursor. */
    function Active(): EncodingCursor
    {
      active.Cursor()
    }

    ghost predicate Valid()
      reads this, Active()
    {
      && active.Tag() == mType
      && Active().format == mType
      && Active().Valid()
    }

    /**
     * Recomputes the winner from (params, universe, n) and opens the segment at `offset` with
     * that encoding's cursor. The caller must pass the triple the segment was written with.
     */
    constructor (bv: seq<Segment>, offset: nat, universe: uint64, n: uint64,
                 params: GlobalParameters, costs: CostModel)
      requires offset < |bv| && WrittenBy(bv[offset], costs, params, universe, n)
      ensures Valid() && fresh(Active())
      ensures mType == BestCompressor(costs, params, universe, n).kind
      ensures mType == bv[offset].format
      ensures Active().Contents() == Decoded(bv[offset]) && Active().universe == universe
      ensures Active().last == None
    {
      var t := BestCompressor(costs, params, universe, n).kind;
      mType := t;
      match t
      case EliasFano =>
        var c := new EncodingCursor(bv, offset, universe, n, EliasFano);
        active := EfEnumerator(c);
      case RankedBitvector =>
        var c := new EncodingCursor(bv, offset, universe, n, RankedBitvector);
        active := RbEnumerator(c);
      case AllOnes =>
        var c := new EncodingCursor(bv, offset, universe, n, AllOnes);
        active := AoEnumerator(c);
    }

    method Move(position: uint64) returns (r: Entry)
      requires Valid()
      modifies Active()
      ensures Valid()
      ensures r == Active().At(position) && Active().last == Some(r)
    {
      match mType
      case EliasFano => r := active.ef.Move(position);
      case RankedBitvector => r := active.rb.Move(position);
      case AllOnes => r := active.ao.Move(position);
    }

    method NextGeq(lowerBound: uint64) returns (r: Entry)
      requires Valid()
      modifies Active()
      ensures Valid()
      ensures r == Active().At(FirstGeq(Active().Contents(), lowerBound)) && Active().last == Some(r)
    {
      match mType
      case EliasFano => r := active.ef.NextGeq(lowerBound);
      case RankedBitvector => r := active.rb.NextGeq(lowerBound);
      case AllOnes => r := active.ao.NextGeq(lowerBound);
    }

    method Next() returns (r: Entry)
      requires Valid()
      modifies Active()
      ensures Valid()
      ensures r == Active().At(Active().NextPosition(old(Active().last))) && Active().last == Some(r)
    {
      match mType
      case EliasFano => r := active.ef.Next();
      case RankedBitvector => r := active.rb.Next();
      case AllOnes => r := active.ao.Next();
    }

    method Size() returns (n: uint64)
      requires Valid()
      ensures n == |Active().Contents()|
    {
      match mType
      case EliasFano => n := active.ef.Size();
      case RankedBitvector => n := active.rb.Size();
      case AllOnes => n := active.ao.Size();
    }

    method PrevValue() returns (r: Option<uint64>)
      requires Valid()
      ensures Active().last.None? ==> r.None?
      ensures Active().last.Some? ==> r == Some(Active().last.value.value)
    {
      match mType
      case EliasFano => r := active.ef.PrevValue();
      case RankedBitvector => r := active.rb.PrevValue();
      case AllOnes => r := active.ao.PrevValue();
    }
  }

  /**
   * Writer and reader agree: a sequence written with (params, universe, n) and reopened with the
   * same triple is read by the encoding it was written in, and `n` calls of `next` give back
   * every (position, value) pair in order.
   */
  method WriteThenScan(costs: CostModel, params: GlobalParameters, universe: uint64, values: seq<uint64>)
    returns (kind: IndexType, scanned: seq<Entry>)
    requires |values| < Word && StrictlyIncreasing(values) && Below(values, universe)
    requires AllOnesPricedOut(costs)
    ensures kind == BestCompressor(costs, params, universe, |values|).kind
    ensures |scanned| == |values|
    ensures forall i :: 0 <= i < |values| ==> scanned[i] == Entry(i, values[i])
  {
    var bvb := new BitVectorBuilder();
    var n: uint64 := |values|;
    var offset := |bvb.segments|;
    Write(bvb, values, universe, n, params, costs);
    var e := new Enumerator(bvb.segments, offset, universe, n, params, costs);
    kind := e.mType;
    scanned := [];
    var i := 0;
    while i < n
      invariant 0 <= i <= n
      invariant e.Valid() && e.Active().Contents() == values
      invariant |scanned| == i
      invariant forall j :: 0 <= j < i ==> scanned[j] == Entry(j, values[j])
      invariant i == 0 ==> e.Active().last == None
      invariant i > 0 ==> e.Active().last == Some(Entry(i - 1, values[i - 1]))
    {
      var r := e.Next();
      scanned := scanned + [r];
      i := i + 1;
    }
  }

  /**
   * A seek through a freshly written sequence finds the first value not below `lowerBound`,
   * or the sentinel (n, universe) when every value is below it.
   */
  method WriteThenSeek(costs: CostModel, params: GlobalParameters, universe: uint64, values: seq<uint64>,
                       lowerBound: uint64)
    returns (r: Entry)
    requires |values| < Word && StrictlyIncreasing(values) && Below(values, universe)
    requires AllOnesPricedOut(costs)
    ensures r.position <= |values|
    ensures r.position < |values| ==> r.value == values[r.position] && r.value >= lowerBound
    ensures r.position == |values| ==> r.value == universe
    ensures forall j :: 0 <= j < r.position ==> values[j] < lowerBound
  {
    var bvb := new BitVectorBuilder();
    var n: uint64 := |values|;
    Write(bvb, values, universe, n, params, costs);
    var e := new Enumerator(bvb.segments, 0, universe, n, params, costs);
    r := e.NextGeq(lowerBound);
  }
}
