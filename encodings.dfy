/**
 * The contract of the three concrete encodings (compact Elias-Fano, ranked bitvector,
 * all-ones) as the dispatcher sees them: a structural cost function, a writer that appends
 * to a bit-vector builder, and a cursor. Their bit layouts are not modelled: a written
 * segment records which layout it is in, the universe, and the values it represents.
 */
module Encodings {
  import opened BitOps

  /** `indexed_sequence::index_type`: exactly three encodings, in the selector's order. */
  datatype IndexType = EliasFano | RankedBitvector | AllOnes

  /** The enumerator value of each `index_type`, which is also the selector's tie-break order. */
  function Rank(t: IndexType): nat
  {
    match t
    case EliasFano => 0
    case RankedBitvector => 1
    case AllOnes => 2
  }

  /** The configuration bundle shared by every encoding (sampling densities); opaque here. */
  type GlobalParameters(!new)

  /**
   * The encodings' `bitsize(params, universe, n)` functions. They are not part of this model,
   * so the selector, the writer and the reader are proved for every choice of them.
   */
  datatype CostModel = CostModel(
    efBitsize: (GlobalParameters, uint64, uint64) -> uint64,
    rbBitsize: (GlobalParameters, uint64, uint64) -> uint64,
    aoBitsize: (GlobalParameters, uint64, uint64) -> uint64)
  {
    /** The cost of encoding `t`. */
    function Bitsize(t: IndexType, params: GlobalParameters, universe: uint64, n: uint64): uint64
    {
      match t
      case EliasFano => efBitsize(params, universe, n)
      case RankedBitvector => rbBitsize(params, universe, n)
      case AllOnes => aoBitsize(params, universe, n)
    }
  }

  datatype Option<T> = None | Some(value: T)

  /** A cursor's `value_type`: the pair (position, value). */
  datatype Entry = Entry(position: nat, value: uint64)

  predicate NonDecreasing(s: seq<int>)
  {
    forall i, j :: 0 <= i < j < |s| ==> s[i] <= s[j]
  }

  predicate StrictlyIncreasing(s: seq<int>)
  {
    forall i, j :: 0 <= i < j < |s| ==> s[i] < s[j]
  }

  /** Every value lies in [0, universe). */
  predicate Below(s: seq<int>, universe: int)
  {
    forall i :: 0 <= i < |s| ==> s[i] < universe
  }

  /** The sequence 0, 1, ..., n - 1: what an all-ones sequence of size n represents. */
  function Identity(n: uint64): (r: seq<uint64>)
    ensures |r| == n && forall i :: 0 <= i < n ==> r[i] == i
  {
    seq(n, i requires 0 <= i < n => i)
  }

  /**
   * The input each concrete writer can encode: Elias-Fano takes any non-decreasing sequence
   * below the universe, the ranked bitvector (one bit per value) a strictly increasing one, and
   * the all-ones sequence only the n values 0, ..., n - 1 over the universe n.
   */
  predicate AcceptedBy(format: IndexType, values: seq<uint64>, universe: uint64)
  {
    match format
    case EliasFano => NonDecreasing(values) && Below(values, universe)
    case RankedBitvector => StrictlyIncreasing(values) && Below(values, universe)
    case AllOnes => |values| == universe && values == Identity(universe)
  }

  /**
   * What one encoding's writer appends to the bit stream. Only the payload is data a reader can
   * see: the layout, the universe and the size are not stored, the caller keeps them elsewhere.
   * The all-ones layout has an empty payload.
   */
  datatype Segment = Segment(ghost format: IndexType, ghost universe: uint64, ghost n: uint64,
                             payload: seq<uint64>)

  /** The segment writer `format` lays down for `values`. */
  function Encode(format: IndexType, values: seq<uint64>, universe: uint64, n: uint64): Segment
  {
    Segment(format, universe, n, if format == AllOnes then [] else values)
  }

  /** The values a segment represents, as its own layout reads them. */
  ghost function Decoded(s: Segment): seq<uint64>
  {
    if s.format == AllOnes then Identity(s.n) else s.payload
  }

  /** Every writer is lossless on the input it accepts. */
  lemma EncodeDecode(format: IndexType, values: seq<uint64>, universe: uint64, n: uint64)
    requires |values| == n && AcceptedBy(format, values, universe)
    ensures Decoded(Encode(format, values, universe, n)) == values
  {
  }

  /** `succinct::bit_vector_builder`, seen as the sequence of segments appended to it. */
  class BitVectorBuilder {
    var segments: seq<Segment>

    constructor ()
      ensures segments == []
    {
      segments := [];
    }

    method Append(s: Segment)
      modifies this
      ensures segments == old(segments) + [s]
    {
      segments := segments + [s];
    }
  }

  /**
   * The writer of encoding `format` (`compact_elias_fano::write`, `compact_ranked_bitvector::write`
   * or `all_ones_sequence::write`): appends exactly one segment, in its own layout. The caller
   * must pass input that layout can encode.
   */
  method WriteEncoding(format: IndexType, bvb: BitVectorBuilder, values: seq<uint64>,
                       universe: uint64, n: uint64, params: GlobalParameters)
    requires |values| == n && AcceptedBy(format, values, universe)
    modifies bvb
    ensures bvb.segments == old(bvb.segments) + [Encode(format, values, universe, n)]
    ensures Decoded(bvb.segments[|bvb.segments| - 1]) == values
  {
    bvb.Append(Encode(format, values, universe, n));
  }

  /** Position of the first element of `s` that is at least `lb`, or `|s|` when there is none. */
  function FirstGeq(s: seq<int>, lb: int): (p: nat)
    ensures p <= |s|
    ensures forall j :: 0 <= j < p ==> s[j] < lb
    ensures p < |s| ==> s[p] >= lb
  {
    if s == [] || s[0] >= lb then 0 else 1 + FirstGeq(s[1..], lb)
  }

  /** Any position with FirstGeq's defining properties is FirstGeq's result. */
  lemma FirstGeqUnique(s: seq<int>, lb: int, p: nat)
    requires p <= |s|
    requires forall j :: 0 <= j < p ==> s[j] < lb
    requires p < |s| ==> s[p] >= lb
    ensures FirstGeq(s, lb) == p
  {
  }

  /**
   * A concrete encoding's enumerator over one segment. It answers every navigation call with
   * an `Entry`; past the end it answers the sentinel (n, universe). `last` is the entry most
   * recently returned (none before the first move, next_geq or next). The all-ones cursor
   * reads nothing: its element i is i.
   */
  class EncodingCursor {
    const format: IndexType
    const universe: uint64
    const n: uint64
    const payload: seq<uint64>
    var last: Option<Entry>

    ghost predicate Valid()
      reads this
    {
      && (format != AllOnes ==> |payload| == n)
      && (last.Some? ==> last.value == At(last.value.position))
    }

    /** The values this cursor reads, in order. */
    function Contents(): seq<uint64>
    {
      if format == AllOnes then Identity(n) else payload
    }

    /** The entry at position `p`, or the sentinel (n, universe) when `p >= n`. */
    function At(p: nat): Entry
    {
      var values := Contents();
      if p < |values| then Entry(p, values[p]) else Entry(|values|, universe)
    }

    /** The position `next` moves to: 0 before any advance, one past the last entry otherwise. */
    function NextPosition(prev: Option<Entry>): nat
    {
      var size := |Contents()|;
      match prev
      case None => 0
      case Some(e) => if e.position < size then e.position + 1 else size
    }

    /**
     * Opens the segment at `offset` with the (universe, n) the caller kept; the segment must
     * have been written in this encoding's layout with that triple.
     */
    constructor (bv: seq<Segment>, offset: nat, universe: uint64, n: uint64, format: IndexType)
      requires offset < |bv|
      requires bv[offset].format == format && bv[offset].universe == universe && bv[offset].n == n
      requires format != AllOnes ==> |bv[offset].payload| == n
      ensures Valid()
      ensures this.format == format && this.universe == universe && this.n == n
      ensures Contents() == Decoded(bv[offset])
      ensures last == None
    {
      this.format := format;
      this.universe := universe;
      this.n := n;
      payload := bv[offset].payload;
      last := None;
    }

    /** `move(position)`: the `position`-th element, or the sentinel past the end. */
    method Move(position: uint64) returns (r: Entry)
      requires Valid()
      modifies this
      ensures Valid()
      ensures r == At(position) && last == Some(r)
    {
      r := At(position);
      last := Some(r);
    }

    /** `next_geq(lower_bound)`: the first element not below `lower_bound`, or the sentinel. */
    method NextGeq(lowerBound: uint64) returns (r: Entry)
      requires Valid()
      modifies this
      ensures Valid()
      ensures r == At(FirstGeq(Contents(), lowerBound)) && last == Some(r)
    {
      r := At(FirstGeq(Contents(), lowerBound));
      last := Some(r);
    }

    /** `next()`: one step past the last entry returned (position 0 before any advance). */
    method Next() returns (r: Entry)
      requires Valid()
      modifies this
      ensures Valid()
      ensures r == At(NextPosition(old(last))) && last == Some(r)
    {
      r := At(NextPosition(last));
      last := Some(r);
    }

    /** `size()`: the cardinality n, whatever the position. */
    method Size() returns (size: uint64)
      requires Valid()
      ensures size == |Contents()|
    {
      size := n;
    }

    /** `prev_value()`: the value most recently returned; none before any advance. */
    method PrevValue() returns (r: Option<uint64>)
      requires Valid()
      ensures last.None? ==> r.None?
      ensures last.Some? ==> r == Some(last.value.value)
    {
      r := if last.Some? then Some(last.value.value) else None;
    }
  }
}
