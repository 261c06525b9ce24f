# Indexed sequences and compressed WAND data, modelled in Dafny

This project models two parts of a succinct inverted-index library.

1. `indexed_sequence` picks the cheapest of three encodings for a monotone sequence. The
   encodings are compact Elias-Fano, ranked bitvector and all-ones. The choice depends only on
   `(params, universe, n)`. The module writes the sequence with the winning encoding. Its
   `enumerator` recomputes the same choice, builds exactly one concrete cursor and forwards
   `move`, `next_geq`, `next`, `size` and `prev_value` to it.
2. `uniform_score_compressor::builder` and `wand_data_compressed::enumerator` pack each
   (block docid, quantised score index) pair into one integer `(docid << score_bits_size) + score`.
   The packed values are stored as an Elias-Fano sequence over the universe
   `(num_docs + 1) << score_bits_size`. The enumerator unpacks them with a shift and a mask.

Files:

- `bitops.dfy` (module `BitOps`): `uint32`/`uint64` and the C++ operators on them. Shift
  and add wrap modulo 2^64 explicitly. `&` is a bitwise AND defined bit by bit; it never
  exceeds its left operand, so it cannot wrap. A proof shows that masking with `2^k - 1`
  keeps the low k bits.
- `encodings.dfy` (module `Encodings`): the contract of the three concrete encodings, with
  one definition for all three, each taking the layout as a parameter. A `CostModel` holds
  the three cost functions. `AcceptedBy` says which input each writer can encode. One
  `WriteEncoding` method appends one segment to a bit-vector builder. One `EncodingCursor`
  class reads a segment back and keeps the entry it returned last.
- `indexed_sequence.dfy` (module `IndexedSequence`): the selector, `bitsize`, the `write`
  dispatch, the tagged enumerator, and two client methods that write and then read back.
- `wand_data_compressed.dfy` (module `WandDataCompressed`): packing and unpacking, the
  builder's `add_posting_list`, the enumerator's `reset` and `next_geq`, and an end-to-end seek.

Modelling decisions:

- The three encodings' `bitsize` functions are not shown. They are the fields of a
  `CostModel` value, passed to the selector, the writer and the reader alike. The selector's
  properties hold for every cost model. Writer and reader agree because both evaluate the same
  pure function on the same triple. The written segment stores no tag: its layout, universe
  and size are `ghost` fields, so the reader cannot look them up and must recompute the layout.
- The all-ones encoding stores nothing and reads back value i at position i. It can encode a
  sequence only when `n == universe` and the values are exactly `0, ..., n - 1`. The round trip
  through `write` therefore needs one property of the cost model, `AllOnesPricedOut`: when
  `n != universe`, all-ones costs at least as much as Elias-Fano (the largest `uint64_t`
  qualifies). Ties go to Elias-Fano, so all-ones is then picked only when `n == universe`.
  For strictly increasing input below the universe, this forces the values to be `0, ..., n - 1`.
- The writers' input requirements come from the encodings' own contracts. Elias-Fano takes a
  non-decreasing sequence below the universe. The ranked bitvector has one bit per value, so it
  takes a strictly increasing one. `write` validates nothing and may pick either, so its callers
  must give a strictly increasing sequence below the universe.
- `index_type` is a datatype with exactly three constructors. Every `switch` becomes an
  exhaustive `match`, so the `default:` branches cannot be written.
- The raw union of three cursors is the datatype `ActiveCursor`, which holds one object.
  `m_type` is a `const` field and `Valid()` ties it to the union's tag.
- A written segment records, as ghost fields, the layout it was written in, its universe and
  its size, and as data the payload a reader sees. A concrete cursor may open only a segment
  in its own layout. The `Enumerator` constructor
  gets that precondition from its own recomputation of the winner.
- Concrete cursors follow one navigation contract. `move(p)` returns `(p, value)`, where the
  all-ones cursor's value is `p`. It returns
  the sentinel `(n, universe)` when `p >= n`. `next_geq(lb)` returns the first element
  `>= lb` in the whole sequence, or the sentinel. `next` starts at position 0 and stops at the
  sentinel. `prev_value` is `None` before any advance.
- `configuration::get().reference_size` is the constant `ReferenceSize = 128`, a power of two,
  and `ScoreBitsSize = Msb(ReferenceSize)`. Every packing lemma is stated for any number of
  score bits `k <= 32`. Docids and score indexes are `uint32`: in `add_posting_list` both
  iterators have the template type `DocsIterator`, and the caller passes `vector<uint32_t>`.

## Model

| member | source | states |
|---|---|---|
| `BitOps.MaskIsMod` | wand_data_compressed.hpp:183-184 | `v & (2^k - 1)` equals `v mod 2^k` for every v and k, so the mask keeps exactly the score bits |
| `BitOps.MsbOfPow2` | wand_data_compressed.hpp:20 | `msb(2^k) = k`, so `score_bits_size` is the exponent of the power-of-two `reference_size` |
| `BitOps.BitAnd` | wand_data_compressed.hpp:184 | a bitwise AND never exceeds its left operand |
| `Encodings.WriteEncoding` | indexed_sequence.hpp:52-66 | a concrete encoding's writer takes only input its layout can encode and appends exactly one segment in that layout, which decodes to the given values; the all-ones writer stores an empty payload |
| `Encodings.EncodeDecode` | indexed_sequence.hpp:52-66 | each layout decodes what its writer encoded, for every input that writer accepts: Elias-Fano and the ranked bitvector return the stored values, and all-ones returns `0, ..., n - 1`, which is exactly its accepted input |
| `Encodings.FirstGeq` | indexed_sequence.hpp:126 | the seek position: every element before it is below the bound, and the element at it (if any) is not |
| `Encodings.EncodingCursor.constructor` | indexed_sequence.hpp:87-99 | a concrete cursor opened, with the caller's `(universe, n)`, on a segment written in its own layout reads exactly the values that segment decodes to, and has not advanced |
| `Encodings.EncodingCursor.Move` | indexed_sequence.hpp:111 | `move(p)` returns `(p, values[p])`, with value `p` for all-ones, or the sentinel `(n, universe)` past the end, and remembers it |
| `Encodings.EncodingCursor.NextGeq` | indexed_sequence.hpp:111 | `next_geq(lb)` returns the first entry whose value is `>= lb`, or the sentinel |
| `Encodings.EncodingCursor.Next` | indexed_sequence.hpp:111 | `next()` returns position 0 before any advance, otherwise the entry after the last one returned, and stays at the sentinel |
| `Encodings.EncodingCursor.Size` | indexed_sequence.hpp:111 | `size()` is the cardinality, whatever the position |
| `Encodings.EncodingCursor.PrevValue` | indexed_sequence.hpp:111 | `prev_value()` is the value last returned, and none before any advance |
| `IndexedSequence.MinElement` | indexed_sequence.hpp:30-33 | `min_element` with strict `<` returns an index whose cost is at most every cost and strictly below every earlier cost, i.e. the first minimum |
| `IndexedSequence.BestCompressor` | indexed_sequence.hpp:22-34 | the returned cost is the returned encoding's own `bitsize`, is at most each of the three costs, and is strictly below the cost of every encoding earlier in the order elias_fano, ranked_bitvector, all_ones |
| `IndexedSequence.BestCompressorIsFirstMinimum` | indexed_sequence.hpp:27-33 | the selector returns encoding t if and only if t satisfies the independent first-minimum definition |
| `IndexedSequence.Bitsize` | indexed_sequence.hpp:36-40 | `bitsize` is at most each encoding's cost and equals one of them, i.e. the minimum of the three |
| `IndexedSequence.AllOnesOnlyWhenDense` | indexed_sequence.hpp:24-33 | when all-ones costs at least as much as Elias-Fano whenever `n != universe`, the strict `<` tie-break picks all-ones only when `n == universe` |
| `IndexedSequence.DenseIsIdentity` | indexed_sequence.hpp:62-65 | a strictly increasing sequence of n values below n is exactly `0, ..., n - 1`, the only input the all-ones writer can encode |
| `IndexedSequence.ChosenWriterAccepts` | indexed_sequence.hpp:48-66 | for a strictly increasing sequence below the universe and such a cost model, whichever writer `write` dispatches to can encode the sequence |
| `IndexedSequence.Write` | indexed_sequence.hpp:42-70 | on a strictly increasing sequence below the universe, `write` appends exactly one segment, produced by the writer of `best_compressor(params, universe, n).first`, that decodes back to the input, and nothing else changes |
| `IndexedSequence.Enumerator.constructor` | indexed_sequence.hpp:80-104 | the enumerator's `m_type` is the encoding recomputed from `(params, universe, n)`, equal to the layout the segment was written in, and its single live cursor reads that segment's values |
| `IndexedSequence.Enumerator.Move` | indexed_sequence.hpp:106-125 | `move` returns what the live cursor's `move` returns on the same argument and advances only that cursor |
| `IndexedSequence.Enumerator.NextGeq` | indexed_sequence.hpp:106-126 | `next_geq` returns what the live cursor's `next_geq` returns and advances only that cursor |
| `IndexedSequence.Enumerator.Next` | indexed_sequence.hpp:106-127 | `next` returns what the live cursor's `next` returns and advances only that cursor |
| `IndexedSequence.Enumerator.Size` | indexed_sequence.hpp:106-128 | `size` is the live cursor's cardinality and changes nothing |
| `IndexedSequence.Enumerator.PrevValue` | indexed_sequence.hpp:106-129 | `prev_value` is the live cursor's last returned value and changes nothing |
| `IndexedSequence.WriteThenScan` | indexed_sequence.hpp:42-104 | a strictly increasing sequence below the universe, written and reopened with the same triple, is read in the encoding the writer chose, and n calls of `next` give back every `(i, values[i])` in order, including when all-ones was chosen |
| `IndexedSequence.WriteThenSeek` | indexed_sequence.hpp:80-126 | after writing such a sequence, `next_geq(lb)` finds the first value `>= lb` or returns the sentinel `(n, universe)` |
| `WandDataCompressed.ReferenceSizeIsPowerOfTwo` | wand_data_compressed.hpp:20 | the chosen `reference_size` is `2^score_bits_size`, with at most 32 score bits |
| `WandDataCompressed.PackIsExact` | wand_data_compressed.hpp:56-58 | with at most 32 score bits, `(docid << k) + score` on `uint32` inputs never wraps in `uint64_t` and equals `docid * 2^k + score` |
| `WandDataCompressed.UnpackPack` | wand_data_compressed.hpp:182-184 | `val >> k` gives back the docid and `val & (2^k - 1)` gives back the score index, whenever the score index is below `2^k` |
| `WandDataCompressed.PackOrder` | wand_data_compressed.hpp:54-60 | packed values compare exactly as the (docid, score) pairs compare lexicographically, in both directions |
| `WandDataCompressed.PackBelowUniverse` | wand_data_compressed.hpp:30 | `m_num_docs` is `(num_docs + 1) * 2^k`, and a packed pair with docid at most num_docs lies below it, when that product fits in 64 bits |
| `WandDataCompressed.SeekBound` | wand_data_compressed.hpp:189-190 | a packed value is `>= lb << k` exactly when its docid is `>= lb`, when `lb << k` does not overflow |
| `WandDataCompressed.SentinelUnpacks` | wand_data_compressed.hpp:190-193 | the end-of-list sentinel value `m_num_docs` unpacks to docid `num_docs + 1` and score index 0 |
| `WandDataCompressed.PackedStrictlyIncreasing` | wand_data_compressed.hpp:54-65 | strictly increasing docids with fitting score indexes give a strictly increasing packed list, the input the Elias-Fano writer needs |
| `WandDataCompressed.PackedBelowUniverse` | wand_data_compressed.hpp:56-66 | every packed element lies below the universe passed to the Elias-Fano writer |
| `WandDataCompressed.SeekPackedFindsFirstDocid` | wand_data_compressed.hpp:187-195 | seeking `lb << k` among the packed values lands on the same position as seeking `lb` among the docids |
| `WandDataCompressed.UniformScoreBuilder.constructor` | wand_data_compressed.hpp:28-32 | `m_num_docs` is `(num_docs + 1) << score_bits_size` in `uint64_t` arithmetic, and no list has been added |
| `WandDataCompressed.UniformScoreBuilder.AddPostingList` | wand_data_compressed.hpp:50-69 | given a packed list the Elias-Fano writer can encode (nothing is validated), for n > 0 appends one Elias-Fano segment over `m_num_docs` whose element i is `(docs[i] << k) + scores[i]`, in input order; for n = 0, returns `invalid_argument` and appends nothing |
| `WandDataCompressed.WandEnumerator.constructor` | wand_data_compressed.hpp:173-177 | construction performs `reset` |
| `WandDataCompressed.WandEnumerator.Reset` | wand_data_compressed.hpp:179-185 | moves the cursor to element 0 and sets docid and score index from that element by shift and mask; `docid()` (`WandEnumerator.Docid`, lines 201-203) then returns the unpacked docid |
| `WandDataCompressed.WandEnumerator.NextGeq` | wand_data_compressed.hpp:187-195 | when the current docid, as `docid()` (`WandEnumerator.Docid`) reports it, equals `lb`, nothing changes; otherwise seeks the first packed value `>= lb << k` and sets docid and score index from it |
| `WandDataCompressed.AddThenSeek` | wand_data_compressed.hpp:50-195 | a list with strictly increasing docids added, opened and sought with `next_geq(lb)` yields the docid and score index of the first block whose docid is `>= lb`, or docid `num_docs + 1` with score index 0 when there is none |

## Left out

- Each encoding's bit layout, rank/select structures and `bitsize` formula. These live in
  compact_elias_fano.hpp, compact_ranked_bitvector.hpp and all_ones_sequence.hpp, which are
  not part of this model. The costs are an arbitrary `CostModel`, constrained only by
  `AllOnesPricedOut` where the round trip needs it. So the model cannot show which encoding
  wins for a given density, e.g. that `n == universe` selects all-ones.
- The concrete cursors are modelled by the uniform contract they all offer: `move`,
  `next_geq`, `next`, `size` and `prev_value`, with the sentinel `(n, universe)` past the end.
  Their source is not part of this model. It may differ from the real cursors at the edges. The real
  `move` past the end and `prev_value` before any advance are not modelled.
- `succinct::bit_vector_builder` and `bit_vector` are modelled as a list of segments, and an
  offset is a segment index, not a bit offset.
- `write_gamma_nonzero`, `read_gamma_nonzero`, `bitvector_collection` and `get_enum`
  (wand_data_compressed.hpp:63-68, 221-233) are external storage and coding primitives. The
  model appends the Elias-Fano segment directly, and `AddThenSeek` opens it directly.
- The floating-point code is left out, because the model has no floats: `compress_data`
  quantisation, both `score` functions, and the BM25 and max-score logic of
  `wand_data_compressed::builder::add_sequence` (wand_data_compressed.hpp:34-48, 91-94,
  114-149, 197-199).
- `static_block_partition` and `variable_block_partition` are external and float-based.
- `configuration::get()` is the fixed constant `ReferenceSize`. Its value in the real
  configuration is not part of this model.
- The logger, the `map` serialisation visitor, `build`, and the performance hints
  (`__builtin_expect`, `DS2I_FLATTEN_FUNC`, placement into a raw union) are left out because
  they do not change what is computed.
- The default-constructed, unbound `indexed_sequence::enumerator` is left out because it has
  no tag and no cursor, and the source allows no operation on it.
- `wand_data_compressed::enumerator` takes its Elias-Fano cursor by value. In the model it
  takes over the caller's cursor object. Aliasing between the two copies is therefore not
  modelled.
- `add_posting_list` passes its packed list to the Elias-Fano writer without checking that
  the list is ascending and below the universe. The model does not check this either: it is
  a precondition of `AddPostingList`. `PackedStrictlyIncreasing` and `PackedBelowUniverse`
  state when those requirements hold.
- `Encodings.WriteEncoding` does not model what a concrete writer does on input it cannot
  encode. Such input is excluded by its precondition, as the library leaves it to the caller.
- `benchmarks/selective_queries.cpp` is a command-line benchmark (memory-mapped index
  loading, standard input and output) and is not modelled.
