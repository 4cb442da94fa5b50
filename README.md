# ITensor Index and block-sparse storage, modelled in Dafny

This project models two parts of ITensor.

The first is the symmetry-aware `Index` of `itensor/index.cc`. An Index has an id (id 0 is the null Index), a dimension, a prime level, a tag set and an arrow. It may also carry a block descriptor: a list of (QN, block size) pairs that splits the dimension into symmetry sectors. The model covers:

- construction, truthiness and the prime-level mutators;
- equality, `equalsIgnorePrime` and the ordering;
- the tag-rewrite rules of `tags(Index, string)`;
- `sim` and `putprimes`;
- the descriptor accessors, `totalM`, `sectorInfo`, `QNblock` and `QNblockSize`;
- the `write`/`read` field layout, over a stream of abstract fields.

The second is the block-sparse storage `IQTData` of `itensor/itdata/iqtdata.h`. It is a directory of (composite block index, offset) pairs in ascending order plus one flat buffer. The model covers:

- `getBlock`, which builds the composite index in Horner form;
- `getElt`, which splits each element coordinate into (block, in-block) coordinates and accumulates with running strides;
- the directory lookup `offsetOf`;
- the element tasks `ApplyIT`, `VisitIT`, `GenerateIT` and `CheckComplex`.

Files:

- `index.dfy` (module `IndexModel`):
  - the value type `IndexValue`, for the pure operations;
  - the class `Index`, whose methods update its fields in place.
- `mixed_radix.dfy` (module `MixedRadix`):
  - the Horner form and the stride form of a mixed-radix number;
  - proofs that the two agree, of their bound, and of decoding.
- `iqtdata.dfy` (module `IQTDataModel`):
  - the class `IQTData`, with `offsets: seq<BlockOffset>` and `data: array<real>`;
  - the directory invariant `ValidDirectory`. Every block index in the directory ascends and is a valid composite index, and every block fits in the buffer.

Modelling choices:

- Quantum numbers are an opaque type with equality.
- A tag set is a set of labels: `hasTags` is inclusion, `addTags` is union, and `replaceTags` is a difference followed by a union. The text-to-tag-set parser is a function parameter.
- Ids come from the caller as a non-zero parameter.
- `Global::read32BitIDs()` is a boolean parameter of `Read`.
- The error paths of the source (`Error(...)` and exceptions) are `Err` results, including the always-failing complex `GenerateIT`.
- The checks that only the `DEBUG` build performs are modelled as returned flags, result variants or checked accessors:
  - the negative prime-level check of `setPrime`/`prime` is the `ok` result;
  - the rank-mismatch and out-of-range checks of `getBlock`/`getElt` are the `RankMismatch` and `OutOfRange` variants of `Ptr`;
  - the unallocated-storage and upper-bound checks of `qn`/`blocksize`/`blocksize0` are `QnChecked`, `BlockSizeChecked` and `BlockSize0Checked`. The release-build accessors `Qn`, `BlockSize` and `BlockSize0` take the range as a precondition, and the loops that use them are proved to stay inside it.

Behaviour as written:

- `Index::read` replaces the reading Index's descriptor only when the stored descriptor is non-empty (`itensor/index.cc:606-609`). Reading a descriptor-less Index into an object that already has a descriptor therefore keeps the old descriptor. `ReadSpec` and `WriteReadRoundTrip` state exactly that. `WriteReadFresh` states the full round trip into a default Index.
- `sim` builds `Index(dim(I), tags(I))` and re-primes it (`itensor/index.cc:300`). The result has no block descriptor and the default arrow, even when I has QN blocks. `Sim` states exactly that.

## Model

| member | source | states |
|---|---|---|
| IndexModel.Index.constructor | itensor/index.cc:52-60 | the default Index has id 0, dim 1, prime level 0, no descriptor, and is false as a boolean |
| IndexModel.Index.WithDim | itensor/index.cc:62-70 | Index(m, tags) takes the issued non-zero id, dim m, prime level 0 and the tags, and is true as a boolean |
| IndexModel.Index.SetPrime | itensor/index.cc:73-82 | only the prime level changes, to plev; the checked build's check fails exactly when plev < 0 |
| IndexModel.Index.NoPrime | itensor/index.cc:85-90 | only the prime level changes, to 0 |
| IndexModel.Index.Prime | itensor/index.cc:93-104 | only the prime level changes, by inc; the checked build's check fails exactly when the new level is negative |
| IndexModel.PrimeThenUnprime | itensor/index.cc:93-104 | prime(k) followed by prime(-k) gives back the original Index, every field included |
| IndexModel.MakeIndexVal | itensor/index.cc:111-120 | I(val) pairs I with val; the checked build rejects it exactly when I is the null Index, the check of `IndexVal`'s constructor at itensor/index.cc:261-262 |
| IndexModel.EqualityFacts | itensor/index.cc:122-138 | == is an equivalence and != is its negation; == implies equalsIgnorePrime; Indices that differ only in prime level are != yet equalsIgnorePrime |
| IndexModel.OrderFacts | itensor/index.cc:140-160 | < is irreflexive, asymmetric and transitive; two Indices are incomparable exactly when dim, id and prime level all agree; > is the converse of < |
| IndexModel.Tags | itensor/index.cc:162-210 | after spaces are stripped, the rule is an error exactly when it contains no "->" (a "<->" contains one); on success only the tags can change |
| IndexModel.AddRule | itensor/index.cc:172-181 | "->X" adds the tags X |
| IndexModel.ReplaceRule | itensor/index.cc:172-185 | "A->B" replaces A by B when the Index has A, and leaves the Index unchanged otherwise |
| IndexModel.SwapRule | itensor/index.cc:187-209 | "A<->B" leaves the Index unchanged when it has both tag sets or neither; otherwise it replaces the present set by the other |
| IndexModel.StripSpaces | itensor/index.cc:165-166 | the result contains no space; a string without spaces is unchanged; a single character is dropped exactly when it is a space |
| IndexModel.StripSpacesAppend | itensor/index.cc:165-166 | stripping a concatenation strips each part, so with the one-character case the result is the non-space characters in their original order |
| IndexModel.Find | itensor/index.cc:169-174 | the result is the first position where the pattern occurs, and none exactly when the pattern does not occur |
| IndexModel.PutPrimes | itensor/index.cc:15-30 | a negative level is an error; otherwise the result is s followed by the prime marks of the level |
| IndexModel.PrimeMarksInjective | itensor/index.cc:21-28 | two prime levels render the same marks exactly when they are equal |
| IndexModel.DecimalRoundTrip | itensor/index.cc:23 | reading back the decimal digits printed for a level gives the level |
| IndexModel.Sim | itensor/index.cc:297-301 | sim gives a truthy Index with the issued id, the same dim, tags and prime level, no descriptor and arrow Out; with a fresh id it is neither == nor equalsIgnorePrime to the original |
| IndexModel.TruthyFacts | itensor/index.cc:107-108 | operator bool is false for the default Index and true for sim's result, and an Index can be written or paired with a value exactly when it is true |
| IndexModel.IndexValFacts | itensor/index.cc:273-295 | IndexVal == is Index == plus equal values and is symmetric; an IndexVal made from I compares equal to I |
| IndexModel.NBlock | itensor/index.cc:464-469 | nblock() is the descriptor length, or 0 when there is no descriptor |
| IndexModel.BlockSize0 | itensor/index.cc:501-514 | blocksize0(i) is the block blocksize(i + 1) names |
| IndexModel.QnChecked | itensor/index.cc:471-484 | the checked qn(i): no descriptor is an error, i past nblock() is a range error, and otherwise the result is the QN of block i |
| IndexModel.BlockSizeChecked | itensor/index.cc:486-499 | the checked blocksize(i): the same two errors, and otherwise the size of block i |
| IndexModel.BlockSize0Checked | itensor/index.cc:501-514 | the checked blocksize0(i): i == nblock() is already out of range, and otherwise the result is that of the checked blocksize(i + 1) |
| IndexModel.BlockSizeInSum | itensor/index.cc:486-499 | blocksize(i) is the step the descriptor's running total takes at block i, and no block exceeds the total |
| IndexModel.TotalM | itensor/index.cc:522-531 | the loop returns the sum of the block sizes (its step is SumSizesAppend: totals add over concatenation) |
| IndexModel.Index.FromBlocks | itensor/index.cc:533-540 | the dimension is the sum of the block sizes and the arrow is Out; the descriptor accounts for the dimension and has one block per pair |
| IndexModel.Index.FromBlocksDir | itensor/index.cc:542-550 | the same as FromBlocks, with the given arrow |
| IndexModel.Locate | itensor/index.cc:346-356 | a position below the total lies in block r.0 at in-block offset r.1 < its size, with the position = (sum of the earlier sizes) + r.1 |
| IndexModel.LocateUnique | itensor/index.cc:346-356 | any (block, in-block offset) that satisfies that equation is the one Locate returns |
| IndexModel.SectorInfo | itensor/index.cc:346-356 | for 1 <= val <= dim: 1 <= sector <= nblock, 1 <= sind <= blocksize(sector), val = (sum of the earlier sizes) + sind, and the pair is the unique such decomposition |
| IndexModel.IndexValQn | itensor/index.cc:358-363 | the QN of the block that holds the value |
| IndexModel.QNBlock | itensor/index.cc:552-565 | returns the first 1-based block whose QN is Q; without a match, the error is NoQNBlocks exactly when there is no descriptor, and QNBlockNotFound otherwise |
| IndexModel.QNBlockSize | itensor/index.cc:568-573 | the size of the first block carrying Q; an error exactly when no block carries Q, NoQNBlocks exactly when there is no descriptor and QNBlockNotFound otherwise |
| IndexModel.Write | itensor/index.cc:575-586 | writing the null Index is an error; otherwise the output is prime level, tags, id, dim and arrow, then the descriptor's length and pairs, with an absent descriptor written as length 0 |
| IndexModel.DecodeEncodePairs | itensor/index.cc:436-462 | decoding the encoded (QN, size) pairs gives the pairs back and leaves the rest of the stream |
| IndexModel.WriteReadRoundTrip | itensor/index.cc:575-616 | reading what write produced restores prime level, tags, id, dim and arrow, and consumes exactly the written fields; the descriptor is replaced only when the stored one is non-empty |
| IndexModel.WriteReadFresh | itensor/index.cc:575-616 | reading into a default Index reproduces the written Index; an empty descriptor comes back as absent |
| IndexModel.Index.Read | itensor/index.cc:588-616 | the fields are read in write order; the outcome and the new state are those of ReadSpec, including the checked build's negative-prime-level error |
| MixedRadix.StridedIsHorner | itensor/itdata/iqtdata.h:109-115 | the running-stride form of getElt and the Horner form of getBlock give the same composite index (by HornerSnoc and ProdCons: a new top digit adds digit times the running product) |
| MixedRadix.HornerBound | itensor/itdata/iqtdata.h:109-115 | a composite index of in-range block coordinates is below the product of the block counts |
| MixedRadix.StridedBound | itensor/itdata/iqtdata.h:150-154 | in-range in-block coordinates give an element offset below the product of the block sizes |
| MixedRadix.DecodeHorner | itensor/itdata/iqtdata.h:109-115 | decoding a composite index gives back its block coordinates, so the encoding is injective (each step undone by DivModOfSum) |
| IQTDataModel.IQTData.IsTruthy | itensor/itdata/iqtdata.h:58 | the storage is true as a boolean exactly when its buffer holds an element |
| IQTDataModel.IQTData.constructor | itensor/itdata/iqtdata.h:52 | an empty directory and an empty buffer, so the storage is false as a boolean |
| IQTDataModel.Lookup | itensor/itdata/iqtdata.h:43-46 | the recorded offset of a block is none exactly when no entry lists that block; otherwise it is the offset of a listing entry |
| IQTDataModel.IQTData.OffsetOf | itensor/itdata/iqtdata.h:87-88 | the binary search returns the recorded offset of a present block and -1 for an absent one (LookupAt: in an ascending directory that is the listing entry's own offset) |
| IQTDataModel.IQTData.GetBlock | itensor/itdata/iqtdata.h:99-124 | rank 0 gives the buffer base; a rank mismatch is an error; otherwise it gives null or the offset recorded for the Horner composite index; under the directory invariant a found block lies inside the buffer |
| IQTDataModel.SplitCoordinate | itensor/itdata/iqtdata.h:143-149 | a 0-based coordinate splits into the block holding it and the offset inside that block, below the block size |
| IQTDataModel.CompositeCoordinates | itensor/itdata/iqtdata.h:136-154 | the loop computes the composite block index in Horner form and the in-block offset in stride form over the block sizes |
| IQTDataModel.IQTData.GetElt | itensor/itdata/iqtdata.h:126-166 | rank 0 gives the base and a rank mismatch is an error; otherwise it gives null for an absent block, the block's offset plus the in-block offset, or OutOfRange when that position is past the buffer; under the directory invariant OutOfRange never happens |
| IQTDataModel.BlockInBounds | itensor/itdata/iqtdata.h:118-123 | under the directory invariant, a listed block of in-range coordinates lies inside the buffer |
| IQTDataModel.EltInBounds | itensor/itdata/iqtdata.h:157-163 | under the directory invariant, an element of a listed block lies inside the buffer |
| IQTDataModel.IQTData.Apply | itensor/itdata/iqtdata.h:195-201 | every element e becomes f(e) in place; the directory and the buffer object are unchanged |
| IQTDataModel.IQTData.Visit | itensor/itdata/iqtdata.h:203-209 | the visitor sees every element times the scale factor, once each, in buffer order; nothing changes |
| IQTDataModel.IQTData.Generate | itensor/itdata/iqtdata.h:211-216 | element k becomes the generator's k-th value; the directory is unchanged |
| IQTDataModel.IQTData.GenerateComplex | itensor/itdata/iqtdata.h:218-223 | complex generation into this storage always fails with the unsupported-complex error |
| IQTDataModel.IQTData.CheckComplex | itensor/itdata/iqtdata.h:264-265 | the storage is never complex |

## Left out

- `Index::generateID` (`itensor/index.cc:45-50`): a per-thread random generator. Ids come from the caller as a non-zero parameter.
- The `Args` helpers `add`/`getTagSet` (`itensor/index.cc:313-336`): they store and fetch configuration and hold no logic.
- `operator<<` for Index and IndexVal, and `showDim` (`itensor/index.cc:212-246, 303-311`): they need the tag-set and QN printers, which are not part of this model. The prime-mark part of that rendering is `PrimeMarks`/`PutPrimes`.
- `IndexVal::dag` (`itensor/index.cc:365-366`): `Index::dag` is not part of this model.
- The `IQIndexDat` class (`itensor/index.cc:368-428`): its accessors are folded into `Qn`, `BlockSize` and `BlockSize0` over the descriptor sequence. Sharing of the descriptor between Index copies is not modelled, because it is never changed after construction.
- The tag-set text parser, formatter and the set operations' internals: not part of this model. Tag sets are sets, and parsing is a function parameter.
- `hasQNs`, `Index::dag` and the default arrow of `Index(m, tags)` are declared in a header that is not part of this model. `hasQNs` is taken as "has a descriptor", and the default arrow is taken as Out.
- Stream bytes: `write`/`read` work on a sequence of abstract fields. A 32-bit id is an ordinary natural number, without the width limit.
- IndexModel.Index.Read: on a malformed stream, the fields read before the failure point keep their new values. The contract states only the error, not that partial state.
- IndexModel.Sim: does not model the `DEBUG` negative-level check that `.prime(primeLevel(I))` performs (`itensor/index.cc:97-101`); for `I.primeLevel < 0` it returns the Index with that level and no error flag, where `IndexModel.Index.Prime` reports the error.
- IndexModel.SectorInfo requires 1 <= val <= dim, the domain of an IndexVal. For val > dim the source's loop would step past the descriptor. For val <= 0 it does not loop and returns (1, val), which the model does not state.
- IQTDataModel.SplitCoordinate and IQTDataModel.IQTData.GetElt require each coordinate to lie below its Index's dimension. The source's inner loop would step past the descriptor otherwise.
- IndexModel.QnChecked, IndexModel.BlockSizeChecked and IndexModel.BlockSize0Checked require i >= 1 (i >= 0 for the 0-based one). The source checks only the upper bound, so a smaller i is an unchecked out-of-bounds access. The release-build accessors IndexModel.Qn, IndexModel.BlockSize and IndexModel.BlockSize0 take the whole range, and a descriptor, as a precondition instead of raising the range error.
- Integer width: the source's `long` and `int` quantities are unbounded integers here. That covers the prime level, `tm` in `totalM` (`itensor/index.cc:525-528`), `ii` in `getBlock` (`itensor/itdata/iqtdata.h:109-115`), and `bind`, `bstr`, `eoff` and `estr` in `getElt` (`itensor/itdata/iqtdata.h:136-154`). Overflow of these is not modelled.
- The `DEBUG` check of `IndexVal`'s constructor (`itensor/index.cc:261-270`) is `MakeIndexVal`'s error. Its commented-out range check is not modelled.
- The `IQTData` operations that are only declared (`itensor/itdata/iqtdata.h:19-28, 54-55, 87-92, 226-271`): the constructor from an IndexSet and divergence, `updateOffsets`, `calcDiv`, `inverseBlockInd`, and the `GetElt`, `SetElt`, `MultReal`, `PlusEQ`, `Contract`, `Conj`, `NormNoScale` and `PrintIT` tasks. Only the directory invariant any construction must establish (`ValidDirectory`) is stated. `offsetOf` is modelled as a binary search against its documented contract, because its body is in `itensor/itdata/iqtdata.cc`, which is not part of this model.
- `IndexDim`/`make_indexdim` (`itensor/itdata/iqtdata.h:168-192`): it is the sequence of block sizes at block coordinates, `BlockSizesAt`.
- Element values are Dafny reals: no floating-point rounding is modelled. `ApplyIT` and `GenerateIT` are modelled for real elements only.
- IQTDataModel.IQTData.Generate: the generator is a function of the call number, not a stateful functor.
- The tutorial observer `TStateObserver`: it prints progress and has no verifiable logic.
