/** The symmetry-aware Index of itensor/index.cc.

    An Index carries an identity (id 0 is the null Index), a dimension, a prime level,
    a tag set, an arrow, and optionally a block descriptor: the ordered list of
    (QN, block size) pairs that splits the dimension into symmetry sectors.
    Comparisons, the tag-rewrite rules, sim and the serialised layout work on
    IndexValue, the value an Index object holds; the class Index holds the same
    fields and updates them in place (prime-level mutators, read). */
module IndexModel {

  /** Quantum numbers are opaque here: they are only compared for equality. */
  type QN(==)

  /** A tag set is modelled as a set of labels; membership, adding and replacing are set
      operations. Turning tag text into a tag set is left to the caller's parser. */
  type TagSet = set<string>

  function HasTags(ts: TagSet, t: TagSet): bool { t <= ts }

  function AddTags(ts: TagSet, t: TagSet): TagSet { ts + t }

  function ReplaceTags(ts: TagSet, tOld: TagSet, tNew: TagSet): TagSet { (ts - tOld) + tNew }

  datatype Arrow = In | Out | Neither

  /** One (QN, block size) entry of a block descriptor. */
  datatype QNInt = QNInt(qn: QN, size: nat)

  datatype Option<T> = None | Some(value: T)

  datatype Error =
    | NegativePrimeLevel
    | MalformedTagRule
    | DefaultInitialized
    | NoQNBlocks
    | QNBlockNotFound
    | MalformedStream
    | StorageUnallocated
    | BlockIndexOutOfRange
    | UnsupportedComplex

  datatype Result<T> = Ok(value: T) | Err(error: Error)

  /** The fields of an Index; `blocks` is the shared block descriptor, if any. */
  datatype IndexValue = IndexValue(
    id: nat,
    dim: int,
    primeLevel: int,
    tags: TagSet,
    dir: Arrow,
    blocks: Option<seq<QNInt>>)

  /** The default-constructed (null) Index. */
  function DefaultIndex(): IndexValue
  {
    IndexValue(0, 1, 0, {}, Out, None)
  }

  /** operator bool */
  predicate Truthy(I: IndexValue)
  {
    I.id != 0
  }

  // ---------------------------------------------------------------------------
  // Block descriptor

  /** Sum of the block sizes of a descriptor. */
  function SumSizes(qs: seq<QNInt>): nat
  {
    if |qs| == 0 then 0 else qs[0].size + SumSizes(qs[1..])
  }

  lemma {:induction false} SumSizesAppend(a: seq<QNInt>, b: seq<QNInt>)
    ensures SumSizes(a + b) == SumSizes(a) + SumSizes(b)
  {
    if |a| > 0 {
      assert (a + b)[1..] == a[1..] + b;
      SumSizesAppend(a[1..], b);
    } else {
      assert a + b == b;
    }
  }

  /** totalM: the dimension implied by a block list. */
  method TotalM(qs: seq<QNInt>) returns (tm: nat)
    ensures tm == SumSizes(qs)
  {
    tm := 0;
    var k := 0;
    while k < |qs|
      invariant 0 <= k <= |qs|
      invariant tm == SumSizes(qs[..k])
    {
      SumSizesAppend(qs[..k], [qs[k]]);
      assert qs[..k + 1] == qs[..k] + [qs[k]];
      tm := tm + qs[k].size;
      k := k + 1;
    }
    assert qs[..k] == qs;
  }

  /** An Index whose descriptor, when present, accounts for its whole dimension. */
  predicate QNConsistent(I: IndexValue)
  {
    I.blocks.Some? && SumSizes(I.blocks.value) == I.dim
  }

  /** hasQNs: the Index carries a block descriptor. */
  predicate HasQNs(I: IndexValue)
  {
    I.blocks.Some?
  }

  /** nblock(): the descriptor length, 0 without a descriptor. */
  function NBlock(I: IndexValue): (n: nat)
    ensures I.blocks.Some? ==> n == |I.blocks.value|
    ensures I.blocks.None? ==> n == 0
  {
    match I.blocks
    case None => 0
    case Some(qs) => |qs|
  }

  /** qn(i), 1-based. */
  function Qn(I: IndexValue, i: int): QN
    requires I.blocks.Some? && 1 <= i <= NBlock(I)
  {
    I.blocks.value[i - 1].qn
  }

  /** blocksize(i), 1-based. */
  function BlockSize(I: IndexValue, i: int): nat
    requires I.blocks.Some? && 1 <= i <= NBlock(I)
  {
    I.blocks.value[i - 1].size
  }

  /** blocksize0(i), 0-based: the same block as blocksize(i + 1). */
  function BlockSize0(I: IndexValue, i: int): (s: nat)
    requires I.blocks.Some? && 0 <= i < NBlock(I)
    ensures s == BlockSize(I, i + 1)
  {
    I.blocks.value[i].size
  }

  /** The checked build's qn(i): an Index without a descriptor, or i past nblock(), is an
      error; below 1 the source does not check, and the model does not admit it. */
  function QnChecked(I: IndexValue, i: int): (r: Result<QN>)
    requires 1 <= i
    ensures I.blocks.None? ==> r == Err(StorageUnallocated)
    ensures I.blocks.Some? && i > NBlock(I) ==> r == Err(BlockIndexOutOfRange)
    ensures r.Ok? <==> I.blocks.Some? && i <= NBlock(I)
    ensures r.Ok? ==> r.value == Qn(I, i)
  {
    if I.blocks.None? then Err(StorageUnallocated)
    else if i > NBlock(I) then Err(BlockIndexOutOfRange)
    else Ok(Qn(I, i))
  }

  /** The checked build's blocksize(i), with the same checks as qn(i). */
  function BlockSizeChecked(I: IndexValue, i: int): (r: Result<nat>)
    requires 1 <= i
    ensures I.blocks.None? ==> r == Err(StorageUnallocated)
    ensures I.blocks.Some? && i > NBlock(I) ==> r == Err(BlockIndexOutOfRange)
    ensures r.Ok? <==> I.blocks.Some? && i <= NBlock(I)
    ensures r.Ok? ==> r.value == BlockSize(I, i)
  {
    if I.blocks.None? then Err(StorageUnallocated)
    else if i > NBlock(I) then Err(BlockIndexOutOfRange)
    else Ok(BlockSize(I, i))
  }

  /** The checked build's blocksize0(i): 0-based, so i == nblock() is already out of range. */
  function BlockSize0Checked(I: IndexValue, i: int): (r: Result<nat>)
    requires 0 <= i
    ensures I.blocks.None? ==> r == Err(StorageUnallocated)
    ensures I.blocks.Some? && i >= NBlock(I) ==> r == Err(BlockIndexOutOfRange)
    ensures r.Ok? <==> I.blocks.Some? && i < NBlock(I)
    ensures r.Ok? ==> r.value == BlockSize(I, i + 1) && r == BlockSizeChecked(I, i + 1)
  {
    if I.blocks.None? then Err(StorageUnallocated)
    else if i >= NBlock(I) then Err(BlockIndexOutOfRange)
    else Ok(BlockSize0(I, i))
  }

  /** blocksize(i) is the step the running total of the descriptor takes at block i, so no
      block is larger than the dimension the descriptor accounts for. */
  lemma BlockSizeInSum(I: IndexValue, i: int)
    requires I.blocks.Some? && 1 <= i <= NBlock(I)
    ensures SumSizes(I.blocks.value[..i]) == SumSizes(I.blocks.value[..i - 1]) + BlockSize(I, i)
    ensures BlockSize(I, i) <= SumSizes(I.blocks.value)
  {
    var qs := I.blocks.value;
    SumSizesAppend(qs[..i - 1], [qs[i - 1]]);
    assert qs[..i] == qs[..i - 1] + [qs[i - 1]];
    SumSizesAppend(qs[..i], qs[i..]);
    assert qs[..i] + qs[i..] == qs;
  }

  /** The block holding 0-based position c of a descriptor, and the 0-based position inside
      that block: the decomposition getElt and sectorInfo both perform. */
  function Locate(qs: seq<QNInt>, c: nat): (r: (nat, nat))
    requires c < SumSizes(qs)
    ensures r.0 < |qs| && r.1 < qs[r.0].size
    ensures c == SumSizes(qs[..r.0]) + r.1
  {
    if c < qs[0].size then
      assert qs[..0] == [];
      (0, c)
    else
      var t := Locate(qs[1..], c - qs[0].size);
      assert qs[..t.0 + 1][1..] == qs[1..][..t.0];
      (t.0 + 1, t.1)
  }

  /** The decomposition of a position into (block, offset in block) is unique. */
  lemma {:induction false} LocateUnique(qs: seq<QNInt>, c: nat, b: nat, e: nat)
    requires b < |qs| && e < qs[b].size && c == SumSizes(qs[..b]) + e
    ensures c < SumSizes(qs)
    ensures Locate(qs, c) == (b, e)
  {
    SumSizesAppend(qs[..b], qs[b..]);
    assert qs[..b] + qs[b..] == qs;
    assert qs[b..][1..] == qs[b + 1..];
    if b == 0 {
      assert qs[..0] == [];
    } else {
      assert qs[..b][1..] == qs[1..][..b - 1];
      LocateUnique(qs[1..], c - qs[0].size, b - 1, e);
    }
  }

  /** The 1-based (sector, index in sector) pair of sectorInfo. */
  datatype IndSector = IndSector(sector: int, sind: int)

  /** An Index paired with a 1-based value. */
  datatype IndexVal = IndexVal(index: IndexValue, val: int)

  /** Index::operator()(val) and operator=(val); the checked build rejects a null Index. */
  function MakeIndexVal(I: IndexValue, val: int): (r: Result<IndexVal>)
    ensures r.Ok? <==> Truthy(I)
    ensures r.Ok? ==> r.value.index == I && r.value.val == val
  {
    if !Truthy(I) then Err(DefaultInitialized) else Ok(IndexVal(I, val))
  }

  /** sectorInfo: walk the blocks subtracting sizes until the value fits its block. */
  method SectorInfo(iv: IndexVal) returns (s: IndSector)
    requires QNConsistent(iv.index)
    requires 1 <= iv.val <= iv.index.dim
    ensures 1 <= s.sector <= NBlock(iv.index)
    ensures 1 <= s.sind <= BlockSize(iv.index, s.sector)
    ensures iv.val == SumSizes(iv.index.blocks.value[..s.sector - 1]) + s.sind
    ensures s.sector - 1 == Locate(iv.index.blocks.value, iv.val - 1).0
    ensures s.sind - 1 == Locate(iv.index.blocks.value, iv.val - 1).1
  {
    var qs := iv.index.blocks.value;
    s := IndSector(1, iv.val);
    while s.sind > BlockSize(iv.index, s.sector)
      invariant 1 <= s.sector <= |qs|
      invariant 1 <= s.sind
      invariant iv.val == SumSizes(qs[..s.sector - 1]) + s.sind
      invariant s.sind <= SumSizes(qs[s.sector - 1..])
      decreases |qs| - s.sector
    {
      var k := s.sector - 1;
      assert qs[k..][1..] == qs[k + 1..];
      SumSizesAppend(qs[..k], [qs[k]]);
      assert qs[..k + 1] == qs[..k] + [qs[k]];
      s := IndSector(s.sector + 1, s.sind - qs[k].size);
    }
    LocateUnique(qs, iv.val - 1, s.sector - 1, s.sind - 1);
  }

  /** IndexVal::qn(): the quantum number of the sector holding the value. */
  method IndexValQn(iv: IndexVal) returns (q: QN)
    requires QNConsistent(iv.index)
    requires 1 <= iv.val <= iv.index.dim
    ensures q == iv.index.blocks.value[Locate(iv.index.blocks.value, iv.val - 1).0].qn
  {
    var s := SectorInfo(iv);
    q := Qn(iv.index, s.sector);
  }

  /** QNblock: the first 1-based block carrying Q; an error without a descriptor or match. */
  method QNBlock(I: IndexValue, Q: QN) returns (r: Result<nat>)
    ensures r.Ok? ==> 1 <= r.value <= NBlock(I) && Qn(I, r.value) == Q
    ensures r.Ok? ==> forall j :: 1 <= j < r.value ==> Qn(I, j) != Q
    ensures r.Err? ==> forall j :: 1 <= j <= NBlock(I) ==> Qn(I, j) != Q
    ensures r == Err(NoQNBlocks) <==> !HasQNs(I)
    ensures r.Err? ==> r.error == NoQNBlocks || r.error == QNBlockNotFound
  {
    var n := 1;
    while n <= NBlock(I)
      invariant 1 <= n <= NBlock(I) + 1
      invariant forall j :: 1 <= j < n ==> Qn(I, j) != Q
    {
      if Qn(I, n) == Q {
        return Ok(n);
      }
      n := n + 1;
    }
    if !HasQNs(I) {
      return Err(NoQNBlocks);
    }
    return Err(QNBlockNotFound);
  }

  /** QNblockSize: the size of the block QNblock finds. */
  method QNBlockSize(I: IndexValue, Q: QN) returns (r: Result<nat>)
    ensures r.Ok? ==> exists j :: 1 <= j <= NBlock(I) && Qn(I, j) == Q && r.value == BlockSize(I, j) &&
                                 forall k :: 1 <= k < j ==> Qn(I, k) != Q
    ensures r.Err? <==> forall j :: 1 <= j <= NBlock(I) ==> Qn(I, j) != Q
    ensures r.Err? ==> (r.error == NoQNBlocks <==> !HasQNs(I))
    ensures r.Err? ==> r.error == NoQNBlocks || r.error == QNBlockNotFound
  {
    var b := QNBlock(I, Q);
    match b
    case Ok(j) =>
      r := Ok(BlockSize(I, j));
      assert 1 <= j <= NBlock(I) && Qn(I, j) == Q && r.value == BlockSize(I, j);
    case Err(e) =>
      r := Err(e);
  }

  // ---------------------------------------------------------------------------
  // Equality and ordering

  /** operator==: same id, same tags, same prime level. */
  predicate Equal(a: IndexValue, b: IndexValue)
  {
    a.id == b.id && a.tags == b.tags && a.primeLevel == b.primeLevel
  }

  /** operator!= */
  predicate NotEqual(a: IndexValue, b: IndexValue)
  {
    !Equal(a, b)
  }

  predicate EqualsIgnorePrime(a: IndexValue, b: IndexValue)
  {
    a.id == b.id && a.tags == b.tags
  }

  /** operator<: by dimension, then id, then prime level. */
  predicate Less(a: IndexValue, b: IndexValue)
  {
    if a.dim == b.dim then
      if a.id == b.id then a.primeLevel < b.primeLevel else a.id < b.id
    else a.dim < b.dim
  }

  /** operator> */
  predicate Greater(a: IndexValue, b: IndexValue)
  {
    if a.dim == b.dim then
      if a.id == b.id then a.primeLevel > b.primeLevel else a.id > b.id
    else a.dim > b.dim
  }

  /** == is an equivalence that ignores dim, arrow and descriptor; it refines
      equalsIgnorePrime, and a prime-level difference alone separates the two. */
  lemma EqualityFacts(a: IndexValue, b: IndexValue, c: IndexValue)
    ensures Equal(a, a) && EqualsIgnorePrime(a, a)
    ensures Equal(a, b) ==> Equal(b, a)
    ensures Equal(a, b) && Equal(b, c) ==> Equal(a, c)
    ensures NotEqual(a, b) <==> !Equal(a, b)
    ensures Equal(a, b) ==> EqualsIgnorePrime(a, b)
    ensures a.id == b.id && a.tags == b.tags && a.primeLevel != b.primeLevel ==>
              NotEqual(a, b) && EqualsIgnorePrime(a, b)
  {
  }

  /** < is a strict weak order whose ties are exactly equal (dim, id, prime level);
      > is its converse. */
  lemma OrderFacts(a: IndexValue, b: IndexValue, c: IndexValue)
    ensures !Less(a, a)
    ensures Less(a, b) ==> !Less(b, a)
    ensures Less(a, b) && Less(b, c) ==> Less(a, c)
    ensures !Less(a, b) && !Less(b, a) <==>
              a.dim == b.dim && a.id == b.id && a.primeLevel == b.primeLevel
    ensures Greater(a, b) <==> Less(b, a)
  {
  }

  /** IndexVal equality: equal Index and equal value. */
  predicate IndexValEqual(a: IndexVal, b: IndexVal)
  {
    Equal(a.index, b.index) && a.val == b.val
  }

  /** operator==(Index, IndexVal) and its mirror: compares the Index only. */
  predicate IndexMatchesVal(I: IndexValue, iv: IndexVal)
  {
    Equal(iv.index, I)
  }

  /** operator bool separates the null Index from every Index that was issued an id: the
      default Index is false, sim's result is true, and exactly the true ones can be written
      or paired with a value. */
  lemma TruthyFacts(I: IndexValue, v: int, freshId: nat)
    requires freshId != 0
    ensures !Truthy(DefaultIndex())
    ensures Truthy(Sim(I, freshId))
    ensures Truthy(I) <==> MakeIndexVal(I, v).Ok?
    ensures Truthy(I) <==> Write(I).Ok?
  {
  }

  /** IndexVal equality is Index equality plus equal values; an IndexVal made from I
      compares equal to I. */
  lemma IndexValFacts(I: IndexValue, v: int, a: IndexVal, b: IndexVal)
    requires Truthy(I)
    ensures IndexMatchesVal(I, MakeIndexVal(I, v).value)
    ensures IndexValEqual(a, b) <==> IndexMatchesVal(a.index, b) && a.val == b.val
    ensures IndexValEqual(a, b) ==> IndexValEqual(b, a)
  {
  }

  // ---------------------------------------------------------------------------
  // sim

  /** sim: a fresh id, the same dim and tags, re-primed to the same level;
      the arrow and descriptor are those of a newly dimensioned Index. */
  function Sim(I: IndexValue, freshId: nat): (J: IndexValue)
    requires freshId != 0
    ensures Truthy(J) && J.dim == I.dim && J.tags == I.tags && J.primeLevel == I.primeLevel
    ensures J.blocks.None? && J.dir == Out
    ensures J.id == freshId
    ensures freshId != I.id ==> !EqualsIgnorePrime(J, I) && NotEqual(J, I)
  {
    IndexValue(freshId, I.dim, 0, I.tags, Out, None).(primeLevel := 0 + I.primeLevel)
  }

  // ---------------------------------------------------------------------------
  // Tag-rewrite rules: tags(Index, string)

  predicate OccursAt(s: string, pat: string, k: nat)
  {
    k + |pat| <= |s| && s[k..k + |pat|] == pat
  }

  predicate Occurs(s: string, pat: string)
  {
    exists k: nat :: k <= |s| && OccursAt(s, pat, k)
  }

  /** std::string::find from position i: the first occurrence at or after i. */
  function FindFrom(s: string, pat: string, i: nat): (r: Option<nat>)
    ensures r.Some? ==> i <= r.value && OccursAt(s, pat, r.value)
    ensures r.Some? ==> forall k: nat :: i <= k < r.value ==> !OccursAt(s, pat, k)
    ensures r.None? ==> forall k: nat :: i <= k ==> !OccursAt(s, pat, k)
    decreases |s| - i
  {
    if i + |pat| > |s| then None
    else if s[i..i + |pat|] == pat then Some(i)
    else FindFrom(s, pat, i + 1)
  }

  function Find(s: string, pat: string): (r: Option<nat>)
    ensures r.Some? ==> OccursAt(s, pat, r.value)
    ensures r.Some? ==> forall k: nat :: k < r.value ==> !OccursAt(s, pat, k)
    ensures r.None? <==> !Occurs(s, pat)
  {
    FindFrom(s, pat, 0)
  }

  /** The erase/remove idiom that drops every space. */
  function StripSpaces(s: string): (r: string)
    ensures ' ' !in r
    ensures ' ' !in s ==> r == s
    ensures |s| == 1 ==> r == (if s[0] == ' ' then "" else s)
  {
    if |s| == 0 then ""
    else (if s[0] == ' ' then "" else [s[0]]) + StripSpaces(s[1..])
  }

  /** Stripping works piece by piece: with the one-character case above, this fixes the
      result as the non-space characters of s, kept in order. */
  lemma {:induction false} StripSpacesAppend(a: string, b: string)
    ensures StripSpaces(a + b) == StripSpaces(a) + StripSpaces(b)
  {
    if |a| == 0 {
      assert a + b == b;
    } else {
      assert (a + b)[0] == a[0];
      assert (a + b)[1..] == a[1..] + b;
      StripSpacesAppend(a[1..], b);
    }
  }

  /** tags(I, rule): "A<->B" swaps when exactly one of A, B is present; "->X" adds X;
      "A->B" replaces A by B when A is present; anything else is a format error. */
  function Tags(I: IndexValue, rule: string, parse: string -> TagSet): (r: Result<IndexValue>)
    ensures r.Err? <==> !Occurs(StripSpaces(rule), "->")
    ensures r.Err? ==> r.error == MalformedTagRule
    ensures r.Ok? ==> r.value == I.(tags := r.value.tags)
  {
    var str := StripSpaces(rule);
    match Find(str, "<->")
    case None =>
      (match Find(str, "->")
       case None => Err(MalformedTagRule)
       case Some(k) =>
         var oldTags := str[..k];
         var newTags := str[k + 2..];
         if oldTags == "" then Ok(I.(tags := AddTags(I.tags, parse(newTags))))
         else if HasTags(I.tags, parse(oldTags)) then
           Ok(I.(tags := ReplaceTags(I.tags, parse(oldTags), parse(newTags))))
         else Ok(I))
    case Some(k) =>
      assert OccursAt(str, "->", k + 1) by {
        assert str[k + 1..k + 3] == str[k..k + 3][1..];
      }
      var ts1 := parse(str[..k]);
      var ts2 := parse(str[k + 3..]);
      var has1 := HasTags(I.tags, ts1);
      var has2 := HasTags(I.tags, ts2);
      if has1 && has2 then Ok(I)
      else if has1 then Ok(I.(tags := ReplaceTags(I.tags, ts1, ts2)))
      else if has2 then Ok(I.(tags := ReplaceTags(I.tags, ts2, ts1)))
      else Ok(I)
  }

  /** "->X" adds the tags X. */
  lemma AddRule(I: IndexValue, x: string, parse: string -> TagSet)
    requires ' ' !in x && !Occurs(x, "<->")
    ensures Tags(I, "->" + x, parse) == Ok(I.(tags := I.tags + parse(x)))
  {
    var s := "->" + x;
    assert StripSpaces(s) == s;
    forall k: nat | k <= |s|
      ensures !OccursAt(s, "<->", k)
    {
      if k + 3 <= |s| {
        assert s[k..k + 3][0] == s[k] && s[k..k + 3][1] == s[k + 1];
        if k >= 2 {
          assert s[k..k + 3] == x[k - 2..k + 1];
          assert !OccursAt(x, "<->", k - 2);
        } else {
          assert s[0] == '-' && s[1] == '>';
        }
      }
    }
    assert OccursAt(s, "->", 0);
    assert s[..0] == "" && s[2..] == x;
  }

  /** "A->B" replaces A by B when the Index has A, and leaves it unchanged otherwise. */
  lemma ReplaceRule(I: IndexValue, a: string, b: string, parse: string -> TagSet)
    requires |a| > 0 && ' ' !in a && ' ' !in b
    requires !Occurs(a, "->") && a[|a| - 1] != '<' && !Occurs(b, "<->")
    ensures Tags(I, a + "->" + b, parse) ==
              if HasTags(I.tags, parse(a))
              then Ok(I.(tags := ReplaceTags(I.tags, parse(a), parse(b))))
              else Ok(I)
  {
    var s := a + "->" + b;
    var n := |a|;
    assert StripSpaces(s) == s;
    forall k: nat | k <= |s|
      ensures !OccursAt(s, "<->", k)
    {
      if k + 3 <= |s| {
        var w := s[k..k + 3];
        assert w[0] == s[k] && w[1] == s[k + 1] && w[2] == s[k + 2];
        if k + 3 <= n {
          assert w[1..] == a[k + 1..k + 3];
          assert !OccursAt(a, "->", k + 1);
        } else if k + 2 == n {
          assert s[k + 2] == '-';
        } else if k + 1 == n {
          assert s[k] == a[n - 1];
        } else if k == n {
          assert s[k] == '-';
        } else if k == n + 1 {
          assert s[k] == '>';
        } else {
          assert w == b[k - n - 2..k - n + 1];
          assert !OccursAt(b, "<->", k - n - 2);
        }
      }
    }
    forall k: nat | k < n
      ensures !OccursAt(s, "->", k)
    {
      if k + 2 <= n {
        assert s[k..k + 2] == a[k..k + 2];
        assert !OccursAt(a, "->", k);
      } else {
        assert s[k..k + 2][1] == s[k + 1] == '-';
      }
    }
    assert OccursAt(s, "->", n);
    assert s[..n] == a && s[n + 2..] == b;
  }

  /** "A<->B": unchanged when both or neither are present, otherwise the present one is
      replaced by the other. */
  lemma SwapRule(I: IndexValue, a: string, b: string, parse: string -> TagSet)
    requires ' ' !in a && ' ' !in b && !Occurs(a, "<->")
    ensures Tags(I, a + "<->" + b, parse) ==
              var hasA := HasTags(I.tags, parse(a));
              var hasB := HasTags(I.tags, parse(b));
              if hasA == hasB then Ok(I)
              else if hasA then Ok(I.(tags := ReplaceTags(I.tags, parse(a), parse(b))))
              else Ok(I.(tags := ReplaceTags(I.tags, parse(b), parse(a))))
  {
    var s := a + "<->" + b;
    var n := |a|;
    assert StripSpaces(s) == s;
    forall k: nat | k < n
      ensures !OccursAt(s, "<->", k)
    {
      var w := s[k..k + 3];
      assert w[1] == s[k + 1] && w[2] == s[k + 2];
      if k + 3 <= n {
        assert w == a[k..k + 3];
        assert !OccursAt(a, "<->", k);
      } else if k + 2 == n {
        assert s[k + 2] == '<';
      } else {
        assert s[k + 1] == '<';
      }
    }
    assert OccursAt(s, "<->", n);
    assert s[..n] == a && s[n + 3..] == b;
  }

  // ---------------------------------------------------------------------------
  // Prime marks: putprimes

  function DigitChar(d: nat): char
    requires d < 10
  {
    "0123456789"[d]
  }

  /** Decimal rendering of a natural number, as a stream prints it. */
  function Decimal(n: nat): (s: string)
    ensures |s| >= 1
    ensures forall i :: 0 <= i < |s| ==> '0' <= s[i] <= '9'
  {
    if n < 10 then [DigitChar(n)] else Decimal(n / 10) + [DigitChar(n % 10)]
  }

  function DigitsValue(s: string): int
  {
    if |s| == 0 then 0 else DigitsValue(s[..|s| - 1]) * 10 + (s[|s| - 1] as int - '0' as int)
  }

  lemma {:induction false} DecimalRoundTrip(n: nat)
    ensures DigitsValue(Decimal(n)) == n
  {
    var s := Decimal(n);
    if n >= 10 {
      DecimalRoundTrip(n / 10);
      assert s[..|s| - 1] == Decimal(n / 10);
    }
  }

  /** The marks after a rendered Index: one apostrophe per level up to 3, else ' and the level. */
  function PrimeMarks(plev: nat): string
  {
    if plev > 3 then "'" + Decimal(plev) else seq(plev, _ => '\'')
  }

  /** A level above 3 never renders like a level of at most 3. */
  lemma PrimeMarksHighLow(big: nat, small: nat)
    requires big > 3 && small <= 3
    ensures PrimeMarks(big) != PrimeMarks(small)
  {
    var hi, lo := PrimeMarks(big), PrimeMarks(small);
    assert hi[1] == Decimal(big)[0];
    assert |lo| == small;
    if small >= 2 {
      assert lo[1] == '\'';
    }
  }

  /** Different prime levels render differently. */
  lemma PrimeMarksInjective(p: nat, q: nat)
    ensures PrimeMarks(p) == PrimeMarks(q) <==> p == q
  {
    if p != q {
      if p > 3 && q > 3 {
        assert PrimeMarks(p)[1..] == Decimal(p);
        assert PrimeMarks(q)[1..] == Decimal(q);
        DecimalRoundTrip(p);
        DecimalRoundTrip(q);
      } else if p > 3 {
        PrimeMarksHighLow(p, q);
      } else if q > 3 {
        PrimeMarksHighLow(q, p);
      } else {
        assert |PrimeMarks(p)| == p && |PrimeMarks(q)| == q;
      }
    }
  }

  /** putprimes: append the prime marks of plev to s; a negative level is an error. */
  method PutPrimes(s: string, plev: int) returns (r: Result<string>)
    ensures plev < 0 ==> r == Err(NegativePrimeLevel)
    ensures plev >= 0 ==> r == Ok(s + PrimeMarks(plev))
  {
    if plev < 0 {
      return Err(NegativePrimeLevel);
    }
    var str := s;
    if plev > 3 {
      str := str + ("'" + Decimal(plev));
    } else {
      var i := 1;
      while i <= plev
        invariant 1 <= i <= plev + 1
        invariant str == s + seq(i - 1, _ => '\'')
      {
        assert seq(i, _ => '\'') == seq(i - 1, _ => '\'') + "'";
        str := str + "'";
        i := i + 1;
      }
    }
    r := Ok(str);
  }

  // ---------------------------------------------------------------------------
  // Serialised layout: write / read over a stream of fields

  /** One item of the stream. Ids are 64-bit; the legacy layout stored 32-bit ids. */
  datatype Field =
    | IntF(i: int)
    | TagsF(t: TagSet)
    | Id64F(id: nat)
    | Id32F(id32: nat)
    | ArrowF(a: Arrow)
    | QNF(q: QN)

  function EncodePairs(qs: seq<QNInt>): seq<Field>
  {
    if |qs| == 0 then [] else [QNF(qs[0].qn), IntF(qs[0].size)] + EncodePairs(qs[1..])
  }

  /** A descriptor: its length, then each (QN, size) pair. */
  function EncodeStore(qs: seq<QNInt>): seq<Field>
  {
    [IntF(|qs|)] + EncodePairs(qs)
  }

  /** Index::write: prime level, tags, id, dim, arrow, then the descriptor (empty when absent). */
  function Write(I: IndexValue): (r: Result<seq<Field>>)
    ensures r.Err? <==> !Truthy(I)
    ensures r.Err? ==> r.error == DefaultInitialized
    ensures r.Ok? ==> r.value == [IntF(I.primeLevel), TagsF(I.tags), Id64F(I.id), IntF(I.dim), ArrowF(I.dir)]
                                 + EncodeStore(if I.blocks.Some? then I.blocks.value else [])
  {
    if !Truthy(I) then Err(DefaultInitialized)
    else
      Ok([IntF(I.primeLevel), TagsF(I.tags), Id64F(I.id), IntF(I.dim), ArrowF(I.dir)]
         + EncodeStore(if I.blocks.Some? then I.blocks.value else []))
  }

  function DecodePairs(s: seq<Field>, n: nat): Result<(seq<QNInt>, seq<Field>)>
  {
    if n == 0 then Ok(([], s))
    else if |s| < 2 || !s[0].QNF? || !s[1].IntF? || s[1].i < 0 then Err(MalformedStream)
    else
      match DecodePairs(s[2..], n - 1)
      case Err(e) => Err(e)
      case Ok(t) => Ok(([QNInt(s[0].q, s[1].i)] + t.0, t.1))
  }

  function DecodeStore(s: seq<Field>): Result<(seq<QNInt>, seq<Field>)>
  {
    if |s| == 0 || !s[0].IntF? || s[0].i < 0 then Err(MalformedStream)
    else DecodePairs(s[1..], s[0].i)
  }

  lemma {:induction false} DecodeEncodePairs(qs: seq<QNInt>, rest: seq<Field>)
    ensures DecodePairs(EncodePairs(qs) + rest, |qs|) == Ok((qs, rest))
  {
    if |qs| > 0 {
      var s := EncodePairs(qs) + rest;
      assert s[0] == QNF(qs[0].qn) && s[1] == IntF(qs[0].size);
      assert s[2..] == EncodePairs(qs[1..]) + rest;
      DecodeEncodePairs(qs[1..], rest);
      assert [qs[0]] + qs[1..] == qs;
    } else {
      assert EncodePairs(qs) + rest == rest;
    }
  }

  /** Index::read into an Index whose current value is `target`: the fields in write order;
      a stored descriptor replaces the target's only when it is non-empty. The checked
      build rejects a negative prime level after reading. */
  function ReadSpec(s: seq<Field>, read32: bool, target: IndexValue): Result<(IndexValue, seq<Field>)>
  {
    if |s| < 5 || !s[0].IntF? || !s[1].TagsF? || !s[3].IntF? || !s[4].ArrowF? then Err(MalformedStream)
    else if (read32 && !s[2].Id32F?) || (!read32 && !s[2].Id64F?) then Err(MalformedStream)
    else
      var id := if read32 then s[2].id32 else s[2].id;
      match DecodeStore(s[5..])
      case Err(e) => Err(e)
      case Ok(t) =>
        var blocks := if |t.0| > 0 then Some(t.0) else target.blocks;
        if s[0].i < 0 then Err(NegativePrimeLevel)
        else Ok((IndexValue(id, s[3].i, s[0].i, s[1].t, s[4].a, blocks), t.1))
  }

  /** write then read (64-bit ids) gives back every field; an absent or empty descriptor
      leaves the reading Index's own descriptor in place. */
  lemma WriteReadRoundTrip(I: IndexValue, rest: seq<Field>, target: IndexValue)
    requires Truthy(I) && I.primeLevel >= 0
    ensures ReadSpec(Write(I).value + rest, false, target) ==
              Ok((I.(blocks := if I.blocks.Some? && |I.blocks.value| > 0 then I.blocks else target.blocks), rest))
  {
    var qs := if I.blocks.Some? then I.blocks.value else [];
    var s := Write(I).value + rest;
    assert s[5..] == EncodeStore(qs) + rest;
    assert (EncodeStore(qs) + rest)[1..] == EncodePairs(qs) + rest;
    DecodeEncodePairs(qs, rest);
  }

  /** Reading into a default Index reproduces the written one, with an empty descriptor
      coming back as none. */
  lemma WriteReadFresh(I: IndexValue)
    requires Truthy(I) && I.primeLevel >= 0
    ensures ReadSpec(Write(I).value, false, DefaultIndex()) ==
              Ok((I.(blocks := if I.blocks == Some([]) then None else I.blocks), []))
  {
    WriteReadRoundTrip(I, [], DefaultIndex());
    assert Write(I).value + [] == Write(I).value;
  }

  // ---------------------------------------------------------------------------
  // The Index object

  class Index {
    var id: nat
    var dim: int
    var primeLevel: int
    var tags: TagSet
    var dir: Arrow
    var blocks: Option<seq<QNInt>>

    function Value(): IndexValue
      reads this
    {
      IndexValue(id, dim, primeLevel, tags, dir, blocks)
    }

    /** Index(): the null Index, dimension 1, which is false as a boolean. */
    constructor ()
      ensures Value() == DefaultIndex()
      ensures !Truthy(Value()) && Value().dim == 1 && Value().primeLevel == 0
    {
      id, dim, primeLevel, tags, dir, blocks := 0, 1, 0, {}, Out, None;
    }

    /** Index(m, tags) with the id the generator issued. */
    constructor WithDim(m: int, t: TagSet, freshId: nat)
      requires freshId != 0
      ensures Value() == IndexValue(freshId, m, 0, t, Out, None)
      ensures Truthy(Value())
    {
      id, dim, primeLevel, tags, dir, blocks := freshId, m, 0, t, Out, None;
    }

    /** Index(blocks, tags): dimension totalM(blocks), arrow Out. */
    constructor FromBlocks(qs: seq<QNInt>, t: TagSet, freshId: nat)
      requires freshId != 0
      ensures Value() == IndexValue(freshId, SumSizes(qs), 0, t, Out, Some(qs))
      ensures QNConsistent(Value()) && NBlock(Value()) == |qs|
    {
      var m := TotalM(qs);
      id, dim, primeLevel, tags, dir, blocks := freshId, m, 0, t, Out, Some(qs);
    }

    /** Index(blocks, dir, tags): dimension totalM(blocks), the given arrow. */
    constructor FromBlocksDir(qs: seq<QNInt>, d: Arrow, t: TagSet, freshId: nat)
      requires freshId != 0
      ensures Value() == IndexValue(freshId, SumSizes(qs), 0, t, d, Some(qs))
      ensures QNConsistent(Value()) && NBlock(Value()) == |qs|
    {
      var m := TotalM(qs);
      id, dim, primeLevel, tags, dir, blocks := freshId, m, 0, t, d, Some(qs);
    }

    /** setPrime: only the prime level changes; `ok` is the checked build's sign check. */
    method SetPrime(plev: int) returns (ok: bool)
      modifies this
      ensures Value() == old(Value()).(primeLevel := plev)
      ensures ok <==> plev >= 0
    {
      primeLevel := plev;
      ok := primeLevel >= 0;
    }

    /** noPrime: prime level back to 0, nothing else changes. */
    method NoPrime()
      modifies this
      ensures Value() == old(Value()).(primeLevel := 0)
    {
      primeLevel := 0;
    }

    /** prime(inc): add inc to the prime level; `ok` is the checked build's sign check. */
    method Prime(inc: int) returns (ok: bool)
      modifies this
      ensures Value() == old(Value()).(primeLevel := old(primeLevel) + inc)
      ensures ok <==> primeLevel >= 0
    {
      primeLevel := primeLevel + inc;
      ok := primeLevel >= 0;
    }

    /** Index::read: fill the fields one after another from the stream. On success the
        remaining stream is returned; a malformed stream is an error. */
    method Read(s: seq<Field>, read32: bool) returns (r: Result<seq<Field>>)
      modifies this
      ensures r.Ok? <==> ReadSpec(s, read32, old(Value())).Ok?
      ensures r.Ok? ==> Value() == ReadSpec(s, read32, old(Value())).value.0
      ensures r.Ok? ==> r.value == ReadSpec(s, read32, old(Value())).value.1
      ensures r.Err? ==> r.error == ReadSpec(s, read32, old(Value())).error
    {
      ghost var before := Value();
      if |s| < 5 || !s[0].IntF? || !s[1].TagsF? || !s[3].IntF? || !s[4].ArrowF? {
        return Err(MalformedStream);
      }
      primeLevel := s[0].i;
      tags := s[1].t;
      if read32 {
        if !s[2].Id32F? {
          return Err(MalformedStream);
        }
        id := s[2].id32;
      } else {
        if !s[2].Id64F? {
          return Err(MalformedStream);
        }
        id := s[2].id;
      }
      dim := s[3].i;
      dir := s[4].a;
      var dat := DecodeStore(s[5..]);
      if dat.Err? {
        return Err(dat.error);
      }
      if |dat.value.0| > 0 {
        blocks := Some(dat.value.0);
      }
      if primeLevel < 0 {
        return Err(NegativePrimeLevel);
      }
      r := Ok(dat.value.1);
    }
  }

  /** prime(k) followed by prime(-k) restores the Index. */
  method PrimeThenUnprime(I: Index, k: int)
    modifies I
    ensures I.Value() == old(I.Value())
  {
    var _ := I.Prime(k);
    var _ := I.Prime(-k);
  }
}
