/** A fixed-capacity bit set stored as a vector of 32-bit words: value `v`
    lives in bit `v % 32` of word `v / 32`. */
module BitSets {
  import opened Base
  import opened Bits

  /** `ITEM_BITS`, the width of one storage word. */
  const ItemBits: nat := 32

  datatype BitSet = BitSet(nbits: nat, storage: seq<bv32>)

  /** The position of value `v` inside its storage word. */
  function BitOf(v: nat): (b: bv5)
    ensures b as int == v % ItemBits
  {
    (v % ItemBits) as bv5
  }

  /** The values whose bits are set in `storage`. */
  ghost function Elems(storage: seq<bv32>): set<nat> {
    set j: nat | j < |storage| * ItemBits && Bit(storage[j / ItemBits], BitOf(j))
  }

  /** The word count `with_capacity` allocates: `(nbits + ITEM_BITS - 1) / ITEM_BITS`. */
  function WordsFor(nbits: nat): nat {
    (nbits + ItemBits - 1) / ItemBits
  }

  /** The representation invariant every public operation keeps: the storage
      has the allocated word count, and no bit at or above `nbits` is set. */
  ghost predicate Valid(bs: BitSet) {
    && |bs.storage| == WordsFor(bs.nbits)
    && forall j | j in Elems(bs.storage) :: j < bs.nbits
  }

  /** The set of values a bit set holds. */
  ghost function Model(bs: BitSet): set<nat> {
    Elems(bs.storage)
  }

  lemma WordsForCovers(nbits: nat)
    ensures WordsFor(nbits) * ItemBits >= nbits
    ensures WordsFor(nbits) == 0 || (WordsFor(nbits) - 1) * ItemBits < nbits
  {
  }

  lemma SameValue(j: nat, v: nat)
    ensures j == v <==> j / ItemBits == v / ItemBits && BitOf(j) == BitOf(v)
  {
  }

  /** `BitSet::with_capacity`: room for the values `0 .. nbits`, all absent. */
  function WithCapacity(nbits: nat): (bs: BitSet)
    ensures bs.nbits == nbits && Valid(bs)
    ensures |bs.storage| * ItemBits >= nbits
    ensures |bs.storage| == 0 || (|bs.storage| - 1) * ItemBits < nbits
    ensures forall i | 0 <= i < |bs.storage| :: bs.storage[i] == 0
    ensures Model(bs) == {}
  {
    var bs := BitSet(nbits, seq(WordsFor(nbits), _ => 0));
    WordsForCovers(nbits);
    assert Elems(bs.storage) == {} by {
      forall j: nat | j < |bs.storage| * ItemBits
        ensures !Bit(bs.storage[j / ItemBits], BitOf(j))
      {
        NoBitOfZero(BitOf(j));
      }
    }
    bs
  }

  /** `BitSet::contains`: membership of `v`, or `Overflow` when `v` is not
      below the capacity. */
  function Contains(bs: BitSet, v: nat): (r: Result<bool>)
    requires Valid(bs)
    ensures r.Err? <==> v >= bs.nbits
    ensures r.Err? ==> r.error == Overflow
    ensures r.Ok? ==> (r.value <==> v in Model(bs))
  {
    if v < bs.nbits then
      WordsForCovers(bs.nbits);
      Ok(Bit(bs.storage[v / ItemBits], BitOf(v)))
    else
      Err(Overflow)
  }

  /** `BitSet::insert`: the set after the call and the call's result.  An
      out-of-range value is refused and leaves the set as it was; inserting a
      member writes nothing. */
  function Insert(bs: BitSet, v: nat): (r: (BitSet, Result<()>))
    requires Valid(bs)
    ensures Valid(r.0) && r.0.nbits == bs.nbits
    ensures v >= bs.nbits ==> r == (bs, Err(Overflow))
    ensures v < bs.nbits ==> r.1 == Ok(()) && Model(r.0) == Model(bs) + {v}
    ensures v in Model(bs) ==> r.0 == bs
  {
    match Contains(bs, v)
    case Err(e) => (bs, Err(e))
    case Ok(present) =>
      if present then (bs, Ok(()))
      else
        WordsForCovers(bs.nbits);
        (bs.(storage := SetValue(bs.storage, v)), Ok(()))
  }

  /** `BitSet::remove`: the set after the call and the call's result.  An
      out-of-range value is refused and leaves the set as it was; removing a
      non-member writes nothing. */
  function Remove(bs: BitSet, v: nat): (r: (BitSet, Result<()>))
    requires Valid(bs)
    ensures Valid(r.0) && r.0.nbits == bs.nbits
    ensures v >= bs.nbits ==> r == (bs, Err(Overflow))
    ensures v < bs.nbits ==> r.1 == Ok(()) && Model(r.0) == Model(bs) - {v}
    ensures v !in Model(bs) ==> r.0 == bs
  {
    match Contains(bs, v)
    case Err(e) => (bs, Err(e))
    case Ok(present) =>
      if !present then (bs, Ok(()))
      else
        WordsForCovers(bs.nbits);
        (bs.(storage := ClearValue(bs.storage, v)), Ok(()))
  }

  /** A fresh set answers `Ok(false)` for every value below the capacity
      and `Overflow` for every other. */
  lemma FreshSetIsEmpty(nbits: nat, v: nat)
    ensures Contains(WithCapacity(nbits), v) == if v < nbits then Ok(false) else Err(Overflow)
  {
  }

  /** After an accepted `insert(v)`, `v` is a member and every other value
      answers as before. */
  lemma InsertThenContains(bs: BitSet, v: nat, u: nat)
    requires Valid(bs) && v < bs.nbits
    ensures Contains(Insert(bs, v).0, u) == if u == v then Ok(true) else Contains(bs, u)
  {
    ContainsByModel(bs, u);
    ContainsByModel(Insert(bs, v).0, u);
  }

  /** After an accepted `remove(v)`, `v` is not a member and every other value
      answers as before. */
  lemma RemoveThenContains(bs: BitSet, v: nat, u: nat)
    requires Valid(bs) && v < bs.nbits
    ensures Contains(Remove(bs, v).0, u) == if u == v then Ok(false) else Contains(bs, u)
  {
    ContainsByModel(bs, u);
    ContainsByModel(Remove(bs, v).0, u);
  }

  /** `contains` answers from the set's value alone. */
  lemma ContainsByModel(bs: BitSet, u: nat)
    requires Valid(bs)
    ensures Contains(bs, u) == if u < bs.nbits then Ok(u in Model(bs)) else Err(Overflow)
  {
  }

  /** Inserting twice is inserting once: the second call succeeds and
      writes nothing. */
  lemma InsertIdempotent(bs: BitSet, v: nat)
    requires Valid(bs) && v < bs.nbits
    ensures Insert(Insert(bs, v).0, v) == (Insert(bs, v).0, Ok(()))
  {
  }

  /** `remove` undoes `insert`: inserting a value and removing it again
      leaves the members as they were, except that the value is now absent
      even if it had been a member. */
  lemma InsertThenRemove(bs: BitSet, v: nat)
    requires Valid(bs) && v < bs.nbits
    ensures Model(Remove(Insert(bs, v).0, v).0) == Model(bs) - {v}
    ensures v !in Model(bs) ==> Model(Remove(Insert(bs, v).0, v).0) == Model(bs)
  {
    var inserted := Insert(bs, v).0;
    assert Model(inserted) == Model(bs) + {v};
    assert Model(Remove(inserted, v).0) == (Model(bs) + {v}) - {v};
  }

  /** `storage[v / ITEM_BITS] |= 1 << (v % ITEM_BITS)`. */
  function SetValue(s: seq<bv32>, v: nat): (s': seq<bv32>)
    requires v < |s| * ItemBits
    ensures |s'| == |s| && Elems(s') == Elems(s) + {v}
  {
    InsertElems(s, v);
    s[v / ItemBits := s[v / ItemBits] | (1 << BitOf(v))]
  }

  /** `storage[v / ITEM_BITS] &= !(1 << (v % ITEM_BITS))`. */
  function ClearValue(s: seq<bv32>, v: nat): (s': seq<bv32>)
    requires v < |s| * ItemBits
    ensures |s'| == |s| && Elems(s') == Elems(s) - {v}
  {
    RemoveElems(s, v);
    s[v / ItemBits := s[v / ItemBits] & !(1 << BitOf(v))]
  }

  lemma InsertElems(s: seq<bv32>, v: nat)
    requires v < |s| * ItemBits
    ensures Elems(s[v / ItemBits := s[v / ItemBits] | (1 << BitOf(v))]) == Elems(s) + {v}
  {
    var s' := s[v / ItemBits := s[v / ItemBits] | (1 << BitOf(v))];
    forall j: nat | j < |s| * ItemBits
      ensures Bit(s'[j / ItemBits], BitOf(j)) <==> Bit(s[j / ItemBits], BitOf(j)) || j == v
    {
      InsertPoint(s, v, j);
    }
  }

  lemma InsertPoint(s: seq<bv32>, v: nat, j: nat)
    requires v < |s| * ItemBits && j < |s| * ItemBits
    ensures var s' := s[v / ItemBits := s[v / ItemBits] | (1 << BitOf(v))];
      Bit(s'[j / ItemBits], BitOf(j)) <==> Bit(s[j / ItemBits], BitOf(j)) || j == v
  {
    SameValue(j, v);
    SetBit(s[v / ItemBits], BitOf(v), BitOf(j));
  }

  lemma RemoveElems(s: seq<bv32>, v: nat)
    requires v < |s| * ItemBits
    ensures Elems(s[v / ItemBits := s[v / ItemBits] & !(1 << BitOf(v))]) == Elems(s) - {v}
  {
    var s' := s[v / ItemBits := s[v / ItemBits] & !(1 << BitOf(v))];
    forall j: nat | j < |s| * ItemBits
      ensures Bit(s'[j / ItemBits], BitOf(j)) <==> Bit(s[j / ItemBits], BitOf(j)) && j != v
    {
      RemovePoint(s, v, j);
    }
  }

  lemma RemovePoint(s: seq<bv32>, v: nat, j: nat)
    requires v < |s| * ItemBits && j < |s| * ItemBits
    ensures var s' := s[v / ItemBits := s[v / ItemBits] & !(1 << BitOf(v))];
      Bit(s'[j / ItemBits], BitOf(j)) <==> Bit(s[j / ItemBits], BitOf(j)) && j != v
  {
    SameValue(j, v);
    ClearBit(s[v / ItemBits], BitOf(v), BitOf(j));
  }

  /** `Iter`: the words being scanned, the value number of bit 0 of the
      current word, and the bits of the current word not yet yielded. */
  datatype Iter = Iter(data: seq<bv32>, offset: nat, block: bv32)

  /** The values still held by the current word `block`, whose bit 0 is the
      value `offset` (a multiple of 32). */
  ghost function BlockElems(block: bv32, offset: nat): set<nat> {
    set j: nat | offset <= j < offset + ItemBits && Bit(block, BitOf(j))
  }

  /** The values set in `data` from value number `k` on. */
  ghost function Later(data: seq<bv32>, k: nat): set<nat> {
    set j: nat | k <= j < |data| * ItemBits && Bit(data[j / ItemBits], BitOf(j))
  }

  /** The values the iterator has still to yield. */
  ghost function Pending(it: Iter): set<nat> {
    BlockElems(it.block, it.offset) + Later(it.data, it.offset + ItemBits)
  }

  /** The iterator's offset always points at the start of a word. */
  ghost predicate Aligned(it: Iter) {
    it.offset % ItemBits == 0
  }

  /** `BitSet::iter`: a scan that starts at word 0, which it reads at once, so
      the set must have room for at least one value. */
  function Iterate(bs: BitSet): (it: Iter)
    requires Valid(bs) && bs.nbits >= 1
    ensures it.data == bs.storage && Aligned(it)
    ensures Pending(it) == Model(bs)
  {
    WordsForCovers(bs.nbits);
    SplitLater(bs.storage, 0);
    Iter(bs.storage, 0, bs.storage[0])
  }

  /** `Iter::next`: the next value and the advanced iterator.  While the
      current word has a bit left, yield its lowest one and clear it;
      otherwise move to the next word, and stop after the last. */
  function Next(it: Iter): (r: (Option<nat>, Iter))
    requires Aligned(it)
    ensures r.1.data == it.data && Aligned(r.1)
    decreases if it.offset < |it.data| * ItemBits then |it.data| * ItemBits - it.offset else 0
  {
    if it.block != 0 then
      (Some(it.offset + TrailingZeros(it.block) as int), it.(block := it.block & (it.block - 1)))
    else
      var offset := it.offset + ItemBits;
      if offset < |it.data| * ItemBits then
        Next(Iter(it.data, offset, it.data[offset / ItemBits]))
      else
        (None, it.(offset := offset))
  }

  /** Strictly increasing, hence free of repetitions. */
  ghost predicate StrictlyAscending(s: seq<nat>) {
    forall i, j | 0 <= i < j < |s| :: s[i] < s[j]
  }

  /** `bs.iter().collect()`: every member of the set exactly once, in
      ascending order, and nothing at or above the capacity. */
  method Collect(bs: BitSet) returns (values: seq<nat>)
    requires Valid(bs) && bs.nbits >= 1
    ensures StrictlyAscending(values)
    ensures forall v :: v in values <==> v in Model(bs)
    ensures forall i | 0 <= i < |values| :: values[i] < bs.nbits
  {
    var it := Iterate(bs);
    values := [];
    while true
      invariant it.data == bs.storage && Aligned(it)
      invariant forall v :: v in Model(bs) <==> v in values || v in Pending(it)
      invariant StrictlyAscending(values)
      invariant values != [] ==> forall x | x in Pending(it) :: values[|values| - 1] < x
      decreases |Pending(it)|
    {
      var step := Next(it);
      NextYieldsLeast(it);
      if step.0.None? {
        break;
      }
      var v := step.0.value;
      PastYielded(it);
      AppendAscending(values, v);
      values := values + [v];
      it := step.1;
    }
    forall i | 0 <= i < |values|
      ensures values[i] < bs.nbits
    {
      assert values[i] in Model(bs);
    }
  }

  lemma AppendAscending(s: seq<nat>, v: nat)
    requires StrictlyAscending(s) && (s != [] ==> s[|s| - 1] < v)
    ensures StrictlyAscending(s + [v])
  {
    forall i, j | 0 <= i < j < |s| + 1
      ensures (s + [v])[i] < (s + [v])[j]
    {
      if j == |s| && i < |s| - 1 {
        assert s[i] < s[|s| - 1];
      }
    }
  }

  /** Everything still pending after a yield lies above the yielded value. */
  lemma PastYielded(it: Iter)
    requires Aligned(it) && Next(it).0.Some?
    ensures forall x | x in Pending(Next(it).1) :: Next(it).0.value < x
  {
    var r := Next(it);
    NextYieldsLeast(it);
    LeastRemoved(r.0.value, Pending(it), Pending(r.1));
  }

  lemma LeastRemoved(v: nat, p: set<nat>, q: set<nat>)
    requires forall x | x in p :: v <= x
    requires q == p - {v}
    ensures forall x | x in q :: v < x
  {
  }

  /** Two strictly ascending sequences with the same members are equal: the
      iteration order is determined by the set alone. */
  lemma {:induction false} AscendingUnique(a: seq<nat>, b: seq<nat>)
    requires StrictlyAscending(a) && StrictlyAscending(b)
    requires forall v :: v in a <==> v in b
    ensures a == b
    decreases |a|
  {
    NonEmptyWith(a, b);
    NonEmptyWith(b, a);
    if a != [] {
      assert a[0] == b[0] by {
        assert a[0] in b && b[0] in a;
      }
      forall v
        ensures v in a[1..] <==> v in b[1..]
      {
        if v in a[1..] {
          assert v in b;
        }
        if v in b[1..] {
          assert v in a;
        }
      }
      AscendingUnique(a[1..], b[1..]);
      assert a == [a[0]] + a[1..] && b == [b[0]] + b[1..];
    }
  }

  lemma NonEmptyWith(a: seq<nat>, b: seq<nat>)
    requires forall v :: v in a <==> v in b
    ensures a != [] ==> b != []
  {
    if a != [] {
      assert a[0] in b;
    }
  }

  /** The crate's iteration test: an empty set of capacity 256 yields nothing;
      after inserting 1, 12, 123 and 255 (and failing to insert 512) it yields
      exactly those, in order. */
  method IteratesInOrder() returns (before: seq<nat>, after: seq<nat>)
    ensures before == [] && after == [1, 12, 123, 255]
  {
    var bs := WithCapacity(256);
    before := Collect(bs);
    assert before == [] by {
      AscendingUnique(before, []);
    }
    var overflow;
    bs, overflow := InsertSample(bs);
    after := Collect(bs);
    assert forall v :: v in after <==> v in [1, 12, 123, 255] by {
      assert Model(bs) == {1, 12, 123, 255};
    }
    AscendingUnique(after, [1, 12, 123, 255]);
  }

  /** The test's inserts into an empty set of capacity 256: the four values
      are accepted and 512 is refused. */
  method InsertSample(empty: BitSet) returns (bs: BitSet, overflow: Result<()>)
    requires Valid(empty) && empty.nbits == 256 && Model(empty) == {}
    ensures Valid(bs) && bs.nbits == 256
    ensures Model(bs) == {1, 12, 123, 255} && overflow == Err(Overflow)
  {
    var r := Insert(empty, 1);
    bs := r.0;
    assert Model(bs) == {1};
    r := Insert(bs, 12);
    bs := r.0;
    assert Model(bs) == {1, 12};
    r := Insert(bs, 123);
    bs := r.0;
    assert Model(bs) == {1, 12, 123};
    r := Insert(bs, 255);
    bs := r.0;
    r := Insert(bs, 512);
    overflow := r.1;
  }

  /** What one step promises: it yields the least pending value and removes
      exactly it, and it reports exhaustion exactly when nothing is pending,
      leaving nothing pending. */
  ghost predicate StepsToLeast(it: Iter, r: (Option<nat>, Iter)) {
    && (r.0.None? <==> Pending(it) == {})
    && (r.0.None? ==> Pending(r.1) == {})
    && (r.0.Some? ==>
          && r.0.value in Pending(it)
          && (forall x | x in Pending(it) :: r.0.value <= x)
          && Pending(r.1) == Pending(it) - {r.0.value})
  }

  /** Every call of `next` steps to the least pending value. */
  lemma {:induction false} NextYieldsLeast(it: Iter)
    requires Aligned(it)
    ensures StepsToLeast(it, Next(it))
    decreases if it.offset < |it.data| * ItemBits then |it.data| * ItemBits - it.offset else 0, 1
  {
    if it.block != 0 {
      BlockStep(it);
    } else if it.offset + ItemBits < |it.data| * ItemBits {
      NextWordStep(it);
    } else {
      LastWordStep(it);
    }
  }

  /** An exhausted word moves on to the next one, which holds the same
      pending values. */
  lemma {:induction false} NextWordStep(it: Iter)
    requires Aligned(it) && it.block == 0 && it.offset + ItemBits < |it.data| * ItemBits
    ensures StepsToLeast(it, Next(it))
    decreases |it.data| * ItemBits - it.offset, 0
  {
    var offset := it.offset + ItemBits;
    var it' := Iter(it.data, offset, it.data[offset / ItemBits]);
    EmptyBlock(it.offset);
    SplitLater(it.data, offset);
    assert Pending(it') == Pending(it);
    NextYieldsLeast(it');
    assert Next(it) == Next(it');
  }

  /** An exhausted last word ends the iteration. */
  lemma LastWordStep(it: Iter)
    requires Aligned(it) && it.block == 0 && it.offset + ItemBits >= |it.data| * ItemBits
    ensures StepsToLeast(it, Next(it))
  {
    var offset := it.offset + ItemBits;
    var it' := it.(offset := offset);
    EmptyBlock(it.offset);
    EmptyBlock(offset);
    assert Later(it.data, offset) == {};
    assert Later(it.data, offset + ItemBits) == {};
    assert Pending(it) == {} && Pending(it') == {};
    assert Next(it) == (None, it');
  }

  lemma EmptyBlock(offset: nat)
    ensures BlockElems(0, offset) == {}
  {
    forall j: nat | offset <= j < offset + ItemBits
      ensures !Bit(0, BitOf(j))
    {
      NoBitOfZero(BitOf(j));
    }
  }

  /** A non-empty word yields `offset + trailing_zeros`, the least pending
      value, and `block &= block - 1` drops exactly that value. */
  lemma BlockStep(it: Iter)
    requires Aligned(it) && it.block != 0
    ensures StepsToLeast(it, Next(it))
  {
    NextOfBlock(it);
    YieldIsLeast(it);
    YieldRemoved(it);
  }

  lemma NextOfBlock(it: Iter)
    requires Aligned(it) && it.block != 0
    ensures Next(it) == (Some(it.offset + TrailingZeros(it.block) as int),
                         it.(block := it.block & (it.block - 1)))
  {
  }

  lemma YieldIsLeast(it: Iter)
    requires Aligned(it) && it.block != 0
    ensures it.offset + TrailingZeros(it.block) as int in Pending(it)
    ensures forall x | x in Pending(it) :: it.offset + TrailingZeros(it.block) as int <= x
  {
    BlockLeast(it.block, it.offset);
    LaterAbove(it.data, it.offset + ItemBits);
    UnionLeast(it.offset + TrailingZeros(it.block) as int, BlockElems(it.block, it.offset),
               Later(it.data, it.offset + ItemBits), it.offset + ItemBits);
  }

  lemma YieldRemoved(it: Iter)
    requires Aligned(it) && it.block != 0
    ensures Pending(it.(block := it.block & (it.block - 1)))
         == Pending(it) - {it.offset + TrailingZeros(it.block) as int}
  {
    BlockClear(it.block, it.offset);
    LaterAbove(it.data, it.offset + ItemBits);
    UnionRemove(it.offset + TrailingZeros(it.block) as int, BlockElems(it.block, it.offset),
                Later(it.data, it.offset + ItemBits), it.offset + ItemBits);
  }

  /** The least element of the lower part is the least of the union. */
  lemma UnionLeast(v: nat, low: set<nat>, high: set<nat>, bound: nat)
    requires v in low && (forall x | x in low :: v <= x)
    requires v < bound && forall x | x in high :: bound <= x
    ensures v in low + high && forall x | x in low + high :: v <= x
  {
  }

  /** Removing a value below `bound` from the union removes it from the lower part. */
  lemma UnionRemove(v: nat, low: set<nat>, high: set<nat>, bound: nat)
    requires v < bound && forall x | x in high :: bound <= x
    ensures (low - {v}) + high == (low + high) - {v}
  {
  }

  lemma LaterAbove(data: seq<bv32>, k: nat)
    ensures forall x | x in Later(data, k) :: k <= x
  {
  }

  /** A value in the word that starts at the aligned `off` sits at bit
      `j - off` of word `off / 32`. */
  lemma InWord(j: nat, off: nat)
    requires off % ItemBits == 0 && off <= j < off + ItemBits
    ensures j % ItemBits == j - off && j / ItemBits == off / ItemBits
  {
    var q := off / ItemBits;
    assert off == ItemBits * q;
    assert j == ItemBits * q + (j - off);
  }

  lemma Bv5Order(a: bv5, b: bv5)
    requires a as int < b as int
    ensures a < b
  {
  }

  lemma BitOfLowest(b: bv32, off: nat)
    requires off % ItemBits == 0 && b != 0
    ensures BitOf(off + TrailingZeros(b) as int) == TrailingZeros(b)
  {
  }

  lemma BlockLeast(b: bv32, off: nat)
    requires off % ItemBits == 0 && b != 0
    ensures off + TrailingZeros(b) as int in BlockElems(b, off)
    ensures forall x | x in BlockElems(b, off) :: off + TrailingZeros(b) as int <= x
  {
    BitOfLowest(b, off);
    forall x | x in BlockElems(b, off)
      ensures off + TrailingZeros(b) as int <= x
    {
      LowestIsLeast(b, off, x);
    }
  }

  lemma LowestIsLeast(b: bv32, off: nat, x: nat)
    requires off % ItemBits == 0 && b != 0
    requires off <= x < off + ItemBits && Bit(b, BitOf(x))
    ensures off + TrailingZeros(b) as int <= x
  {
    var t := TrailingZeros(b);
    if x < off + t as int {
      InWord(x, off);
      Bv5Order(BitOf(x), t);
      TrailingZerosIsLowest(b, BitOf(x));
    }
  }

  lemma ClearsLowest(b: bv32, off: nat, j: nat)
    requires off % ItemBits == 0 && b != 0 && off <= j < off + ItemBits
    ensures Bit(b & (b - 1), BitOf(j)) <==> Bit(b, BitOf(j)) && j != off + TrailingZeros(b) as int
  {
    InWord(j, off);
    BitOfLowest(b, off);
    ClearTrailingBit(b, BitOf(j));
  }

  lemma BlockClear(b: bv32, off: nat)
    requires off % ItemBits == 0 && b != 0
    ensures BlockElems(b & (b - 1), off) == BlockElems(b, off) - {off + TrailingZeros(b) as int}
  {
    forall j: nat | off <= j < off + ItemBits
      ensures Bit(b & (b - 1), BitOf(j)) <==> Bit(b, BitOf(j)) && j != off + TrailingZeros(b) as int
    {
      ClearsLowest(b, off, j);
    }
  }

  /** The values from word boundary `k` on are those of word `k / 32` and
      those from the next boundary on. */
  lemma SplitLater(data: seq<bv32>, k: nat)
    requires k % ItemBits == 0 && k < |data| * ItemBits
    ensures Later(data, k) == BlockElems(data[k / ItemBits], k) + Later(data, k + ItemBits)
  {
    forall j: nat | k <= j < k + ItemBits
      ensures j / ItemBits == k / ItemBits
    {
      InWord(j, k);
    }
  }
}
