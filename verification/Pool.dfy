/** The bump allocator of include/pj/pool_i.h, in words of `w` bits and with alignment 2^k. */
module Pool {
  import opened Algebra
  import opened Bits
  import opened Bytes

  // ---------------------------------------------------------------------------------------------
  // Rounding a request
  // ---------------------------------------------------------------------------------------------

  /** The size that is taken from the block, in the arithmetic of pj_size_t. */
  function Rounded(size: nat, k: nat, w: nat): (r: nat)
    requires k <= w && size < Pow2(w)
  {
    AndHighMask(0, k, w);
    if And(size, Pow2(k) - 1) != 0 then And((size + Pow2(k)) % Pow2(w), Pow2(w) - Pow2(k)) else size
  }

  predicate IsLeastMultiple(r: nat, size: nat, a: nat)
    requires a > 0
  {
    r % a == 0 && size <= r < size + a
  }

  /** The largest requests wrap around instead of being rounded up. */
  predicate Wraps(size: nat, k: nat, w: nat) {
    size % Pow2(k) != 0 && Pow2(w) <= size + Pow2(k)
  }

  lemma {:induction false} PowerDivides(k: nat, w: nat)
    requires k <= w
    ensures Pow2(w) % Pow2(k) == 0 && Pow2(k) <= Pow2(w)
    decreases w
  {
    if k == w {
      ModUnique(Pow2(w), Pow2(k), 1, 0);
    } else {
      PowerDivides(k, w - 1);
      var q := Pow2(w - 1) / Pow2(k);
      DivBounds(Pow2(w - 1), Pow2(k));
      assert Pow2(w - 1) == q * Pow2(k);
      assert Pow2(w) == 2 * q * Pow2(k);
      ModUnique(Pow2(w), Pow2(k), 2 * q, 0);
    }
  }

  /** Rounding down x gives the multiple just below it. */
  lemma RoundDown(x: nat, a: nat)
    requires a > 0
    ensures (x - x % a) % a == 0 && x - x % a <= x < x - x % a + a
  {
    DivBounds(x, a);
    ModUnique(x - x % a, a, x / a, 0);
  }

  lemma RoundedValue(size: nat, k: nat, w: nat)
    requires k <= w && size < Pow2(w)
    ensures var a, t := Pow2(k), (size + Pow2(k)) % Pow2(w);
            Rounded(size, k, w) == if size % a == 0 then size else t - t % a
  {
    AndLowMask(size, k);
    AndHighMask((size + Pow2(k)) % Pow2(w), k, w);
  }

  lemma Distribute(p: int, q: int, a: int)
    ensures (p - q) * a == p * a - q * a
  {
  }

  lemma RoundedAligned(size: nat, k: nat, w: nat)
    requires k <= w && size < Pow2(w) && size % Pow2(k) == 0
    ensures Rounded(size, k, w) == size
  {
    hide Rounded, Pow2;
    RoundedValue(size, k, w);
  }

  /** The rounded size is the least multiple of the alignment that holds the request, unless it wraps to zero. */
  lemma RoundedIff(size: nat, k: nat, w: nat)
    requires k <= w && size < Pow2(w)
    ensures IsLeastMultiple(Rounded(size, k, w), size, Pow2(k)) <==> !Wraps(size, k, w)
    ensures Wraps(size, k, w) ==> Rounded(size, k, w) == 0 < size
  {
    hide Rounded, Pow2, IsLeastMultiple;
    var a, n := Pow2(k), Pow2(w);
    RoundedValue(size, k, w);
    PowerDivides(k, w);
    if size % a == 0 {
      AlignedAlready(size, a);
    } else if size + a < n {
      ModUnique(size + a, n, 0, size + a);
      RoundUp(size, a);
    } else {
      ModUnique(size + a, n, 1, size + a - n);
      ModUnique(size + a - n, a, 0, size + a - n);
      ZeroTooSmall(size, a);
    }
  }

  lemma AlignedAlready(size: nat, a: nat)
    requires a > 0 && size % a == 0
    ensures IsLeastMultiple(size, size, a)
  {
  }

  lemma RoundUp(size: nat, a: nat)
    requires a > 0 && size % a != 0
    ensures 0 <= (size + a) % a <= size + a
    ensures IsLeastMultiple(size + a - (size + a) % a, size, a)
  {
    AddOne(size, a);
    RoundDown(size + a, a);
  }

  lemma ZeroTooSmall(size: nat, a: nat)
    requires a > 0 && size % a != 0
    ensures size > 0 && !IsLeastMultiple(0, size, a)
  {
    if size == 0 { ModUnique(0, a, 0, 0); }
  }

  /** A request that wraps is answered without taking anything. */
  lemma WrapsTakeNothing(b: BlockState, size: nat, k: nat, w: nat)
    requires k <= w && size < Pow2(w) && Wraps(size, k, w)
    ensures Alloc(b, size, k, w) == (b, Some(b.cur))
  {
    hide Rounded, Pow2, Wraps;
    RoundedIff(size, k, w);
  }

  /** The last three sizes of a 32-bit word are such requests with the default alignment of 4. */
  lemma LargestRequest(b: BlockState)
    ensures 0xFFFF_FFFD < Pow2(32) && Rounded(0xFFFF_FFFD, 2, 32) == 0
    ensures Alloc(b, 0xFFFF_FFFD, 2, 32) == (b, Some(b.cur))
  {
    Pow2Values();
    assert Wraps(0xFFFF_FFFD, 2, 32);
    RoundedIff(0xFFFF_FFFD, 2, 32);
    WrapsTakeNothing(b, 0xFFFF_FFFD, 2, 32);
  }

  lemma AddOne(size: nat, a: nat)
    requires a > 0
    ensures (size + a) % a == size % a
  {
    DivBounds(size, a);
    assert (size / a + 1) * a == size / a * a + a;
    ModUnique(size + a, a, size / a + 1, size % a);
  }

  // ---------------------------------------------------------------------------------------------
  // One block
  // ---------------------------------------------------------------------------------------------

  /** Pointers are unbounded; sizes, and the difference of two pointers cast to a size, are words. */
  datatype BlockState = BlockState(buf: nat, cur: nat, end: nat) {
    ghost predicate Valid(w: nat) { buf <= cur <= end && end - cur < Pow2(w) }

    /** The free octets as the code sees them: many, if the cursor is behind the end. */
    function Room(w: nat): (r: nat) {
      (end - cur) % Pow2(w)
    }

    function Used(): int { cur - buf }
  }

  /** Octets start..start + size, handed out for a request of `asked` octets. */
  datatype Range = Range(start: nat, size: nat, asked: nat)

  /** A request that fits moves `cur` by the rounded size; one that does not changes nothing. */
  function Alloc(b: BlockState, size: nat, k: nat, w: nat): (BlockState, Option<nat>)
    requires k <= w && size < Pow2(w)
  {
    var r := Rounded(size, k, w);
    if b.Room(w) >= r then (b.(cur := b.cur + r), Some(b.cur)) else (b, None)
  }

  /** The state after a run of requests, and the ranges handed out in order. */
  function AllocRun(b: BlockState, sizes: seq<nat>, k: nat, w: nat): (BlockState, seq<Range>)
    requires k <= w && forall s <- sizes :: s < Pow2(w)
  {
    if sizes == [] then (b, [])
    else
      var n := |sizes| - 1;
      assert sizes[n] in sizes && forall s <- sizes[..n] :: s in sizes;
      var (b1, ranges) := AllocRun(b, sizes[..n], k, w);
      var (b2, ptr) := Alloc(b1, sizes[n], k, w);
      (b2, Granted(ranges, ptr, sizes[n], k, w))
  }

  /** The ranges handed out after one more answer. */
  function Granted(ranges: seq<Range>, ptr: Option<nat>, size: nat, k: nat, w: nat): seq<Range>
    requires k <= w && size < Pow2(w)
  {
    if ptr.None? then ranges else ranges + [Range(ptr.value, Rounded(size, k, w), size)]
  }

  function TotalSize(ranges: seq<Range>): nat {
    if ranges == [] then 0 else TotalSize(ranges[..|ranges| - 1]) + ranges[|ranges| - 1].size
  }

  /** Pairwise disjoint, in order, inside lo..hi, and large enough unless the request wrapped. */
  ghost predicate Safe(ranges: seq<Range>, lo: nat, hi: nat, k: nat, w: nat) {
    && (forall i :: 0 <= i < |ranges| ==>
          && lo <= ranges[i].start && ranges[i].start + ranges[i].size <= hi
          && ranges[i].size % Pow2(k) == 0
          && (!Wraps(ranges[i].asked, k, w) ==> ranges[i].asked <= ranges[i].size))
    && (forall i, j :: 0 <= i < j < |ranges| ==> ranges[i].start + ranges[i].size <= ranges[j].start)
  }

  lemma RoomOfValid(b: BlockState, w: nat)
    requires b.Valid(w)
    ensures b.Room(w) == b.end - b.cur
  {
    ModUnique(b.end - b.cur, Pow2(w), 0, b.end - b.cur);
  }

  lemma AllocKeeps(b: BlockState, size: nat, k: nat, w: nat)
    requires b.Valid(w) && k <= w && size < Pow2(w)
    ensures var (b', ptr) := Alloc(b, size, k, w);
            && b'.Valid(w) && b'.buf == b.buf && b'.end == b.end
            && (ptr.Some? <==> Rounded(size, k, w) <= b.end - b.cur)
            && (ptr.Some? ==> ptr.value == b.cur && b'.cur == b.cur + Rounded(size, k, w))
            && (ptr.None? ==> b' == b)
            && Rounded(size, k, w) % Pow2(k) == 0
            && (!Wraps(size, k, w) ==> size <= Rounded(size, k, w))
  {
    hide Rounded, Pow2;
    RoundedIff(size, k, w);
    RoomOfValid(b, w);
    if Wraps(size, k, w) { ModUnique(0, Pow2(k), 0, 0); }
  }

  /** One request keeps everything handed out since `lo` safe and accounted for. */
  lemma AllocStepSafe(b: BlockState, ranges: seq<Range>, lo: nat, size: nat, k: nat, w: nat)
    requires b.Valid(w) && k <= w && size < Pow2(w) && lo <= b.cur && Safe(ranges, lo, b.cur, k, w)
    ensures var (b', ptr) := Alloc(b, size, k, w);
            var ranges' := Granted(ranges, ptr, size, k, w);
            && b.cur <= b'.cur && Safe(ranges', lo, b'.cur, k, w)
            && b'.Used() == b.Used() + TotalSize(ranges') - TotalSize(ranges)
  {
    hide Alloc, Rounded, Pow2, Wraps, Safe;
    AllocKeeps(b, size, k, w);
    if Alloc(b, size, k, w).1.Some? {
      SafeAppend(ranges, lo, Range(b.cur, Rounded(size, k, w), size), k, w);
    }
  }

  /** Over any run: what is handed out is safe, and accounts exactly for the part of the block in use. */
  lemma {:induction false} AllocRunSafe(b: BlockState, sizes: seq<nat>, k: nat, w: nat)
    requires b.Valid(w) && k <= w && forall s <- sizes :: s < Pow2(w)
    ensures var (b', ranges) := AllocRun(b, sizes, k, w);
            && b'.Valid(w) && b'.buf == b.buf && b'.end == b.end && b.cur <= b'.cur
            && Safe(ranges, b.cur, b'.cur, k, w)
            && b'.Used() == b.Used() + TotalSize(ranges)
            && (Aligned(b.cur, k) ==> Aligned(b'.cur, k) && StartsAligned(ranges, k))
    decreases |sizes|
  {
    hide Alloc, Pow2, Granted, BlockState.Used, Aligned, StartsAligned;
    if sizes != [] {
      var n := |sizes| - 1;
      assert sizes[n] in sizes && forall s <- sizes[..n] :: s in sizes;
      AllocRunSafe(b, sizes[..n], k, w);
      var (b1, before) := AllocRun(b, sizes[..n], k, w);
      AllocKeeps(b1, sizes[n], k, w);
      AllocStepSafe(b1, before, b.cur, sizes[n], k, w);
      AllocStepAligned(b1, before, sizes[n], k, w);
    } else {
      NoneAligned(k);
    }
  }

  predicate Aligned(p: nat, k: nat) { p % Pow2(k) == 0 }

  /** Every address handed out is a multiple of the alignment. */
  predicate StartsAligned(ranges: seq<Range>, k: nat) {
    forall r <- ranges :: Aligned(r.start, k)
  }

  lemma NoneAligned(k: nat)
    ensures StartsAligned([], k)
  {
  }

  lemma AllocStepAligned(b: BlockState, ranges: seq<Range>, size: nat, k: nat, w: nat)
    requires b.Valid(w) && k <= w && size < Pow2(w)
    ensures Aligned(b.cur, k) && StartsAligned(ranges, k) ==>
              var (b', ptr) := Alloc(b, size, k, w);
              Aligned(b'.cur, k) && StartsAligned(Granted(ranges, ptr, size, k, w), k)
  {
    hide Rounded, Pow2;
    AllocKeeps(b, size, k, w);
    SumAligned(b.cur, Rounded(size, k, w), Pow2(k));
  }

  lemma SumAligned(x: nat, y: nat, a: nat)
    requires a > 0 && y % a == 0
    ensures x % a == 0 ==> (x + y) % a == 0
  {
    DivBounds(x, a);
    DivBounds(y, a);
    Distribute(x / a, -(y / a), a);
    if x % a == 0 { ModUnique(x + y, a, x / a + y / a, 0); }
  }

  lemma SafeAppend(ranges: seq<Range>, lo: nat, r: Range, k: nat, w: nat)
    requires Safe(ranges, lo, r.start, k, w) && lo <= r.start && r.size % Pow2(k) == 0
    requires !Wraps(r.asked, k, w) ==> r.asked <= r.size
    ensures Safe(ranges + [r], lo, r.start + r.size, k, w)
    ensures TotalSize(ranges + [r]) == TotalSize(ranges) + r.size
  {
    hide Pow2, Wraps;
    assert (ranges + [r])[..|ranges|] == ranges;
  }

  // ---------------------------------------------------------------------------------------------
  // A new block
  // ---------------------------------------------------------------------------------------------

  /** ALIGN_PTR: the pointer plus the low bits of its negation. */
  function AlignPtr(p: nat, k: nat, w: nat): nat {
    p + And((0 - p) % Pow2(w), Pow2(k) - 1)
  }

  /** ALIGN_PTR gives the least multiple of the alignment at or above the pointer. */
  lemma AlignPtrLeast(p: nat, k: nat, w: nat)
    requires k <= w
    ensures IsLeastMultiple(AlignPtr(p, k, w), p, Pow2(k))
  {
    hide Pow2, And, IsLeastMultiple;
    var n, a := Pow2(w), Pow2(k);
    PowerDivides(k, w);
    AndLowMask((0 - p) % n, k);
    Complement(n, p, a);
    PadCompletes(p, a);
  }

  /** The low part of the negated pointer is what is missing to the next multiple. */
  lemma Complement(n: nat, p: nat, a: nat)
    requires a > 0 && n > 0 && n % a == 0
    ensures (0 - p) % n % a == if p % a == 0 then 0 else a - p % a
  {
    var m, c, b := (0 - p) % n, (0 - p) / n, n / a;
    assert m == 0 - p - c * n;
    DivBounds(n, a);
    Associate(c, b, a);
    Distribute(0, c * b, a);
    Missing(m, p, 0 - c * b, a);
  }

  lemma Missing(m: nat, p: nat, e: int, a: nat)
    requires a > 0 && m + p == e * a
    ensures m % a == if p % a == 0 then 0 else a - p % a
  {
    DivBounds(p, a);
    Distribute(e, p / a, a);
    if p % a == 0 {
      RemainderIs(m, a, e - p / a, 0);
    } else {
      Distribute(e - p / a, 1, a);
      RemainderIs(m, a, e - p / a - 1, a - p % a);
    }
  }

  lemma Associate(c: int, b: int, a: int)
    ensures c * (b * a) == c * b * a
  {
  }

  lemma RemainderIs(x: nat, a: nat, q: int, r: nat)
    requires r < a && x == q * a + r
    ensures x % a == r
  {
    if q < 0 { MulMonoInt(q, -1, a); }
    ModUnique(x, a, q, r);
  }

  lemma PadCompletes(p: nat, a: nat)
    requires a > 0
    ensures IsLeastMultiple(p + if p % a == 0 then 0 else a - p % a, p, a)
  {
    DivBounds(p, a);
    if p % a != 0 {
      Distribute(p / a, -1, a);
      ModUnique(p + (a - p % a), a, p / a + 1, 0);
    }
  }

  /** A block in `size` octets at `addr`, behind a header, with the allocation pointer aligned. */
  function NewBlock(addr: nat, size: nat, header: nat, k: nat, w: nat): BlockState
  {
    BlockState(addr + header, AlignPtr(addr + header, k, w), addr + size)
  }

  // ---------------------------------------------------------------------------------------------
  // The structures
  // ---------------------------------------------------------------------------------------------

  class Block {
    const buf: nat
    var cur: nat
    const end: nat

    function State(): BlockState
      reads this
    {
      BlockState(buf, cur, end)
    }

    constructor (addr: nat, size: nat, header: nat, k: nat, w: nat)
      requires k <= w
      ensures State() == NewBlock(addr, size, header, k, w)
      ensures buf == addr + header && end == addr + size && IsLeastMultiple(cur, buf, Pow2(k))
    {
      buf := addr + header;
      end := addr + size;
      cur := AlignPtr(addr + header, k, w);
      AlignPtrLeast(addr + header, k, w);
    }

    method AllocFromBlock(size: nat, k: nat, w: nat) returns (ptr: Option<nat>)
      requires k <= w && size < Pow2(w)
      modifies this
      ensures (State(), ptr) == Alloc(old(State()), size, k, w)
      ensures old(State().Valid(w)) ==> State().Valid(w)
    {
      ghost var before := State();
      if before.Valid(w) { AllocKeeps(before, size, k, w); }
      AndHighMask(0, k, w);
      var rounded := size;
      if And(size, Pow2(k) - 1) != 0 {
        rounded := And((size + Pow2(k)) % Pow2(w), Pow2(w) - Pow2(k));
      }
      if (end - cur) % Pow2(w) >= rounded {
        ptr := Some(cur);
        cur := cur + rounded;
      } else {
        ptr := None;
      }
    }
  }

  /** sizeof(pj_pool_t) and sizeof(pj_pool_block) depend on the platform. */
  datatype Sizes = Sizes(pool: nat, block: nat)

  function UsedSize(blocks: seq<BlockState>, sizes: Sizes): int {
    if blocks == [] then sizes.pool
    else UsedSize(blocks[..|blocks| - 1], sizes) + blocks[|blocks| - 1].Used() + sizes.block
  }

  /** Octets between start and cursor, over all blocks. */
  ghost function InUse(blocks: seq<BlockState>): int {
    if blocks == [] then 0 else blocks[0].cur - blocks[0].buf + InUse(blocks[1..])
  }

  /** The pool, one header for each block, and what is in use. */
  lemma {:induction false} UsedSizeIs(blocks: seq<BlockState>, sizes: Sizes)
    ensures UsedSize(blocks, sizes) == sizes.pool + |blocks| * sizes.block + InUse(blocks)
    decreases |blocks|
  {
    if blocks != [] {
      var n := |blocks| - 1;
      UsedSizeIs(blocks[..n], sizes);
      InUseLast(blocks);
      OneMore(n, |blocks|, sizes.block);
    }
  }

  lemma {:induction false} InUseLast(blocks: seq<BlockState>)
    requires blocks != []
    ensures var n := |blocks| - 1; InUse(blocks) == InUse(blocks[..n]) + (blocks[n].cur - blocks[n].buf)
    decreases |blocks|
  {
    var n := |blocks| - 1;
    if n > 0 {
      InUseLast(blocks[1..]);
      assert blocks[1..][..n - 1] == blocks[..n][1..];
    }
  }

  lemma OneMore(k: nat, n: nat, x: nat)
    requires n == k + 1
    ensures n * x == k * x + x
  {
  }

  lemma {:induction false} UsedUpdate(blocks: seq<BlockState>, i: nat, b: BlockState, sizes: Sizes)
    requires i < |blocks|
    ensures UsedSize(blocks[i := b], sizes) == UsedSize(blocks, sizes) + b.Used() - blocks[i].Used()
    decreases |blocks|
  {
    var n := |blocks| - 1;
    if i == n {
      assert blocks[i := b][..n] == blocks[..n];
    } else {
      assert blocks[i := b][..n] == blocks[..n][i := b];
      UsedUpdate(blocks[..n], i, b, sizes);
    }
  }

  /** One allocation from block i raises the used size of the pool by exactly the rounded size, or by nothing. */
  lemma UsedGrows(blocks: seq<BlockState>, i: nat, size: nat, k: nat, w: nat, sizes: Sizes)
    requires i < |blocks| && blocks[i].Valid(w) && k <= w && size < Pow2(w)
    ensures var (b, ptr) := Alloc(blocks[i], size, k, w);
            UsedSize(blocks[i := b], sizes) == UsedSize(blocks, sizes) + if ptr.Some? then Rounded(size, k, w) else 0
  {
    hide Rounded, Alloc, Pow2, UsedSize;
    AllocKeeps(blocks[i], size, k, w);
    UsedUpdate(blocks, i, Alloc(blocks[i], size, k, w).0, sizes);
  }

  function States(blocks: seq<Block>): (states: seq<BlockState>)
    reads blocks
    ensures |states| == |blocks| && forall i :: 0 <= i < |blocks| ==> states[i] == blocks[i].State()
  {
    if blocks == [] then [] else States(blocks[..|blocks| - 1]) + [blocks[|blocks| - 1].State()]
  }

  method GetUsedSize(blocks: seq<Block>, sizes: Sizes) returns (used: int)
    ensures used == UsedSize(States(blocks), sizes)
  {
    used := sizes.pool;
    ghost var states := States(blocks);
    var i := 0;
    while i < |blocks|
      invariant 0 <= i <= |blocks| && used == UsedSize(states[..i], sizes)
    {
      used := used + (blocks[i].cur - blocks[i].buf) + sizes.block;
      assert states[..i + 1][..i] == states[..i];
      i := i + 1;
    }
    assert states[..i] == states;
  }
}
