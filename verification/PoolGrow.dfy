/**
 The growing pool of pjlibs/pjlib/src/pj/pool.c: requests go to the first block with room, and when none
 has room a block is added in front. Memory for it comes from outside, or does not come.
 */
module PoolGrow {
  import opened Algebra
  import opened Bits
  import opened Bytes
  import opened Pool

  /** How a pool is set up: alignment 2^k in words of w bits, sizeof(pj_pool_block), increment_size. */
  datatype Setup = Setup(k: nat, w: nat, header: nat, increment: nat) {
    ghost predicate Valid() { k <= w && increment < Pow2(w) && header + Pow2(k) < Pow2(w) }

    /** The octets a block needs so that `size` octets surely fit, before any wrap-around. */
    function Need(size: nat): nat { size + header + Pow2(k) }

    /** The size of the new block is not spoilt by wrap-around. */
    predicate Reckons(size: nat) {
      Need(size) <= increment || Need(size) + increment < Pow2(w)
    }
  }

  // ---------------------------------------------------------------------------------------------
  // The size of a new block
  // ---------------------------------------------------------------------------------------------

  /** Every sum is taken in pj_size_t; the product cannot exceed the sum it comes from. */
  function BlockSize(size: nat, s: Setup): (n: nat)
    requires s.increment > 0
  {
    var sum := (s.Need(size) + s.increment) % Pow2(s.w);
    if s.increment < s.Need(size) % Pow2(s.w) then
      MulMono(0, sum / s.increment, s.increment);
      sum / s.increment * s.increment
    else s.increment
  }

  /** The block is as large as the request needs exactly if the reckoning does not wrap. */
  lemma BlockSizeEnoughIff(size: nat, s: Setup)
    requires s.Valid() && s.increment > 0 && size < Pow2(s.w)
    ensures s.Need(size) <= BlockSize(size, s) <==> s.Reckons(size)
    ensures s.Reckons(size) ==> BlockSize(size, s) <= s.Need(size) + s.increment
    ensures BlockSize(size, s) < Pow2(s.w)
  {
    hide Pow2;
    var n, t, inc := Pow2(s.w), s.Need(size), s.increment;
    DivBounds((t + inc) % n, inc);
    if t < n {
      ModUnique(t, n, 0, t);
      if t + inc < n { ModUnique(t + inc, n, 0, t + inc); } else { WrappedSum(t, inc, n); }
    }
  }

  lemma WrappedSum(t: nat, inc: nat, n: nat)
    requires t < n <= t + inc && 0 < inc < n
    ensures (t + inc) % n / inc * inc == 0
  {
    ModUnique(t + inc, n, 1, t + inc - n);
    ModUnique(t + inc - n, inc, 0, t + inc - n);
  }

  /** Always a whole number of increments: one if that covers the need, otherwise the least that exceeds it. */
  lemma BlockSizeIs(size: nat, s: Setup)
    requires s.Valid() && s.increment > 0 && size < Pow2(s.w)
    ensures BlockSize(size, s) % s.increment == 0
    ensures s.Reckons(size) ==>
              if s.Need(size) <= s.increment then BlockSize(size, s) == s.increment
              else s.Need(size) < BlockSize(size, s) <= s.Need(size) + s.increment
  {
    hide Pow2;
    var n, t, inc := Pow2(s.w), s.Need(size), s.increment;
    var sum := (t + inc) % n;
    ModUnique(sum / inc * inc, inc, sum / inc, 0);
    ModUnique(inc, inc, 1, 0);
    if s.Reckons(size) {
      ModUnique(t, n, 0, t);
      if inc < t {
        ModUnique(t + inc, n, 0, t + inc);
        DivBounds(sum, inc);
      }
    }
  }

  /** What comes out instead: nothing, one increment, or what the wrapped sum gives. */
  lemma WrappedBlockSize(size: nat, s: Setup)
    requires s.Valid() && s.increment > 0 && size < Pow2(s.w) && !s.Reckons(size)
    ensures s.Need(size) < Pow2(s.w) ==> BlockSize(size, s) == 0
    ensures Pow2(s.w) <= s.Need(size) <= Pow2(s.w) + s.increment ==> BlockSize(size, s) == s.increment
  {
    hide Pow2;
    var n, t := Pow2(s.w), s.Need(size);
    if t < n {
      ModUnique(t, n, 0, t);
      WrappedSum(t, s.increment, n);
    } else {
      ModUnique(t, n, 1, t - n);
    }
  }

  // ---------------------------------------------------------------------------------------------
  // Does the request fit the block made for it
  // ---------------------------------------------------------------------------------------------

  /** Octets lost in front of the first allocation. */
  function Pad(addr: nat, s: Setup): nat {
    AlignPtr(addr + s.header, s.k, s.w) - (addr + s.header)
  }

  /** The block that is made for a request at the address that is granted. */
  function Made(addr: nat, size: nat, s: Setup): BlockState
    requires s.increment > 0
  {
    NewBlock(addr, BlockSize(size, s), s.header, s.k, s.w)
  }

  /** The header and the octets lost in front are inside the new block. */
  predicate Holds(addr: nat, size: nat, s: Setup)
    requires s.increment > 0
  {
    s.header + Pad(addr, s) <= BlockSize(size, s)
  }

  /** The assertion behind the expansion: the request that made the pool grow is served. */
  predicate ServedByNewBlock(addr: nat, size: nat, s: Setup)
    requires s.k <= s.w && s.increment > 0 && size < Pow2(s.w)
  {
    Alloc(Made(addr, size, s), size, s.k, s.w).1.Some?
  }

  lemma PadSmall(addr: nat, s: Setup)
    requires s.k <= s.w
    ensures Pad(addr, s) < Pow2(s.k)
    ensures Aligned(AlignPtr(addr + s.header, s.k, s.w), s.k)
  {
    hide Pow2, AlignPtr;
    AlignPtrLeast(addr + s.header, s.k, s.w);
  }

  /** The cursor of the new block is aligned, and inside the block exactly if the block holds its header. */
  lemma MadeValidIff(addr: nat, size: nat, s: Setup)
    requires s.Valid() && s.increment > 0 && size < Pow2(s.w)
    ensures var b := Made(addr, size, s);
            && (b.Valid(s.w) <==> Holds(addr, size, s))
            && (b.end < b.cur <==> !Holds(addr, size, s))
            && Aligned(b.cur, s.k) && b.end - b.cur == BlockSize(size, s) - s.header - Pad(addr, s)
    ensures s.Reckons(size) ==> Holds(addr, size, s)
  {
    hide Pow2, BlockSize, AlignPtr;
    BlockSizeEnoughIff(size, s);
    PadSmall(addr, s);
  }

  /**
   When the assertion holds, wrap-around included. A block that does not hold its own header seems to the
   code to have almost all of the address space free.
   */
  lemma ServedExactly(addr: nat, size: nat, s: Setup)
    requires s.Valid() && s.increment > 0 && size < Pow2(s.w)
    ensures ServedByNewBlock(addr, size, s) <==>
            Rounded(size, s.k, s.w) + Pad(addr, s) + s.header <=
            BlockSize(size, s) + if Holds(addr, size, s) then 0 else Pow2(s.w)
  {
    hide Pow2, BlockSize, Rounded, Pad, NewBlock;
    MadeValidIff(addr, size, s);
    BlockSizeEnoughIff(size, s);
    PadSmall(addr, s);
    RoomOfDifference(BlockSize(size, s) - s.header - Pad(addr, s), Pow2(s.w));
  }

  lemma RoomOfDifference(d: int, n: nat)
    requires n > 0 && 0 < d + n && d < n
    ensures d % n == if 0 <= d then d else d + n
  {
    var q, r := d / n, d % n;
    assert d == q * n + r;
    if q > 0 { MulMonoInt(1, q, n); }
    if q < -1 { MulMonoInt(q, -2, n); }
  }

  /** The request is served from octets of the new block exactly if header, loss and rounded size fit it. */
  lemma ServedInsideIff(addr: nat, size: nat, s: Setup)
    requires s.Valid() && s.increment > 0 && size < Pow2(s.w)
    ensures ServedByNewBlock(addr, size, s) && Holds(addr, size, s) <==>
            Rounded(size, s.k, s.w) + Pad(addr, s) + s.header <= BlockSize(size, s)
  {
    hide Pow2, BlockSize, Rounded, Pad, ServedByNewBlock;
    ServedExactly(addr, size, s);
  }

  lemma NotWrapped(size: nat, s: Setup)
    requires s.Valid() && s.Reckons(size)
    ensures size < Pow2(s.w) && !Wraps(size, s.k, s.w)
    ensures size <= Rounded(size, s.k, s.w) < size + Pow2(s.k)
  {
    hide Pow2, Rounded;
    RoundedIff(size, s.k, s.w);
  }

  /** Whatever the increment, the block made for a request serves it if the reckoning does not wrap. */
  ghost predicate AlwaysServed(addr: nat, k: nat, w: nat, header: nat) {
    forall size: nat, increment: nat :: ServedIfReckoned(addr, size, Setup(k, w, header, increment))
  }

  ghost predicate ServedIfReckoned(addr: nat, size: nat, s: Setup) {
    s.Valid() && s.increment > 0 && size < Pow2(s.w) && s.Reckons(size) ==> ServedByNewBlock(addr, size, s)
  }

  /** A request of one octet with the increment that just covers it. */
  lemma TightRequest(addr: nat, k: nat, w: nat, header: nat)
    requires k <= w && 1 + header + Pow2(k) < Pow2(w)
    ensures var s := Setup(k, w, header, 1 + header + Pow2(k));
            && s.Valid() && s.Reckons(1)
            && (ServedByNewBlock(addr, 1, s) <==> Pad(addr, s) <= 1)
  {
    hide Pow2, Rounded, Pad, AlignPtr, ServedByNewBlock;
    var a, s := Pow2(k), Setup(k, w, header, 1 + header + Pow2(k));
    ModUnique(s.Need(1), Pow2(w), 0, s.Need(1));
    assert BlockSize(1, s) == 1 + header + a;
    ServedExactly(addr, 1, s);
    PadSmall(addr, s);
    NotWrapped(1, s);
    RoundedIff(1, k, w);
    LeastOfOne(Rounded(1, k, w), a);
  }

  lemma LeastOfOne(r: nat, a: nat)
    requires a > 0 && IsLeastMultiple(r, 1, a)
    ensures r == a
  {
    if r < a { ModUnique(r, a, 0, r); }
  }

  /**
   The source reserves one alignment unit for two losses, in front of the block and behind the request.
   That is enough for every request whose reckoning does not wrap exactly when at most one octet is lost
   in front.
   */
  lemma AlwaysServedIff(addr: nat, k: nat, w: nat, header: nat)
    requires k <= w && 1 + header + Pow2(k) < Pow2(w)
    ensures AlwaysServed(addr, k, w, header) <==>
            AlignPtr(addr + header, k, w) <= addr + header + 1
  {
    hide Pow2, Rounded, AlignPtr, ServedByNewBlock, BlockSize, Setup.Valid, Setup.Reckons;
    TightRequest(addr, k, w, header);
    var tight := Setup(k, w, header, 1 + header + Pow2(k));
    if AlwaysServed(addr, k, w, header) {
      assert ServedIfReckoned(addr, 1, tight);
    }
    if Pad(addr, tight) <= 1 {
      forall size: nat, increment: nat
        ensures ServedIfReckoned(addr, size, Setup(k, w, header, increment))
      {
        var s := Setup(k, w, header, increment);
        if s.Valid() && s.increment > 0 && size < Pow2(s.w) && s.Reckons(size) { ServedWithSmallPad(addr, size, s); }
      }
    }
  }

  lemma ServedWithSmallPad(addr: nat, size: nat, s: Setup)
    requires s.Valid() && s.increment > 0 && s.Reckons(size) && size < Pow2(s.w) && Pad(addr, s) <= 1
    ensures ServedByNewBlock(addr, size, s)
  {
    hide Pow2, Rounded, BlockSize, Pad, ServedByNewBlock;
    ServedInsideIff(addr, size, s);
    BlockSizeEnoughIff(size, s);
    NotWrapped(size, s);
  }

  // ---------------------------------------------------------------------------------------------
  // Three requests at a block granted at 0x1000, in words of 32 bits and with a header of 20 octets
  // ---------------------------------------------------------------------------------------------

  lemma PadAt4096()
    ensures forall inc: nat :: Pad(0x1000, Setup(2, 32, 20, inc)) == 0 && Pad(0x1000, Setup(3, 32, 20, inc)) == 4
  {
    hide AlignPtr, IsLeastMultiple;
    Pow2Values();
    AlignPtrLeast(0x1014, 2, 32);
    AlignPtrLeast(0x1014, 3, 32);
    LeastMultipleIs(AlignPtr(0x1014, 2, 32), 0x1014, 4, 0x405);
    LeastMultipleIs(AlignPtr(0x1014, 3, 32), 0x1014, 8, 0x203);
  }

  lemma LeastMultipleIs(r: nat, size: nat, a: nat, q: nat)
    requires a > 0 && IsLeastMultiple(r, size, a) && size <= q * a < size + a
    ensures r == q * a
  {
    DivBounds(r, a);
    CancelLess(r / a, q + 1, a);
    CancelLess(q, r / a + 1, a);
  }

  /** Four octets are lost in front of a block aligned to 8: no wrap-around, and the assertion fails. */
  lemma LostInFront()
    ensures var s := Setup(3, 32, 20, 29); s.Valid() && s.Reckons(1) && !ServedByNewBlock(0x1000, 1, s)
  {
    hide ServedByNewBlock, Pad;
    Pow2Values();
    PadAt4096();
    TightRequest(0x1000, 3, 32, 20);
  }

  /** The need wraps: one increment is added for a request of almost the whole address space, and the assertion fails. */
  lemma NeedWraps()
    ensures var s, size := Setup(2, 32, 20, 1000), 0xFFFF_FFF0;
            && s.Valid() && size < Pow2(s.w)
            && Pad(0x1000, s) == 0 && BlockSize(size, s) == 1000 && !ServedByNewBlock(0x1000, size, s)
  {
    hide ServedByNewBlock, Pad, BlockSize, Rounded;
    Pow2Values();
    PadAt4096();
    var s, size := Setup(2, 32, 20, 1000), 0xFFFF_FFF0;
    WrappedBlockSize(size, s);
    RoundedIff(size, 2, 32);
    ServedExactly(0x1000, size, s);
  }

  /** The sum wraps: an empty block is added, and the pointer handed out lies behind its end. */
  lemma SumWraps()
    ensures var s, size := Setup(2, 32, 20, 0x2000), 0xFFFF_F000;
            && s.Valid() && size < Pow2(s.w) && BlockSize(size, s) == 0
            && var b := Made(0x1000, size, s);
               b.end == 0x1000 && Alloc(b, size, s.k, s.w).1 == Some(0x1014)
  {
    hide Pow2, Pad, BlockSize, Rounded, ServedByNewBlock, Made, Alloc;
    Pow2Values();
    PadAt4096();
    var s, size := Setup(2, 32, 20, 0x2000), 0xFFFF_F000;
    WrappedBlockSize(size, s);
    RoundedAligned(size, 2, 32);
    ServedExactly(0x1000, size, s);
    MadePointers(0x1000, size, s);
    ServedMeans(0x1000, size, s);
  }

  lemma MadePointers(addr: nat, size: nat, s: Setup)
    requires s.increment > 0
    ensures var b := Made(addr, size, s);
            b.cur == addr + s.header + Pad(addr, s) && b.end == addr + BlockSize(size, s)
  {
  }

  lemma ServedMeans(addr: nat, size: nat, s: Setup)
    requires s.k <= s.w && s.increment > 0 && size < Pow2(s.w)
    ensures var b := Made(addr, size, s);
            ServedByNewBlock(addr, size, s) ==> Alloc(b, size, s.k, s.w).1 == Some(b.cur)
  {
    hide Pow2, Rounded, BlockSize;
  }

  // ---------------------------------------------------------------------------------------------
  // The pool
  // ---------------------------------------------------------------------------------------------

  /** The blocks, newest first, and the capacity counter. */
  datatype PoolState = PoolState(blocks: seq<BlockState>, capacity: nat)

  predicate HasRoom(b: BlockState, size: nat, s: Setup)
    requires s.k <= s.w && size < Pow2(s.w)
  {
    Alloc(b, size, s.k, s.w).1.Some?
  }

  /** The first block from `i` on with room, or the number of blocks. */
  function FirstFit(blocks: seq<BlockState>, i: nat, size: nat, s: Setup): (m: nat)
    requires s.k <= s.w && size < Pow2(s.w) && i <= |blocks|
    ensures i <= m <= |blocks| && (m < |blocks| ==> HasRoom(blocks[m], size, s))
    ensures forall j :: i <= j < m ==> !HasRoom(blocks[j], size, s)
    decreases |blocks| - i
  {
    if i == |blocks| || HasRoom(blocks[i], size, s) then i else FirstFit(blocks, i + 1, size, s)
  }

  /** Serve a request; `granted` is the address the memory allocator would answer with. */
  function Find(p: PoolState, size: nat, granted: Option<nat>, s: Setup): (PoolState, Option<nat>)
    requires s.k <= s.w && size < Pow2(s.w)
  {
    var m := FirstFit(p.blocks, 0, size, s);
    if m < |p.blocks| then
      var (b, ptr) := Alloc(p.blocks[m], size, s.k, s.w);
      (p.(blocks := p.blocks[m := b]), ptr)
    else if s.increment == 0 || granted.None? then (p, None)
    else
      var (b, ptr) := Alloc(Made(granted.value, size, s), size, s.k, s.w);
      (PoolState([b] + p.blocks, (p.capacity + BlockSize(size, s)) % Pow2(s.w)), ptr)
  }

  /** The first block with that much room gives the pointer at its cursor, which moves by that much. */
  ghost predicate FromBlock(p: PoolState, r: nat, w: nat, p': PoolState, ptr: Option<nat>) {
    exists m :: 0 <= m < |p.blocks| && FromBlockAt(p, m, r, w, p', ptr)
  }

  ghost predicate FromBlockAt(p: PoolState, m: nat, r: nat, w: nat, p': PoolState, ptr: Option<nat>)
    requires m < |p.blocks|
  {
    var b := p.blocks[m];
    && r <= Free(b, w) && (forall j :: 0 <= j < m ==> Free(p.blocks[j], w) < r)
    && ptr == Some(b.cur)
    && p' == PoolState(p.blocks[m := BlockState(b.buf, b.cur + r, b.end)], p.capacity)
  }

  /** The difference of end and cursor as a word. */
  function Free(b: BlockState, w: nat): int { (b.end - b.cur) % Pow2(w) }

  ghost predicate SomeFree(p: PoolState, r: nat, w: nat) {
    exists m :: 0 <= m < |p.blocks| && r <= Free(p.blocks[m], w)
  }

  /** A block of n octets is put in front; its aligned cursor is the pointer if the request fits behind it. */
  ghost predicate FromNewBlock(p: PoolState, r: nat, a: nat, n: nat, s: Setup, p': PoolState, ptr: Option<nat>) {
    var cur := AlignPtr(a + s.header, s.k, s.w);
    var fits := r + (cur - a) <= n + (if cur - a <= n then 0 else Pow2(s.w));
    && ptr == (if fits then Some(cur) else None)
    && p'.blocks == [BlockState(a + s.header, if fits then cur + r else cur, a + n)] + p.blocks
    && p'.capacity == (p.capacity + n) % Pow2(s.w)
  }

  /** What a request does to the pool and is answered. */
  ghost predicate Answers(p: PoolState, size: nat, granted: Option<nat>, s: Setup, p': PoolState, ptr: Option<nat>)
    requires s.k <= s.w && size < Pow2(s.w)
  {
    var r := Rounded(size, s.k, s.w);
    if SomeFree(p, r, s.w) then FromBlock(p, r, s.w, p', ptr)
    else if s.increment == 0 || granted.None? then p' == p && ptr == None
    else FromNewBlock(p, r, granted.value, BlockSize(size, s), s, p', ptr)
  }

  lemma HasRoomIff(b: BlockState, size: nat, s: Setup)
    requires s.k <= s.w && size < Pow2(s.w)
    ensures HasRoom(b, size, s) <==> Rounded(size, s.k, s.w) <= Free(b, s.w)
    ensures HasRoom(b, size, s) ==>
              Alloc(b, size, s.k, s.w) == (BlockState(b.buf, b.cur + Rounded(size, s.k, s.w), b.end), Some(b.cur))
  {
    hide Pow2, Rounded;
  }

  lemma FindAnswers(p: PoolState, size: nat, granted: Option<nat>, s: Setup)
    requires s.Valid() && size < Pow2(s.w)
    ensures var (p', ptr) := Find(p, size, granted, s); Answers(p, size, granted, s, p', ptr)
  {
    hide Pow2, Rounded, Alloc, HasRoom, BlockSize, Made, FromNewBlock, FromBlock, Free;
    RoomSomewhere(p, size, s);
    if FirstFit(p.blocks, 0, size, s) < |p.blocks| {
      BlockAnswers(p, size, s);
    } else if s.increment > 0 && granted.Some? {
      ExpansionAnswers(p, size, granted.value, s);
    }
  }

  lemma RoomSomewhere(p: PoolState, size: nat, s: Setup)
    requires s.Valid() && size < Pow2(s.w)
    ensures FirstFit(p.blocks, 0, size, s) < |p.blocks| <==> SomeFree(p, Rounded(size, s.k, s.w), s.w)
    ensures forall j :: 0 <= j < FirstFit(p.blocks, 0, size, s) ==> Free(p.blocks[j], s.w) < Rounded(size, s.k, s.w)
  {
    hide Pow2, Rounded, Alloc, HasRoom, Free;
    forall j | 0 <= j < |p.blocks|
      ensures HasRoom(p.blocks[j], size, s) <==> Rounded(size, s.k, s.w) <= Free(p.blocks[j], s.w)
    {
      HasRoomIff(p.blocks[j], size, s);
    }
  }

  lemma BlockAnswers(p: PoolState, size: nat, s: Setup)
    requires s.Valid() && size < Pow2(s.w) && FirstFit(p.blocks, 0, size, s) < |p.blocks|
    ensures var (p', ptr) := Find(p, size, None, s); FromBlock(p, Rounded(size, s.k, s.w), s.w, p', ptr)
  {
    hide Pow2, Rounded, Alloc, HasRoom, BlockSize, Made, Free, SomeFree;
    RoomSomewhere(p, size, s);
    var m := FirstFit(p.blocks, 0, size, s);
    var (p', ptr) := Find(p, size, None, s);
    HasRoomIff(p.blocks[m], size, s);
    assert FromBlockAt(p, m, Rounded(size, s.k, s.w), s.w, p', ptr);
  }

  lemma ExpansionAnswers(p: PoolState, size: nat, a: nat, s: Setup)
    requires s.Valid() && s.increment > 0 && size < Pow2(s.w)
    ensures var (b, ptr) := Alloc(Made(a, size, s), size, s.k, s.w);
            var p' := PoolState([b] + p.blocks, (p.capacity + BlockSize(size, s)) % Pow2(s.w));
            FromNewBlock(p, Rounded(size, s.k, s.w), a, BlockSize(size, s), s, p', ptr)
  {
    hide Pow2, Rounded, Alloc, BlockSize, AlignPtr, Made, ServedByNewBlock;
    ServedExactly(a, size, s);
    ServedIs(a, size, s);
    MadePointers(a, size, s);
  }

  lemma ServedIs(a: nat, size: nat, s: Setup)
    requires s.Valid() && s.increment > 0 && size < Pow2(s.w)
    ensures var m := Made(a, size, s);
            && Alloc(m, size, s.k, s.w) ==
               (if ServedByNewBlock(a, size, s) then (BlockState(m.buf, m.cur + Rounded(size, s.k, s.w), m.end), Some(m.cur))
                else (m, None))
            && m.buf == a + s.header
  {
    hide Pow2, Rounded, BlockSize, AlignPtr;
  }

  ghost predicate Distinct(blocks: seq<Block>) {
    forall i, j :: 0 <= i < j < |blocks| ==> blocks[i] != blocks[j]
  }

  /** A block that is not among the others comes in front of them. */
  lemma DistinctCons(b: Block, blocks: seq<Block>)
    requires Distinct(blocks) && b !in blocks
    ensures Distinct([b] + blocks)
  {
  }

  class MemoryPool {
    var blocks: seq<Block>
    var capacity: nat
    const setup: Setup

    function State(): PoolState
      reads this, blocks
    {
      PoolState(States(blocks), capacity)
    }

    ghost predicate Valid()
      reads this
    {
      setup.Valid() && blocks != [] && Distinct(blocks)
    }

    constructor (block: Block, capacity: nat, setup: Setup)
      requires setup.Valid()
      ensures Valid() && blocks == [block] && this.setup == setup && this.capacity == capacity
    {
      blocks, this.capacity, this.setup := [block], capacity, setup;
    }

    /** pj_pool_allocate_find */
    method AllocateFind(size: nat, granted: Option<nat>) returns (ptr: Option<nat>)
      requires Valid() && size < Pow2(setup.w)
      modifies this, blocks
      ensures Valid() && forall b <- blocks :: b in old(blocks) || fresh(b)
      ensures (State(), ptr) == Find(old(State()), size, granted, setup)
      ensures Answers(old(State()), size, granted, setup, State(), ptr)
    {
      hide Pow2, Alloc, Made, BlockSize, FirstFit, HasRoom, States, Distinct, Answers;
      FindAnswers(State(), size, granted, setup);
      ptr := TryBlocks(blocks, size, setup);
      if ptr.Some? || setup.increment == 0 || granted.None? { return; }
      var block;
      block, ptr := Expansion(size, granted.value, setup);
      capacity := (capacity + BlockSize(size, setup)) % Pow2(setup.w);
      StatesCons(block, blocks);
      DistinctCons(block, blocks);
      blocks := [block] + blocks;
    }

    /** pj_pool_alloc: the newest block first. That is no other result than the search alone would give. */
    method Allocate(size: nat, granted: Option<nat>) returns (ptr: Option<nat>)
      requires Valid() && size < Pow2(setup.w)
      modifies this, blocks
      ensures Valid() && forall b <- blocks :: b in old(blocks) || fresh(b)
      ensures (State(), ptr) == Find(old(State()), size, granted, setup)
      ensures Answers(old(State()), size, granted, setup, State(), ptr)
    {
      hide Pow2, Pool.Alloc, FirstFit, HasRoom, Answers;
      FindAnswers(State(), size, granted, setup);
      NewestFirst(States(blocks), size, setup);
      ghost var before := States(blocks);
      ptr := blocks[0].AllocFromBlock(size, setup.k, setup.w);
      StatesAre(blocks, before[0 := Pool.Alloc(before[0], size, setup.k, setup.w).0]);
      if ptr.None? { ptr := AllocateFind(size, granted); }
    }
  }

  /** A block without room is left as it is. */
  lemma NoRoom(b: BlockState, size: nat, s: Setup)
    requires s.k <= s.w && size < Pow2(s.w)
    ensures !HasRoom(b, size, s) ==> Alloc(b, size, s.k, s.w) == (b, None)
  {
    hide Pow2, Rounded;
  }

  lemma NewestFirst(blocks: seq<BlockState>, size: nat, s: Setup)
    requires s.Valid() && size < Pow2(s.w) && blocks != []
    ensures var (b, ptr) := Alloc(blocks[0], size, s.k, s.w);
            && (ptr.Some? ==> FirstFit(blocks, 0, size, s) == 0)
            && (ptr.None? ==> blocks[0 := b] == blocks)
  {
    hide Pow2, Alloc;
    NoRoom(blocks[0], size, s);
  }

  /** The expansion: a block of the reckoned size, and the request taken from it. */
  method Expansion(size: nat, addr: nat, s: Setup) returns (block: Block, ptr: Option<nat>)
    requires s.Valid() && s.increment > 0 && size < Pow2(s.w)
    ensures fresh(block)
    ensures (block.State(), ptr) == Alloc(Made(addr, size, s), size, s.k, s.w)
  {
    hide Pow2, Alloc, NewBlock, BlockSize;
    block := new Block(addr, BlockSize(size, s), s.header, s.k, s.w);
    ptr := block.AllocFromBlock(size, s.k, s.w);
  }

  /** The search loop: the first block with room serves the request, the others are left alone. */
  method TryBlocks(blocks: seq<Block>, size: nat, s: Setup) returns (ptr: Option<nat>)
    requires s.Valid() && size < Pow2(s.w) && Distinct(blocks)
    modifies blocks
    ensures var before := old(States(blocks));
            var m := FirstFit(before, 0, size, s);
            if m < |before| then
              && States(blocks) == before[m := Alloc(before[m], size, s.k, s.w).0]
              && ptr == Alloc(before[m], size, s.k, s.w).1
              && ptr.Some?
            else States(blocks) == before && ptr == None
  {
    hide Pow2, Alloc, States;
    ghost var before := States(blocks);
    var i := 0;
    while i < |blocks|
      invariant 0 <= i <= |blocks|
      invariant forall j :: 0 <= j < |blocks| ==> blocks[j].State() == before[j]
      invariant FirstFit(before, i, size, s) == FirstFit(before, 0, size, s)
    {
      NoRoom(before[i], size, s);
      ptr := blocks[i].AllocFromBlock(size, s.k, s.w);
      if ptr.Some? {
        StatesAre(blocks, before[i := Alloc(before[i], size, s.k, s.w).0]);
        return;
      }
      i := i + 1;
    }
    StatesAre(blocks, before);
    ptr := None;
  }

  lemma StatesAre(blocks: seq<Block>, states: seq<BlockState>)
    requires |states| == |blocks| && forall j :: 0 <= j < |blocks| ==> blocks[j].State() == states[j]
    ensures States(blocks) == states
  {
  }

  lemma StatesCons(b: Block, blocks: seq<Block>)
    ensures States([b] + blocks) == [b.State()] + States(blocks)
  {
  }
}
