/** Runs of requests on the growing pool: whatever the blocks, no two requests get the same octet. */
module PoolRuns {
  import opened Algebra
  import opened Bytes
  import opened Pool
  import opened PoolGrow

  /** A request, and the address at which the memory allocator would grant a new block for it. */
  datatype Request = Request(size: nat, granted: Option<nat>)

  ghost predicate Apart(a: BlockState, b: BlockState) {
    a.end <= b.buf || b.end <= a.buf
  }

  ghost predicate Within(r: Range, b: BlockState) {
    b.buf <= r.start && r.start + r.size <= b.cur
  }

  ghost predicate Clear(a: Range, b: Range) {
    a.start + a.size <= b.start || b.start + b.size <= a.start
  }

  ghost predicate BlocksValid(blocks: seq<BlockState>, w: nat) {
    forall i :: 0 <= i < |blocks| ==> blocks[i].Valid(w)
  }

  ghost predicate BlocksApart(blocks: seq<BlockState>) {
    forall i, j :: 0 <= i < j < |blocks| ==> Apart(blocks[i], blocks[j])
  }

  ghost predicate AllAligned(blocks: seq<BlockState>, k: nat) {
    forall b <- blocks :: Aligned(b.cur, k)
  }

  ghost predicate Owned(r: Range, blocks: seq<BlockState>) {
    exists i :: 0 <= i < |blocks| && Within(r, blocks[i])
  }

  /** Large enough, aligned, and in a block. */
  ghost predicate Good(r: Range, blocks: seq<BlockState>, s: Setup)
    requires s.Valid()
  {
    && Owned(r, blocks) && Aligned(r.start, s.k)
    && (!Wraps(r.asked, s.k, s.w) ==> r.asked <= r.size)
  }

  ghost predicate Handed(ranges: seq<Range>, blocks: seq<BlockState>, s: Setup)
    requires s.Valid()
  {
    && (forall r <- ranges :: Good(r, blocks, s))
    && (forall i, j :: 0 <= i < j < |ranges| ==> Clear(ranges[i], ranges[j]))
  }

  /** The blocks are valid, aligned and apart, and everything handed out is good and clear of everything else. */
  ghost predicate Safe(p: PoolState, ranges: seq<Range>, s: Setup)
    requires s.Valid()
  {
    && BlocksValid(p.blocks, s.w) && AllAligned(p.blocks, s.k) && BlocksApart(p.blocks)
    && Handed(ranges, p.blocks, s)
  }

  // ---------------------------------------------------------------------------------------------
  // One allocation from one of the blocks
  // ---------------------------------------------------------------------------------------------

  /** The block with the new range taken from it. */
  ghost predicate Takes(b: BlockState, b': BlockState, r: Range) {
    && b'.buf == b.buf && b'.end == b.end && r.start == b.cur && b'.cur == b.cur + r.size
    && b.buf <= b.cur && b'.cur <= b'.end
  }

  lemma StillGood(r: Range, blocks: seq<BlockState>, m: nat, b': BlockState, taken: Range, s: Setup)
    requires s.Valid() && m < |blocks| && Takes(blocks[m], b', taken) && Good(r, blocks, s)
    ensures Good(r, blocks[m := b'], s)
  {
    hide Aligned, Wraps;
    var i :| 0 <= i < |blocks| && Within(r, blocks[i]);
    assert Within(r, blocks[m := b'][i]);
  }

  /** What is in some block lies below the cursor of block m, or outside it. */
  lemma ClearOfTaken(r: Range, blocks: seq<BlockState>, m: nat, b': BlockState, taken: Range, w: nat)
    requires m < |blocks| && Takes(blocks[m], b', taken) && BlocksValid(blocks, w) && BlocksApart(blocks)
    requires Owned(r, blocks)
    ensures Clear(r, taken)
  {
    var i :| 0 <= i < |blocks| && Within(r, blocks[i]);
    assert blocks[i].Valid(w) && blocks[m].Valid(w);
    if i != m { assert Apart(blocks[if i < m then i else m], blocks[if i < m then m else i]); }
  }

  lemma HandOut(ranges: seq<Range>, blocks: seq<BlockState>, m: nat, b': BlockState, r: Range, s: Setup)
    requires s.Valid() && m < |blocks| && Takes(blocks[m], b', r)
    requires BlocksValid(blocks, s.w) && BlocksApart(blocks) && Handed(ranges, blocks, s)
    requires Aligned(r.start, s.k) && (!Wraps(r.asked, s.k, s.w) ==> r.asked <= r.size)
    ensures Handed(ranges + [r], blocks[m := b'], s)
  {
    hide Aligned, Wraps, Takes, BlocksApart, BlocksValid, Clear, Good;
    var all, after := ranges + [r], blocks[m := b'];
    forall x | x in all
      ensures Good(x, after, s)
    {
      if x in ranges { StillGood(x, blocks, m, b', r, s); } else { NewGood(x, blocks, m, b', s); }
    }
    forall i, j | 0 <= i < j < |all|
      ensures Clear(all[i], all[j])
    {
      if j == |ranges| {
        GoodOwned(ranges[i], blocks, s);
        ClearOfTaken(ranges[i], blocks, m, b', r, s.w);
      }
    }
  }

  lemma GoodOwned(r: Range, blocks: seq<BlockState>, s: Setup)
    requires s.Valid() && Good(r, blocks, s)
    ensures Owned(r, blocks)
  {
  }

  lemma NewGood(r: Range, blocks: seq<BlockState>, m: nat, b': BlockState, s: Setup)
    requires s.Valid() && m < |blocks| && Takes(blocks[m], b', r)
    requires Aligned(r.start, s.k) && (!Wraps(r.asked, s.k, s.w) ==> r.asked <= r.size)
    ensures Good(r, blocks[m := b'], s)
  {
    hide Aligned, Wraps;
    assert Within(r, blocks[m := b'][m]);
  }

  lemma TakenBlocks(blocks: seq<BlockState>, m: nat, b': BlockState, r: Range, s: Setup)
    requires s.Valid() && m < |blocks| && Takes(blocks[m], b', r) && b'.Valid(s.w) && Aligned(b'.cur, s.k)
    requires BlocksValid(blocks, s.w) && AllAligned(blocks, s.k) && BlocksApart(blocks)
    ensures var after := blocks[m := b'];
            BlocksValid(after, s.w) && AllAligned(after, s.k) && BlocksApart(after)
  {
    hide Aligned;
    var after := blocks[m := b'];
    forall i, j | 0 <= i < j < |after|
      ensures Apart(after[i], after[j])
    {
      assert Apart(blocks[i], blocks[j]);
    }
  }

  /** An allocation from block m keeps the pool safe. */
  lemma TakeSafe(p: PoolState, ranges: seq<Range>, m: nat, size: nat, s: Setup)
    requires s.Valid() && size < Pow2(s.w) && m < |p.blocks| && Safe(p, ranges, s) && HasRoom(p.blocks[m], size, s)
    ensures var (b, ptr) := Alloc(p.blocks[m], size, s.k, s.w);
            Safe(p.(blocks := p.blocks[m := b]), Granted(ranges, ptr, size, s.k, s.w), s)
  {
    hide Pow2, Rounded, Alloc, Aligned, Wraps, Handed, AllAligned, BlocksApart;
    var b := p.blocks[m];
    var (b', ptr) := Alloc(b, size, s.k, s.w);
    var r := Range(b.cur, Rounded(size, s.k, s.w), size);
    BlockAligned(p.blocks, m, s.k);
    AllocKeeps(b, size, s.k, s.w);
    CursorAligned(b, size, s);
    HandOut(ranges, p.blocks, m, b', r, s);
    TakenBlocks(p.blocks, m, b', r, s);
  }

  lemma BlockAligned(blocks: seq<BlockState>, m: nat, k: nat)
    requires AllAligned(blocks, k) && m < |blocks|
    ensures Aligned(blocks[m].cur, k)
  {
  }

  lemma CursorAligned(b: BlockState, size: nat, s: Setup)
    requires s.Valid() && size < Pow2(s.w) && b.Valid(s.w) && Aligned(b.cur, s.k)
    ensures Aligned(Alloc(b, size, s.k, s.w).0.cur, s.k)
  {
    hide Pow2, Alloc, Aligned;
    NoneAligned(s.k);
    AllocStepAligned(b, [], size, s.k, s.w);
  }

  // ---------------------------------------------------------------------------------------------
  // A new block in front
  // ---------------------------------------------------------------------------------------------

  lemma BehindNew(n: BlockState, blocks: seq<BlockState>, r: Range, s: Setup)
    requires s.Valid() && Good(r, blocks, s)
    ensures Good(r, [n] + blocks, s)
  {
    hide Aligned, Wraps;
    var i :| 0 <= i < |blocks| && Within(r, blocks[i]);
    assert Within(r, ([n] + blocks)[i + 1]);
  }

  /** A block apart from the others may come in front of them. */
  lemma GrowSafe(p: PoolState, ranges: seq<Range>, n: BlockState, capacity: nat, s: Setup)
    requires s.Valid() && Safe(p, ranges, s) && n.Valid(s.w) && Aligned(n.cur, s.k)
    requires forall b <- p.blocks :: Apart(n, b)
    ensures Safe(PoolState([n] + p.blocks, capacity), ranges, s)
  {
    hide Aligned, Good, Clear, BlockState.Valid;
    forall r | r in ranges
      ensures Good(r, [n] + p.blocks, s)
    {
      BehindNew(n, p.blocks, r, s);
    }
  }

  // ---------------------------------------------------------------------------------------------
  // One request
  // ---------------------------------------------------------------------------------------------

  /** The octets granted for a new block, if any, are in no block of the pool. */
  ghost predicate Enabled(p: PoolState, q: Request, s: Setup) {
    && s.Valid() && q.size < Pow2(s.w)
    && (q.granted.Some? && s.increment > 0 ==> GrantedApart(p.blocks, q.granted.value, BlockSize(q.size, s)))
  }

  ghost predicate GrantedApart(blocks: seq<BlockState>, addr: nat, size: nat) {
    forall b <- blocks :: addr + size <= b.buf || b.end <= addr
  }

  ghost function Next(p: PoolState, ranges: seq<Range>, q: Request, s: Setup): (PoolState, seq<Range>)
    requires Enabled(p, q, s)
  {
    var (p', ptr) := Find(p, q.size, q.granted, s);
    (p', Granted(ranges, ptr, q.size, s.k, s.w))
  }

  /** The request finds no room and a block is added for it. */
  ghost predicate Expands(p: PoolState, q: Request, s: Setup)
    requires s.k <= s.w && q.size < Pow2(s.w)
  {
    FirstFit(p.blocks, 0, q.size, s) == |p.blocks| && s.increment > 0 && q.granted.Some?
  }

  /** If a block is added, it holds its own header and what is lost behind that. */
  ghost predicate Sound(p: PoolState, q: Request, s: Setup)
    requires s.k <= s.w && q.size < Pow2(s.w)
  {
    Expands(p, q, s) ==> Holds(q.granted.value, q.size, s)
  }

  /** Some cursor is behind the end of its block. */
  ghost predicate Broken(p: PoolState) {
    exists i :: 0 <= i < |p.blocks| && p.blocks[i].end < p.blocks[i].cur
  }

  lemma BrokenNotSafe(p: PoolState, ranges: seq<Range>, s: Setup)
    requires s.Valid() && Broken(p)
    ensures !Safe(p, ranges, s)
  {
    hide Handed, AllAligned, BlocksApart;
    var i :| 0 <= i < |p.blocks| && p.blocks[i].end < p.blocks[i].cur;
    assert !p.blocks[i].Valid(s.w);
  }

  lemma CursorGrows(b: BlockState, size: nat, s: Setup)
    requires s.k <= s.w && size < Pow2(s.w)
    ensures var b' := Alloc(b, size, s.k, s.w).0; b'.end == b.end && b.cur <= b'.cur
  {
    hide Pow2, Rounded;
  }

  /** A broken pool stays broken. */
  lemma BrokenStays(p: PoolState, ranges: seq<Range>, q: Request, s: Setup)
    requires Enabled(p, q, s) && Broken(p)
    ensures Broken(Next(p, ranges, q, s).0)
  {
    hide Pow2, Alloc, Made, BlockSize, HasRoom;
    var i :| 0 <= i < |p.blocks| && p.blocks[i].end < p.blocks[i].cur;
    var m, p' := FirstFit(p.blocks, 0, q.size, s), Next(p, ranges, q, s).0;
    if m < |p.blocks| {
      CursorGrows(p.blocks[m], q.size, s);
      assert p'.blocks[i].end < p'.blocks[i].cur;
    } else if Expands(p, q, s) {
      assert p'.blocks[i + 1] == p.blocks[i];
    }
  }

  lemma UnsoundBreaks(p: PoolState, ranges: seq<Range>, q: Request, s: Setup)
    requires Enabled(p, q, s) && !Sound(p, q, s)
    ensures Broken(Next(p, ranges, q, s).0)
  {
    hide Pow2, Alloc, Made, BlockSize, HasRoom, Holds;
    var b := Made(q.granted.value, q.size, s);
    MadeValidIff(q.granted.value, q.size, s);
    CursorGrows(b, q.size, s);
    assert Next(p, ranges, q, s).0.blocks[0] == Alloc(b, q.size, s.k, s.w).0;
  }

  lemma SoundKeeps(p: PoolState, ranges: seq<Range>, q: Request, s: Setup)
    requires Enabled(p, q, s) && Safe(p, ranges, s) && Sound(p, q, s)
    ensures var (p', ranges') := Next(p, ranges, q, s); Safe(p', ranges', s)
  {
    hide Pow2, Alloc, Safe, Made, BlockSize, HasRoom, Holds;
    var m := FirstFit(p.blocks, 0, q.size, s);
    if m < |p.blocks| {
      TakeSafe(p, ranges, m, q.size, s);
    } else if s.increment > 0 && q.granted.Some? {
      ExpandSafe(p, ranges, q, s);
    }
  }

  lemma ExpandSafe(p: PoolState, ranges: seq<Range>, q: Request, s: Setup)
    requires Enabled(p, q, s) && Safe(p, ranges, s) && q.granted.Some? && s.increment > 0
    requires Holds(q.granted.value, q.size, s)
    ensures var (b, ptr) := Alloc(Made(q.granted.value, q.size, s), q.size, s.k, s.w);
            Safe(PoolState([b] + p.blocks, (p.capacity + BlockSize(q.size, s)) % Pow2(s.w)),
                 Granted(ranges, ptr, q.size, s.k, s.w), s)
  {
    hide Pow2, Alloc, Safe, Made, BlockSize, Holds;
    var b := Made(q.granted.value, q.size, s);
    var capacity := (p.capacity + BlockSize(q.size, s)) % Pow2(s.w);
    MadeValidIff(q.granted.value, q.size, s);
    MadeApart(p.blocks, q.granted.value, q.size, s);
    GrowSafe(p, ranges, b, capacity, s);
    var grown := PoolState([b] + p.blocks, capacity);
    var (b', ptr) := Alloc(b, q.size, s.k, s.w);
    assert [b'] + p.blocks == grown.blocks[0 := b'];
    if ptr.Some? {
      TakeSafe(grown, ranges, 0, q.size, s);
    } else {
      AllocKeeps(b, q.size, s.k, s.w);
    }
  }

  lemma MadeApart(blocks: seq<BlockState>, addr: nat, size: nat, s: Setup)
    requires s.increment > 0 && GrantedApart(blocks, addr, BlockSize(size, s))
    ensures forall b <- blocks :: Apart(Made(addr, size, s), b)
  {
    hide BlockSize, AlignPtr;
  }

  /** A request keeps the pool safe exactly if it is sound. */
  lemma NextSafeIff(p: PoolState, ranges: seq<Range>, q: Request, s: Setup)
    requires Enabled(p, q, s) && Safe(p, ranges, s)
    ensures var (p', ranges') := Next(p, ranges, q, s); Safe(p', ranges', s) <==> Sound(p, q, s)
  {
    hide Pow2, Safe, Find, Sound, Broken;
    var (p', ranges') := Next(p, ranges, q, s);
    if Sound(p, q, s) {
      SoundKeeps(p, ranges, q, s);
    } else {
      UnsoundBreaks(p, ranges, q, s);
      BrokenNotSafe(p', ranges', s);
    }
  }

  /** A request whose reckoning does not wrap is sound. */
  lemma ReckonedSound(p: PoolState, q: Request, s: Setup)
    requires Enabled(p, q, s) && (s.increment > 0 ==> s.Reckons(q.size))
    ensures Sound(p, q, s)
  {
    hide Pow2, Holds, FirstFit, BlockSize, Made;
    if Expands(p, q, s) { MadeValidIff(q.granted.value, q.size, s); }
  }

  /** The request fits what is free in some block, or behind header and loss in the block granted for it. */
  ghost predicate Fits(p: PoolState, q: Request, s: Setup)
    requires s.k <= s.w && q.size < Pow2(s.w)
  {
    var r := Rounded(q.size, s.k, s.w);
    || FitsBlock(p.blocks, r)
    || (s.increment > 0 && q.granted.Some? && r + Pad(q.granted.value, s) + s.header <= BlockSize(q.size, s))
  }

  ghost predicate FitsBlock(blocks: seq<BlockState>, r: nat) {
    exists i :: 0 <= i < |blocks| && r <= blocks[i].end - blocks[i].cur
  }

  lemma FreeOfValid(blocks: seq<BlockState>, r: nat, w: nat)
    requires BlocksValid(blocks, w)
    ensures FitsBlock(blocks, r) <==> exists i :: 0 <= i < |blocks| && r <= Free(blocks[i], w)
  {
    forall i | 0 <= i < |blocks|
      ensures Free(blocks[i], w) == blocks[i].end - blocks[i].cur
    {
      RoomOfValid(blocks[i], w);
    }
  }

  /** On a safe pool a sound request is answered with a pointer exactly if it fits. */
  lemma NextAnswers(p: PoolState, ranges: seq<Range>, q: Request, s: Setup)
    requires Enabled(p, q, s) && Safe(p, ranges, s) && Sound(p, q, s)
    ensures Find(p, q.size, q.granted, s).1.Some? <==> Fits(p, q, s)
  {
    hide Pow2, Rounded, Alloc, BlockSize, Made, HasRoom, Holds, Pad, Free, Handed, AllAligned, BlocksApart, FitsBlock;
    var m := FirstFit(p.blocks, 0, q.size, s);
    RoomSomewhere(p, q.size, s);
    FreeOfValid(p.blocks, Rounded(q.size, s.k, s.w), s.w);
    if m < |p.blocks| {
      HasRoomIff(p.blocks[m], q.size, s);
    } else if s.increment > 0 && q.granted.Some? {
      ServedInsideIff(q.granted.value, q.size, s);
      ServedIs(q.granted.value, q.size, s);
    }
  }

  // ---------------------------------------------------------------------------------------------
  // Any run
  // ---------------------------------------------------------------------------------------------

  ghost predicate EnabledRun(p: PoolState, qs: seq<Request>, s: Setup)
    decreases |qs|
  {
    qs == [] || (Enabled(p, qs[0], s) && EnabledRun(Next(p, [], qs[0], s).0, qs[1..], s))
  }

  /** The pool after the requests, and everything handed out. */
  ghost function Run(p: PoolState, ranges: seq<Range>, qs: seq<Request>, s: Setup): (PoolState, seq<Range>)
    requires EnabledRun(p, qs, s)
    decreases |qs|
  {
    if qs == [] then (p, ranges)
    else
      var (p', ranges') := Next(p, ranges, qs[0], s);
      Run(p', ranges', qs[1..], s)
  }

  ghost predicate AllSound(p: PoolState, qs: seq<Request>, s: Setup)
    requires EnabledRun(p, qs, s)
    decreases |qs|
  {
    qs == [] || (Sound(p, qs[0], s) && AllSound(Next(p, [], qs[0], s).0, qs[1..], s))
  }

  lemma {:induction false} BrokenRun(p: PoolState, ranges: seq<Range>, qs: seq<Request>, s: Setup)
    requires EnabledRun(p, qs, s) && Broken(p)
    ensures Broken(Run(p, ranges, qs, s).0)
    decreases |qs|
  {
    hide Broken, Enabled;
    if qs != [] {
      BrokenStays(p, ranges, qs[0], s);
      var (p', ranges') := Next(p, ranges, qs[0], s);
      BrokenRun(p', ranges', qs[1..], s);
    }
  }

  /**
   Over any run, growing or not, all ranges handed out are aligned, large enough unless their rounding
   wraps, inside a block and pairwise disjoint, exactly if every request of the run is sound.
   */
  lemma {:induction false} RunSafeIff(p: PoolState, ranges: seq<Range>, qs: seq<Request>, s: Setup)
    requires s.Valid() && EnabledRun(p, qs, s) && Safe(p, ranges, s)
    ensures var (p', ranges') := Run(p, ranges, qs, s); Safe(p', ranges', s) <==> AllSound(p, qs, s)
    decreases |qs|
  {
    hide Safe, Enabled, Sound, Broken, Find;
    if qs != [] {
      EnabledWords(p, qs[0], s);
      var (p', ranges') := Next(p, ranges, qs[0], s);
      NextSafeIff(p, ranges, qs[0], s);
      if Sound(p, qs[0], s) {
        RunSafeIff(p', ranges', qs[1..], s);
      } else {
        UnsoundBreaks(p, ranges, qs[0], s);
        BrokenRun(p', ranges', qs[1..], s);
        var (p'', ranges'') := Run(p', ranges', qs[1..], s);
        BrokenNotSafe(p'', ranges'', s);
      }
    }
  }

  /** Requested and rounded size of each range. */
  ghost function Shapes(ranges: seq<Range>): seq<(nat, nat)> {
    seq(|ranges|, i requires 0 <= i < |ranges| => (ranges[i].asked, ranges[i].size))
  }

  /** Requested and rounded size of each request of the run that fits when its turn comes. */
  ghost function Fitting(p: PoolState, qs: seq<Request>, s: Setup): seq<(nat, nat)>
    requires EnabledRun(p, qs, s)
    decreases |qs|
  {
    if qs == [] then []
    else
      (if Fits(p, qs[0], s) then [(qs[0].size, Rounded(qs[0].size, s.k, s.w))] else [])
      + Fitting(Next(p, [], qs[0], s).0, qs[1..], s)
  }

  lemma ShapesGranted(ranges: seq<Range>, ptr: Option<nat>, size: nat, s: Setup)
    requires s.k <= s.w && size < Pow2(s.w)
    ensures Shapes(Granted(ranges, ptr, size, s.k, s.w)) ==
            Shapes(ranges) + if ptr.Some? then [(size, Rounded(size, s.k, s.w))] else []
  {
    hide Pow2, Rounded;
  }

  /** In a sound run exactly the requests that fit are answered with a range, in order and of the rounded size. */
  lemma {:induction false} RunAnswers(p: PoolState, ranges: seq<Range>, qs: seq<Request>, s: Setup)
    requires EnabledRun(p, qs, s) && (qs != [] ==> s.Valid()) && AllSound(p, qs, s) && (qs != [] ==> Safe(p, ranges, s))
    ensures Shapes(Run(p, ranges, qs, s).1) == Shapes(ranges) + Fitting(p, qs, s)
    decreases |qs|
  {
    if qs == [] {
      assert Shapes(ranges) + [] == Shapes(ranges);
    } else {
      hide Safe, Sound, Enabled, Fits, Find, Shapes, Rounded, Pow2;
      RunAnswersStep(p, ranges, qs, s);
      var (p', ranges') := Next(p, ranges, qs[0], s);
      RunAnswers(p', ranges', qs[1..], s);
      var head := if Fits(p, qs[0], s) then [(qs[0].size, Rounded(qs[0].size, s.k, s.w))] else [];
      assert Shapes(ranges) + head + Fitting(p', qs[1..], s) == Shapes(ranges) + (head + Fitting(p', qs[1..], s));
    }
  }

  lemma RunAnswersStep(p: PoolState, ranges: seq<Range>, qs: seq<Request>, s: Setup)
    requires qs != [] && EnabledRun(p, qs, s) && s.Valid() && AllSound(p, qs, s) && Safe(p, ranges, s)
    ensures var (p', ranges') := Next(p, ranges, qs[0], s);
            && p' == Next(p, [], qs[0], s).0 && Safe(p', ranges', s)
            && EnabledRun(p', qs[1..], s) && AllSound(p', qs[1..], s)
            && Shapes(ranges') ==
               Shapes(ranges) + if Fits(p, qs[0], s) then [(qs[0].size, Rounded(qs[0].size, s.k, s.w))] else []
  {
    hide Pow2, Rounded, Safe, Sound, Enabled, Fits, Find, Shapes, Granted;
    EnabledWords(p, qs[0], s);
    NextAnswers(p, ranges, qs[0], s);
    SoundKeeps(p, ranges, qs[0], s);
    var (p', ptr) := Find(p, qs[0].size, qs[0].granted, s);
    ShapesGranted(ranges, ptr, qs[0].size, s);
  }

  lemma EnabledWords(p: PoolState, q: Request, s: Setup)
    requires Enabled(p, q, s)
    ensures s.Valid() && q.size < Pow2(s.w)
  {
  }

  /** A pool that does not grow, and requests whose reckoning does not wrap, are sound throughout. */
  lemma {:induction false} ReckonedRunSound(p: PoolState, qs: seq<Request>, s: Setup)
    requires EnabledRun(p, qs, s) && (s.increment > 0 ==> forall q <- qs :: s.Reckons(q.size))
    ensures AllSound(p, qs, s)
    decreases |qs|
  {
    hide Enabled, Sound, Find, Setup.Reckons;
    if qs != [] {
      assert qs[0] in qs && forall q <- qs[1..] :: q in qs;
      EnabledWords(p, qs[0], s);
      ReckonedSound(p, qs[0], s);
      ReckonedRunSound(Next(p, [], qs[0], s).0, qs[1..], s);
    }
  }

  /** Where runs start: one block, nothing handed out, and safe exactly if the aligned cursor is inside it. */
  lemma StartSafeIff(addr: nat, size: nat, capacity: nat, s: Setup)
    requires s.Valid() && size < Pow2(s.w)
    ensures Safe(PoolState([NewBlock(addr, size, s.header, s.k, s.w)], capacity), [], s) <==>
            AlignPtr(addr + s.header, s.k, s.w) <= addr + size
  {
    hide Pow2, AlignPtr, Aligned;
    PadSmall(addr, s);
    AlignPtrLeast(addr + s.header, s.k, s.w);
    var p := PoolState([NewBlock(addr, size, s.header, s.k, s.w)], capacity);
    assert p.blocks[0].Valid(s.w) <==> AlignPtr(addr + s.header, s.k, s.w) <= addr + size;
  }

  lemma RunHead(p: PoolState, ranges: seq<Range>, qs: seq<Request>, i: nat, s: Setup)
    requires i < |qs| && EnabledRun(p, qs[i..], s)
    ensures Enabled(p, qs[i], s)
    ensures var (p', ranges') := Next(p, ranges, qs[i], s);
            EnabledRun(p', qs[i + 1..], s) && Run(p, ranges, qs[i..], s) == Run(p', ranges', qs[i + 1..], s)
  {
    hide Enabled, Find;
    var rest := qs[i..];
    assert rest[0] == qs[i] && rest[1..] == qs[i + 1..];
  }

  method ServeOne(pool: MemoryPool, q: Request, ranges: seq<Range>) returns (ranges': seq<Range>)
    requires pool.Valid() && Enabled(pool.State(), q, pool.setup)
    modifies pool, pool.blocks
    ensures pool.Valid() && forall b <- pool.blocks :: b in old(pool.blocks) || fresh(b)
    ensures (pool.State(), ranges') == Next(old(pool.State()), ranges, q, pool.setup)
  {
    hide Pow2, Find, BlockSize, GrantedApart;
    var ptr := pool.Allocate(q.size, q.granted);
    ranges' := Granted(ranges, ptr, q.size, pool.setup.k, pool.setup.w);
  }

  lemma AnswersFromStart(p: PoolState, qs: seq<Request>, s: Setup)
    requires s.Valid() && EnabledRun(p, qs, s) && AllSound(p, qs, s) && Safe(p, [], s)
    ensures Shapes(Run(p, [], qs, s).1) == Fitting(p, qs, s)
  {
    RunAnswers(p, [], qs, s);
    assert Shapes([]) + Fitting(p, qs, s) == Fitting(p, qs, s);
  }

  /** The pool object serves a run of requests. */
  method Serve(pool: MemoryPool, qs: seq<Request>) returns (ranges: seq<Range>)
    requires pool.Valid() && EnabledRun(pool.State(), qs, pool.setup) && Safe(pool.State(), [], pool.setup)
    modifies pool, pool.blocks
    ensures pool.Valid() && (Safe(pool.State(), ranges, pool.setup) <==> old(AllSound(pool.State(), qs, pool.setup)))
    ensures (pool.State(), ranges) == Run(old(pool.State()), [], qs, pool.setup)
    ensures old(AllSound(pool.State(), qs, pool.setup)) ==> Shapes(ranges) == old(Fitting(pool.State(), qs, pool.setup))
  {
    hide Next, Safe, Enabled, EnabledRun, AllSound, Run, Fitting, Shapes, MemoryPool.Valid, MemoryPool.State;
    ranges := [];
    ghost var run := Run(pool.State(), [], qs, pool.setup);
    ValidSetup(pool);
    RunSafeIff(pool.State(), [], qs, pool.setup);
    if AllSound(pool.State(), qs, pool.setup) { AnswersFromStart(pool.State(), qs, pool.setup); }
    assert qs[0..] == qs;
    var i := 0;
    while i < |qs|
      invariant 0 <= i <= |qs| && pool.Valid()
      invariant forall b <- pool.blocks :: b in old(pool.blocks) || fresh(b)
      invariant EnabledRun(pool.State(), qs[i..], pool.setup)
      invariant Run(pool.State(), ranges, qs[i..], pool.setup) == run
    {
      RunHead(pool.State(), ranges, qs, i, pool.setup);
      assert forall j :: 0 <= j < |pool.blocks| ==> pool.blocks[j] in old(pool.blocks) || fresh(pool.blocks[j]);
      ranges := ServeOne(pool, qs[i], ranges);
      i := i + 1;
    }
    RunEnd(pool.State(), ranges, qs[i..], pool.setup);
  }

  lemma RunEnd(p: PoolState, ranges: seq<Range>, qs: seq<Request>, s: Setup)
    requires qs == []
    ensures EnabledRun(p, qs, s) && Run(p, ranges, qs, s) == (p, ranges)
  {
  }

  lemma ValidSetup(pool: MemoryPool)
    requires pool.Valid()
    ensures pool.setup.Valid()
  {
  }
}
