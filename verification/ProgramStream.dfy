/**
 What the program stream demultiplexer means, without any mutation: a reader that walks a memory image
 with the branches of pstoh264.cpp, and the ISO/IEC 13818-1 layout that the reader is supposed to undo.
 */
module ProgramStream {
  import opened Bytes

  const PACK_HEADER_SIZE := 14
  const UNIT_HEADER_SIZE := 6
  const PES_HEADER_SIZE := 9
  const START_CODE_SIZE := 4

  const VIDEO_PES: byte := 0xE0
  const SYSTEM_HEADER: byte := 0xBB
  const STREAM_MAP: byte := 0xBC

  // ---------------------------------------------------------------------------------------------
  // The reader
  // ---------------------------------------------------------------------------------------------

  /** The test for a start code stays in memory: it reads no further than the first octet that differs. */
  predicate Testable(mem: seq<byte>, pos: nat) {
    && pos < |mem|
    && (mem[pos] == 0 ==> pos + 1 < |mem|)
    && (mem[pos] == 0 && mem[pos + 1] == 0 ==> pos + 2 < |mem|)
    && (mem[pos] == 0 && mem[pos + 1] == 0 && mem[pos + 2] == 1 ==> pos + 3 < |mem|)
  }

  /** The four octets at `pos` are 00 00 01 `id`. */
  predicate StartsUnit(mem: seq<byte>, pos: nat, id: byte)
    requires Testable(mem, pos)
  {
    mem[pos] == 0 && mem[pos + 1] == 0 && mem[pos + 2] == 1 && mem[pos + 3] == id
  }

  function LengthField(mem: seq<byte>, pos: nat): nat
    requires pos + UNIT_HEADER_SIZE <= |mem|
  {
    BE16(mem[pos + 4], mem[pos + 5])
  }

  /** `left >= bound` the way C compares an `int` with a `size_t`: a negative `left` counts as huge. */
  predicate AtLeast(left: int, bound: nat) {
    left < 0 || bound <= left
  }

  /**
   What the loop at pos appends to the output when `left` octets remain, reading a memory image that
   nobody writes to. None: the program reads or copies outside the image, or copies a negative count.
   */
  function DemuxFrom(mem: seq<byte>, pos: nat, left: int): Option<seq<byte>>
    decreases |mem| - pos
  {
    if !AtLeast(left, START_CODE_SIZE) then Some([])
    else if !Testable(mem, pos) then None
    else if StartsUnit(mem, pos, VIDEO_PES) then
      if !AtLeast(left, PES_HEADER_SIZE) then Some([])
      else if |mem| < pos + PES_HEADER_SIZE then None
      else
        var end := pos + UNIT_HEADER_SIZE + LengthField(mem, pos);
        var start := pos + PES_HEADER_SIZE + mem[pos + 8];
        var left' := left + pos - end;
        if end < start || (start < end && |mem| < end) then None
        else
          var payload := if start < end then mem[start..end] else [];
          if left' <= 0 then Some(payload)
          else
            match DemuxFrom(mem, end, left')
            case None => None
            case Some(rest) => Some(payload + rest)
    else if StartsUnit(mem, pos, SYSTEM_HEADER) || StartsUnit(mem, pos, STREAM_MAP) then
      if StartsUnit(mem, pos, STREAM_MAP) && !AtLeast(left, UNIT_HEADER_SIZE) then Some([])
      else if |mem| < pos + UNIT_HEADER_SIZE then None
      else
        var size := UNIT_HEADER_SIZE + LengthField(mem, pos);
        DemuxFrom(mem, pos + size, left - size)
    else Some([])
  }

  /** Octets taken by the pack header and its stuffing; the low three bits of octet 13 count the stuffing. */
  function PackHeaderEnd(mem: seq<byte>): nat
    requires PACK_HEADER_SIZE <= |mem|
  {
    PACK_HEADER_SIZE + mem[13] % 8
  }

  /** The whole demultiplexer on a frozen image whose first `length` octets are the received data. */
  function Demux(mem: seq<byte>, length: nat): Option<seq<byte>>
    requires PACK_HEADER_SIZE <= |mem|
  {
    var left := length - PackHeaderEnd(mem);
    if left < START_CODE_SIZE then Some([]) else DemuxFrom(mem, PackHeaderEnd(mem), left)
  }

  // ---------------------------------------------------------------------------------------------
  // The layout
  // ---------------------------------------------------------------------------------------------

  /** The units that may follow a pack header (ISO/IEC 13818-1, 2.4.3.6, 2.5.3.5 and 2.5.4). */
  datatype Unit =
    | Video(info0: byte, info1: byte, optional: seq<byte>, payload: seq<byte>)
    | SystemHeader(body: seq<byte>)
    | StreamMap(body: seq<byte>)
  {
    /** The two length fields can hold their values. */
    ghost predicate Valid() {
      match this
      case Video(_, _, optional, payload) => |optional| < 0x100 && 3 + |optional| + |payload| < 0x1_0000
      case SystemHeader(body) => |body| < 0x1_0000
      case StreamMap(body) => |body| < 0x1_0000
    }

    function Encode(): seq<byte>
      requires Valid()
    {
      match this
      case Video(i0, i1, optional, payload) =>
        UnitHeader(VIDEO_PES, 3 + |optional| + |payload|) + [i0, i1, |optional|] + optional + payload
      case SystemHeader(body) => UnitHeader(SYSTEM_HEADER, |body|) + body
      case StreamMap(body) => UnitHeader(STREAM_MAP, |body|) + body
    }

    function Carried(): seq<byte> {
      match this
      case Video(_, _, _, payload) => payload
      case _ => []
    }
  }

  function UnitHeader(id: byte, length: nat): (h: seq<byte>)
    requires length < 0x1_0000
    ensures |h| == UNIT_HEADER_SIZE && BE16(h[4], h[5]) == length
  {
    [0, 0, 1, id, length / 0x100, length % 0x100]
  }

  ghost predicate AllValid(units: seq<Unit>) {
    forall u <- units :: u.Valid()
  }

  function MuxUnits(units: seq<Unit>): seq<byte>
    requires AllValid(units)
  {
    if units == [] then [] else units[0].Encode() + MuxUnits(units[1..])
  }

  /** The elementary stream the units carry. */
  function Carried(units: seq<Unit>): seq<byte> {
    if units == [] then [] else units[0].Carried() + Carried(units[1..])
  }

  /** Octets at which the reader stops at once: too few, or no start code it knows. */
  predicate Inert(tail: seq<byte>) {
    || |tail| < START_CODE_SIZE
    || (!StartsUnit(tail, 0, VIDEO_PES) && !StartsUnit(tail, 0, SYSTEM_HEADER) && !StartsUnit(tail, 0, STREAM_MAP))
    || (StartsUnit(tail, 0, VIDEO_PES) && |tail| < PES_HEADER_SIZE)
    || (StartsUnit(tail, 0, STREAM_MAP) && |tail| < UNIT_HEADER_SIZE)
  }

  /** One pack: header, stuffing, units, and whatever inert octets follow. */
  datatype Pack = Pack(header: seq<byte>, stuffing: seq<byte>, units: seq<Unit>, tail: seq<byte>) {
    ghost predicate Valid() {
      && |header| == PACK_HEADER_SIZE && |stuffing| == header[13] % 8
      && AllValid(units) && Inert(tail)
    }

    function Mux(): seq<byte>
      requires Valid()
    {
      header + stuffing + (MuxUnits(units) + tail)
    }
  }

  // ---------------------------------------------------------------------------------------------
  // The reader undoes the layout
  // ---------------------------------------------------------------------------------------------

  /** `out` in front of what a reader emits later. */
  function Prefixed(out: seq<byte>, later: Option<seq<byte>>): Option<seq<byte>> {
    if later.None? then None else Some(out + later.value)
  }

  /** The field values the reader sees at the start of an encoded unit. */
  lemma EncodedFields(u: Unit)
    requires u.Valid()
    ensures var e := u.Encode();
            && |e| == UNIT_HEADER_SIZE + LengthField(e, 0)
            && match u
               case Video(i0, i1, optional, payload) =>
                 && StartsUnit(e, 0, VIDEO_PES) && |e| == PES_HEADER_SIZE + |optional| + |payload|
                 && e[6] == i0 && e[7] == i1 && e[8] == |optional|
                 && e[PES_HEADER_SIZE..PES_HEADER_SIZE + |optional|] == optional
                 && e[PES_HEADER_SIZE + |optional|..] == payload
               case SystemHeader(body) => StartsUnit(e, 0, SYSTEM_HEADER) && e[UNIT_HEADER_SIZE..] == body
               case StreamMap(body) => StartsUnit(e, 0, STREAM_MAP) && e[UNIT_HEADER_SIZE..] == body
  {
  }

  /** The same fields, read in memory from the front of a unit of which `cut` octets are there. */
  lemma FieldsInMemory(mem: seq<byte>, pos: nat, u: Unit, cut: nat)
    requires u.Valid() && UNIT_HEADER_SIZE <= cut <= |u.Encode()| && pos + cut <= |mem|
    requires mem[pos..pos + cut] == u.Encode()[..cut]
    ensures StartsUnit(mem, pos, VIDEO_PES) == u.Video? && StartsUnit(mem, pos, SYSTEM_HEADER) == u.SystemHeader?
    ensures StartsUnit(mem, pos, STREAM_MAP) == u.StreamMap?
    ensures UNIT_HEADER_SIZE + LengthField(mem, pos) == |u.Encode()|
    ensures u.Video? && PES_HEADER_SIZE <= cut ==> mem[pos + 8] == |u.optional|
  {
    hide Unit.Encode;
    var e, m := u.Encode(), mem[pos..pos + cut];
    EncodedFields(u);
    assert m[0] == e[0] && m[1] == e[1] && m[2] == e[2] && m[3] == e[3] && m[4] == e[4] && m[5] == e[5];
    assert PES_HEADER_SIZE <= cut ==> m[8] == e[8];
  }

  /** One encoded unit in memory makes the reader emit what it carries and move to the next unit. */
  lemma DemuxOneUnit(mem: seq<byte>, pos: nat, left: nat, u: Unit)
    requires u.Valid() && |u.Encode()| <= left && pos + left <= |mem|
    requires mem[pos..pos + |u.Encode()|] == u.Encode()
    ensures DemuxFrom(mem, pos, left) ==
            Prefixed(u.Carried(), DemuxFrom(mem, pos + |u.Encode()|, left - |u.Encode()|))
  {
    hide Unit.Encode, StartsUnit, Testable, LengthField, DemuxFrom, Prefixed;
    var e := u.Encode();
    EncodedFields(u);
    assert e[..|e|] == e;
    FieldsInMemory(mem, pos, u, |e|);
    if u.Video? {
      var skip := PES_HEADER_SIZE + |u.optional|;
      assert mem[pos + skip..pos + |e|] == mem[pos..pos + |e|][skip..] == u.payload;
      DemuxVideo(mem, pos, left);
    } else {
      DemuxSkip(mem, pos, left);
      PrefixedTwice([], [], DemuxFrom(mem, pos + |e|, left - |e|));
    }
  }

  /** The reader at a video unit that fits. */
  lemma DemuxVideo(mem: seq<byte>, pos: nat, left: nat)
    requires PES_HEADER_SIZE <= left && pos + left <= |mem| && StartsUnit(mem, pos, VIDEO_PES)
    requires PES_HEADER_SIZE + mem[pos + 8] <= UNIT_HEADER_SIZE + LengthField(mem, pos) <= left
    ensures var size, skip := UNIT_HEADER_SIZE + LengthField(mem, pos), PES_HEADER_SIZE + mem[pos + 8];
            DemuxFrom(mem, pos, left) == Prefixed(mem[pos + skip..pos + size], DemuxFrom(mem, pos + size, left - size))
  {
    hide StartsUnit, LengthField;
    var size, skip := UNIT_HEADER_SIZE + LengthField(mem, pos), PES_HEADER_SIZE + mem[pos + 8];
    var payload := mem[pos + skip..pos + size];
    assert skip == size ==> payload == [];
    assert payload + [] == payload;
  }

  /** The reader at another unit that fits. */
  lemma DemuxSkip(mem: seq<byte>, pos: nat, left: nat)
    requires UNIT_HEADER_SIZE <= left && pos + left <= |mem| && !StartsUnit(mem, pos, VIDEO_PES)
    requires StartsUnit(mem, pos, SYSTEM_HEADER) || StartsUnit(mem, pos, STREAM_MAP)
    ensures var size := UNIT_HEADER_SIZE + LengthField(mem, pos);
            DemuxFrom(mem, pos, left) == DemuxFrom(mem, pos + size, left - size)
  {
    hide StartsUnit, LengthField;
  }

  lemma InertStops(mem: seq<byte>, pos: nat, tail: seq<byte>)
    requires Inert(tail) && pos + |tail| <= |mem| && mem[pos..pos + |tail|] == tail
    ensures DemuxFrom(mem, pos, |tail|) == Some([])
  {
    if START_CODE_SIZE <= |tail| {
      var t := mem[pos..pos + |tail|];
      assert mem[pos] == t[0] && mem[pos + 1] == t[1] && mem[pos + 2] == t[2] && mem[pos + 3] == t[3];
    }
  }

  lemma SplitWindow(mem: seq<byte>, pos: nat, left: nat, first: seq<byte>, rest: seq<byte>)
    requires pos + left <= |mem| && mem[pos..pos + left] == first + rest
    ensures |first| + |rest| == left
    ensures mem[pos..pos + |first|] == first
    ensures mem[pos + |first|..pos + left] == rest
  {
    var data := mem[pos..pos + left];
    assert mem[pos..pos + |first|] == data[..|first|];
    assert mem[pos + |first|..pos + left] == data[|first|..];
  }

  /** Encoded units in front of anything are consumed one by one. */
  lemma {:induction false} DemuxPrefix(mem: seq<byte>, pos: nat, left: nat, units: seq<Unit>, rest: seq<byte>)
    requires AllValid(units) && pos + left <= |mem|
    requires mem[pos..pos + left] == MuxUnits(units) + rest
    ensures |rest| <= left
    ensures DemuxFrom(mem, pos, left) == Prefixed(Carried(units), DemuxFrom(mem, pos + left - |rest|, |rest|))
    decreases |units|
  {
    hide DemuxFrom, Unit.Encode, Unit.Carried, Prefixed;
    if units == [] {
      SplitWindow(mem, pos, left, [], rest);
      PrefixedTwice([], [], DemuxFrom(mem, pos, left));
    } else {
      var u := units[0];
      var e, next := u.Encode(), MuxUnits(units[1..]) + rest;
      assert MuxUnits(units) + rest == e + next;
      SplitWindow(mem, pos, left, e, next);
      DemuxPrefix(mem, pos + |e|, left - |e|, units[1..], rest);
      DemuxOneUnit(mem, pos, left, u);
      PrefixedTwice(u.Carried(), Carried(units[1..]), DemuxFrom(mem, pos + left - |rest|, |rest|));
    }
  }

  lemma PrefixedTwice(a: seq<byte>, b: seq<byte>, later: Option<seq<byte>>)
    ensures Prefixed(a, Prefixed(b, later)) == Prefixed(a + b, later)
    ensures Prefixed([], later) == later
  {
    if later.Some? {
      assert a + (b + later.value) == a + b + later.value;
      assert [] + later.value == later.value;
    }
  }

  lemma DemuxUnits(mem: seq<byte>, pos: nat, left: nat, units: seq<Unit>, tail: seq<byte>)
    requires AllValid(units) && Inert(tail) && pos + left <= |mem|
    requires mem[pos..pos + left] == MuxUnits(units) + tail
    ensures DemuxFrom(mem, pos, left) == Some(Carried(units))
  {
    hide DemuxFrom, Inert, MuxUnits;
    DemuxPrefix(mem, pos, left, units, tail);
    SplitWindow(mem, pos, left, MuxUnits(units), tail);
    InertStops(mem, pos + left - |tail|, tail);
    assert Carried(units) + [] == Carried(units);
  }

  // ---------------------------------------------------------------------------------------------
  // A stream cut off anywhere
  // ---------------------------------------------------------------------------------------------

  /** What the reader emits for a unit of which only the first `cut` octets came, in front of cleared memory. */
  function CutCarried(u: Unit, cut: nat): seq<byte> {
    match u
    case Video(_, _, optional, payload) =>
      if cut < PES_HEADER_SIZE then [] else Padded(payload, cut - PES_HEADER_SIZE - |optional|)
    case _ => []
  }

  /** The first `kept` octets, none if that is negative, and zeros in place of the others. */
  function Padded(s: seq<byte>, kept: int): seq<byte> {
    if kept < 0 then Zeros(|s|) else if kept < |s| then s[..kept] + Zeros(|s| - kept) else s
  }

  /** In cleared memory the test ends at the third octet, which is not 1. */
  const CLEARED_TEST := 3

  /** How many octets from the start of that unit on the reader touches. */
  function CutReach(u: Unit, cut: nat): nat
    requires u.Valid()
  {
    if cut < START_CODE_SIZE then cut
    else
      match u
      case Video(_, _, _, payload) => if cut < PES_HEADER_SIZE || payload == [] then cut else |u.Encode()|
      case SystemHeader(body) =>
        UNIT_HEADER_SIZE + CLEARED_TEST +
        (if cut == 4 then 0 else if cut == 5 then |body| / 0x100 * 0x100 else |body|)
      case StreamMap(body) => if cut < UNIT_HEADER_SIZE then cut else UNIT_HEADER_SIZE + |body| + CLEARED_TEST
  }

  ghost predicate Cleared(mem: seq<byte>, from: nat) {
    forall i :: from <= i < |mem| ==> mem[i] == 0
  }

  /** The start code, and the high octet of the length, as far as they came. */
  lemma StartInMemory(mem: seq<byte>, pos: nat, u: Unit, cut: nat)
    requires u.Valid() && START_CODE_SIZE <= cut <= |u.Encode()| && pos + cut <= |mem|
    requires mem[pos..pos + cut] == u.Encode()[..cut]
    ensures StartsUnit(mem, pos, VIDEO_PES) == u.Video? && StartsUnit(mem, pos, SYSTEM_HEADER) == u.SystemHeader?
    ensures StartsUnit(mem, pos, STREAM_MAP) == u.StreamMap?
    ensures START_CODE_SIZE < cut && u.SystemHeader? ==> mem[pos + 4] == |u.body| / 0x100
  {
    var e, m := u.Encode(), mem[pos..pos + cut];
    assert m[0] == e[0] && m[1] == e[1] && m[2] == e[2] && m[3] == e[3];
    assert START_CODE_SIZE < cut ==> m[4] == e[4];
  }

  /** In cleared memory the reader stops, if it does not run out of it. */
  lemma ClearedStops(mem: seq<byte>, pos: nat, left: int)
    requires left < 0 && Cleared(mem, pos)
    ensures DemuxFrom(mem, pos, left) == if pos + CLEARED_TEST <= |mem| then Some([]) else None
  {
  }

  /** A video unit whose header came is emitted at its declared size, with whatever lies in memory. */
  lemma DemuxCutVideo(mem: seq<byte>, pos: nat, u: Unit, cut: nat)
    requires u.Valid() && u.Video? && PES_HEADER_SIZE <= cut < |u.Encode()| && pos + cut <= |mem|
    requires mem[pos..pos + cut] == u.Encode()[..cut]
    ensures DemuxFrom(mem, pos, cut) ==
            if u.payload == [] then Some([])
            else if |mem| < pos + |u.Encode()| then None
            else Some(mem[pos + PES_HEADER_SIZE + |u.optional|..pos + |u.Encode()|])
  {
    hide Unit.Encode, LengthField, StartsUnit;
    EncodedFields(u);
    FieldsInMemory(mem, pos, u, cut);
  }

  /** What lies there in cleared memory. */
  lemma CutPayload(mem: seq<byte>, pos: nat, u: Unit, cut: nat)
    requires u.Valid() && u.Video? && PES_HEADER_SIZE <= cut < |u.Encode()| && pos + |u.Encode()| <= |mem|
    requires mem[pos..pos + cut] == u.Encode()[..cut] && Cleared(mem, pos + cut)
    ensures mem[pos + PES_HEADER_SIZE + |u.optional|..pos + |u.Encode()|] == CutCarried(u, cut)
  {
    hide Unit.Encode;
    EncodedFields(u);
    var e, at := u.Encode(), PES_HEADER_SIZE + |u.optional|;
    if at <= cut {
      assert mem[pos + at..pos + cut] == mem[pos..pos + cut][at..] == e[..cut][at..] == e[at..][..cut - at];
      assert mem[pos + cut..pos + |e|] == Zeros(|e| - cut);
      assert mem[pos + at..pos + |e|] == mem[pos + at..pos + cut] + mem[pos + cut..pos + |e|];
    } else {
      assert mem[pos + at..pos + |e|] == Zeros(|e| - at);
    }
  }

  lemma DemuxCutHeader(mem: seq<byte>, pos: nat, u: Unit, cut: nat)
    requires u.Valid() && START_CODE_SIZE <= cut < UNIT_HEADER_SIZE && pos + cut <= |mem|
    requires mem[pos..pos + cut] == u.Encode()[..cut] && Cleared(mem, pos + cut)
    ensures DemuxFrom(mem, pos, cut) == if pos + CutReach(u, cut) <= |mem| then Some([]) else None
  {
    hide Unit.Encode, StartsUnit;
    EncodedFields(u);
    StartInMemory(mem, pos, u, cut);
    if u.SystemHeader? && pos + UNIT_HEADER_SIZE <= |mem| {
      var size := UNIT_HEADER_SIZE + LengthField(mem, pos);
      ClearedStops(mem, pos + size, cut - size);
    }
  }

  /** Any unit cut anywhere in front of cleared memory. */
  lemma DemuxCutUnit(mem: seq<byte>, pos: nat, u: Unit, cut: nat)
    requires u.Valid() && cut < |u.Encode()| && pos + cut <= |mem|
    requires mem[pos..pos + cut] == u.Encode()[..cut] && Cleared(mem, pos + cut)
    ensures DemuxFrom(mem, pos, cut) == if pos + CutReach(u, cut) <= |mem| then Some(CutCarried(u, cut)) else None
  {
    hide Unit.Encode, LengthField, StartsUnit, DemuxFrom;
    EncodedFields(u);
    if cut < START_CODE_SIZE {
      TooFew(mem, pos, cut);
    } else if cut < UNIT_HEADER_SIZE {
      DemuxCutHeader(mem, pos, u, cut);
    } else if u.Video? {
      if cut < PES_HEADER_SIZE {
        FieldsInMemory(mem, pos, u, cut);
        HeaderCutShort(mem, pos, cut);
      } else {
        DemuxCutVideo(mem, pos, u, cut);
        if pos + |u.Encode()| <= |mem| { CutPayload(mem, pos, u, cut); }
      }
    } else {
      FieldsInMemory(mem, pos, u, cut);
      DemuxCutSkip(mem, pos, u, cut);
    }
  }

  lemma TooFew(mem: seq<byte>, pos: nat, left: nat)
    requires left < START_CODE_SIZE
    ensures DemuxFrom(mem, pos, left) == Some([])
  {
  }

  lemma HeaderCutShort(mem: seq<byte>, pos: nat, left: nat)
    requires START_CODE_SIZE <= left < PES_HEADER_SIZE && pos + left <= |mem| && StartsUnit(mem, pos, VIDEO_PES)
    ensures DemuxFrom(mem, pos, left) == Some([])
  {
  }

  lemma DemuxCutSkip(mem: seq<byte>, pos: nat, u: Unit, cut: nat)
    requires u.Valid() && !u.Video? && UNIT_HEADER_SIZE <= cut < |u.Encode()| && pos + cut <= |mem|
    requires |u.Encode()| == UNIT_HEADER_SIZE + LengthField(mem, pos) && Cleared(mem, pos + cut)
    requires !StartsUnit(mem, pos, VIDEO_PES) && (StartsUnit(mem, pos, SYSTEM_HEADER) || StartsUnit(mem, pos, STREAM_MAP))
    ensures DemuxFrom(mem, pos, cut) == if pos + |u.Encode()| + CLEARED_TEST <= |mem| then Some([]) else None
  {
    hide Unit.Encode, LengthField, StartsUnit;
    ClearedStops(mem, pos + |u.Encode()|, cut - |u.Encode()|);
  }

  /** What comes out of the first `n` octets of encoded units and an inert rest. */
  function CutStream(units: seq<Unit>, n: nat): seq<byte>
    requires AllValid(units)
  {
    if units == [] then []
    else
      var size := |units[0].Encode()|;
      if n < size then CutCarried(units[0], n) else units[0].Carried() + CutStream(units[1..], n - size)
  }

  /** How many octets the reader touches. */
  function StreamReach(units: seq<Unit>, n: nat): nat
    requires AllValid(units)
  {
    if units == [] then n
    else
      var size := |units[0].Encode()|;
      if n < size then CutReach(units[0], n) else size + StreamReach(units[1..], n - size)
  }

  lemma InertPrefix(tail: seq<byte>, n: nat)
    requires Inert(tail) && n <= |tail|
    ensures Inert(tail[..n])
  {
  }

  /** A stream cut anywhere: the reader stays in memory exactly if its reach does, and emits CutStream. */
  lemma {:induction false} DemuxCutStream(mem: seq<byte>, pos: nat, n: nat, units: seq<Unit>, tail: seq<byte>)
    requires AllValid(units) && Inert(tail) && n <= |MuxUnits(units) + tail| && pos + n <= |mem|
    requires mem[pos..pos + n] == (MuxUnits(units) + tail)[..n] && Cleared(mem, pos + n)
    ensures DemuxFrom(mem, pos, n) ==
            if pos + StreamReach(units, n) <= |mem| then Some(CutStream(units, n)) else None
    decreases |units|
  {
    hide DemuxFrom, Unit.Encode, Inert, Cleared;
    if units == [] {
      assert (MuxUnits(units) + tail)[..n] == tail[..n];
      InertPrefix(tail, n);
      InertStops(mem, pos, tail[..n]);
    } else {
      var e, next := units[0].Encode(), MuxUnits(units[1..]) + tail;
      assert MuxUnits(units) + tail == e + next;
      if n < |e| {
        assert (e + next)[..n] == e[..n];
        DemuxCutUnit(mem, pos, units[0], n);
      } else {
        var m := n - |e|;
        assert (e + next)[..n] == e + next[..m];
        SplitWindow(mem, pos, n, e, next[..m]);
        DemuxOneUnit(mem, pos, n, units[0]);
        DemuxCutStream(mem, pos + |e|, m, units[1..], tail);
      }
    }
  }

  /** The octets of the carried stream that came. */
  function KeptOctets(units: seq<Unit>, n: nat): nat
    requires AllValid(units)
  {
    if units == [] then 0
    else
      var size := |units[0].Encode()|;
      if n < size then KeptOfUnit(units[0], n) else |units[0].Carried()| + KeptOctets(units[1..], n - size)
  }

  function KeptOfUnit(u: Unit, cut: nat): nat {
    if u.Video? && PES_HEADER_SIZE + |u.optional| < cut then cut - PES_HEADER_SIZE - |u.optional| else 0
  }

  /** `out` is the first `kept` octets of `whole`, then zeros, and no longer than it. */
  ghost predicate Front(out: seq<byte>, whole: seq<byte>, kept: nat) {
    kept <= |out| <= |whole| && out == whole[..kept] + Zeros(|out| - kept)
  }

  lemma FrontAfter(first: seq<byte>, out: seq<byte>, whole: seq<byte>, kept: nat)
    requires Front(out, whole, kept)
    ensures Front(first + out, first + whole, |first| + kept)
  {
    assert (first + whole)[..|first| + kept] == first + whole[..kept];
  }

  lemma FrontThen(out: seq<byte>, whole: seq<byte>, kept: nat, later: seq<byte>)
    requires Front(out, whole, kept)
    ensures Front(out, whole + later, kept)
  {
    assert (whole + later)[..kept] == whole[..kept];
  }

  lemma FrontOfUnit(u: Unit, cut: nat)
    requires u.Valid() && cut < |u.Encode()|
    ensures Front(CutCarried(u, cut), u.Carried(), KeptOfUnit(u, cut))
  {
    hide Unit.Encode;
    EncodedFields(u);
  }

  /** Nothing is invented or moved: what comes out is the front of the carried stream, then zeros. */
  lemma {:induction false} CutStreamIsFront(units: seq<Unit>, n: nat)
    requires AllValid(units)
    ensures Front(CutStream(units, n), Carried(units), KeptOctets(units, n))
    decreases |units|
  {
    hide Unit.Encode, Front, KeptOfUnit, CutCarried, Unit.Carried;
    if units == [] {
      FrontOfNothing();
    } else {
      var u, rest := units[0], units[1..];
      var size := |u.Encode()|;
      if n < size {
        FrontOfUnit(u, n);
        FrontThen(CutCarried(u, n), u.Carried(), KeptOfUnit(u, n), Carried(rest));
      } else {
        CutStreamIsFront(rest, n - size);
        FrontAfter(u.Carried(), CutStream(rest, n - size), Carried(rest), KeptOctets(rest, n - size));
      }
    }
  }

  lemma {:induction false} WholeStream(units: seq<Unit>, n: nat)
    requires AllValid(units) && |MuxUnits(units)| <= n
    ensures CutStream(units, n) == Carried(units)
    decreases |units|
  {
    if units != [] { WholeStream(units[1..], n - |units[0].Encode()|); }
  }

  lemma FrontOfNothing()
    ensures Front([], [], 0)
  {
  }

  /** Demultiplexing a pack gives the payloads of its video units, whatever lies behind it in memory. */
  lemma DemuxUndoesMux(pack: Pack, slack: seq<byte>)
    requires pack.Valid()
    ensures |pack.Mux()| >= PACK_HEADER_SIZE
    ensures Demux(pack.Mux() + slack, |pack.Mux()|) == Some(Carried(pack.units))
  {
    var data := pack.Mux();
    var mem := data + slack;
    var start := PACK_HEADER_SIZE + |pack.stuffing|;
    var left := |data| - start;
    assert mem[13] == pack.header[13];
    assert mem[start..start + left] == MuxUnits(pack.units) + pack.tail;
    DemuxUnits(mem, start, left, pack.units, pack.tail);
  }

  function VideoCount(units: seq<Unit>): nat {
    if units == [] then 0 else (if units[0].Video? then 1 else 0) + VideoCount(units[1..])
  }

  /** Each unit costs its header: this is what keeps the reader ahead of the writer in one buffer. */
  lemma {:induction false} HeadersCost(units: seq<Unit>)
    requires AllValid(units)
    ensures |Carried(units)| + UNIT_HEADER_SIZE * |units| + 3 * VideoCount(units) <= |MuxUnits(units)|
    decreases |units|
  {
    if units != [] {
      EncodedFields(units[0]);
      HeadersCost(units[1..]);
    }
  }

  // ---------------------------------------------------------------------------------------------
  // The layout describes exactly the data whose declared lengths fit
  // ---------------------------------------------------------------------------------------------

  /** The unit at the front of the data, if its declared lengths fit. */
  function ParseUnit(data: seq<byte>): (u: Option<Unit>) {
    if |data| < UNIT_HEADER_SIZE then None
    else
      var end := UNIT_HEADER_SIZE + LengthField(data, 0);
      if |data| < end then None
      else if StartsUnit(data, 0, VIDEO_PES) then
        if |data| < PES_HEADER_SIZE || end < PES_HEADER_SIZE + data[8] then None
        else
          var split := PES_HEADER_SIZE + data[8];
          Some(Video(data[6], data[7], data[PES_HEADER_SIZE..split], data[split..end]))
      else if StartsUnit(data, 0, SYSTEM_HEADER) then Some(SystemHeader(data[UNIT_HEADER_SIZE..end]))
      else if StartsUnit(data, 0, STREAM_MAP) then Some(StreamMap(data[UNIT_HEADER_SIZE..end]))
      else None
  }

  lemma ParseUnitSound(data: seq<byte>)
    requires ParseUnit(data).Some?
    ensures ParseUnit(data).value.Valid() && ParseUnit(data).value.Encode() <= data
  {
    hide StartsUnit, LengthField;
    var end := UNIT_HEADER_SIZE + LengthField(data, 0);
    HeaderParsed(data);
    if StartsUnit(data, 0, VIDEO_PES) {
      VideoParts(data, PES_HEADER_SIZE + data[8], end);
    } else {
      BodyParts(data, end);
    }
  }

  lemma VideoParts(data: seq<byte>, split: nat, end: nat)
    requires PES_HEADER_SIZE <= split <= end <= |data|
    ensures data[..UNIT_HEADER_SIZE] + [data[6], data[7], data[8]] + data[PES_HEADER_SIZE..split] + data[split..end] == data[..end]
    ensures data[..end] <= data
  {
  }

  lemma BodyParts(data: seq<byte>, end: nat)
    requires UNIT_HEADER_SIZE <= end <= |data|
    ensures data[..UNIT_HEADER_SIZE] + data[UNIT_HEADER_SIZE..end] == data[..end]
    ensures data[..end] <= data
  {
  }

  /** A start code and a length field are a unit header. */
  lemma HeaderParsed(data: seq<byte>)
    requires UNIT_HEADER_SIZE <= |data|
    ensures LengthField(data, 0) < 0x1_0000
    ensures forall id :: StartsUnit(data, 0, id) ==> data[..UNIT_HEADER_SIZE] == UnitHeader(id, LengthField(data, 0))
  {
  }

  lemma ParseUnitComplete(u: Unit, rest: seq<byte>)
    requires u.Valid()
    ensures ParseUnit(u.Encode() + rest) == Some(u)
    ensures !Inert(u.Encode() + rest)
  {
    var data, e := u.Encode() + rest, u.Encode();
    EncodedFields(u);
    assert data[..|e|] == e;
    assert LengthField(data, 0) == LengthField(e, 0);
    if u.Video? {
      var split := PES_HEADER_SIZE + |u.optional|;
      assert data[PES_HEADER_SIZE..split] == e[PES_HEADER_SIZE..split];
      assert data[split..|e|] == e[split..];
    } else {
      assert data[UNIT_HEADER_SIZE..|e|] == e[UNIT_HEADER_SIZE..];
    }
  }

  /** Cut the octets behind a pack header into units and inert rest, if every declared length fits. */
  function ParseUnits(data: seq<byte>): Option<(seq<Unit>, seq<byte>)> {
    if Inert(data) then Some(([], data))
    else
      match ParseUnit(data)
      case None => None
      case Some(u) =>
        ParseUnitSound(data);
        EncodedFields(u);
        match ParseUnits(data[|u.Encode()|..])
        case None => None
        case Some((rest, tail)) => Some(([u] + rest, tail))
  }

  /** Whatever the parser accepts is the encoding of what it returns. */
  lemma {:induction false} MuxUndoesParse(data: seq<byte>)
    requires ParseUnits(data).Some?
    ensures var (units, tail) := ParseUnits(data).value;
            AllValid(units) && Inert(tail) && data == MuxUnits(units) + tail
    decreases |data|
  {
    hide ParseUnit, Inert, Unit.Encode;
    var (units, tail) := ParseUnits(data).value;
    if Inert(data) {
      assert data == [] + data;
    } else {
      var u := ParseUnit(data).value;
      ParseUnitSound(data);
      EncodedFields(u);
      var next := data[|u.Encode()|..];
      MuxUndoesParse(next);
      assert units == [u] + ParseUnits(next).value.0;
      assert units[1..] == ParseUnits(next).value.0;
      assert data == u.Encode() + next;
      assert data == u.Encode() + (MuxUnits(units[1..]) + tail);
    }
  }

  lemma {:induction false} ParseUndoesMux(units: seq<Unit>, tail: seq<byte>)
    requires AllValid(units) && Inert(tail)
    ensures ParseUnits(MuxUnits(units) + tail) == Some((units, tail))
    decreases |units|
  {
    hide ParseUnit, Inert, Unit.Encode;
    var data := MuxUnits(units) + tail;
    if units == [] {
      assert data == tail;
    } else {
      var u, rest := units[0], MuxUnits(units[1..]) + tail;
      assert data == u.Encode() + rest;
      ParseUnitComplete(u, rest);
      assert data[|u.Encode()|..] == rest;
      ParseUndoesMux(units[1..], tail);
      assert units == [u] + units[1..];
    }
  }

  /** The declared lengths of the units behind the pack header all fit in the received data. */
  predicate WellFormed(mem: seq<byte>, length: nat)
    requires PACK_HEADER_SIZE <= |mem|
  {
    PackHeaderEnd(mem) <= length <= |mem| && ParseUnits(mem[PackHeaderEnd(mem)..length]).Some?
  }

  /** The pack that well-formed data spells. */
  ghost function PackOf(mem: seq<byte>, length: nat): Pack
    requires PACK_HEADER_SIZE <= |mem| && WellFormed(mem, length)
  {
    var start := PackHeaderEnd(mem);
    var (units, tail) := ParseUnits(mem[start..length]).value;
    Pack(mem[..PACK_HEADER_SIZE], mem[PACK_HEADER_SIZE..start], units, tail)
  }

  lemma WellFormedIsMuxed(mem: seq<byte>, length: nat)
    requires PACK_HEADER_SIZE <= |mem| && WellFormed(mem, length)
    ensures PackOf(mem, length).Valid() && PackOf(mem, length).Mux() == mem[..length]
    ensures Demux(mem, length) == Some(Carried(PackOf(mem, length).units))
  {
    hide ParseUnits, Demux, Inert, Unit.Encode, MuxUnits;
    var p := PackOf(mem, length);
    MuxUndoesParse(mem[PackHeaderEnd(mem)..length]);
    assert mem[..length] == p.header + p.stuffing + mem[PackHeaderEnd(mem)..length];
    DemuxUndoesMux(p, mem[length..]);
    assert mem == mem[..length] + mem[length..];
  }

  lemma MuxedIsWellFormed(pack: Pack, slack: seq<byte>)
    requires pack.Valid()
    ensures PACK_HEADER_SIZE <= |pack.Mux()|
    ensures WellFormed(pack.Mux() + slack, |pack.Mux()|)
    ensures PackOf(pack.Mux() + slack, |pack.Mux()|) == pack
  {
    hide ParseUnits, Inert, Unit.Encode, MuxUnits;
    var mem := pack.Mux() + slack;
    assert mem[13] == pack.header[13];
    assert mem[..PACK_HEADER_SIZE] == pack.header;
    assert mem[PACK_HEADER_SIZE..PackHeaderEnd(mem)] == pack.stuffing;
    assert mem[PackHeaderEnd(mem)..|pack.Mux()|] == MuxUnits(pack.units) + pack.tail;
    ParseUndoesMux(pack.units, pack.tail);
  }

  /** The octets whose declared lengths fit are exactly the multiplexed packs. */
  lemma WellFormedIffMuxed(mem: seq<byte>, length: nat)
    requires PACK_HEADER_SIZE <= length <= |mem|
    ensures WellFormed(mem, length) <==> exists p: Pack :: p.Valid() && p.Mux() == mem[..length]
  {
    hide WellFormed, Pack.Mux, Pack.Valid;
    if WellFormed(mem, length) {
      WellFormedIsMuxed(mem, length);
    }
    forall p: Pack | p.Valid() && p.Mux() == mem[..length]
      ensures WellFormed(mem, length)
    {
      MuxedIsWellFormed(p, mem[length..]);
      assert mem == mem[..length] + mem[length..];
    }
  }

  // ---------------------------------------------------------------------------------------------
  // The same in octets
  // ---------------------------------------------------------------------------------------------

  /** The octets at `pos`. */
  predicate At(mem: seq<byte>, pos: nat, octets: seq<byte>) {
    pos + |octets| <= |mem| && mem[pos..pos + |octets|] == octets
  }

  lemma AtEach(mem: seq<byte>, pos: nat, front: seq<byte>, rest: seq<byte>)
    requires At(mem, pos, front + rest)
    ensures forall i :: 0 <= i < |front| ==> mem[pos + i] == front[i]
    ensures At(mem, pos + |front|, rest)
  {
    var m, all := mem[pos..pos + |front + rest|], front + rest;
    assert forall i :: 0 <= i < |front| ==> mem[pos + i] == m[i] && all[i] == front[i];
    assert mem[pos + |front|..pos + |front + rest|] == m[|front|..] == all[|front|..] == rest;
  }

  /** A packet 00 00 01 E0 emits its payload, and the run goes on behind it. */
  lemma VideoOctets(mem: seq<byte>, pos: nat, left: nat, hi: byte, lo: byte, i0: byte, i1: byte, k: byte,
                    optional: seq<byte>, payload: seq<byte>)
    requires |optional| == k && hi * 256 + lo == 3 + k + |payload| && 9 + k + |payload| <= left && pos + left <= |mem|
    requires At(mem, pos, [0, 0, 1, 0xE0, hi, lo, i0, i1, k] + (optional + payload))
    ensures DemuxFrom(mem, pos, left) ==
            Prefixed(payload, DemuxFrom(mem, pos + 9 + k + |payload|, left - 9 - k - |payload|))
  {
    hide DemuxFrom, At, Prefixed;
    var h := [0, 0, 1, 0xE0, hi, lo, i0, i1, k];
    AtEach(mem, pos, h, optional + payload);
    HeaderOctets(mem, pos, h);
    AtEach(mem, pos + 9, optional, payload);
    AtIs(mem, pos + 9 + k, payload);
    hide StartsUnit, LengthField;
    DemuxVideo(mem, pos, left);
  }

  /** What the reader makes of a start code and a length. */
  lemma HeaderOctets(mem: seq<byte>, pos: nat, h: seq<byte>)
    requires 6 <= |h| && pos + |h| <= |mem| && h[..3] == [0, 0, 1]
    requires forall i :: 0 <= i < |h| ==> mem[pos + i] == h[i]
    ensures Testable(mem, pos) && forall id :: StartsUnit(mem, pos, id) <==> id == h[3]
    ensures LengthField(mem, pos) == h[4] as int * 256 + h[5] as int
    ensures 9 <= |h| ==> mem[pos + 8] == h[8]
  {
    assert h[0] == h[..3][0] && h[1] == h[..3][1] && h[2] == h[..3][2];
    assert mem[pos + 0] == h[0] && mem[pos + 1] == h[1] && mem[pos + 2] == h[2] && mem[pos + 3] == h[3];
    assert mem[pos + 4] == h[4] && mem[pos + 5] == h[5];
  }

  lemma AtIs(mem: seq<byte>, pos: nat, octets: seq<byte>)
    requires At(mem, pos, octets)
    ensures pos + |octets| <= |mem| && mem[pos..pos + |octets|] == octets
  {
  }

  /** A system header 00 00 01 BB and a stream map 00 00 01 BC are passed over, also where more is declared than is left. */
  lemma SkippedOctets(mem: seq<byte>, pos: nat, left: int, id: byte, hi: byte, lo: byte)
    requires left < 0 || 6 <= left || (id == 0xBB && 4 <= left)
    requires (id == 0xBB || id == 0xBC) && At(mem, pos, [0, 0, 1, id, hi, lo])
    ensures var size := 6 + (hi * 256 + lo); DemuxFrom(mem, pos, left) == DemuxFrom(mem, pos + size, left - size)
  {
    hide At, DemuxFrom;
    var h := [0, 0, 1, id, hi, lo];
    assert h + [] == h;
    AtEach(mem, pos, h, []);
    HeaderOctets(mem, pos, h);
    AtIs(mem, pos, h);
    SkipAny(mem, pos, left);
  }

  lemma SkipAny(mem: seq<byte>, pos: nat, left: int)
    requires pos + 6 <= |mem| && Testable(mem, pos) && !StartsUnit(mem, pos, VIDEO_PES)
    requires StartsUnit(mem, pos, SYSTEM_HEADER) || StartsUnit(mem, pos, STREAM_MAP)
    requires left < 0 || 6 <= left || (!StartsUnit(mem, pos, STREAM_MAP) && 4 <= left)
    ensures var size := UNIT_HEADER_SIZE + LengthField(mem, pos);
            DemuxFrom(mem, pos, left) == DemuxFrom(mem, pos + size, left - size)
  {
    hide StartsUnit, LengthField, Testable;
  }

  lemma VideoNegative(mem: seq<byte>, pos: nat, left: int)
    requires left < 0 && pos + 9 <= |mem| && Testable(mem, pos) && StartsUnit(mem, pos, VIDEO_PES)
    requires 9 + mem[pos + 8] <= 6 + LengthField(mem, pos) && pos + 6 + LengthField(mem, pos) <= |mem|
    ensures DemuxFrom(mem, pos, left) == Some(mem[pos + 9 + mem[pos + 8]..pos + 6 + LengthField(mem, pos)])
  {
    hide StartsUnit, LengthField, Testable;
    var start, end := pos + 9 + mem[pos + 8], pos + 6 + LengthField(mem, pos);
    assert start == end ==> mem[start..end] == [];
  }

  /** With a negative count left a packet 00 00 01 E0 is still emitted, and ends the run. */
  lemma NegativeOctets(mem: seq<byte>, pos: nat, left: int, hi: byte, lo: byte, i0: byte, i1: byte, k: byte,
                       optional: seq<byte>, payload: seq<byte>)
    requires left < 0 && |optional| == k && hi * 256 + lo == 3 + k + |payload|
    requires At(mem, pos, [0, 0, 1, 0xE0, hi, lo, i0, i1, k] + (optional + payload))
    ensures DemuxFrom(mem, pos, left) == Some(payload)
  {
    hide At, DemuxFrom;
    var h := [0, 0, 1, 0xE0, hi, lo, i0, i1, k];
    AtEach(mem, pos, h, optional + payload);
    HeaderOctets(mem, pos, h);
    AtEach(mem, pos + 9, optional, payload);
    AtIs(mem, pos + 9 + k, payload);
    VideoNegative(mem, pos, left);
  }

  /** Fewer than four octets, or any others, end the run. */
  lemma OtherOctetsStop(mem: seq<byte>, pos: nat, left: nat)
    requires pos + left <= |mem|
    requires left < 4 || mem[pos] != 0 || mem[pos + 1] != 0 || mem[pos + 2] != 1 || mem[pos + 3] !in {0xE0, 0xBB, 0xBC}
    ensures DemuxFrom(mem, pos, left) == Some([])
  {
  }

  /** A cut packet whose nine header octets came is emitted at its declared size; one cut earlier ends the run. */
  lemma CutOctets(mem: seq<byte>, pos: nat, left: nat, hi: byte, lo: byte, i0: byte, i1: byte, k: byte)
    requires left < 6 + (hi * 256 + lo) && 3 + k < hi * 256 + lo && pos + 6 + (hi * 256 + lo) <= |mem|
    requires At(mem, pos, [0, 0, 1, 0xE0, hi, lo, i0, i1, k])
    ensures DemuxFrom(mem, pos, left) ==
            Some(if left < 9 then [] else mem[pos + 9 + k..pos + 6 + (hi * 256 + lo)])
  {
    hide At;
    var h := [0, 0, 1, 0xE0, hi, lo, i0, i1, k];
    assert h + [] == h;
    AtEach(mem, pos, h, []);
    HeaderOctets(mem, pos, h);
    hide StartsUnit, LengthField;
  }

  /** A negative count of octets left lets the run go on: four octets 00 00 01 BB are followed into cleared memory. */
  lemma LastFourOctets(mem: seq<byte>, pos: nat)
    requires At(mem, pos, [0, 0, 1, 0xBB]) && forall i :: pos + 4 <= i < |mem| ==> mem[i] == 0
    ensures DemuxFrom(mem, pos, 4) == if pos + 9 <= |mem| then Some([]) else None
  {
    hide At;
    var h := [0, 0, 1, 0xBB];
    assert h + [] == h;
    AtEach(mem, pos, h, []);
    assert mem[pos + 0] == h[0] && mem[pos + 1] == h[1] && mem[pos + 2] == h[2] && mem[pos + 3] == h[3];
    if pos + 6 <= |mem| { ClearedStops(mem, pos + 6, -2); }
  }

  /** A pack header, `s` octets of stuffing named by the low three bits of octet 13, one packet, and what follows. */
  lemma PackOctets(header: seq<byte>, q: nat, stuffing: seq<byte>, hi: byte, lo: byte, i0: byte, i1: byte, k: byte,
                   optional: seq<byte>, payload: seq<byte>, slack: seq<byte>)
    requires |header| == 14 && header[13] == 8 * q + |stuffing| && |stuffing| < 8
    requires |optional| == k && hi * 256 + lo == 3 + k + |payload|
    ensures var data := header + stuffing + ([0, 0, 1, 0xE0, hi, lo, i0, i1, k] + (optional + payload));
            14 <= |data + slack| && Demux(data + slack, |data|) == Some(payload)
  {
    hide DemuxFrom, At;
    var unit := [0, 0, 1, 0xE0, hi, lo, i0, i1, k] + (optional + payload);
    var data := header + stuffing + unit;
    var mem, pos := data + slack, 14 + |stuffing|;
    assert mem[13] == header[13];
    PackHeaderOctets(mem, q, |stuffing|);
    AtBehind(header + stuffing, unit, slack);
    VideoOctets(mem, pos, |unit|, hi, lo, i0, i1, k, optional, payload);
    OtherOctetsStop(mem, pos + |unit|, 0);
    assert payload + [] == payload;
  }

  lemma AtBehind(front: seq<byte>, octets: seq<byte>, slack: seq<byte>)
    ensures At(front + octets + slack, |front|, octets)
  {
  }

  /** Where the run begins, and that fewer than four octets there are nothing. */
  lemma PackHeaderOctets(mem: seq<byte>, q: nat, s: nat)
    requires 14 <= |mem| && mem[13] == 8 * q + s && s < 8
    ensures forall length: nat :: Demux(mem, length) ==
              if length < 18 + s then Some([]) else DemuxFrom(mem, 14 + s, length - 14 - s)
  {
    assert mem[13] % 8 == s;
  }
}
