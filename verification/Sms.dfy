/** The streaming client of frameresolve/sms.cpp; its socket is the sequence of octets written to it. */
module Sms {
  import opened Bytes
  import opened SmsStream

  const I_FRAME := 0x63643035
  const P_FRAME := 0x63643135
  const VIDEO_HEADER_SIZE := 24
  const BACKLOG_LIMIT := 2 * 1024 * 1024

  /** What a call sees of the clock and the socket, and of the header octet it leaves unset. */
  datatype Surroundings = Surroundings(
    writable: bool, bytesToWrite: nat,
    hour: byte, minute: byte, second: byte, pts: seq<byte>, flags: nat -> byte)

  predicate IsStartCode(frame: seq<byte>, i: nat) {
    i + 4 <= |frame| && frame[i..i + 4] == [0, 0, 0, 1]
  }

  /** QByteArray::indexOf of the start code: the first occurrence, or -1. */
  function StartCodeIndex(frame: seq<byte>, from: nat): (i: int)
    ensures i == -1 || (from <= i && IsStartCode(frame, i) && forall k :: from <= k < i ==> !IsStartCode(frame, k))
    ensures i == -1 ==> forall k :: from <= k ==> !IsStartCode(frame, k)
    decreases |frame| - from
  {
    if from >= |frame| then -1
    else if IsStartCode(frame, from) then from
    else StartCodeIndex(frame, from + 1)
  }

  /** The NAL unit type; without a start code the source looks at octet 3. */
  function NalType(frame: seq<byte>): nat
    requires StartCodeIndex(frame, 0) + 4 < |frame|
  {
    frame[StartCodeIndex(frame, 0) + 4] % 0x20
  }

  function LE32(n: nat): (s: seq<byte>)
    requires n < 0x1_0000_0000
    ensures |s| == 4 && UnLE32(s) == n
  {
    var b := BE32(n);
    assert b == [b[0], b[1], b[2], b[3]];
    [b[3], b[2], b[1], b[0]]
  }

  function UnLE32(s: seq<byte>): nat
    requires |s| == 4
  {
    UnBE32([s[3], s[2], s[1], s[0]])
  }

  /** VideoFrameHeader as it lies in the memory of a little-endian host. */
  function VideoHeader(kind: nat, size: nat, env: Surroundings): (h: seq<byte>)
    requires kind < 0x1_0000_0000 && size < 0x1_0000_0000 && |env.pts| == 8
    ensures |h| == VIDEO_HEADER_SIZE
    ensures UnLE32(h[..4]) == kind && UnLE32(h[4..8]) == size
    ensures h[8] == env.hour && h[9] == env.minute && h[10] == env.second && h[16..] == env.pts
  {
    LE32(kind) + LE32(size) + [env.hour, env.minute, env.second, 0] + LE32(0) + env.pts
  }

  datatype Verdict = Send(kind: nat) | Drop

  /** Which frames pass: the gate opens on the first P frame, and a backlog holds P frames back. */
  function Gate(nalType: nat, open: bool, env: Surroundings): (Verdict, bool) {
    if nalType in {2, 5, 7, 8} then (if open then Send(I_FRAME) else Drop, open)
    else if nalType == 1 then (if env.bytesToWrite > BACKLOG_LIMIT then Drop else Send(P_FRAME), true)
    else (Drop, open)
  }

  class SMS {
    var firstIFrame: bool
    var written: seq<byte>

    constructor ()
      ensures !firstIFrame && written == []
    {
      firstIFrame, written := false, [];
    }

    method WriteFrame(frame: seq<byte>, env: Surroundings)
      requires env.writable ==> StartCodeIndex(frame, 0) + 4 < |frame|
      requires |env.pts| == 8 && |frame| + VIDEO_HEADER_SIZE <= MAX_SLICES * SLICE_SIZE
      modifies this
      ensures !env.writable ==> written == old(written) && firstIFrame == old(firstIFrame)
      ensures env.writable ==>
                var (verdict, open) := Gate(NalType(frame), old(firstIFrame), env);
                && firstIFrame == open
                && match verdict
                   case Drop => written == old(written)
                   case Send(kind) =>
                     var data := VideoHeader(kind, |frame|, env) + frame;
                     SliceCount(|data|) <= MAX_SLICES && written == old(written) + EncodeAll(Slices(data), env.flags)
    {
      if env.writable {
        var at := StartCodeIndex(frame, 0);
        var nal := frame[at + 4] % 0x20;
        var kind;
        if nal == 2 || nal == 5 || nal == 7 || nal == 8 {
          kind := I_FRAME;
        } else if nal == 1 {
          kind := P_FRAME;
          firstIFrame := true;
        } else {
          return;
        }
        if !firstIFrame { return; }
        if kind != I_FRAME && env.bytesToWrite > BACKLOG_LIMIT { return; }
        var realFrame := VideoHeader(kind, |frame|, env) + frame;
        WriteSlices(realFrame, env.flags);
      }
    }

    /** The slicing loop. */
    method WriteSlices(realFrame: seq<byte>, flags: nat -> byte)
      requires SliceCount(|realFrame|) <= MAX_SLICES
      modifies `written
      ensures written == old(written) + EncodeAll(Slices(realFrame), flags)
    {
      hide SliceAt, Encode, SlicesTo, EncodeAll;
      var count := (|realFrame| + 999) / 1000;
      var i, len, j := 0, 1000, 0;
      EncodeNone(realFrame, flags);
      while i < |realFrame|
        invariant j <= count && i == (if j < count then j * SLICE_SIZE else |realFrame|)
        invariant len == SLICE_SIZE || i == |realFrame|
        invariant AllValid(SlicesTo(realFrame, j)) && written == old(written) + EncodeAll(SlicesTo(realFrame, j), flags)
        decreases |realFrame| - i
      {
        if |realFrame| - i < 1000 {
          len := |realFrame| - i;
        }
        var slice := Slice(j, count, realFrame[i..i + len]);
        SliceIs(realFrame, j, i, len);
        EncodeNext(realFrame, j, flags);
        written := written + Encode(slice, flags(j));
        j := j + 1;
        i := i + len;
      }
    }
  }

  lemma SliceIs(data: seq<byte>, j: nat, i: nat, len: nat)
    requires j < SliceCount(|data|) && i == j * SLICE_SIZE
    requires len == if |data| - i < SLICE_SIZE then |data| - i else SLICE_SIZE
    ensures SliceAt(data, j) == Slice(j, SliceCount(|data|), data[i..i + len])
  {
  }

  lemma EncodeNone(data: seq<byte>, flags: nat -> byte)
    ensures AllValid(SlicesTo(data, 0)) && EncodeAll(SlicesTo(data, 0), flags) == []
  {
  }

  lemma EncodeNext(data: seq<byte>, j: nat, flags: nat -> byte)
    requires j < SliceCount(|data|) <= MAX_SLICES
    ensures SliceAt(data, j).Valid() && AllValid(SlicesTo(data, j)) && AllValid(SlicesTo(data, j + 1))
    ensures EncodeAll(SlicesTo(data, j + 1), flags) ==
            EncodeAll(SlicesTo(data, j), flags) + Encode(SliceAt(data, j), flags(j))
  {
    hide Encode;
    assert SlicesTo(data, j + 1)[..j] == SlicesTo(data, j);
  }

  // ---------------------------------------------------------------------------------------------
  // Runs
  // ---------------------------------------------------------------------------------------------

  /** One call: the frame, and what the call sees. */
  datatype Call = Call(frame: seq<byte>, env: Surroundings) {
    ghost predicate Valid() {
      && (env.writable ==> StartCodeIndex(frame, 0) + 4 < |frame|)
      && |env.pts| == 8 && |frame| + VIDEO_HEADER_SIZE <= MAX_SLICES * SLICE_SIZE
    }

    predicate HasNal(types: set<nat>) {
      env.writable && StartCodeIndex(frame, 0) + 4 < |frame| && NalType(frame) in types
    }
  }

  const P_TYPES: set<nat> := {1}
  const I_TYPES: set<nat> := {2, 5, 7, 8}

  ghost predicate CallsValid(calls: seq<Call>) {
    forall c <- calls :: c.Valid()
  }

  /** Before call n the object has seen a P frame, or its gate was open from the start. */
  predicate SeenP(calls: seq<Call>, n: nat, open: bool)
    requires n <= |calls|
  {
    open || exists j :: 0 <= j < n && calls[j].HasNal(P_TYPES)
  }

  /** Call i sends: a P frame without backlog, or any frame of the I kind after a P frame. */
  predicate Passes(calls: seq<Call>, i: nat, open: bool)
    requires i < |calls|
  {
    || (calls[i].HasNal(P_TYPES) && calls[i].env.bytesToWrite <= BACKLOG_LIMIT)
    || (calls[i].HasNal(I_TYPES) && SeenP(calls, i, open))
  }

  /** Header and frame as they are sent. */
  ghost function Message(c: Call): (data: seq<byte>)
    requires c.Valid()
    ensures SliceCount(|data|) <= MAX_SLICES
  {
    VideoHeader(if c.HasNal(P_TYPES) then P_FRAME else I_FRAME, |c.frame|, c.env) + c.frame
  }

  /** The slices of exactly the frames that pass among the first n calls, in order. */
  ghost function SentSlices(calls: seq<Call>, n: nat, open: bool): seq<Slice>
    requires n <= |calls| && CallsValid(calls)
  {
    if n == 0 then []
    else
      assert calls[n - 1].Valid();
      SentSlices(calls, n - 1, open) + if Passes(calls, n - 1, open) then Slices(Message(calls[n - 1])) else []
  }

  /** What the gate decides in a run, without its state. */
  lemma GateIs(calls: seq<Call>, i: nat, open: bool)
    requires i < |calls| && CallsValid(calls)
    ensures var c := calls[i];
            assert c.Valid();
            if !c.env.writable then !Passes(calls, i, open) && SeenP(calls, i + 1, open) == SeenP(calls, i, open)
            else
              Gate(NalType(c.frame), SeenP(calls, i, open), c.env) ==
              (if Passes(calls, i, open) then Send(if c.HasNal(P_TYPES) then P_FRAME else I_FRAME) else Drop,
               SeenP(calls, i + 1, open))
  {
    hide StartCodeIndex, NalType;
    var c := calls[i];
    assert c.Valid();
    assert SeenP(calls, i + 1, open) == (SeenP(calls, i, open) || c.HasNal(P_TYPES));
  }

  /** A written stream, and the slices it parses into whatever comes later. */
  ghost predicate Carries(stream: seq<byte>, slices: seq<Slice>) {
    forall later :: ParsesTo(stream, slices, later)
  }

  ghost predicate ParsesTo(stream: seq<byte>, slices: seq<Slice>, later: seq<byte>) {
    Parse(stream + later) == if Parse(later).None? then None else Some(slices + Parse(later).value)
  }

  lemma CarriesNothing()
    ensures Carries([], [])
  {
    hide Parse;
    forall later ensures ParsesTo([], [], later) {
      assert [] + later == later;
      assert Parse(later).Some? ==> [] + Parse(later).value == Parse(later).value;
    }
  }

  lemma CarriesMore(stream: seq<byte>, slices: seq<Slice>, more: seq<Slice>, flags: nat -> byte)
    requires Carries(stream, slices) && AllValid(more)
    ensures Carries(stream + EncodeAll(more, flags), slices + more)
  {
    hide Parse, EncodeAll;
    var e := EncodeAll(more, flags);
    forall later ensures ParsesTo(stream + e, slices + more, later) {
      assert ParsesTo(stream, slices, e + later);
      ParseAll(more, flags, later);
      assert stream + e + later == stream + (e + later);
      if Parse(later).Some? {
        assert slices + (more + Parse(later).value) == slices + more + Parse(later).value;
      }
    }
  }

  lemma CarriesParses(stream: seq<byte>, slices: seq<Slice>)
    requires Carries(stream, slices)
    ensures Parse(stream) == Some(slices)
  {
    assert ParsesTo(stream, slices, []);
    assert stream + [] == stream && slices + [] == slices;
  }

  /** What call i adds to the stream. */
  ghost function Added(calls: seq<Call>, i: nat, open: bool): seq<byte>
    requires i < |calls| && CallsValid(calls)
  {
    assert calls[i].Valid();
    var data := Message(calls[i]);
    SlicesCover(data);
    if Passes(calls, i, open) then EncodeAll(Slices(data), calls[i].env.flags) else []
  }

  lemma CarriesNext(stream: seq<byte>, calls: seq<Call>, i: nat, open: bool)
    requires i < |calls| && CallsValid(calls) && Carries(stream, SentSlices(calls, i, open))
    ensures Carries(stream + Added(calls, i, open), SentSlices(calls, i + 1, open))
  {
    hide Carries, Passes, Message, Slices, EncodeAll;
    var slices := SentSlices(calls, i, open);
    assert calls[i].Valid();
    if Passes(calls, i, open) {
      SlicesCover(Message(calls[i]));
      CarriesMore(stream, slices, Slices(Message(calls[i])), calls[i].env.flags);
    } else {
      assert stream + [] == stream && slices + [] == slices;
    }
  }

  /** Call i of a run, on an object that has made the calls before it. */
  method WriteCall(sms: SMS, calls: seq<Call>, i: nat, ghost open: bool)
    requires i < |calls| && CallsValid(calls) && sms.firstIFrame == SeenP(calls, i, open)
    modifies sms
    ensures sms.firstIFrame == SeenP(calls, i + 1, open)
    ensures sms.written == old(sms.written) + Added(calls, i, open)
  {
    hide Passes, SeenP, Gate, Slices, NalType, StartCodeIndex, EncodeAll, Call.HasNal, VideoHeader;
    assert calls[i].Valid();
    GateIs(calls, i, open);
    assert sms.written + [] == sms.written;
    sms.WriteFrame(calls[i].frame, calls[i].env);
  }

  /** Over any sequence of calls the object writes a stream that parses into the slices of what passes. */
  method WriteFrames(sms: SMS, calls: seq<Call>)
    requires CallsValid(calls)
    modifies sms
    ensures sms.firstIFrame == SeenP(calls, |calls|, old(sms.firstIFrame))
    ensures |old(sms.written)| <= |sms.written| && sms.written[..|old(sms.written)|] == old(sms.written)
    ensures Parse(sms.written[|old(sms.written)|..]) == Some(SentSlices(calls, |calls|, old(sms.firstIFrame)))
  {
    hide Parse, Carries, SeenP, Added;
    ghost var open, before := sms.firstIFrame, sms.written;
    ghost var stream: seq<byte> := [];
    CarriesNothing();
    SeenNothing(calls, open);
    var i := 0;
    while i < |calls|
      invariant 0 <= i <= |calls| && sms.firstIFrame == SeenP(calls, i, open)
      invariant sms.written == before + stream && Carries(stream, SentSlices(calls, i, open))
    {
      CarriesNext(stream, calls, i, open);
      WriteCall(sms, calls, i, open);
      stream := stream + Added(calls, i, open);
      i := i + 1;
    }
    CarriesParses(stream, SentSlices(calls, i, open));
    assert sms.written[|before|..] == stream;
  }

  lemma SeenNothing(calls: seq<Call>, open: bool)
    ensures SeenP(calls, 0, open) == open
  {
  }

  // ---------------------------------------------------------------------------------------------
  // End to end
  // ---------------------------------------------------------------------------------------------

  /** The stream of a frame parses back into its slices, and these give header and frame in any order. */
  lemma FrameRoundTrip(kind: nat, frame: seq<byte>, env: Surroundings, received: seq<Slice>)
    requires kind < 0x1_0000_0000 && |env.pts| == 8
    requires |frame| + VIDEO_HEADER_SIZE <= MAX_SLICES * SLICE_SIZE
    requires multiset(received) == multiset(Slices(VideoHeader(kind, |frame|, env) + frame))
    ensures var data := VideoHeader(kind, |frame|, env) + frame;
            && AllValid(Slices(data))
            && Parse(EncodeAll(Slices(data), env.flags)) == Some(Slices(data))
            && Reassemble(received) == Some(data)
            && data[VIDEO_HEADER_SIZE..] == frame
  {
    hide Parse, Reassemble, Slices, EncodeAll;
    var data := VideoHeader(kind, |frame|, env) + frame;
    SlicesCover(data);
    ParseUndoesEncode(Slices(data), env.flags);
    ReassembleAnyOrder(data, received);
  }

  // ---------------------------------------------------------------------------------------------
  // The same in octets
  // ---------------------------------------------------------------------------------------------

  lemma LE32Is(n: nat, a: byte, b: byte, c: byte, d: byte)
    requires n == ((d * 256 + c) * 256 + b) * 256 + a
    ensures n < 0x1_0000_0000 && LE32(n) == [a, b, c, d]
  {
    hide BE32;
    BE32Is(n, d, c, b, a);
  }

  /** Kind and size with the low octet first, the time, five zero octets, the timestamp. */
  lemma VideoHeaderOctets(kind: nat, size: nat, env: Surroundings, k: seq<byte>, z: seq<byte>)
    requires |env.pts| == 8 && |k| == |z| == 4
    requires kind == ((k[3] as int * 256 + k[2] as int) * 256 + k[1] as int) * 256 + k[0] as int
    requires size == ((z[3] as int * 256 + z[2] as int) * 256 + z[1] as int) * 256 + z[0] as int
    ensures kind < 0x1_0000_0000 && size < 0x1_0000_0000
    ensures VideoHeader(kind, size, env) == k + z + [env.hour, env.minute, env.second, 0, 0, 0, 0, 0] + env.pts
  {
    hide LE32;
    LE32Is(kind, k[0], k[1], k[2], k[3]);
    LE32Is(size, z[0], z[1], z[2], z[3]);
    LE32Is(0, 0, 0, 0, 0);
    assert k == [k[0], k[1], k[2], k[3]] && z == [z[0], z[1], z[2], z[3]];
  }

  predicate Octets0001(frame: seq<byte>, k: nat) {
    k + 4 <= |frame| && frame[k] == 0 && frame[k + 1] == 0 && frame[k + 2] == 0 && frame[k + 3] == 1
  }

  lemma StartCodeOctets(frame: seq<byte>, k: nat)
    ensures IsStartCode(frame, k) <==> Octets0001(frame, k)
  {
    if k + 4 <= |frame| {
      var s := frame[k..k + 4];
      assert s == [s[0], s[1], s[2], s[3]];
    }
  }

  /** The first 00 00 00 01 stands at i, and `octet` behind it. */
  ghost predicate FirstStartCode(frame: seq<byte>, i: nat, octet: byte) {
    && i + 4 < |frame| && Octets0001(frame, i) && frame[i + 4] == octet
    && forall k: nat :: k < i ==> !Octets0001(frame, k)
  }

  /** The type is the low five bits of the octet behind the first start code. */
  lemma NalTypeIs(frame: seq<byte>, i: nat, hi: nat, t: nat)
    requires hi < 8 && t < 32 && FirstStartCode(frame, i, 32 * hi + t)
    ensures StartCodeIndex(frame, 0) == i && NalType(frame) == t
  {
    hide IsStartCode, Octets0001;
    forall k: nat ensures IsStartCode(frame, k) <==> Octets0001(frame, k) { StartCodeOctets(frame, k); }
    var j := StartCodeIndex(frame, 0);
    assert Octets0001(frame, i) && IsStartCode(frame, i);
    LowFiveBits(32 * hi + t, hi, t);
  }

  lemma LowFiveBits(octet: byte, hi: nat, t: nat)
    requires octet == 32 * hi + t && t < 32
    ensures octet % 0x20 == t
  {
  }

  /** Without a start code it is taken from the fourth octet. */
  lemma NalTypeWithout(frame: seq<byte>, hi: nat, t: nat)
    requires hi < 8 && t < 32 && 3 < |frame| && frame[3] == 32 * hi + t
    requires forall k: nat :: !Octets0001(frame, k)
    ensures StartCodeIndex(frame, 0) == -1 && NalType(frame) == t
  {
    hide IsStartCode, Octets0001;
    forall k: nat ensures !IsStartCode(frame, k) { StartCodeOctets(frame, k); }
    LowFiveBits(frame[3], hi, t);
  }

  /** A size below 2^32 in four octets, the low one first. */
  function SizeOctets(n: nat): seq<byte>
    requires n < 0x1_0000_0000
  {
    [n % 256, n / 256 % 256, n / 256 / 256 % 256, n / 256 / 256 / 256]
  }

  /**
   The stream of a message: it starts with magic and command, and its slices together are kind, size,
   time, five zero octets, timestamp and frame.
   */
  ghost predicate Sends(stream: seq<byte>, kind: seq<byte>, frame: seq<byte>, env: Surroundings)
    requires |frame| < 0x1_0000_0000
  {
    && |kind| == 4 && 24 <= |stream|
    && stream[..4] == [0xFF, 0xFF, 0x55, 0x9F] && stream[8..12] == [0, 0, 0x79, 0x18] && stream[20..24] == kind
    && Parse(stream).Some?
    && Bodies(Parse(stream).value) ==
       kind + SizeOctets(|frame|) + [env.hour, env.minute, env.second, 0, 0, 0, 0, 0] + env.pts + frame
  }

  lemma SizeOctetsIs(n: nat)
    requires n < 0x1_0000_0000
    ensures var z := SizeOctets(n);
            |z| == 4 && n == ((z[3] as int * 256 + z[2] as int) * 256 + z[1] as int) * 256 + z[0] as int
  {
  }

  lemma MessageSends(kind: nat, frame: seq<byte>, env: Surroundings, k: seq<byte>)
    requires |env.pts| == 8 && |k| == 4 && |frame| + VIDEO_HEADER_SIZE <= MAX_SLICES * SLICE_SIZE
    requires kind == ((k[3] as int * 256 + k[2] as int) * 256 + k[1] as int) * 256 + k[0] as int
    ensures kind < 0x1_0000_0000
    ensures var data := VideoHeader(kind, |frame|, env) + frame;
            AllValid(Slices(data)) && Sends(EncodeAll(Slices(data), env.flags), k, frame, env)
  {
    hide Slices, EncodeAll, Parse, Bodies, VideoHeader, SizeOctets;
    SizeOctetsIs(|frame|);
    VideoHeaderOctets(kind, |frame|, env, k, SizeOctets(|frame|));
    var h := VideoHeader(kind, |frame|, env);
    HeaderFront(h, k, SizeOctets(|frame|) + [env.hour, env.minute, env.second, 0, 0, 0, 0, 0] + env.pts, frame);
    FirstOctets(h + frame, env.flags, 4);
    SlicesCover(h + frame);
    ParseUndoesEncode(Slices(h + frame), env.flags);
  }

  lemma HeaderFront(h: seq<byte>, k: seq<byte>, rest: seq<byte>, frame: seq<byte>)
    requires h == k + rest && |k| == 4
    ensures (h + frame)[..4] == k
  {
  }

  /** A frame whose type is t, on the object: what it does to the gate, and what goes out. */
  method WriteNal(sms: SMS, frame: seq<byte>, env: Surroundings, ghost i: nat, ghost hi: nat, ghost t: nat)
    requires hi < 8 && t < 32 && FirstStartCode(frame, i, 32 * hi + t)
    requires env.writable && |env.pts| == 8 && |frame| + VIDEO_HEADER_SIZE <= MAX_SLICES * SLICE_SIZE
    modifies sms
    ensures sms.firstIFrame == (old(sms.firstIFrame) || t == 1)
    ensures |old(sms.written)| <= |sms.written| && sms.written[..|old(sms.written)|] == old(sms.written)
    ensures var out := sms.written[|old(sms.written)|..];
            if t == 1 && env.bytesToWrite <= 2097152 then Sends(out, [0x35, 0x31, 0x64, 0x63], frame, env)
            else if t in {2, 5, 7, 8} && old(sms.firstIFrame) then Sends(out, [0x35, 0x30, 0x64, 0x63], frame, env)
            else out == []
  {
    hide NalType, StartCodeIndex, VideoHeader, Slices, EncodeAll, Sends, FirstStartCode;
    NalTypeIs(frame, i, hi, t);
    MessageSends(P_FRAME, frame, env, [0x35, 0x31, 0x64, 0x63]);
    MessageSends(I_FRAME, frame, env, [0x35, 0x30, 0x64, 0x63]);
    IndexBelow(frame, i, hi, t);
    sms.WriteFrame(frame, env);
  }

  lemma IndexBelow(frame: seq<byte>, i: nat, hi: nat, t: nat)
    requires hi < 8 && t < 32 && FirstStartCode(frame, i, 32 * hi + t)
    ensures i + 4 < |frame|
  {
  }
}
