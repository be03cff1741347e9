/**
 What the receiver of rtprecver.cpp makes of a packet sequence, and the sender it undoes: packs are
 multiplexed, cut into RTP payloads anywhere, and the marker bit (RFC 3550, section 5.1) ends each pack.
 */
module RtpStream {
  import opened Bytes
  import opened ProgramStream

  const BUFFERSIZE := 1024 * 1024

  datatype Packet = Packet(payload: seq<byte>, marker: bool, seqNumber: nat)

  /** The frame buffer while it holds `data`. */
  function Image(data: seq<byte>): (m: seq<byte>)
    requires |data| <= BUFFERSIZE
    ensures |m| == BUFFERSIZE
  {
    data + Zeros(BUFFERSIZE - |data|)
  }

  /** The demultiplexer stays inside the buffer on this frame. */
  predicate Readable(frame: seq<byte>) {
    |frame| <= BUFFERSIZE && Demux(Image(frame), |frame|).Some?
  }

  /** The concatenated payloads between markers, given what is already pending. */
  function Frames(pending: seq<byte>, packets: seq<Packet>): seq<seq<byte>>
    decreases |packets|
  {
    if packets == [] then []
    else
      var data := pending + packets[0].payload;
      if packets[0].marker then [data] + Frames([], packets[1..]) else Frames(data, packets[1..])
  }

  /** The payloads since the last marker. */
  function Unfinished(pending: seq<byte>, packets: seq<Packet>): seq<byte>
    decreases |packets|
  {
    if packets == [] then pending
    else if packets[0].marker then Unfinished([], packets[1..])
    else Unfinished(pending + packets[0].payload, packets[1..])
  }

  /** Every frame can be demultiplexed and everything pending fits the buffer. */
  ghost predicate Receivable(pending: seq<byte>, packets: seq<Packet>) {
    && (forall f <- Frames(pending, packets) :: Readable(f))
    && |Unfinished(pending, packets)| <= BUFFERSIZE
  }

  /** The nonempty demultiplexings of the frames, in order. */
  function Emitted(frames: seq<seq<byte>>): seq<seq<byte>>
    requires forall f <- frames :: Readable(f)
  {
    if frames == [] then []
    else
      assert Readable(frames[0]);
      var h264 := Demux(Image(frames[0]), |frames[0]|).value;
      (if h264 == [] then [] else [h264]) + Emitted(frames[1..])
  }

  // ---------------------------------------------------------------------------------------------
  // One packet at a time
  // ---------------------------------------------------------------------------------------------

  lemma {:induction false} UnfinishedGrows(pending: seq<byte>, packets: seq<Packet>)
    requires Receivable(pending, packets)
    ensures |pending| <= BUFFERSIZE
    decreases |packets|
  {
    if packets != [] {
      var data := pending + packets[0].payload;
      if packets[0].marker {
        assert data in Frames(pending, packets);
      } else {
        UnfinishedGrows(data, packets[1..]);
      }
    }
  }

  /** The head packet can be taken, and the rest is receivable afterwards. */
  lemma HeadReceivable(pending: seq<byte>, packets: seq<Packet>)
    requires Receivable(pending, packets) && packets != []
    ensures var data := pending + packets[0].payload;
            && |data| <= BUFFERSIZE
            && (packets[0].marker ==> Readable(data))
            && Receivable(if packets[0].marker then [] else data, packets[1..])
  {
    var data := pending + packets[0].payload;
    if packets[0].marker {
      assert Frames(pending, packets)[0] == data;
      assert data in Frames(pending, packets);
      assert forall f <- Frames([], packets[1..]) :: f in Frames(pending, packets);
    } else {
      UnfinishedGrows(data, packets[1..]);
    }
  }

  lemma HeadEmits(pending: seq<byte>, packets: seq<Packet>)
    requires Receivable(pending, packets) && packets != [] && packets[0].marker
    ensures var data := pending + packets[0].payload;
            && Readable(data)
            && Receivable([], packets[1..])
            && var h264 := Demux(Image(data), |data|).value;
               Emitted(Frames(pending, packets)) == (if h264 == [] then [] else [h264]) + Emitted(Frames([], packets[1..]))
  {
    HeadReceivable(pending, packets);
    assert Frames(pending, packets)[1..] == Frames([], packets[1..]);
  }

  // ---------------------------------------------------------------------------------------------
  // Sender and receiver
  // ---------------------------------------------------------------------------------------------

  function Payloads(packets: seq<Packet>): seq<byte> {
    if packets == [] then [] else packets[0].payload + Payloads(packets[1..])
  }

  /** The packets carry `data`, cut anywhere, with the marker on the last one alone. */
  ghost predicate Carries(packets: seq<Packet>, data: seq<byte>) {
    && packets != [] && Payloads(packets) == data
    && forall i :: 0 <= i < |packets| ==> (packets[i].marker <==> i == |packets| - 1)
  }

  lemma {:induction false} OneFrame(pending: seq<byte>, packets: seq<Packet>, data: seq<byte>, later: seq<Packet>)
    requires Carries(packets, data)
    ensures Frames(pending, packets + later) == [pending + data] + Frames([], later)
    ensures Unfinished(pending, packets + later) == Unfinished([], later)
    decreases |packets|
  {
    var all, head, tail := packets + later, packets[0], packets[1..];
    assert all[1..] == tail + later;
    if tail == [] {
      assert data == head.payload + Payloads(tail) == head.payload;
      assert all[1..] == later;
    } else {
      assert !head.marker;
      OneFrame(pending + head.payload, tail, Payloads(tail), later);
      assert pending + data == (pending + head.payload) + Payloads(tail);
    }
  }

  /** Receiving in two parts is receiving at once: what is unfinished after the first goes on in the second. */
  lemma {:induction false} FramesSplit(pending: seq<byte>, a: seq<Packet>, b: seq<Packet>)
    ensures Frames(pending, a + b) == Frames(pending, a) + Frames(Unfinished(pending, a), b)
    ensures Unfinished(pending, a + b) == Unfinished(Unfinished(pending, a), b)
    decreases |a|
  {
    if a == [] {
      assert a + b == b;
    } else {
      assert (a + b)[1..] == a[1..] + b;
      FramesSplit(if a[0].marker then [] else pending + a[0].payload, a[1..], b);
    }
  }

  /** Without a marker there is no frame, and all payloads stay. */
  lemma {:induction false} NoMarker(pending: seq<byte>, packets: seq<Packet>)
    requires forall p <- packets :: !p.marker
    ensures Frames(pending, packets) == [] && Unfinished(pending, packets) == pending + Payloads(packets)
    decreases |packets|
  {
    if packets != [] {
      NoMarker(pending + packets[0].payload, packets[1..]);
      assert pending + packets[0].payload + Payloads(packets[1..]) == pending + Payloads(packets);
    }
  }

  /** What comes out of the first `n` octets of a pack. */
  function CutPack(pack: Pack, n: nat): seq<byte>
    requires pack.Valid()
  {
    var start := PACK_HEADER_SIZE + |pack.stuffing|;
    if n < start then [] else CutStream(pack.units, n - start)
  }

  /** How far into the buffer the reader goes for it. */
  function PackReach(pack: Pack, n: nat): nat
    requires pack.Valid()
  {
    var start := PACK_HEADER_SIZE + |pack.stuffing|;
    if n < start then n else start + StreamReach(pack.units, n - start)
  }

  /** A frame that lost its end anywhere: it can be read exactly if its reach fits the buffer, and gives CutPack. */
  lemma CutFrame(pack: Pack, n: nat)
    requires pack.Valid() && n <= |pack.Mux()| && n <= BUFFERSIZE
    ensures var frame := pack.Mux()[..n];
            && (Readable(frame) <==> PackReach(pack, n) <= BUFFERSIZE)
            && (Readable(frame) ==> Demux(Image(frame), n) == Some(CutPack(pack, n)))
  {
    hide DemuxFrom, MuxUnits, Unit.Encode, StreamReach, CutStream, Inert;
    var data, body := pack.Mux(), MuxUnits(pack.units) + pack.tail;
    var frame, mem := data[..n], Image(data[..n]);
    var start := PACK_HEADER_SIZE + |pack.stuffing|;
    if n < start {
      CutInHeader(pack, n);
    } else {
      assert mem[13] == data[13] == pack.header[13];
      assert mem[start..start + (n - start)] == frame[start..] == body[..n - start];
      DemuxCutStream(mem, start, n - start, pack.units, pack.tail);
      if n - start < START_CODE_SIZE { TooFew(mem, start, n - start); }
    }
  }

  lemma CutInHeader(pack: Pack, n: nat)
    requires pack.Valid() && n < PACK_HEADER_SIZE + |pack.stuffing| && n <= BUFFERSIZE && n <= |pack.Mux()|
    ensures Demux(Image(pack.Mux()[..n]), n) == Some([])
  {
    var data := pack.Mux();
    var mem := Image(data[..n]);
    if PACK_HEADER_SIZE <= n { assert mem[13] == data[13] == pack.header[13]; }
  }

  function KeptOfPack(pack: Pack, n: nat): nat
    requires pack.Valid()
  {
    var start := PACK_HEADER_SIZE + |pack.stuffing|;
    if n < start then 0 else KeptOctets(pack.units, n - start)
  }

  /** What comes out is the front of the stream the pack carries, then zeros; uncut it is the whole stream. */
  lemma CutPackIsFront(pack: Pack, n: nat)
    requires pack.Valid()
    ensures Front(CutPack(pack, n), Carried(pack.units), KeptOfPack(pack, n))
    ensures |pack.Mux()| <= n ==> CutPack(pack, n) == Carried(pack.units)
  {
    var start := PACK_HEADER_SIZE + |pack.stuffing|;
    if start <= n {
      CutStreamIsFront(pack.units, n - start);
      if |pack.Mux()| <= n { WholeStream(pack.units, n - start); }
    }
  }

  /** A stream of transmissions: group k carries the multiplexed pack k. */
  ghost predicate Transmits(groups: seq<seq<Packet>>, packs: seq<Pack>) {
    && |groups| == |packs|
    && forall k :: 0 <= k < |packs| ==>
         packs[k].Valid() && |packs[k].Mux()| <= BUFFERSIZE && Carries(groups[k], packs[k].Mux())
  }

  function NonEmptyStreams(packs: seq<Pack>): seq<seq<byte>> {
    if packs == [] then []
    else (if Carried(packs[0].units) == [] then [] else [Carried(packs[0].units)]) + NonEmptyStreams(packs[1..])
  }

  lemma PackReadable(pack: Pack)
    requires pack.Valid() && |pack.Mux()| <= BUFFERSIZE
    ensures Readable(pack.Mux())
    ensures Demux(Image(pack.Mux()), |pack.Mux()|) == Some(Carried(pack.units))
  {
    hide Demux, Pack.Mux, Pack.Valid, Zeros;
    DemuxUndoesMux(pack, Zeros(BUFFERSIZE - |pack.Mux()|));
  }

  /**
   Through the network and back: however the packs are stuffed, however they are cut into RTP payloads,
   the receiver emits exactly the streams they carry, in order, and nothing for a pack that carries none.
   */
  lemma {:induction false} RoundTrip(groups: seq<seq<Packet>>, packs: seq<Pack>)
    requires Transmits(groups, packs)
    ensures Receivable([], Concat(groups)) && Unfinished([], Concat(groups)) == []
    ensures Emitted(Frames([], Concat(groups))) == NonEmptyStreams(packs)
    decreases |groups|
  {
    hide Demux, Image, Pack.Mux, Pack.Valid;
    if groups != [] {
      var data := packs[0].Mux();
      var later := Concat(groups[1..]);
      RoundTrip(groups[1..], packs[1..]);
      PackReadable(packs[0]);
      OneFrame([], groups[0], data, later);
      assert [] + data == data;
      var frames := Frames([], Concat(groups));
      assert frames == [data] + Frames([], later);
      assert frames[1..] == Frames([], later);
      assert forall f <- frames :: f == data || f in Frames([], later);
    }
  }
}
