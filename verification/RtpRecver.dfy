/** The receiver object of rtprecver.cpp: payloads accumulate in one buffer until a marker ends the frame. */
module RtpRecver {
  import opened Bytes
  import opened ProgramStream
  import opened RtpStream
  import PsToH264

  class RtpRecver {
    var frameBuffer: array<byte>
    var bufferSize: nat
    var lastSeqNumber: int
    var signals: seq<seq<byte>>   // arguments of sigRecvedFrame, in order of emission

    /** Between packets the buffer holds the payloads since the last marker, followed by zeros. */
    ghost predicate Valid()
      reads this, frameBuffer
    {
      && frameBuffer.Length == BUFFERSIZE && bufferSize <= BUFFERSIZE
      && frameBuffer[..] == Image(frameBuffer[..bufferSize])
    }

    ghost function Pending(): seq<byte>
      reads this, frameBuffer
      requires Valid()
    {
      frameBuffer[..bufferSize]
    }

    constructor ()
      ensures Valid() && Pending() == [] && signals == [] && fresh(frameBuffer)
      ensures frameBuffer.Length == 1048576 && forall i :: 0 <= i < frameBuffer.Length ==> frameBuffer[i] == 0
    {
      frameBuffer := new byte[BUFFERSIZE](_ => 0);
      bufferSize, lastSeqNumber, signals := 0, 0, [];
      new;
      assert frameBuffer[..] == Image([]);
    }

    method ProcessRTPPacket(packet: Packet)
      requires Valid()
      requires |Pending() + packet.payload| <= BUFFERSIZE
      requires packet.marker ==> Readable(Pending() + packet.payload)
      modifies this, frameBuffer
      ensures Valid() && frameBuffer == old(frameBuffer) && lastSeqNumber == packet.seqNumber
      ensures !packet.marker ==> Pending() == old(Pending()) + packet.payload && signals == old(signals)
      ensures packet.marker ==>
                && Pending() == []
                && var data := old(Pending()) + packet.payload;
                   var h264 := Demux(Image(data), |data|).value;
                   signals == old(signals) + if h264 == [] then [] else [h264]
    {
      hide Demux;
      ghost var data := Pending() + packet.payload;
      lastSeqNumber := packet.seqNumber;
      forall i | 0 <= i < |packet.payload| {
        frameBuffer[bufferSize + i] := packet.payload[i];
      }
      bufferSize := bufferSize + |packet.payload|;
      assert frameBuffer[..] == Image(data);
      assert frameBuffer[..bufferSize] == data;
      if packet.marker {
        var ret, h264length := PsToH264.GetH246FromPs(frameBuffer, bufferSize);
        if ret > 0 {
          signals := signals + [frameBuffer[..h264length]];
        }
        forall i | 0 <= i < BUFFERSIZE {
          frameBuffer[i] := 0;
        }
        bufferSize := 0;
        assert frameBuffer[..] == Image([]);
      }
    }

    /** Any run of packets: what is emitted and what stays pending. */
    method Receive(packets: seq<Packet>)
      requires Valid() && Receivable(Pending(), packets)
      modifies this, frameBuffer
      ensures Valid() && frameBuffer == old(frameBuffer)
      ensures Pending() == Unfinished(old(Pending()), packets)
      ensures packets != [] ==> lastSeqNumber == packets[|packets| - 1].seqNumber
      ensures signals == old(signals) + Emitted(Frames(old(Pending()), packets))
    {
      hide Demux, Image, Readable, Valid, Pending;
      ghost var first := Pending();
      var i := 0;
      while i < |packets|
        invariant 0 <= i <= |packets|
        invariant Valid() && frameBuffer == old(frameBuffer)
        invariant Receivable(Pending(), packets[i..])
        invariant i > 0 ==> lastSeqNumber == packets[i - 1].seqNumber
        invariant Unfinished(first, packets) == Unfinished(Pending(), packets[i..])
        invariant old(signals) + Emitted(Frames(first, packets)) == signals + Emitted(Frames(Pending(), packets[i..]))
      {
        ghost var rest := packets[i..];
        assert rest[0] == packets[i] && rest[1..] == packets[i + 1..];
        HeadReceivable(Pending(), rest);
        if packets[i].marker { HeadEmits(Pending(), rest); }
        ProcessRTPPacket(packets[i]);
        i := i + 1;
      }
    }

    /** The whole path: packs in, their elementary streams out, and a clean receiver afterwards. */
    method ReceiveTransmission(groups: seq<seq<Packet>>, ghost packs: seq<Pack>)
      requires Valid() && Pending() == [] && Transmits(groups, packs)
      modifies this, frameBuffer
      ensures Valid() && Pending() == []
      ensures signals == old(signals) + NonEmptyStreams(packs)
    {
      hide Valid, Pending, Transmits, Receivable;
      RoundTrip(groups, packs);
      Receive(Concat(groups));
    }
  }
}
