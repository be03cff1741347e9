/**
 The in-place demultiplexer of pstoh264.cpp. A `char *` is an offset into the one buffer; `memcpy` is a
 forward octet copy, because the source and the destination of a payload can overlap.
 */
module PsToH264 {
  import opened Bytes
  import opened ProgramStream

  /** `s` with the `n` octets at `src` also standing at `dst`. */
  ghost function Moved(s: seq<byte>, dst: nat, src: nat, n: nat): seq<byte>
    requires dst <= src && src + n <= |s|
  {
    s[..dst] + s[src..src + n] + s[dst + n..]
  }

  /** A forward copy reads the next octet before it is overwritten. */
  lemma MovedStep(s: seq<byte>, dst: nat, src: nat, i: nat)
    requires dst <= src && src + i < |s|
    ensures |Moved(s, dst, src, i)| == |s|
    ensures Moved(s, dst, src, i)[dst + i := Moved(s, dst, src, i)[src + i]] == Moved(s, dst, src, i + 1)
  {
  }

  method CopyForward(buffer: array<byte>, dst: nat, src: nat, n: nat)
    requires dst <= src && src + n <= buffer.Length
    modifies buffer
    ensures buffer[..] == Moved(old(buffer[..]), dst, src, n)
  {
    hide Moved;
    ghost var before := buffer[..];
    assert buffer[..] == Moved(before, dst, src, 0) by { MovedNothing(before, dst, src); }
    for i := 0 to n
      invariant buffer[..] == Moved(before, dst, src, i)
    {
      MovedStep(before, dst, src, i);
      ghost var now := buffer[..];
      buffer[dst + i] := buffer[src + i];
      assert buffer[..] == now[dst + i := now[src + i]];
    }
  }

  lemma MovedNothing(s: seq<byte>, dst: nat, src: nat)
    requires dst <= src <= |s|
    ensures s == Moved(s, dst, src, 0)
  {
  }

  method ProgramStreamPackHeader(buffer: array<byte>, length: nat)
    returns (ret: int, nextPack: nat, leftlength: int)
    requires PACK_HEADER_SIZE <= buffer.Length
    ensures nextPack == PackHeaderEnd(buffer[..]) >= PACK_HEADER_SIZE
    ensures nextPack + leftlength == length
    ensures ret == if leftlength < START_CODE_SIZE then 0 else leftlength
  {
    var packStuffingLength := buffer[13] % 8;
    leftlength := length - PACK_HEADER_SIZE - packStuffingLength;
    nextPack := PACK_HEADER_SIZE + packStuffingLength;
    if leftlength < 4 { return 0, nextPack, leftlength; }
    ret := leftlength;
  }

  /** Reads one PES header; `nextPack` and `leftlength` keep their old values where C leaves them unset. */
  method Pes(buffer: array<byte>, pack: nat, length: int)
    returns (ret: int, nextPack: nat, leftlength: int, payloadData: nat, payloadDataLen: int)
    requires AtLeast(length, PES_HEADER_SIZE) ==> pack + PES_HEADER_SIZE <= buffer.Length
    ensures !AtLeast(length, PES_HEADER_SIZE) ==>
              ret == 0 && payloadDataLen == 0 && nextPack == pack && leftlength == length
    ensures AtLeast(length, PES_HEADER_SIZE) ==>
              var end := pack + UNIT_HEADER_SIZE + LengthField(buffer[..], pack);
              && pack + leftlength + UNIT_HEADER_SIZE + LengthField(buffer[..], pack) == pack + length
              && payloadDataLen == end - (pack + PES_HEADER_SIZE + buffer[pack + 8])
              && (0 < payloadDataLen ==> payloadData + payloadDataLen == end)
              && (if leftlength <= 0 then ret == 0 && nextPack == pack else ret == leftlength && nextPack == end)
  {
    ret, nextPack, leftlength, payloadData, payloadDataLen := 0, pack, length, 0, 0;
    if !AtLeast(length, PES_HEADER_SIZE) { return; }
    var pseLength := LengthField(buffer[..], pack);
    var stuffing: int := buffer[pack + 8];
    payloadDataLen := pseLength as int - 2 - 1 - stuffing;
    if payloadDataLen > 0 {
      payloadData := pack + PES_HEADER_SIZE + stuffing;
    }
    leftlength := length - pseLength - START_CODE_SIZE - 2;
    if leftlength <= 0 { return; }
    nextPack := pack + START_CODE_SIZE + 2 + pseLength;
    ret := leftlength;
  }

  /** The run has emitted `out` and nothing follows. */
  ghost predicate Finished(orig: seq<byte>, start: nat, left0: int, out: seq<byte>) {
    DemuxFrom(orig, start, left0) == Some(out)
  }

  /** The run has emitted `out` and goes on at `pos`. */
  ghost predicate Continues(orig: seq<byte>, start: nat, left0: int, out: seq<byte>, pos: nat, left: int) {
    && DemuxFrom(orig, pos, left).Some?
    && DemuxFrom(orig, start, left0) == Some(out + DemuxFrom(orig, pos, left).value)
  }

  lemma VideoStep(orig: seq<byte>, start: nat, left0: int, out: seq<byte>, pos: nat, left: int)
    requires Continues(orig, start, left0, out, pos, left) && AtLeast(left, START_CODE_SIZE)
    requires Testable(orig, pos) && StartsUnit(orig, pos, VIDEO_PES)
    ensures if !AtLeast(left, PES_HEADER_SIZE) then Finished(orig, start, left0, out)
            else
              && pos + PES_HEADER_SIZE <= |orig|
              && var end := pos + UNIT_HEADER_SIZE + LengthField(orig, pos);
                 var from := pos + PES_HEADER_SIZE + orig[pos + 8];
                 && from <= end && (from < end ==> end <= |orig|)
                 && var out' := if from < end then out + orig[from..end] else out;
                    if left + pos <= end then Finished(orig, start, left0, out')
                    else Continues(orig, start, left0, out', end, left + pos - end)
  {
    assert out + [] == out;
    if AtLeast(left, PES_HEADER_SIZE) {
      var end := pos + UNIT_HEADER_SIZE + LengthField(orig, pos);
      var from := pos + PES_HEADER_SIZE + orig[pos + 8];
      var payload := if from < end then orig[from..end] else [];
      if end < left + pos {
        var rest := DemuxFrom(orig, end, left + pos - end).value;
        assert out + (payload + rest) == (out + payload) + rest;
      }
    }
  }

  lemma SkipStep(orig: seq<byte>, start: nat, left0: int, out: seq<byte>, pos: nat, left: int)
    requires Continues(orig, start, left0, out, pos, left) && AtLeast(left, START_CODE_SIZE)
    requires Testable(orig, pos)
    requires StartsUnit(orig, pos, SYSTEM_HEADER) || StartsUnit(orig, pos, STREAM_MAP)
    ensures if !StartsUnit(orig, pos, SYSTEM_HEADER) && !AtLeast(left, UNIT_HEADER_SIZE) then Finished(orig, start, left0, out)
            else
              && pos + UNIT_HEADER_SIZE <= |orig|
              && var end := pos + UNIT_HEADER_SIZE + LengthField(orig, pos);
                 Continues(orig, start, left0, out, end, left + pos - end)
  {
    assert out + [] == out;
    if pos + UNIT_HEADER_SIZE <= |orig| {
      var size := UNIT_HEADER_SIZE + LengthField(orig, pos);
      assert left - size == left + pos - (pos + size);
    }
  }

  lemma LastStep(orig: seq<byte>, start: nat, left0: int, out: seq<byte>, pos: nat, left: int)
    requires Continues(orig, start, left0, out, pos, left)
    ensures if !AtLeast(left, START_CODE_SIZE) then Finished(orig, start, left0, out)
            else
              && Testable(orig, pos)
              && (|| StartsUnit(orig, pos, VIDEO_PES)
                  || StartsUnit(orig, pos, SYSTEM_HEADER) || StartsUnit(orig, pos, STREAM_MAP)
                  || Finished(orig, start, left0, out))
  {
    assert out + [] == out;
  }

  /** `out` has replaced the front of the original octets and nothing else has changed. */
  ghost predicate Overlaid(now: seq<byte>, orig: seq<byte>, out: seq<byte>) {
    |out| <= |orig| && now == out + orig[|out|..]
  }

  /** Compaction has not touched what lies at or behind the read cursor. */
  lemma SameAhead(now: seq<byte>, orig: seq<byte>, out: seq<byte>, pos: nat)
    requires Overlaid(now, orig, out) && |out| <= pos
    ensures |now| == |orig|
    ensures Testable(now, pos) == Testable(orig, pos)
    ensures Testable(orig, pos) ==> forall id :: StartsUnit(now, pos, id) == StartsUnit(orig, pos, id)
    ensures pos + UNIT_HEADER_SIZE <= |orig| ==> LengthField(now, pos) == LengthField(orig, pos)
    ensures pos + PES_HEADER_SIZE <= |orig| ==> now[pos + 8] == orig[pos + 8]
  {
    assert forall i :: |out| <= i < |orig| ==> now[i] == orig[i];
  }

  lemma Begin(orig: seq<byte>, length: nat)
    requires PACK_HEADER_SIZE <= |orig| && Demux(orig, length).Some?
    ensures var start := PackHeaderEnd(orig);
            if length - start < START_CODE_SIZE then Demux(orig, length) == Some([])
            else Overlaid(orig, orig, []) && Continues(orig, start, length - start, [], start, length - start)
  {
    var all := Demux(orig, length).value;
    assert [] + all == all;
  }

  lemma Conclude(now: seq<byte>, orig: seq<byte>, length: nat, out: seq<byte>)
    requires PACK_HEADER_SIZE <= |orig| && START_CODE_SIZE <= length - PackHeaderEnd(orig)
    requires Overlaid(now, orig, out) && Finished(orig, PackHeaderEnd(orig), length - PackHeaderEnd(orig), out)
    ensures Demux(orig, length) == Some(out) && |out| <= |orig| && now == out + orig[|out|..]
  {
  }

  lemma OverlaidMore(now: seq<byte>, orig: seq<byte>, out: seq<byte>, src: nat, n: nat)
    requires Overlaid(now, orig, out) && |out| <= src && src + n <= |now|
    ensures |orig| == |now| && Overlaid(Moved(now, |out|, src, n), orig, out + orig[src..src + n])
  {
    assert now[..|out|] == out;
    assert now[src..src + n] == orig[src..src + n];
    assert now[|out| + n..] == orig[|out| + n..];
  }

  /** Moving a payload down behind `out` extends `out` and leaves everything above it as it was. */
  method Append(buffer: array<byte>, ghost orig: seq<byte>, ghost out: seq<byte>, dst: nat, src: nat, n: nat)
    requires Overlaid(buffer[..], orig, out) && |out| == dst <= src && src + n <= buffer.Length
    modifies buffer
    ensures |orig| == buffer.Length && Overlaid(buffer[..], orig, out + orig[src..src + n])
  {
    hide Overlaid, Moved;
    OverlaidMore(buffer[..], orig, out, src, n);
    CopyForward(buffer, dst, src, n);
  }

  /** The video branch of the loop: read one PES header, move its payload down, and say whether to go on. */
  method VideoBranch(buffer: array<byte>, pack: nat, length: int, written: nat,
                     ghost orig: seq<byte>, ghost start: nat, ghost left0: int, ghost out: seq<byte>)
    returns (more: bool, nextPack: nat, leftlength: int, h264length: nat, ghost out': seq<byte>)
    requires Overlaid(buffer[..], orig, out) && |out| == written && written + PACK_HEADER_SIZE <= pack
    requires Continues(orig, start, left0, out, pack, length) && AtLeast(length, START_CODE_SIZE)
    requires |orig| == buffer.Length && Testable(orig, pack) && StartsUnit(orig, pack, VIDEO_PES)
    modifies buffer
    ensures Overlaid(buffer[..], orig, out') && |out'| == h264length <= buffer.Length
    ensures written < h264length ==> h264length + PACK_HEADER_SIZE + PES_HEADER_SIZE <= buffer.Length
    ensures more ==>
              && nextPack + leftlength == pack + length
              && pack + PES_HEADER_SIZE <= nextPack && h264length - written + PES_HEADER_SIZE <= nextPack - pack
    ensures if more then Continues(orig, start, left0, out', nextPack, leftlength) else Finished(orig, start, left0, out')
  {
    hide DemuxFrom, Continues, Finished, Overlaid, StartsUnit, LengthField;
    SameAhead(buffer[..], orig, out, pack);
    VideoStep(orig, start, left0, out, pack, length);
    var ret, payloadData, payloadDataLen;
    ret, nextPack, leftlength, payloadData, payloadDataLen := Pes(buffer, pack, length);
    h264length, out' := written, out;
    if payloadDataLen != 0 {
      Append(buffer, orig, out, h264length, payloadData, payloadDataLen);
      out' := out + orig[payloadData..payloadData + payloadDataLen];
      h264length := h264length + payloadDataLen;
    }
    more := ret != 0;
  }

  /** The chained comparisons of the loop: each octet is read only if those before it agree. */
  method IsStartCode(buffer: array<byte>, pack: nat, id: byte) returns (b: bool)
    requires Testable(buffer[..], pack)
    ensures b == StartsUnit(buffer[..], pack, id)
  {
    b := buffer[pack] == 0 && buffer[pack + 1] == 0 && buffer[pack + 2] == 1 && buffer[pack + 3] == id;
  }

  /** Past a system header or a stream map, as far as its length field says. */
  method SkipUnit(buffer: array<byte>, pack: nat, left: int) returns (nextPack: nat, leftlength: int)
    requires pack + UNIT_HEADER_SIZE <= buffer.Length
    ensures nextPack == pack + UNIT_HEADER_SIZE + LengthField(buffer[..], pack)
    ensures nextPack + leftlength == pack + left
  {
    var unitLength := BE16(buffer[pack + 4], buffer[pack + 5]);
    nextPack := pack + unitLength + UNIT_HEADER_SIZE;
    leftlength := left - unitLength - UNIT_HEADER_SIZE;
  }

  /**
   The extracted stream replaces the front of the very buffer it is read from, and equals what a reader
   of the untouched buffer would extract; the rest of the buffer is left alone.
   */
  method GetH246FromPs(buffer: array<byte>, length: nat) returns (ret: nat, h264length: nat)
    requires PACK_HEADER_SIZE <= buffer.Length
    requires Demux(buffer[..], length).Some?
    modifies buffer
    ensures h264length <= buffer.Length && ret == h264length
    ensures buffer[..] == old(Demux(buffer[..], length).value) + old(buffer[..])[h264length..]
    ensures 0 < h264length ==> h264length + PACK_HEADER_SIZE + PES_HEADER_SIZE <= buffer.Length
  {
    hide DemuxFrom, Demux, PackHeaderEnd, AtLeast, Continues, Finished, Overlaid, Testable, StartsUnit, LengthField;
    ghost var orig := buffer[..];
    h264length := 0;
    var ok, nextPack, leftlength := ProgramStreamPackHeader(buffer, length);
    Begin(orig, length);
    if ok == 0 { return 0, 0; }

    ghost var start, left0 := nextPack, leftlength;
    ghost var out: seq<byte> := [];   // what has been written
    ghost var units: nat := 0;        // units consumed
    ghost var videos: nat := 0;       // PES packets among them
    var more := true;
    while AtLeast(leftlength, START_CODE_SIZE)
      invariant nextPack + leftlength == length
      invariant h264length + PACK_HEADER_SIZE + UNIT_HEADER_SIZE * units + 3 * videos <= nextPack
      invariant |out| == h264length <= buffer.Length
      invariant 0 < h264length ==> h264length + PACK_HEADER_SIZE + PES_HEADER_SIZE <= buffer.Length
      invariant Overlaid(buffer[..], orig, out)
      invariant more && Continues(orig, start, left0, out, nextPack, leftlength)
      decreases buffer.Length - nextPack
    {
      SameAhead(buffer[..], orig, out, nextPack);
      LastStep(orig, start, left0, out, nextPack, leftlength);
      var video := IsStartCode(buffer, nextPack, VIDEO_PES);
      var system := IsStartCode(buffer, nextPack, SYSTEM_HEADER);
      var streamMap := IsStartCode(buffer, nextPack, STREAM_MAP);
      if video {
        more, nextPack, leftlength, h264length, out :=
          VideoBranch(buffer, nextPack, leftlength, h264length, orig, start, left0, out);
        units, videos := units + 1, videos + 1;
        if !more { break; }
      } else if system {
        SkipStep(orig, start, left0, out, nextPack, leftlength);
        if length < UNIT_HEADER_SIZE { break; }
        nextPack, leftlength := SkipUnit(buffer, nextPack, leftlength);
        units := units + 1;
      } else if streamMap {
        SkipStep(orig, start, left0, out, nextPack, leftlength);
        if !AtLeast(leftlength, UNIT_HEADER_SIZE) {
          more := false;
          break;
        }
        nextPack, leftlength := SkipUnit(buffer, nextPack, leftlength);
        units := units + 1;
      } else {
        more := false;
        break;
      }
    }
    if more { LastStep(orig, start, left0, out, nextPack, leftlength); }
    Conclude(buffer[..], orig, length, out);
    ret := h264length;
  }
}
