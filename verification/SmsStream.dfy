/**
 The slice format that SMS::writeFrame of frameresolve/sms.cpp puts on the socket, and a peer that reads
 it: a parser of the octet stream and a reassembly by slice number.
 */
module SmsStream {
  import opened Algebra
  import opened Bits
  import opened Bytes

  const HEADER_SIZE := 20
  const SLICE_SIZE := 1000
  const MAX_SLICES := 32768

  const MAGIC := 0xFFFF559F
  const CMD_VIDEO := 31000

  /** qToBigEndian of a 32-bit value, as the octets that go out. */
  function BE32(n: nat): (s: seq<byte>)
    requires n < 0x1_0000_0000
    ensures |s| == 4 && UnBE32(s) == n
  {
    var mid := n / 0x100;
    var high := mid / 0x100;
    [high / 0x100, high % 0x100, mid % 0x100, n % 0x100]
  }

  function UnBE32(s: seq<byte>): nat
    requires |s| == 4
  {
    ((s[0] as int * 0x100 + s[1] as int) * 0x100 + s[2] as int) * 0x100 + s[3] as int
  }

  datatype Slice = Slice(index: nat, count: nat, body: seq<byte>) {
    predicate Valid() {
      index < count <= MAX_SLICES && 0 < |body| <= SLICE_SIZE
    }
  }

  /** The count in the low half of the word, the slice number or-ed in above it. */
  function SeqNum(index: nat, count: nat): nat {
    Or(count, index * 0x1_0000)
  }

  lemma SeqNumDecodes(index: nat, count: nat)
    requires index < 0x8000 && count < 0x1_0000
    ensures SeqNum(index, count) < 0x8000_0000
    ensures SeqNum(index, count) / 0x1_0000 == index && SeqNum(index, count) % 0x1_0000 == count
  {
    Pow2Values();
    OrShifted(count, index, 16);
  }

  /** One message; `flag` is the header octet that nobody sets. */
  function Encode(s: Slice, flag: byte): (m: seq<byte>)
    requires s.Valid()
    ensures |m| == HEADER_SIZE + |s.body|
  {
    SeqNumDecodes(s.index, s.count);
    BE32(MAGIC) + [0, flag, 0, 0] + BE32(CMD_VIDEO) + BE32(SeqNum(s.index, s.count)) + BE32(|s.body|) + s.body
  }

  ghost predicate AllValid(slices: seq<Slice>) {
    forall s <- slices :: s.Valid()
  }

  function EncodeAll(slices: seq<Slice>, flags: nat -> byte): seq<byte>
    requires AllValid(slices)
  {
    if slices == [] then [] else
      var k := |slices| - 1;
      assert slices[k].Valid() && forall s <- slices[..k] :: s in slices;
      EncodeAll(slices[..k], flags) + Encode(slices[k], flags(k))
  }

  // ---------------------------------------------------------------------------------------------
  // Cutting
  // ---------------------------------------------------------------------------------------------

  function SliceCount(n: nat): nat { (n + 999) / 1000 }

  /** Slice j of the data. */
  function SliceAt(data: seq<byte>, j: nat): (s: Slice)
    requires j < SliceCount(|data|)
    ensures SliceCount(|data|) <= MAX_SLICES ==> s.Valid()
  {
    var i := j * SLICE_SIZE;
    Slice(j, SliceCount(|data|), if |data| - i < SLICE_SIZE then data[i..] else data[i..i + SLICE_SIZE])
  }

  /** The first n slices. */
  function SlicesTo(data: seq<byte>, n: nat): (ss: seq<Slice>)
    requires n <= SliceCount(|data|)
    ensures |ss| == n && forall j :: 0 <= j < n ==> ss[j] == SliceAt(data, j)
  {
    seq(n, j requires 0 <= j < n => SliceAt(data, j))
  }

  function Slices(data: seq<byte>): seq<Slice> {
    SlicesTo(data, SliceCount(|data|))
  }

  function Bodies(slices: seq<Slice>): seq<byte> {
    if slices == [] then [] else Bodies(slices[..|slices| - 1]) + slices[|slices| - 1].body
  }

  function Min(a: nat, b: nat): nat { if a < b then a else b }

  lemma {:induction false} BodiesTo(data: seq<byte>, n: nat)
    requires n <= SliceCount(|data|)
    ensures Bodies(SlicesTo(data, n)) == data[..Min(n * SLICE_SIZE, |data|)]
  {
    if n > 0 {
      hide SliceAt, SlicesTo, Bodies;
      BodiesTo(data, n - 1);
      BodiesNext(data, n - 1, n);
      SliceEnds(data, n - 1, n);
    } else {
      assert Bodies(SlicesTo(data, 0)) == [];
    }
  }

  lemma BodiesNext(data: seq<byte>, k: nat, n: nat)
    requires n == k + 1 && n <= SliceCount(|data|)
    ensures Bodies(SlicesTo(data, n)) == Bodies(SlicesTo(data, k)) + SliceAt(data, k).body
  {
    hide SliceAt;
    assert SlicesTo(data, n)[..k] == SlicesTo(data, k);
  }

  /** Slice k goes on where the slices before it end. */
  lemma SliceEnds(data: seq<byte>, k: nat, n: nat)
    requires n == k + 1 && n <= SliceCount(|data|)
    ensures data[..Min(k * SLICE_SIZE, |data|)] + SliceAt(data, k).body == data[..Min(n * SLICE_SIZE, |data|)]
  {
    var i := k * SLICE_SIZE;
    assert i < |data|;
    if |data| - i < SLICE_SIZE {
      assert data[..i] + data[i..] == data;
    } else {
      assert data[..i] + data[i..i + SLICE_SIZE] == data[..i + SLICE_SIZE];
    }
  }

  /** Exactly ceil(size/1000) numbered slices of 1 to 1000 octets, which together are the data. */
  lemma SlicesCover(data: seq<byte>)
    requires SliceCount(|data|) <= MAX_SLICES
    ensures var ss := Slices(data);
            && |ss| == SliceCount(|data|) && AllValid(ss)
            && (forall j :: 0 <= j < |ss| ==> ss[j].index == j && ss[j].count == |ss|)
            && (forall j :: 0 <= j < |ss| - 1 ==> |ss[j].body| == SLICE_SIZE)
            && Bodies(ss) == data
  {
    BodiesTo(data, SliceCount(|data|));
  }

  // ---------------------------------------------------------------------------------------------
  // The peer
  // ---------------------------------------------------------------------------------------------

  /** Read the stream message by message; None for a stream this format does not produce. */
  function Parse(s: seq<byte>): Option<seq<Slice>> {
    if s == [] then Some([])
    else if |s| < HEADER_SIZE || s[..4] != BE32(MAGIC) || s[4] != 0 || s[6..8] != [0, 0] || s[8..12] != BE32(CMD_VIDEO) then None
    else
      var number, length := UnBE32(s[12..16]), UnBE32(s[16..20]);
      if |s| < HEADER_SIZE + length then None
      else
        match Parse(s[HEADER_SIZE + length..])
        case None => None
        case Some(rest) => Some([Slice(number / 0x1_0000, number % 0x1_0000, s[HEADER_SIZE..HEADER_SIZE + length])] + rest)
  }

  lemma ParseOne(x: Slice, flag: byte, later: seq<byte>)
    requires x.Valid()
    ensures Parse(Encode(x, flag) + later) ==
            if Parse(later).None? then None else Some([x] + Parse(later).value)
  {
    var m := Encode(x, flag);
    var s := m + later;
    SeqNumDecodes(x.index, x.count);
    assert m[..4] == BE32(MAGIC) && m[4] == 0 && m[6..8] == [0, 0] && m[8..12] == BE32(CMD_VIDEO);
    assert m[12..16] == BE32(SeqNum(x.index, x.count)) && m[16..20] == BE32(|x.body|);
    assert m[HEADER_SIZE..] == x.body;
    assert s[..4] == m[..4] && s[4] == m[4] && s[6..8] == m[6..8] && s[8..12] == m[8..12] && s[12..16] == m[12..16] && s[16..20] == m[16..20];
    assert s[HEADER_SIZE..|m|] == m[HEADER_SIZE..] && s[|m|..] == later;
  }

  lemma {:induction false} ParseAll(slices: seq<Slice>, flags: nat -> byte, later: seq<byte>)
    requires AllValid(slices)
    ensures Parse(EncodeAll(slices, flags) + later) ==
            if Parse(later).None? then None else Some(slices + Parse(later).value)
    decreases |slices|
  {
    hide Parse, Encode, EncodeAll, Slice.Valid;
    if slices == [] {
      EncodeNothing(flags);
      assert [] + later == later;
      assert Parse(later).Some? ==> [] + Parse(later).value == Parse(later).value;
    } else {
      var k := |slices| - 1;
      var front, last := slices[..k], slices[k];
      FrontValid(slices, k);
      EncodeLast(slices, k, flags);
      var m := Encode(last, flags(k));
      assert EncodeAll(front, flags) + m + later == EncodeAll(front, flags) + (m + later);
      ParseOne(last, flags(k), later);
      ParseAll(front, flags, m + later);
      if Parse(later).Some? {
        assert front + ([last] + Parse(later).value) == slices + Parse(later).value;
      }
    }
  }

  lemma EncodeNothing(flags: nat -> byte)
    ensures EncodeAll([], flags) == []
  {
  }

  lemma FrontValid(slices: seq<Slice>, k: nat)
    requires AllValid(slices) && |slices| == k + 1
    ensures AllValid(slices[..k]) && slices[k].Valid()
  {
    hide Slice.Valid;
    assert slices[k] in slices && forall s <- slices[..k] :: s in slices;
  }

  lemma EncodeLast(slices: seq<Slice>, k: nat, flags: nat -> byte)
    requires AllValid(slices) && |slices| == k + 1 && AllValid(slices[..k]) && slices[k].Valid()
    ensures EncodeAll(slices, flags) == EncodeAll(slices[..k], flags) + Encode(slices[k], flags(k))
  {
    hide Encode, AllValid, Slice.Valid;
  }

  /** The parser undoes the encoder, whatever the unset octets hold. */
  lemma ParseUndoesEncode(slices: seq<Slice>, flags: nat -> byte)
    requires AllValid(slices)
    ensures Parse(EncodeAll(slices, flags)) == Some(slices)
  {
    ParseAll(slices, flags, []);
    assert EncodeAll(slices, flags) + [] == EncodeAll(slices, flags);
    assert slices + [] == slices;
  }

  /** The body of the first slice with this number. */
  function Find(slices: seq<Slice>, j: nat): Option<seq<byte>> {
    if slices == [] then None
    else if slices[0].index == j then Some(slices[0].body)
    else Find(slices[1..], j)
  }

  /** Slices 0 to n - 1, put in order of their numbers. */
  function Gather(slices: seq<Slice>, n: nat): Option<seq<byte>> {
    if n == 0 then Some([])
    else
      match (Gather(slices, n - 1), Find(slices, n - 1))
      case (Some(front), Some(last)) => Some(front + last)
      case _ => None
  }

  function Reassemble(slices: seq<Slice>): Option<seq<byte>> {
    if slices == [] then None else Gather(slices, slices[0].count)
  }

  lemma {:induction false} FindOnly(slices: seq<Slice>, x: Slice)
    requires x in slices && forall y <- slices :: y.index == x.index ==> y == x
    ensures Find(slices, x.index) == Some(x.body)
    decreases |slices|
  {
    if slices[0].index != x.index {
      assert forall y <- slices[1..] :: y in slices;
      FindOnly(slices[1..], x);
    }
  }

  lemma {:induction false} GatherAll(slices: seq<Slice>, data: seq<byte>, n: nat)
    requires n <= SliceCount(|data|)
    requires forall j :: 0 <= j < n ==> Find(slices, j) == Some(SliceAt(data, j).body)
    ensures Gather(slices, n) == Some(Bodies(SlicesTo(data, n)))
  {
    if n > 0 {
      hide SliceAt, SlicesTo, Bodies, Find;
      GatherAll(slices, data, n - 1);
      BodiesNext(data, n - 1, n);
    }
  }

  /** Slices received in any order give the data back. */
  lemma ReassembleAnyOrder(data: seq<byte>, received: seq<Slice>)
    requires data != [] && multiset(received) == multiset(Slices(data))
    ensures Reassemble(received) == Some(data)
  {
    hide SliceAt, Find, Gather, Bodies;
    var n := SliceCount(|data|);
    SameSlices(data, received);
    forall j | 0 <= j < n
      ensures Find(received, j) == Some(SliceAt(data, j).body)
    {
      Numbered(data);
      FindOnly(received, SliceAt(data, j));
    }
    GatherAll(received, data, n);
    BodiesTo(data, n);
    Numbered(data);
    assert received[0] in received;
    assert data[..|data|] == data;
  }

  lemma Numbered(data: seq<byte>)
    ensures forall j :: 0 <= j < SliceCount(|data|) ==>
              SliceAt(data, j).index == j && SliceAt(data, j).count == SliceCount(|data|)
  {
  }

  lemma SameSlices(data: seq<byte>, received: seq<Slice>)
    requires data != [] && multiset(received) == multiset(Slices(data))
    ensures received != []
    ensures forall x :: x in received <==> exists j :: 0 <= j < SliceCount(|data|) && x == SliceAt(data, j)
  {
    hide SliceAt;
    var ss := Slices(data);
    assert |received| == |multiset(received)| == |ss|;
    assert forall x :: x in received <==> x in multiset(received);
    assert forall x :: x in ss <==> x in multiset(ss);
  }

  // ---------------------------------------------------------------------------------------------
  // The same in octets
  // ---------------------------------------------------------------------------------------------

  lemma BE32Is(n: nat, a: byte, b: byte, c: byte, d: byte)
    requires n == ((a * 256 + b) * 256 + c) * 256 + d
    ensures n < 0x1_0000_0000 && BE32(n) == [a, b, c, d]
  {
    assert n / 256 == (a * 256 + b) * 256 + c && n % 256 == d;
    assert n / 256 / 256 == a * 256 + b && n / 256 % 256 == c;
  }

  /** Magic, channel 0, the unset octet, type 0, command 31000, slice number, slice count, length, body. */
  lemma EncodeOctets(s: Slice, flag: byte)
    requires s.Valid()
    ensures Encode(s, flag) ==
            [0xFF, 0xFF, 0x55, 0x9F, 0, flag, 0, 0, 0, 0, 0x79, 0x18,
             s.index / 256, s.index % 256, s.count / 256, s.count % 256,
             0, 0, |s.body| / 256, |s.body| % 256] + s.body
  {
    hide BE32;
    SeqNumDecodes(s.index, s.count);
    var n := SeqNum(s.index, s.count);
    BE32Is(MAGIC, 0xFF, 0xFF, 0x55, 0x9F);
    BE32Is(CMD_VIDEO, 0, 0, 0x79, 0x18);
    BE32Is(n, s.index / 256, s.index % 256, s.count / 256, s.count % 256);
    BE32Is(|s.body|, 0, 0, |s.body| / 256, |s.body| % 256);
  }

  /** The stream of some slices starts with the first of them. */
  lemma {:induction false} FirstMessage(slices: seq<Slice>, flags: nat -> byte)
    requires AllValid(slices) && slices != []
    ensures slices[0].Valid() && Encode(slices[0], flags(0)) <= EncodeAll(slices, flags)
    decreases |slices|
  {
    hide Encode;
    var k := |slices| - 1;
    assert slices[0] in slices && slices[k] in slices;
    assert AllValid(slices[..k]) by { assert forall s <- slices[..k] :: s in slices; }
    if k == 0 {
      assert EncodeAll(slices[..0], flags) == [];
      assert EncodeAll(slices, flags) == [] + Encode(slices[0], flags(0));
    } else {
      FirstMessage(slices[..k], flags);
      assert slices[..k][0] == slices[0];
    }
  }

  /** The first message of cut data: its magic and command, and the front of the data behind 20 header octets. */
  lemma FirstOctets(data: seq<byte>, flags: nat -> byte, n: nat)
    requires 0 < |data| && SliceCount(|data|) <= 32768 && n <= |data| && n <= 1000
    ensures AllValid(Slices(data))
    ensures var out := EncodeAll(Slices(data), flags);
            && 20 + n <= |out| && out[..4] == [0xFF, 0xFF, 0x55, 0x9F] && out[8..12] == [0, 0, 0x79, 0x18]
            && out[20..20 + n] == data[..n]
  {
    hide Encode, EncodeAll, SliceAt;
    SlicesCover(data);
    var ss := Slices(data);
    FirstMessage(ss, flags);
    FirstSlice(data);
    MessageParts(ss[0], flags(0), n);
    PrefixParts(Encode(ss[0], flags(0)), EncodeAll(ss, flags), n);
  }

  lemma MessageParts(s: Slice, flag: byte, n: nat)
    requires s.Valid() && n <= |s.body|
    ensures var m := Encode(s, flag);
            m[..4] == [0xFF, 0xFF, 0x55, 0x9F] && m[8..12] == [0, 0, 0x79, 0x18] && m[20..20 + n] == s.body[..n]
  {
    hide Encode;
    EncodeOctets(s, flag);
    var h := [0xFF, 0xFF, 0x55, 0x9F, 0, flag, 0, 0, 0, 0, 0x79, 0x18,
              s.index / 256, s.index % 256, s.count / 256, s.count % 256,
              0, 0, |s.body| / 256, |s.body| % 256];
    assert h[..4] == [0xFF, 0xFF, 0x55, 0x9F] && h[8..12] == [0, 0, 0x79, 0x18];
    HeaderAndBody(h, s.body, n);
  }

  lemma HeaderAndBody(h: seq<byte>, body: seq<byte>, n: nat)
    requires |h| == 20 && n <= |body|
    ensures (h + body)[..4] == h[..4] && (h + body)[8..12] == h[8..12] && (h + body)[20..20 + n] == body[..n]
  {
  }

  lemma PrefixParts(m: seq<byte>, out: seq<byte>, n: nat)
    requires m <= out && 20 + n <= |m|
    ensures 20 + n <= |out| && out[..4] == m[..4] && out[8..12] == m[8..12] && out[20..20 + n] == m[20..20 + n]
  {
    assert out[..|m|] == m;
  }

  lemma FirstSlice(data: seq<byte>)
    requires 0 < |data|
    ensures Slices(data) != [] && Slices(data)[0].body == if |data| < 1000 then data else data[..1000]
  {
    assert Slices(data)[0] == SliceAt(data, 0);
  }
}
