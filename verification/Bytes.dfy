/** Octets, results that may be missing, and the small sequence facts that several modules share. */
module Bytes {

  type byte = x: int | 0 <= x < 0x100

  datatype Option<+T> = None | Some(value: T)

  /** Two octets in network order; every 16-bit length field of the streams is stored this way. */
  function BE16(hi: byte, lo: byte): (n: nat)
    ensures n < 0x1_0000
    ensures n / 0x100 == hi && n % 0x100 == lo
  {
    hi * 0x100 + lo
  }

  function Zeros(n: nat): (z: seq<byte>)
    ensures |z| == n
  {
    seq<byte>(n, _ => 0)
  }

  function Concat<T>(parts: seq<seq<T>>): seq<T> {
    if parts == [] then [] else parts[0] + Concat(parts[1..])
  }

  lemma {:induction false} ConcatAppend<T>(a: seq<seq<T>>, b: seq<seq<T>>)
    ensures Concat(a + b) == Concat(a) + Concat(b)
  {
    if a == [] {
      assert a + b == b;
    } else {
      assert (a + b)[1..] == a[1..] + b;
      ConcatAppend(a[1..], b);
    }
  }
}
