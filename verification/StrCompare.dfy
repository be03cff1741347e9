/** pj_strcmp and pj_strncmp of include/pj/string_i.h; of the value of pj_memcmp only the sign is used. */
module StrCompare {
  import opened Bytes

  /** The sign of memcmp on the first n octets. */
  function MemCmp(a: seq<byte>, b: seq<byte>, n: nat): int
    requires n <= |a| && n <= |b|
    decreases n
  {
    if n == 0 then 0
    else if a[0] < b[0] then -1
    else if a[0] > b[0] then 1
    else MemCmp(a[1..], b[1..], n - 1)
  }

  function Strcmp(a: seq<byte>, b: seq<byte>): int {
    if |a| == 0 then (if |b| == 0 then 0 else -1)
    else if |b| == 0 then 1
    else
      var res := MemCmp(a, b, if |a| < |b| then |a| else |b|);
      if res == 0 then (if |a| < |b| then -1 else if |a| == |b| then 0 else 1) else res
  }

  /** Dictionary order, by the first position where the strings part. */
  ghost predicate PartsAt(a: seq<byte>, b: seq<byte>, k: nat) {
    && k <= |a| && k < |b| && a[..k] == b[..k]
    && (k == |a| || a[k] < b[k])
  }

  ghost predicate Before(a: seq<byte>, b: seq<byte>) {
    exists k: nat :: PartsAt(a, b, k)
  }

  lemma {:induction false} MemCmpMeaning(a: seq<byte>, b: seq<byte>, n: nat)
    requires n <= |a| && n <= |b|
    ensures MemCmp(a, b, n) == 0 ==> a[..n] == b[..n]
    ensures MemCmp(a, b, n) < 0 ==> exists k: nat :: k < n && PartsAt(a, b, k)
    ensures MemCmp(a, b, n) > 0 ==> exists k: nat :: k < n && PartsAt(b, a, k)
    decreases n
  {
    if n > 0 {
      if a[0] < b[0] {
        assert PartsAt(a, b, 0);
      } else if a[0] > b[0] {
        assert PartsAt(b, a, 0);
      } else {
        MemCmpMeaning(a[1..], b[1..], n - 1);
        assert a[..n] == [a[0]] + a[1..][..n - 1] && b[..n] == [b[0]] + b[1..][..n - 1];
        if MemCmp(a, b, n) < 0 {
          var k: nat :| k < n - 1 && PartsAt(a[1..], b[1..], k);
          LaterPart(a, b, k);
        } else if MemCmp(a, b, n) > 0 {
          var k: nat :| k < n - 1 && PartsAt(b[1..], a[1..], k);
          LaterPart(b, a, k);
        }
      }
    }
  }

  lemma LaterPart(a: seq<byte>, b: seq<byte>, k: nat)
    requires a != [] && b != [] && a[0] == b[0] && PartsAt(a[1..], b[1..], k)
    ensures PartsAt(a, b, k + 1)
  {
    assert a[..k + 1] == [a[0]] + a[1..][..k] && b[..k + 1] == [b[0]] + b[1..][..k];
  }

  lemma NotBoth(a: seq<byte>, b: seq<byte>)
    ensures !(Before(a, b) && Before(b, a)) && !Before(a, a)
  {
    forall j: nat, k: nat
      ensures !(PartsAt(a, b, j) && PartsAt(b, a, k))
    {
      NotBothAt(a, b, j, k);
    }
  }

  lemma NotBothAt(a: seq<byte>, b: seq<byte>, j: nat, k: nat)
    ensures !(PartsAt(a, b, j) && PartsAt(b, a, k))
  {
    var m := if j < k then j else k;
    assert j < k <= |a| && k <= |b| ==> a[..k][m] == a[m] && b[..k][m] == b[m];
    assert k < j <= |a| && j <= |b| ==> a[..j][m] == a[m] && b[..j][m] == b[m];
  }

  /** The sign of pj_strcmp decides equality and dictionary order, in both directions. */
  lemma StrcmpOrders(a: seq<byte>, b: seq<byte>)
    ensures Strcmp(a, b) == 0 <==> a == b
    ensures Strcmp(a, b) < 0 <==> Before(a, b)
    ensures Strcmp(a, b) > 0 <==> Before(b, a)
  {
    var n := if |a| < |b| then |a| else |b|;
    NotBoth(a, b);
    MemCmpMeaning(a, b, n);
    if MemCmp(a, b, n) == 0 {
      assert |a| < |b| ==> PartsAt(a, b, |a|);
      assert |b| < |a| ==> PartsAt(b, a, |b|);
      assert |a| == |b| ==> a[..n] == a && b[..n] == b;
    }
  }

  lemma BeforeTransitive(a: seq<byte>, b: seq<byte>, c: seq<byte>)
    requires Before(a, b) && Before(b, c)
    ensures Before(a, c)
  {
    var j: nat :| PartsAt(a, b, j);
    var k: nat :| PartsAt(b, c, k);
    var m := if j < k then j else k;
    assert a[..m] == a[..j][..m] == b[..j][..m] == b[..m] == b[..k][..m] == c[..k][..m] == c[..m];
    assert j < k ==> b[..k][j] == c[..k][j];
    assert k < j ==> a[..j][k] == b[..j][k];
    assert PartsAt(a, c, m);
  }

  /** pj_strcmp is a total order: antisymmetric in sign and transitive. */
  lemma StrcmpTotalOrder(a: seq<byte>, b: seq<byte>, c: seq<byte>)
    ensures Strcmp(a, b) < 0 <==> Strcmp(b, a) > 0
    ensures Strcmp(a, b) <= 0 && Strcmp(b, c) <= 0 ==> Strcmp(a, c) <= 0
  {
    StrcmpOrders(a, b);
    StrcmpOrders(b, a);
    StrcmpOrders(b, c);
    StrcmpOrders(a, c);
    if Before(a, b) && Before(b, c) { BeforeTransitive(a, b, c); }
  }

  // ---------------------------------------------------------------------------------------------
  // Comparing the fronts of two strings
  // ---------------------------------------------------------------------------------------------

  const TWO32 := 0x1_0000_0000

  function Front(a: seq<byte>, n: nat): seq<byte> {
    if n < |a| then a[..n] else a
  }

  /** A string is cut if `len` is below its length as an `unsigned`. */
  function Cut(a: seq<byte>, len: nat): seq<byte>
  {
    if len < |a| % TWO32 then a[..len] else a
  }

  function Strncmp(a: seq<byte>, b: seq<byte>, len: nat): int {
    Strcmp(Cut(a, len), Cut(b, len))
  }

  /** The length loses nothing that matters when it is cut to 32 bits. */
  predicate LengthHolds(a: seq<byte>, len: nat) {
    |a| <= len || len < |a| % TWO32
  }

  lemma CutIff(a: seq<byte>, len: nat)
    ensures Cut(a, len) == Front(a, len) <==> LengthHolds(a, len)
    ensures |a| < TWO32 ==> LengthHolds(a, len)
  {
  }

  /** A string of 2^32 octets is not cut, and differs from its own first octet. */
  lemma LongNotCut()
    ensures Strncmp(Zeros(TWO32), [0], 1) > 0 && Front(Zeros(TWO32), 1) == Front([0], 1)
  {
    hide Strcmp;
    var a, b := Zeros(TWO32), [0];
    assert PartsAt(b, a, 1);
    StrcmpOrders(a, b);
  }

  /** The sign of pj_strncmp decides equality and dictionary order of the fronts. */
  lemma StrncmpOrders(a: seq<byte>, b: seq<byte>, len: nat)
    requires LengthHolds(a, len) && LengthHolds(b, len)
    ensures Strncmp(a, b, len) == 0 <==> Front(a, len) == Front(b, len)
    ensures Strncmp(a, b, len) < 0 <==> Before(Front(a, len), Front(b, len))
    ensures Strncmp(a, b, len) > 0 <==> Before(Front(b, len), Front(a, len))
  {
    CutIff(a, len);
    CutIff(b, len);
    StrcmpOrders(Front(a, len), Front(b, len));
  }

  lemma FrontBefore(a: seq<byte>, b: seq<byte>, m: nat, n: nat)
    requires m <= n && Before(Front(a, m), Front(b, m))
    ensures Before(Front(a, n), Front(b, n))
  {
    var p, q, p', q' := Front(a, m), Front(b, m), Front(a, n), Front(b, n);
    var k: nat :| PartsAt(p, q, k);
    assert p'[..k] == p[..k] && q'[..k] == q[..k];
    assert PartsAt(p', q', k);
  }

  /** What a shorter length decides, a longer one and pj_strcmp decide alike. */
  lemma StrncmpLonger(a: seq<byte>, b: seq<byte>, m: nat, n: nat)
    requires m <= n && LengthHolds(a, m) && LengthHolds(b, m) && LengthHolds(a, n) && LengthHolds(b, n)
    ensures Strncmp(a, b, m) < 0 ==> Strncmp(a, b, n) < 0 && Strcmp(a, b) < 0
    ensures Strncmp(a, b, m) > 0 ==> Strncmp(a, b, n) > 0 && Strcmp(a, b) > 0
    ensures |a| <= n && |b| <= n ==> Strncmp(a, b, n) == Strcmp(a, b)
  {
    hide Strcmp, Strncmp, Before, Cut, Front, LengthHolds;
    StrncmpIs(a, b, m);
    StrncmpIs(a, b, n);
    var whole := n + |a| + |b|;
    FrontsWhole(a, b, whole);
    StrcmpOrders(a, b);
    if Strncmp(a, b, m) < 0 {
      FrontBefore(a, b, m, n);
      FrontBefore(a, b, m, whole);
    }
    if Strncmp(a, b, m) > 0 {
      FrontBefore(b, a, m, n);
      FrontBefore(b, a, m, whole);
    }
    if |a| <= n && |b| <= n { FrontsWhole(a, b, n); }
  }

  lemma StrncmpIs(a: seq<byte>, b: seq<byte>, n: nat)
    requires LengthHolds(a, n) && LengthHolds(b, n)
    ensures Strncmp(a, b, n) == Strcmp(Front(a, n), Front(b, n))
    ensures Strncmp(a, b, n) < 0 <==> Before(Front(a, n), Front(b, n))
    ensures Strncmp(a, b, n) > 0 <==> Before(Front(b, n), Front(a, n))
  {
    hide Strcmp, Before;
    CutIff(a, n);
    CutIff(b, n);
    StrncmpOrders(a, b, n);
  }

  lemma FrontsWhole(a: seq<byte>, b: seq<byte>, n: nat)
    requires |a| <= n && |b| <= n
    ensures Front(a, n) == a && Front(b, n) == b
  {
  }
}
