/** The word-at-a-time caseless comparison of include/pj/string_i.h. */
module AlnumCompare {
  import opened Bits
  import opened Bytes

  /** Four octets, the least significant first. */
  function Nest(a: nat, b: nat, c: nat, d: nat): nat {
    a + 0x100 * (b + 0x100 * (c + 0x100 * d))
  }

  /** The 32-bit word made of four octets in memory order. */
  function Join(a: byte, b: byte, c: byte, d: byte, littleEndian: bool): nat {
    if littleEndian then Nest(a, b, c, d) else Nest(d, c, b, a)
  }

  /** What a word pointer to octet i reads; it may reach past the octets that count. */
  function Word(s: seq<byte>, i: nat, littleEndian: bool): nat
    requires i + 4 <= |s|
  {
    Join(s[i], s[i + 1], s[i + 2], s[i + 3], littleEndian)
  }

  /** The mask for the first n octets of a word. */
  function WordMask(n: nat, littleEndian: bool): nat
    requires 1 <= n <= 4
  {
    if n == 4 then 0x5F5F5F5F
    else if littleEndian then (if n == 3 then 0x005F5F5F else if n == 2 then 0x00005F5F else 0x0000005F)
    else (if n == 3 then 0x5F5F5F00 else if n == 2 then 0x5F5F0000 else 0x5F000000)
  }

  /** The test of the source: the first n octets of two words, compared under the mask. */
  predicate MaskedEqual(w: nat, w': nat, n: nat, littleEndian: bool)
    requires 1 <= n <= 4
  {
    And(w, WordMask(n, littleEndian)) == And(w', WordMask(n, littleEndian))
  }

  predicate Agree(x: byte, y: byte) {
    And(x, 0x5F) == And(y, 0x5F)
  }

  /** The octets from..to agree under the mask. */
  predicate AgreeIn(s: seq<byte>, t: seq<byte>, from: nat, to: int)
    requires to <= |s| && to <= |t|
  {
    forall k :: from <= k < to ==> Agree(s[k], t[k])
  }

  lemma AndOctet(x: byte, rest: nat, m: byte, restMask: nat)
    ensures And(x + 0x100 * rest, m + 0x100 * restMask) == And(x, m) + 0x100 * And(rest, restMask)
  {
    Pow2Values();
    AndSplit(x, rest, m, restMask, 8);
  }

  /** Masking a word is masking its octets. */
  lemma NestMasked(a: byte, b: byte, c: byte, d: byte, m: byte, n: byte, o: byte, p: byte)
    ensures And(Nest(a, b, c, d), Nest(m, n, o, p)) == Nest(And(a, m), And(b, n), And(c, o), And(d, p))
  {
    hide And;
    AndOctet(a, b + 0x100 * (c + 0x100 * d), m, n + 0x100 * (o + 0x100 * p));
    AndOctet(b, c + 0x100 * d, n, o + 0x100 * p);
    AndOctet(c, d, o, p);
  }

  lemma NestInjective(a: byte, b: byte, c: byte, d: byte, a': byte, b': byte, c': byte, d': byte)
    ensures Nest(a, b, c, d) == Nest(a', b', c', d') <==> a == a' && b == b' && c == c' && d == d'
  {
    Digit(a, b + 0x100 * (c + 0x100 * d), a', b' + 0x100 * (c' + 0x100 * d'));
    Digit(b, c + 0x100 * d, b', c' + 0x100 * d');
    Digit(c, d, c', d');
  }

  lemma Digit(a: byte, r: nat, a': byte, r': nat)
    ensures a + 0x100 * r == a' + 0x100 * r' <==> a == a' && r == r'
  {
  }

  lemma NestAgree(a: byte, b: byte, c: byte, d: byte, a': byte, b': byte, c': byte, d': byte,
                  m: byte, n: byte, o: byte, p: byte)
    ensures And(Nest(a, b, c, d), Nest(m, n, o, p)) == And(Nest(a', b', c', d'), Nest(m, n, o, p)) <==>
            And(a, m) == And(a', m) && And(b, n) == And(b', n) && And(c, o) == And(c', o) && And(d, p) == And(d', p)
  {
    hide And, Nest;
    AndAtMost(a, m); AndAtMost(b, n); AndAtMost(c, o); AndAtMost(d, p);
    AndAtMost(a', m); AndAtMost(b', n); AndAtMost(c', o); AndAtMost(d', p);
    NestMasked(a, b, c, d, m, n, o, p);
    NestMasked(a', b', c', d', m, n, o, p);
    NestInjective(And(a, m), And(b, n), And(c, o), And(d, p), And(a', m), And(b', n), And(c', o), And(d', p));
  }

  /** The octet mask for position k of the word, in memory order. */
  function Keep(k: nat, n: nat): byte { if k < n then 0x5F else 0 }

  lemma MaskOctets(n: nat)
    requires 1 <= n <= 4
    ensures WordMask(n, true) == Nest(Keep(0, n), Keep(1, n), Keep(2, n), Keep(3, n))
    ensures WordMask(n, false) == Nest(Keep(3, n), Keep(2, n), Keep(1, n), Keep(0, n))
  {
  }

  lemma KeepAgree(k: nat, n: nat, x: byte, y: byte)
    ensures And(x, Keep(k, n)) == And(y, Keep(k, n)) <==> (k < n ==> Agree(x, y))
  {
    AndUnfold(x, 0);
    AndUnfold(y, 0);
  }

  lemma JoinMasked(a: byte, b: byte, c: byte, d: byte, a': byte, b': byte, c': byte, d': byte, n: nat, le: bool)
    requires 1 <= n <= 4
    ensures MaskedEqual(Join(a, b, c, d, le), Join(a', b', c', d', le), n, le) <==>
            && Agree(a, a') && (1 < n ==> Agree(b, b')) && (2 < n ==> Agree(c, c')) && (3 < n ==> Agree(d, d'))
  {
    hide And, Nest, Agree, WordMask, Keep;
    MaskOctets(n);
    KeepAgree(0, n, a, a');
    KeepAgree(1, n, b, b');
    KeepAgree(2, n, c, c');
    KeepAgree(3, n, d, d');
    if le {
      NestAgree(a, b, c, d, a', b', c', d', Keep(0, n), Keep(1, n), Keep(2, n), Keep(3, n));
    } else {
      NestAgree(d, c, b, a, d', c', b', a', Keep(3, n), Keep(2, n), Keep(1, n), Keep(0, n));
    }
  }

  /** Masked words are equal exactly when their octets agree, in either byte order. */
  lemma WordsAgree(s: seq<byte>, t: seq<byte>, i: nat, n: nat, le: bool)
    requires 1 <= n <= 4 && i + 4 <= |s| && i + 4 <= |t|
    ensures MaskedEqual(Word(s, i, le), Word(t, i, le), n, le) <==> AgreeIn(s, t, i, i + n)
  {
    hide Join, MaskedEqual, Agree;
    JoinMasked(s[i], s[i + 1], s[i + 2], s[i + 3], t[i], t[i + 1], t[i + 2], t[i + 3], n, le);
    if AgreeIn(s, t, i, i + n) {
      assert forall k :: 0 <= k < n ==> Agree(s[i..][k], t[i..][k]);
    }
  }

  lemma AgreeSplit(s: seq<byte>, t: seq<byte>, from: nat, mid: nat, to: int)
    requires from <= mid && to <= |s| && to <= |t| && mid <= to
    ensures AgreeIn(s, t, from, to) <==> AgreeIn(s, t, from, mid) && AgreeIn(s, t, mid, to)
  {
  }

  /** Octets a comparison of `len` octets may read: whole words. */
  predicate Readable(s: seq<byte>, len: int) {
    (len + 3) / 4 * 4 <= |s|
  }

  /** What the word at `p`, or its first octets, decides when everything in front of it agrees. */
  lemma TailAgrees(s: seq<byte>, t: seq<byte>, p: nat, left: nat, len: nat, le: bool)
    requires 0 < left && p + left == len && p + 4 <= |s| && p + 4 <= |t| && len <= |s| && len <= |t|
    requires AgreeIn(s, t, 0, p)
    ensures var n := if left > 3 then 4 else left;
            var equal := MaskedEqual(Word(s, p, le), Word(t, p, le), n, le);
            if left > 3 then !equal ==> !AgreeIn(s, t, 0, len) else equal <==> AgreeIn(s, t, 0, len)
  {
    hide Agree, Word, MaskedEqual;
    var n := if left > 3 then 4 else left;
    WordsAgree(s, t, p, n, le);
    AgreeSplit(s, t, p, p + n, len);
    AgreeSplit(s, t, 0, p, len);
  }

  /** 0 exactly when all `len` octet pairs agree, whatever follows them in memory. */
  method StrnicmpAlnum(str1: seq<byte>, str2: seq<byte>, len: int, littleEndian: bool) returns (r: int)
    requires Readable(str1, len) && Readable(str2, len)
    ensures r == if AgreeIn(str1, str2, 0, len) then 0 else -1
  {
    hide Agree, Word, MaskedEqual;
    if len == 0 { return 0; }
    var p, left := 0, len;
    while left > 3 && MaskedEqual(Word(str1, p, littleEndian), Word(str2, p, littleEndian), 4, littleEndian)
      invariant 0 <= p && p + left == len && p % 4 == 0 && (p > 0 ==> left >= 0)
      invariant AgreeIn(str1, str2, 0, p)
      decreases left
    {
      WordsAgree(str1, str2, p, 4, littleEndian);
      AgreeSplit(str1, str2, 0, p, p + 4);
      p, left := p + 4, left - 4;
    }
    if left > 0 { TailAgrees(str1, str2, p, left, len, littleEndian); }
    if left > 3 { return -1; }
    if left == 3 || left == 2 || left == 1 {
      return if MaskedEqual(Word(str1, p, littleEndian), Word(str2, p, littleEndian), left, littleEndian) then 0 else -1;
    }
    r := 0;
  }

  /** A `pj_str_t`: a pointer to readable octets and a length. */
  datatype Str = Str(ptr: seq<byte>, slen: nat) {
    predicate Valid() { Readable(ptr, slen) && slen <= |ptr| }
  }

  method StricmpAlnum(str1: Str, str2: Str, littleEndian: bool) returns (r: int)
    requires str1.Valid() && str2.Valid()
    ensures r == if str1.slen != str2.slen then (if str1.slen < str2.slen then -1 else 1)
                 else if AgreeIn(str1.ptr, str2.ptr, 0, str1.slen) then 0 else -1
  {
    if str1.slen != str2.slen { return if str1.slen < str2.slen then -1 else 1; }
    r := StrnicmpAlnum(str1.ptr, str2.ptr, str1.slen, littleEndian);
  }

  // ---------------------------------------------------------------------------------------------
  // Caseless equality
  // ---------------------------------------------------------------------------------------------

  predicate Alnum(x: byte) {
    0x30 <= x <= 0x39 || 0x41 <= x <= 0x5A || 0x61 <= x <= 0x7A
  }

  function Lower(x: byte): byte {
    if 0x41 <= x <= 0x5A then x + 0x20 else x
  }

  /** Bits 0 to 4, and bit 6. */
  function LowBits(x: byte): int { x % 32 }
  function CaseFreeBit(x: byte): int { x / 64 % 2 }

  lemma MaskMeaning(x: byte)
    ensures And(x, 0x5F) == LowBits(x) + CaseFreeBit(x) * 64
  {
    hide And;
    MaskSplit(x, x % 32, x / 32);
    AndTwo(x / 32);
    assert x / 32 / 2 == x / 64;
  }

  lemma MaskSplit(x: byte, low: nat, high: nat)
    requires x == low + high * 32 && low < 32
    ensures And(x, 0x5F) == low + And(high, 2) * 32
  {
    hide And;
    Pow2Values();
    AndSplit(low, high, 31, 2, 5);
    AndLowMask(low, 5);
  }

  /** Bit 1 of the upper bits is bit 6 of the octet. */
  lemma AndTwo(y: nat)
    ensures And(y, 2) == y / 2 % 2 * 2
  {
    hide And;
    AndUnfold(y, 2);
    AndUnfold(y / 2, 1);
    AndUnfold(y / 4, 0);
  }

  /** The mask forgets exactly bits 5 and 7; on letters and digits that decides caseless equality. */
  lemma AgreeMeaning(x: byte, y: byte)
    ensures Agree(x, y) <==> x % 32 == y % 32 && x / 64 % 2 == y / 64 % 2
    ensures Alnum(x) && Alnum(y) ==> (Agree(x, y) <==> Lower(x) == Lower(y))
  {
    hide And, Alnum, Lower;
    MaskMeaning(x);
    MaskMeaning(y);
    if Alnum(x) && Alnum(y) {
      LowerCode(x);
      LowerCode(y);
    }
  }

  /** A lower-case letter or digit is those bits with bit 5 set. */
  lemma LowerCode(x: byte)
    requires Alnum(x)
    ensures Lower(x) == 32 + LowBits(x) + CaseFreeBit(x) * 64
  {
  }

  function LowerAll(s: seq<byte>): seq<byte> {
    if s == [] then [] else [Lower(s[0])] + LowerAll(s[1..])
  }

  /** Equality of the lower-case spellings, octet by octet. */
  lemma {:induction false} LowerAllEqual(s: seq<byte>, t: seq<byte>)
    requires |s| == |t|
    ensures LowerAll(s) == LowerAll(t) <==> forall k :: 0 <= k < |s| ==> Lower(s[k]) == Lower(t[k])
  {
    if s != [] {
      LowerAllEqual(s[1..], t[1..]);
      var a, b := LowerAll(s), LowerAll(t);
      assert a[0] == Lower(s[0]) && a[1..] == LowerAll(s[1..]);
      assert b[0] == Lower(t[0]) && b[1..] == LowerAll(t[1..]);
      if forall k :: 0 <= k < |s| ==> Lower(s[k]) == Lower(t[k]) {
        assert forall k :: 0 <= k < |s[1..]| ==> s[1..][k] == s[k + 1] && t[1..][k] == t[k + 1];
      }
      if LowerAll(s[1..]) == LowerAll(t[1..]) && Lower(s[0]) == Lower(t[0]) {
        assert forall k :: 1 <= k < |s| ==> s[k] == s[1..][k - 1] && t[k] == t[1..][k - 1];
      }
    }
  }

  /** Alphanumeric strings compare equal exactly when their lower-case spellings are the same. */
  lemma AlnumExact(s: seq<byte>, t: seq<byte>, len: nat)
    requires len <= |s| && len <= |t|
    requires forall k :: 0 <= k < len ==> Alnum(s[k]) && Alnum(t[k])
    ensures AgreeIn(s, t, 0, len) <==> LowerAll(s[..len]) == LowerAll(t[..len])
  {
    hide Agree, Lower, Alnum;
    LowerAllEqual(s[..len], t[..len]);
    forall k | 0 <= k < len
      ensures Agree(s[k], t[k]) <==> Lower(s[..len][k]) == Lower(t[..len][k])
    {
      AgreeMeaning(s[k], t[k]);
    }
  }
}
