/**
 Fixed-width unsigned integers and their big-endian byte encoding, as Rust's
 `to_be_bytes` / `from_be_bytes` produce and read them, together with the
 byte-lexicographic order in which the ordered store keeps its keys.
 */
module BigEndian {

  type u8 = x: int | 0 <= x < 0x100
  type u32 = x: int | 0 <= x < 0x1_0000_0000
  type u128 = x: int | 0 <= x < 0x1_0000_0000_0000_0000_0000_0000_0000_0000

  /** 256 to the power w: the number of values that fit in w bytes. */
  function Pow256(w: nat): (p: nat)
    ensures p >= 1
  {
    if w == 0 then 1 else 256 * Pow256(w - 1)
  }

  lemma Pow256Widths()
    ensures Pow256(4) == 0x1_0000_0000
    ensures Pow256(16) == 0x1_0000_0000_0000_0000_0000_0000_0000_0000
  {
  }

  /** The w-byte big-endian encoding of n: most significant byte first. */
  function ToBE(n: nat, w: nat): (s: seq<u8>)
    requires n < Pow256(w)
    ensures |s| == w
  {
    if w == 0 then [] else ToBE(n / 256, w - 1) + [n % 256]
  }

  /** The unsigned number whose big-endian encoding is s. */
  function FromBE(s: seq<u8>): (n: nat)
    ensures n < Pow256(|s|)
  {
    if s == [] then 0 else FromBE(s[..|s| - 1]) * 256 + s[|s| - 1]
  }

  /** Decoding an encoding gives the number back (`from_be_bytes(to_be_bytes(n)) == n`). */
  lemma {:induction false} FromToBE(n: nat, w: nat)
    requires n < Pow256(w)
    ensures FromBE(ToBE(n, w)) == n
  {
    if w > 0 {
      var s := ToBE(n, w);
      assert s[..|s| - 1] == ToBE(n / 256, w - 1);
      FromToBE(n / 256, w - 1);
    }
  }

  /** Encoding a decoded byte string gives the bytes back: the w-byte encoding is one-to-one. */
  lemma {:induction false} ToFromBE(s: seq<u8>)
    ensures ToBE(FromBE(s), |s|) == s
  {
    if s != [] {
      var init := s[..|s| - 1];
      ToFromBE(init);
      var n := FromBE(s);
      assert n / 256 == FromBE(init) && n % 256 == s[|s| - 1];
      assert s == init + [s[|s| - 1]];
    }
  }

  lemma FromBEInjective(a: seq<u8>, b: seq<u8>)
    requires |a| == |b| && FromBE(a) == FromBE(b)
    ensures a == b
  {
    ToFromBE(a);
    ToFromBE(b);
  }

  /**
   The order Rust's `Ord for [u8]` (and the store's key order) puts byte strings in:
   compare the first differing byte; a proper prefix comes first.
   */
  predicate LexLess(a: seq<u8>, b: seq<u8>): (r: bool)
    ensures r ==> a != b
    ensures a < b ==> r
  {
    if a == [] then b != []
    else if b == [] then false
    else a[0] < b[0] || (a[0] == b[0] && LexLess(a[1..], b[1..]))
  }

  /** For byte strings of one length, LexLess can be decided from the last byte backwards. */
  lemma {:induction false} LexLessFromBack(a: seq<u8>, b: seq<u8>)
    requires |a| == |b| > 0
    ensures LexLess(a, b) <==>
      LexLess(a[..|a| - 1], b[..|b| - 1]) || (a[..|a| - 1] == b[..|b| - 1] && a[|a| - 1] < b[|b| - 1])
  {
    if |a| > 1 {
      LexLessFromBack(a[1..], b[1..]);
      assert a[1..][..|a| - 2] == a[..|a| - 1][1..];
      assert b[1..][..|b| - 2] == b[..|b| - 1][1..];
      assert a[..|a| - 1] == b[..|b| - 1] <==> a[0] == b[0] && a[..|a| - 1][1..] == b[..|b| - 1][1..];
    }
  }

  /**
   Byte-lexicographic order of equal-width big-endian encodings is the numeric order of
   what they encode: this is why a big-endian, fixed-width key sorts chronologically.
   */
  lemma {:induction false} LexLessIsNumericOrder(a: seq<u8>, b: seq<u8>)
    requires |a| == |b|
    ensures LexLess(a, b) <==> FromBE(a) < FromBE(b)
  {
    if |a| > 0 {
      var a', b' := a[..|a| - 1], b[..|b| - 1];
      LexLessFromBack(a, b);
      LexLessIsNumericOrder(a', b');
      if FromBE(a') == FromBE(b') {
        FromBEInjective(a', b');
      }
    }
  }

  /** Encodings of w-byte numbers sort exactly as the numbers do. */
  lemma ToBEOrder(m: nat, n: nat, w: nat)
    requires m < Pow256(w) && n < Pow256(w)
    ensures LexLess(ToBE(m, w), ToBE(n, w)) <==> m < n
  {
    FromToBE(m, w);
    FromToBE(n, w);
    LexLessIsNumericOrder(ToBE(m, w), ToBE(n, w));
  }

  /** LexLess is a strict total order on byte strings of one length. */
  lemma LexLessTotal(a: seq<u8>, b: seq<u8>)
    requires |a| == |b|
    ensures !LexLess(a, a)
    ensures a != b ==> LexLess(a, b) || LexLess(b, a)
    ensures !(LexLess(a, b) && LexLess(b, a))
  {
    LexLessIsNumericOrder(a, a);
    LexLessIsNumericOrder(a, b);
    LexLessIsNumericOrder(b, a);
    if FromBE(a) == FromBE(b) {
      FromBEInjective(a, b);
    }
  }

  lemma LexLessTransitive(a: seq<u8>, b: seq<u8>, c: seq<u8>)
    requires |a| == |b| == |c|
    requires LexLess(a, b) && LexLess(b, c)
    ensures LexLess(a, c)
  {
    LexLessIsNumericOrder(a, b);
    LexLessIsNumericOrder(b, c);
    LexLessIsNumericOrder(a, c);
  }
}
