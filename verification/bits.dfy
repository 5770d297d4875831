/** Bit strings read and written most-significant bit first, and the
    conversions between them and the bytes and 11-bit word indices that a
    BIP-39 mnemonic is built from. C's `>>` on unsigned values is division
    by a power of two and `& 0xff` is reduction modulo 256 throughout. */
module Bits {

  /** An unsigned 8-bit value (C `uint8_t`). */
  type byte = b: nat | b < 256

  /** A wordlist index: an unsigned 11-bit value. */
  type index11 = i: nat | i < 2048

  function Pow2(k: nat): (r: nat)
    ensures r >= 1
  {
    if k == 0 then 1 else 2 * Pow2(k - 1)
  }

  lemma Pow2Constants()
    ensures Pow2(8) == 256 && Pow2(11) == 2048
  {
  }

  /** The number a bit string denotes, most significant bit first. */
  function Value(bs: seq<bool>): (v: nat)
    ensures v < Pow2(|bs|)
  {
    if |bs| == 0 then 0
    else 2 * Value(bs[..|bs| - 1]) + (if bs[|bs| - 1] then 1 else 0)
  }

  /** The low `width` bits of `n`, most significant first. */
  function ToBits(n: nat, width: nat): (bs: seq<bool>)
    ensures |bs| == width
  {
    if width == 0 then [] else ToBits(n / 2, width - 1) + [n % 2 == 1]
  }

  function Zeros(k: nat): (bs: seq<bool>)
    ensures |bs| == k
    ensures forall i :: 0 <= i < k ==> !bs[i]
  {
    seq(k, _ => false)
  }

  /** Writing a number that fits and reading it back gives the number. */
  lemma {:induction false} ValueToBits(n: nat, width: nat)
    requires n < Pow2(width)
    ensures Value(ToBits(n, width)) == n
    decreases width
  {
    if width > 0 {
      var bs := ToBits(n, width);
      var h := n / 2;
      var init := ToBits(h, width - 1);
      assert bs[..width - 1] == init;
      assert bs[width - 1] == (n % 2 == 1);
      ValueToBits(h, width - 1);
      assert Value(bs) == 2 * h + n % 2;
    }
  }

  /** Reading a bit string and writing it back at the same width gives the
      bit string. */
  lemma {:induction false} ToBitsValue(bs: seq<bool>)
    ensures ToBits(Value(bs), |bs|) == bs
    decreases |bs|
  {
    if |bs| > 0 {
      var init := bs[..|bs| - 1];
      var v := Value(bs);
      assert v / 2 == Value(init);
      assert (v % 2 == 1) == bs[|bs| - 1];
      ToBitsValue(init);
      assert bs == init + [bs[|bs| - 1]];
    }
  }

  lemma {:induction false} ToBitsZero(width: nat)
    ensures ToBits(0, width) == Zeros(width)
    decreases width
  {
    if width > 0 {
      ToBitsZero(width - 1);
      assert Zeros(width) == Zeros(width - 1) + [false];
    }
  }

  lemma ValueZeros(k: nat)
    ensures Value(Zeros(k)) == 0
  {
    ToBitsZero(k);
    ValueToBits(0, k);
  }

  /** The value of a concatenation: the high part shifted over the low part. */
  lemma {:induction false} ValueAppend(a: seq<bool>, b: seq<bool>)
    ensures Value(a + b) == Value(a) * Pow2(|b|) + Value(b)
    decreases |b|
  {
    if |b| == 0 {
      assert a + b == a;
    } else {
      var b' := b[..|b| - 1];
      var last := if b[|b| - 1] then 1 else 0;
      assert (a + b)[..|a + b| - 1] == a + b';
      assert (a + b)[|a + b| - 1] == b[|b| - 1];
      ValueAppend(a, b');
      ShiftStep(Value(a), Value(b'), Pow2(|b'|), last);
    }
  }

  lemma ShiftStep(hi: int, lo: int, p: int, bit: int)
    ensures 2 * (hi * p + lo) + bit == hi * (2 * p) + (2 * lo + bit)
  {
  }

  lemma MulMonotone(w: nat, i: nat, j: nat)
    requires i <= j
    ensures w * i <= w * j
  {
    assert w * j - w * i == w * (j - i);
  }

  lemma MulAtLeast(k: int, d: int)
    requires d > 0 && k >= 1
    ensures k * d >= d
  {
  }

  lemma DivModOf(n: nat, q: nat, r: nat, d: nat)
    requires n == q * d + r && r < d
    ensures n / d == q
    ensures n % d == r
  {
    var q', r' := n / d, n % d;
    assert n == q' * d + r';
    var k := q' - q;
    assert k * d == r - r' by {
      assert q' * d - q * d == (q' - q) * d;
    }
    if k >= 1 {
      MulAtLeast(k, d);
    } else if k <= -1 {
      MulAtLeast(-k, d);
    }
  }

  /** Splitting a bit string: dropping the low part is division by 2^|lo|
      and keeping it is the remainder modulo 2^|lo|. */
  lemma ValueSplit(hi: seq<bool>, lo: seq<bool>)
    ensures Value(hi + lo) / Pow2(|lo|) == Value(hi)
    ensures Value(hi + lo) % Pow2(|lo|) == Value(lo)
  {
    ValueAppend(hi, lo);
    DivModOf(Value(hi + lo), Value(hi), Value(lo), Pow2(|lo|));
  }

  /** Dropping all but the leading `m` bits is division by 2^(|t|-m). */
  lemma TopBits(t: seq<bool>, m: nat)
    requires m <= |t|
    ensures Value(t) / Pow2(|t| - m) == Value(t[..m])
  {
    assert t == t[..m] + t[m..];
    ValueSplit(t[..m], t[m..]);
  }

  /** Shifting right by `s` and keeping `w` bits reads the `w`-bit field at
      `o`, which ends `s` bits before the end. */
  lemma ValueWindow(bs: seq<bool>, s: nat, w: nat, o: nat)
    requires o + w + s == |bs|
    ensures (Value(bs) / Pow2(s)) % Pow2(w) == Value(bs[o..o + w])
  {
    var a, field, c := bs[..o], bs[o..o + w], bs[o + w..];
    var hi := a + field;
    assert |c| == s && |field| == w;
    assert Value(bs) / Pow2(s) == Value(hi) by {
      assert bs == hi + c;
      ValueSplit(hi, c);
    }
    assert Value(hi) % Pow2(w) == Value(field) by {
      ValueSplit(a, field);
    }
    ModOfEqual(Value(bs) / Pow2(s), Value(hi), Pow2(w));
  }

  lemma SubWindow(window: seq<bool>, all: seq<bool>, at: nat, o: nat, w: nat)
    requires at + |window| <= |all| && window == all[at..at + |window|]
    requires o + w <= |window|
    ensures window[o..o + w] == all[at + o..at + o + w]
  {
    var lhs, rhs := window[o..o + w], all[at + o..at + o + w];
    assert forall k :: 0 <= k < w ==> lhs[k] == rhs[k];
  }

  /** Reading a `width`-bit window of `bits` at `at` as a number, shifting it
      right by `s` and keeping `w` bits yields the `w` bits at `off`, the
      position `s + w` bits before the window's end. */
  lemma ReadWindow(bits: seq<bool>, at: nat, width: nat, s: nat, w: nat, off: nat)
    requires at + width <= |bits| && s + w <= width && off == at + width - s - w
    ensures (Value(bits[at..at + width]) / Pow2(s)) % Pow2(w) == Value(bits[off..off + w])
  {
    var o := width - s - w;
    var window := bits[at..at + width];
    assert window[o..o + w] == bits[off..off + w] by {
      SubWindow(window, bits, at, o, w);
    }
    assert (Value(window) / Pow2(s)) % Pow2(w) == Value(window[o..o + w]) by {
      ValueWindow(window, s, w, o);
    }
  }

  lemma ShiftOfValue(a: nat, window: seq<bool>, field: seq<bool>, s: nat, w: nat)
    requires a == Value(window) && (Value(window) / Pow2(s)) % Pow2(w) == Value(field)
    ensures (a / Pow2(s)) % Pow2(w) == Value(field)
  {
  }

  lemma ModOfEqual(a: nat, b: nat, m: nat)
    requires a == b && m > 0
    ensures a % m == b % m
  {
  }

  /** The concatenation of the `w`-bit encodings of the elements of `s`. */
  function Pack(s: seq<nat>, w: nat): (bs: seq<bool>)
    ensures |bs| == w * |s|
  {
    if |s| == 0 then []
    else Pack(s[..|s| - 1], w) + ToBits(s[|s| - 1], w)
  }

  lemma {:induction false} PackAppend(a: seq<nat>, b: seq<nat>, w: nat)
    ensures Pack(a + b, w) == Pack(a, w) + Pack(b, w)
    decreases |b|
  {
    if |b| == 0 {
      assert a + b == a;
    } else {
      var b' := b[..|b| - 1];
      assert (a + b)[..|a + b| - 1] == a + b';
      PackAppend(a, b', w);
    }
  }

  /** Element `i` occupies bits [w*i, w*i + w) of the packing. */
  lemma PackElement(s: seq<nat>, i: nat, w: nat)
    requires i < |s|
    ensures w * i + w <= |Pack(s, w)|
    ensures Pack(s, w)[w * i..w * i + w] == ToBits(s[i], w)
  {
    assert s == s[..i] + [s[i]] + s[i + 1..];
    PackAppend(s[..i] + [s[i]], s[i + 1..], w);
    PackAppend(s[..i], [s[i]], w);
    assert Pack([s[i]], w) == ToBits(s[i], w) by {
      assert [s[i]][..0] == [];
    }
    assert w * (i + 1) == w * i + w;
  }

  /** A contiguous run of elements occupies the matching run of bits. */
  lemma PackSlice(s: seq<nat>, i: nat, j: nat, w: nat, lo: nat, hi: nat)
    requires i <= j <= |s| && lo == w * i && hi == w * j
    ensures lo <= hi <= |Pack(s, w)|
    ensures Pack(s, w)[lo..hi] == Pack(s[i..j], w)
  {
    MulMonotone(w, i, j);
    MulMonotone(w, j, |s|);
    assert s == s[..i] + s[i..j] + s[j..];
    PackAppend(s[..i] + s[i..j], s[j..], w);
    PackAppend(s[..i], s[i..j], w);
    assert w * j == w * i + w * (j - i);
  }

  /** Bit strings of one length denoting one number are equal. */
  lemma ValueInjective(a: seq<bool>, b: seq<bool>)
    requires |a| == |b| && Value(a) == Value(b)
    ensures a == b
  {
    ToBitsValue(a);
    ToBitsValue(b);
  }

  /** Bit strings of one length are equal exactly when they denote one
      number. */
  lemma ValueEqual(a: seq<bool>, b: seq<bool>)
    requires |a| == |b|
    ensures Value(a) == Value(b) <==> a == b
  {
    if Value(a) == Value(b) {
      ValueInjective(a, b);
    }
  }

  /** Every element of `s` fits in `w` bits. */
  predicate Fits(s: seq<nat>, w: nat)
  {
    forall k :: 0 <= k < |s| ==> s[k] < Pow2(w)
  }

  /** Packing at a width the elements fit in loses nothing: equal
      packings come from equal sequences. */
  lemma {:induction false} PackInjective(a: seq<nat>, b: seq<nat>, w: nat)
    requires |a| == |b| && Fits(a, w) && Fits(b, w) && Pack(a, w) == Pack(b, w)
    ensures a == b
    decreases |a|
  {
    if |a| > 0 {
      var n := |a|;
      var a', b' := a[..n - 1], b[..n - 1];
      var x, y := a[n - 1], b[n - 1];
      AppendCancel(Pack(a', w), ToBits(x, w), Pack(b', w), ToBits(y, w));
      ValueToBits(x, w);
      ValueToBits(y, w);
      FitsPrefix(a, w, n - 1);
      FitsPrefix(b, w, n - 1);
      PackInjective(a', b', w);
      SnocEqual(a, b);
    }
  }

  lemma FitsPrefix(s: seq<nat>, w: nat, n: nat)
    requires Fits(s, w) && n <= |s|
    ensures Fits(s[..n], w)
  {
    assert forall k :: 0 <= k < n ==> s[..n][k] == s[k];
  }

  lemma SnocEqual<T>(a: seq<T>, b: seq<T>)
    requires |a| == |b| > 0 && a[..|a| - 1] == b[..|b| - 1] && a[|a| - 1] == b[|b| - 1]
    ensures a == b
  {
    assert a == a[..|a| - 1] + [a[|a| - 1]];
    assert b == b[..|b| - 1] + [b[|b| - 1]];
  }

  lemma AppendCancel<T>(x: seq<T>, y: seq<T>, x': seq<T>, y': seq<T>)
    requires x + y == x' + y' && |x| == |x'|
    ensures x == x' && y == y'
  {
    assert x == (x + y)[..|x|] && x' == (x' + y')[..|x|];
    assert y == (x + y)[|x|..] && y' == (x' + y')[|x|..];
  }

  /** Octet i of `bs` is the 8-bit encoding of `s[i]`, for every i. */
  predicate Octets(s: seq<nat>, bs: seq<bool>)
  {
    |bs| == 8 * |s| && forall i :: 0 <= i < |s| ==> bs[8 * i..8 * i + 8] == ToBits(s[i], 8)
  }

  /** Such a bit string is the 8-bit packing of `s`. */
  lemma {:induction false} PackOfOctets(s: seq<nat>, bs: seq<bool>)
    requires Octets(s, bs)
    ensures Pack(s, 8) == bs
    decreases |s|
  {
    if |s| > 0 {
      var n := |s|;
      var lo := 8 * (n - 1);
      OctetsInit(s, bs, lo);
      PackOfOctets(s[..n - 1], bs[..lo]);
      assert bs[lo..lo + 8] == ToBits(s[n - 1], 8);
      PrefixRest(bs, lo, lo + 8);
    }
  }

  lemma OctetsInit(s: seq<nat>, bs: seq<bool>, lo: nat)
    requires Octets(s, bs) && |s| > 0 && lo == 8 * (|s| - 1)
    ensures Octets(s[..|s| - 1], bs[..lo])
  {
    var s', bs' := s[..|s| - 1], bs[..lo];
    forall i | 0 <= i < |s'|
      ensures bs'[8 * i..8 * i + 8] == ToBits(s'[i], 8)
    {
      assert s'[i] == s[i];
      PrefixSlice(bs, lo, 8 * i, 8 * i + 8);
    }
  }

  lemma PrefixSlice<T>(s: seq<T>, n: nat, lo: nat, hi: nat)
    requires lo <= hi <= n <= |s|
    ensures s[..n][lo..hi] == s[lo..hi]
  {
  }

  lemma PrefixRest<T>(s: seq<T>, lo: nat, hi: nat)
    requires lo <= hi == |s|
    ensures s[..lo] + s[lo..hi] == s
  {
  }

  /** Big-endian value of a byte string (C `be32` on four bytes). */
  function BigEndian(s: seq<byte>): (v: nat)
    ensures v == Value(Pack(s, 8))
  {
    if |s| == 0 then 0
    else
      var init := s[..|s| - 1];
      var r := BigEndian(init) * 256 + s[|s| - 1];
      assert r == Value(Pack(s, 8)) by {
        var sn: seq<nat> := s;
        assert sn[..|s| - 1] == init;
        Pow2Constants();
        ValueAppend(Pack(init, 8), ToBits(s[|s| - 1], 8));
        ValueToBits(s[|s| - 1], 8);
      }
      r
  }
}
