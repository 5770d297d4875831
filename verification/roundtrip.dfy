/** The round trip of the codec: the phrase `BRBIP39Encode` builds from
    entropy `e` decodes, with the intended exact lookup, back to `e`. The
    proof goes through the three layers of the format: the words of the
    phrase, the 11-bit indices they stand for, and the bits those indices
    pack into. */
module RoundTrip {
  import opened Bits
  import opened Results
  import opened Text
  import opened Crypto
  import opened Encoder
  import opened Decoder

  // ---- Words ----

  /** A word without spaces, followed by nothing or by a space, is the
      first token. */
  lemma {:induction false} FirstSpaceAfter(w: string, tail: string)
    requires ' ' !in w && (|tail| == 0 || tail[0] == ' ')
    ensures FirstSpace(w + tail) == |w|
    decreases |w|
  {
    if |w| == 0 {
      assert w + tail == tail;
    } else {
      assert (w + tail)[0] == w[0];
      assert (w + tail)[1..] == w[1..] + tail;
      FirstSpaceAfter(w[1..], tail);
    }
  }

  /** What may follow the last word of a phrase the decoder accepts:
      nothing, or one space (line 73 stops at an empty remainder). */
  predicate Trailing(tail: string)
  {
    tail == "" || tail == " "
  }

  /** The word pointer after the last word: NULL, or the empty text after
      the trailing space. */
  function Stop(tail: string): (r: Option<string>)
    ensures !More(r)
  {
    if tail == "" then None else Some("")
  }

  /** The tokeniser splits a joined phrase back into its first word and
      the join of the others. */
  lemma SplitJoin(ws: seq<CStr>, tail: string)
    requires |ws| >= 1 && ' ' !in ws[0] && Trailing(tail)
    ensures Token(Join(ws) + tail) == ws[0]
    ensures AfterSpace(Join(ws) + tail) == if |ws| == 1 then Stop(tail) else Some(Join(ws[1..]) + tail)
  {
    if |ws| == 1 {
      SplitOne(ws[0], tail);
    } else {
      SplitMany(ws, tail);
    }
  }

  lemma SplitOne(w: CStr, tail: string)
    requires ' ' !in w && Trailing(tail)
    ensures Token(Join([w]) + tail) == w
    ensures AfterSpace(Join([w]) + tail) == Stop(tail)
  {
    if tail == "" {
      assert Join([w]) + tail == w;
      SplitLast(w);
    } else {
      assert Join([w]) + tail == w + " " + "";
      SplitWord(w, "");
    }
  }

  lemma SplitMany(ws: seq<CStr>, tail: string)
    requires |ws| >= 2 && ' ' !in ws[0]
    ensures Token(Join(ws) + tail) == ws[0]
    ensures AfterSpace(Join(ws) + tail) == Some(Join(ws[1..]) + tail)
  {
    JoinCons(ws);
    var rest := Join(ws[1..]) + tail;
    Regroup(ws[0], Join(ws[1..]), tail);
    SplitWord(ws[0], rest);
  }

  lemma Regroup(w: string, j: string, tail: string)
    ensures w + " " + j + tail == w + " " + (j + tail)
  {
  }

  lemma SplitLast(w: CStr)
    requires ' ' !in w
    ensures Token(w) == w && AfterSpace(w) == None
  {
    assert w + "" == w;
    FirstSpaceAfter(w, "");
  }

  lemma SplitWord(w: CStr, rest: string)
    requires ' ' !in w
    ensures Token(w + " " + rest) == w && AfterSpace(w + " " + rest) == Some(rest)
  {
    var s := w + " " + rest;
    assert s == w + (" " + rest);
    FirstSpaceAfter(w, " " + rest);
    assert s[..|w|] == w;
    assert s[|w| + 1..] == rest;
  }

  /** In a well-formed wordlist the exact lookup finds the one entry equal
      to the current token. */
  lemma LookupWord(wl: Wordlist, i: index11, text: string)
    requires WellFormed(wl) && Token(text) == wl[i]
    ensures Lookup(ExactToken, wl, text, 0) == Some(i)
  {
  }

  /** The texts a tokeniser visits reading `idx`: each `texts[k]` is a
      non-empty word pointer whose token selects `idx[k]` and whose text
      after the first space is `texts[k + 1]`; the last one is NULL or
      empty. */
  ghost predicate Chain(m: Matching, wl: Wordlist, texts: seq<Option<string>>, idx: seq<index11>)
  {
    && |texts| == |idx| + 1
    && !More(texts[|idx|])
    && forall k :: 0 <= k < |idx| ==>
         && More(texts[k])
         && Lookup(m, wl, texts[k].value, 0) == Some(idx[k])
         && AfterSpace(texts[k].value) == texts[k + 1]
  }

  /** Along such a chain the tokeniser, after `acc` was recorded, records
      exactly `idx` and stops at the last pointer. */
  lemma {:induction false} ScanChain(m: Matching, wl: Wordlist, texts: seq<Option<string>>, idx: seq<index11>, acc: seq<index11>)
    requires Chain(m, wl, texts, idx) && |acc| + |idx| <= 24
    ensures ScanFrom(m, wl, texts[0], acc) == Scan(acc + idx, texts[|idx|])
    decreases |idx|
  {
    if |idx| == 0 {
      assert acc + idx == acc;
    } else {
      var i := idx[0];
      ScanStep(m, wl, texts[0].value, acc, i);
      ChainTail(m, wl, texts, idx);
      ScanChain(m, wl, texts[1..], idx[1..], acc + [i]);
      AppendHead(acc, idx);
    }
  }

  lemma AppendHead<T>(acc: seq<T>, s: seq<T>)
    requires |s| >= 1
    ensures (acc + [s[0]]) + s[1..] == acc + s
  {
    assert s == [s[0]] + s[1..];
  }

  lemma ChainTail(m: Matching, wl: Wordlist, texts: seq<Option<string>>, idx: seq<index11>)
    requires Chain(m, wl, texts, idx) && |idx| >= 1
    ensures Chain(m, wl, texts[1..], idx[1..])
  {
    forall k | 0 <= k < |idx| - 1
      ensures texts[1..][k] == texts[k + 1]
    {
    }
  }

  /** One step of the tokeniser: a word that selects entry `i` is
      recorded and the scan goes on after the next space. */
  lemma ScanStep(m: Matching, wl: Wordlist, text: string, acc: seq<index11>, i: index11)
    requires |acc| < 24 && |text| > 0 && Lookup(m, wl, text, 0) == Some(i)
    ensures ScanFrom(m, wl, Some(text), acc) == ScanFrom(m, wl, AfterSpace(text), acc + [i])
  {
  }

  /** The joins of the suffixes of `ws`, each followed by `tail`, then the
      pointer after the last word. */
  function Suffixes(ws: seq<CStr>, tail: string): (texts: seq<Option<string>>)
    ensures |texts| == |ws| + 1 && texts[|ws|] == Stop(tail)
    ensures forall k :: 0 <= k < |ws| ==> texts[k] == Some(Join(ws[k..]) + tail)
  {
    seq(|ws| + 1, k requires 0 <= k <= |ws| => if k < |ws| then Some(Join(ws[k..]) + tail) else Stop(tail))
  }

  /** The phrase Encode builds, with or without a trailing space, is such
      a chain for the exact lookup. */
  lemma WordsChain(wl: Wordlist, idx: seq<index11>, tail: string)
    requires WellFormed(wl) && Trailing(tail)
    ensures Chain(ExactToken, wl, Suffixes(Words(wl, idx), tail), idx)
  {
    var ws := Words(wl, idx);
    var texts := Suffixes(ws, tail);
    forall k | 0 <= k < |idx|
      ensures More(texts[k])
      ensures Lookup(ExactToken, wl, texts[k].value, 0) == Some(idx[k])
      ensures AfterSpace(texts[k].value) == texts[k + 1]
    {
      SuffixStep(wl, ws, idx, tail, k);
    }
  }

  lemma SuffixStep(wl: Wordlist, ws: seq<CStr>, idx: seq<index11>, tail: string, k: nat)
    requires WellFormed(wl) && ws == Words(wl, idx) && k < |idx| && Trailing(tail)
    ensures |Join(ws[k..]) + tail| > 0
    ensures Lookup(ExactToken, wl, Join(ws[k..]) + tail, 0) == Some(idx[k])
    ensures AfterSpace(Join(ws[k..]) + tail) == Suffixes(ws, tail)[k + 1]
  {
    var t := ws[k..];
    assert t[0] == wl[idx[k]];
    SplitJoin(t, tail);
    LookupWord(wl, idx[k], Join(t) + tail);
    if k + 1 < |ws| {
      assert t[1..] == ws[k + 1..];
    }
  }

  /** The exact tokeniser recovers the indices of a phrase built from them,
      and stops at the pointer after the last word. */
  lemma TokeniseWords(wl: Wordlist, idx: seq<index11>, tail: string)
    requires WellFormed(wl) && 1 <= |idx| <= 24 && Trailing(tail)
    ensures Tokenise(ExactToken, wl, Some(Join(Words(wl, idx)) + tail)) == Scan(idx, Stop(tail))
  {
    var ws := Words(wl, idx);
    WordsChain(wl, idx, tail);
    ScanChain(ExactToken, wl, Suffixes(ws, tail), idx, []);
    assert ws[0..] == ws;
    assert [] + idx == idx;
  }

  // ---- Bits ----

  /** The indices Encode selects are the 11-bit fields of the buffer, so
      packing them back gives the buffer's leading bits. */
  lemma {:induction false} IndicesPack(buf: seq<byte>, c: nat)
    requires 11 * c <= 8 * |buf|
    ensures Pack(Indices(buf, c), 11) == Pack(buf, 8)[..11 * c]
    decreases c
  {
    if c > 0 {
      var all := Pack(buf, 8);
      var idx := Indices(buf, c);
      var lo, hi := 11 * (c - 1), 11 * c;
      assert idx[..c - 1] == Indices(buf, c - 1);
      IndicesPack(buf, c - 1);
      FieldBits(buf, c - 1, lo, hi);
      PrefixExtend(all, lo, hi);
    }
  }

  /** Field i, written back as 11 bits, is the buffer's bits [lo, hi). */
  lemma FieldBits(buf: seq<byte>, i: nat, lo: nat, hi: nat)
    requires lo == 11 * i && hi == lo + 11 && hi <= 8 * |buf|
    ensures ToBits(ReadField(buf, i), 11) == Pack(buf, 8)[lo..hi]
  {
    ToBitsValue(Pack(buf, 8)[lo..hi]);
  }

  lemma PrefixExtend<T>(s: seq<T>, lo: nat, hi: nat)
    requires lo <= hi <= |s|
    ensures s[..lo] + s[lo..hi] == s[..hi]
  {
  }

  lemma SliceOfPrefix<T>(a: seq<T>, b: seq<T>, lo: nat, hi: nat)
    requires lo <= hi <= |a|
    ensures (a + b)[lo..hi] == a[lo..hi]
  {
  }

  /** The indices followed by the zero word the decoder pads with: the
      buffer's leading `11c` bits, then eleven zero bits. */
  lemma PaddedIndices(buf: seq<byte>, c: nat, n: nat)
    requires n == 11 * c && n <= 8 * |buf|
    ensures Pack(Indices(buf, c) + [0], 11) == Pack(buf, 8)[..n] + Zeros(11)
  {
    var idx: seq<nat> := Indices(buf, c);
    PackAppend(idx, [0], 11);
    IndicesPack(buf, c);
    assert Pack([0], 11) == Zeros(11) by {
      assert [0][..0] == [];
      ToBitsZero(11);
    }
  }

  /** Byte i of the repacked indices is byte i of the buffer, for every
      byte the indices cover completely. */
  lemma RepackCovered(buf: seq<byte>, c: nat, i: nat)
    requires 11 * c <= 8 * |buf| && 8 * i + 8 <= 11 * c
    ensures i < |Repack(Indices(buf, c))|
    ensures Repack(Indices(buf, c))[i] == buf[i]
  {
    var idx := Indices(buf, c);
    var all := Pack(buf, 8);
    assert Pack(idx + [0], 11) == all[..11 * c] + Zeros(11) by {
      PaddedIndices(buf, c, 11 * c);
    }
    ByteBits(buf, i);
    CoveredByte(idx, all, i, 11 * c);
  }

  /** The same for any indices whose padded packing begins with `n` bits
      of `all`. */
  lemma CoveredByte(idx: seq<index11>, all: seq<bool>, i: nat, n: nat)
    requires n == 11 * |idx| && n <= |all| && 8 * i + 8 <= n
    requires Pack(idx + [0], 11) == all[..n] + Zeros(11)
    ensures i < |Repack(idx)|
    ensures Repack(idx)[i] == Value(all[8 * i..8 * i + 8])
  {
    CoveredIndex(|idx|, i, n);
    var padded := Pack(idx + [0], 11);
    assert RepackByte(idx, i) == Value(padded[8 * i..8 * i + 8]) by {
      RepackByteBits(idx, i);
    }
    PrefixWindow(padded, all, Zeros(11), n, 8 * i, 8 * i + 8);
  }

  lemma CoveredIndex(c: nat, i: nat, n: nat)
    requires n == 11 * c && 8 * i + 8 <= n
    ensures i * 8 / 11 < c && i < (c * 11 + 7) / 8
  {
  }

  lemma PrefixWindow(q: seq<bool>, all: seq<bool>, z: seq<bool>, n: nat, lo: nat, hi: nat)
    requires n <= |all| && q == all[..n] + z && lo <= hi <= n
    ensures q[lo..hi] == all[lo..hi]
  {
    SliceOfPrefix(all[..n], z, lo, hi);
  }

  /** The 8 bits of byte i read back as byte i. */
  lemma ByteBits(buf: seq<byte>, i: nat)
    requires i < |buf|
    ensures 8 * i + 8 <= |Pack(buf, 8)|
    ensures Value(Pack(buf, 8)[8 * i..8 * i + 8]) == buf[i]
  {
    PackElement(buf, i, 8);
    Pow2Constants();
    ValueToBits(buf[i], 8);
  }

  /** Dropping the low bits of a bit string leaves its leading `m` bits. */
  lemma ZeroPadded(t: seq<bool>, k: nat)
    ensures Value(t + Zeros(k)) / Pow2(k) == Value(t)
  {
    ValueSplit(t, Zeros(k));
  }

  /** The leading `m` bits of byte i, which start at bit `lo`. */
  lemma ByteField(buf: seq<byte>, i: nat, m: nat, lo: nat)
    requires i < |buf| && m <= 8 && lo == 8 * i
    ensures lo + m <= |Pack(buf, 8)|
    ensures Pack(buf, 8)[lo..lo + m] == ToBits(buf[i], 8)[..m]
  {
    var all := Pack(buf, 8);
    PackElement(buf, i, 8);
    SliceHead(all, lo, lo + 8, m);
  }

  lemma SliceHead<T>(s: seq<T>, lo: nat, hi: nat, m: nat)
    requires lo + m <= hi <= |s|
    ensures s[lo..hi][..m] == s[lo..lo + m]
  {
    var lhs, rhs := s[lo..hi][..m], s[lo..lo + m];
    assert forall k :: 0 <= k < m ==> lhs[k] == rhs[k];
  }

  /** The byte at bit `lo` of a bit string that ends `m` bits after `lo`
      and is then padded with eleven zero bits. */
  lemma CheckWindow(q: seq<bool>, all: seq<bool>, lo: nat, m: nat)
    requires m <= 8 && lo + m <= |all| && q == all[..lo + m] + Zeros(11)
    ensures lo + 8 <= |q|
    ensures q[lo..lo + 8] == all[lo..lo + m] + Zeros(8 - m)
  {
    var lhs, rhs := q[lo..lo + 8], all[lo..lo + m] + Zeros(8 - m);
    forall k | 0 <= k < 8
      ensures lhs[k] == rhs[k]
    {
      if k < m {
        assert lhs[k] == all[lo + k];
      } else {
        assert lhs[k] == Zeros(11)[lo + k - (lo + m)];
      }
    }
  }

  /** For `3m` words (1 <= m <= 8) the last repacked byte is byte 4m. */
  lemma LastIndex(m: nat, c: nat)
    requires 1 <= m <= 8 && c == 3 * m
    ensures (c * 11 + 7) / 8 - 1 == 4 * m
    ensures (4 * m) * 8 / 11 < c && c / 3 == m
    ensures 11 * c == 32 * m + m
  {
  }

  lemma LastByteIs(idx: seq<index11>, last: nat)
    requires |idx| > 0 && last == (|idx| * 11 + 7) / 8 - 1
    ensures last * 8 / 11 < |idx|
    ensures LastByte(idx) == RepackByte(idx, last)
  {
  }

  /** The checksum test of line 89 passes for the indices Encode selects:
      the last repacked byte carries the leading `m` bits of byte 4m of the
      buffer, the first digest byte, followed by zeros. */
  lemma LastByteChecksum(buf: seq<byte>, m: nat)
    requires 1 <= m <= 8 && 4 * m < |buf|
    ensures 11 * (3 * m) <= 8 * |buf|
    ensures CheckBits(LastByte(Indices(buf, 3 * m)), 3 * m) == CheckBits(buf[4 * m], 3 * m)
  {
    var c := 3 * m;
    var lo := 32 * m;
    LastIndex(m, c);
    var idx := Indices(buf, c);
    var all := Pack(buf, 8);
    assert Pack(idx + [0], 11) == all[..lo + m] + Zeros(11) by {
      PaddedIndices(buf, c, lo + m);
    }
    assert all[lo..lo + m] == ToBits(buf[4 * m], 8)[..m] by {
      ByteField(buf, 4 * m, m, lo);
    }
    ChecksumOfPadded(idx, all, buf[4 * m], m, c, lo);
  }

  /** The same for any indices whose padded packing ends, at bit 33m,
      with the leading `m` bits of the byte `b`. */
  lemma ChecksumOfPadded(idx: seq<index11>, all: seq<bool>, b: byte, m: nat, c: nat, lo: nat)
    requires 1 <= m <= 8 && c == 3 * m && |idx| == c && lo == 32 * m && lo + m <= |all|
    requires Pack(idx + [0], 11) == all[..lo + m] + Zeros(11)
    requires all[lo..lo + m] == ToBits(b, 8)[..m]
    ensures CheckBits(LastByte(idx), c) == CheckBits(b, c)
  {
    LastCheckBits(idx, all, m, c, lo);
    assert c / 3 == m;
  }

  /** The checksum bits the decoder takes from the last repacked byte are
      the `m` bits at bit 32m of the indices' packing. */
  lemma LastCheckBits(idx: seq<index11>, all: seq<bool>, m: nat, c: nat, lo: nat)
    requires 1 <= m <= 8 && c == 3 * m && |idx| == c && lo == 32 * m && lo + m <= |all|
    requires Pack(idx + [0], 11) == all[..lo + m] + Zeros(11)
    ensures CheckBits(LastByte(idx), c) == Value(all[lo..lo + m])
  {
    LastIndex(m, c);
    var padded := Pack(idx + [0], 11);
    var top := all[lo..lo + m];
    assert LastByte(idx) == Value(padded[lo..lo + 8]) by {
      LastByteIs(idx, 4 * m);
      RepackAt(idx, 4 * m, lo);
    }
    assert padded[lo..lo + 8] == top + Zeros(8 - m) by {
      CheckWindow(padded, all, lo, m);
    }
    CheckPadded(LastByte(idx), top, m, c);
  }

  /** The checksum bits of a byte made of `m` bits and zero padding are
      those `m` bits. */
  lemma CheckPadded(v: byte, top: seq<bool>, m: nat, c: nat)
    requires 1 <= m <= 8 && c == 3 * m && |top| == m && v == Value(top + Zeros(8 - m))
    ensures CheckBits(v, c) == Value(top)
  {
    assert c / 3 == m;
    ZeroPadded(top, 8 - m);
  }

  lemma RepackAt(idx: seq<index11>, i: nat, lo: nat)
    requires i * 8 / 11 < |idx| && lo == 8 * i
    ensures lo + 8 <= |Pack(idx + [0], 11)|
    ensures RepackByte(idx, i) == Value(Pack(idx + [0], 11)[lo..lo + 8])
  {
    RepackByteBits(idx, i);
  }

  // ---- The round trip ----

  /** The first 4m repacked bytes of the mnemonic's indices are the
      entropy. */
  lemma EntropyRepacked(e: seq<byte>, d: Digest, m: nat)
    requires |e| == 4 * m && 1 <= m <= 8
    ensures 11 * (3 * m) <= 8 * |e + d|
    ensures 4 * m <= |Repack(Indices(e + d, 3 * m))|
    ensures Repack(Indices(e + d, 3 * m))[..4 * m] == e
  {
    var buf := e + d;
    var c := 3 * m;
    var bytes := Repack(Indices(buf, c));
    assert |bytes| == (c * 11 + 7) / 8;
    forall i | 0 <= i < 4 * m
      ensures bytes[i] == e[i]
    {
      RepackCovered(buf, c, i);
    }
  }

  /** The entropy a mnemonic stands for: decoding the phrase Encode builds
      from `e`, with exact word lookup, gives back `e`, for every supported
      entropy length, every well-formed wordlist and every hash function,
      and so does the phrase followed by one space. */
  lemma RecoverPhrase(wl: Wordlist, e: seq<byte>, sha256: Sha256, tail: string)
    requires WellFormed(wl) && Supported(|e|) && Trailing(tail)
    ensures ReadsFit(|e|)
    ensures Recover(wl, Some(Mnemonic(wl, e, sha256) + tail), sha256) == Success(e)
  {
    ReadsFitExactly(|e|);
    var m := |e| / 4;
    var c := 3 * m;
    WordCount(|e|, m, c);
    var d := sha256(e);
    var idx := Indices(e + d, c);
    var text := Mnemonic(wl, e, sha256);
    TailFree(text, tail);
    var phrase: CStr := text + tail;
    TokeniseMnemonic(wl, e, sha256, tail, c);
    MnemonicIndices(e, d, m);
    RecoverScanned(wl, Some(phrase), sha256, idx, Stop(tail), e);
  }

  /** A C string followed by a trailing space is still a C string. */
  lemma TailFree(text: CStr, tail: string)
    requires Trailing(tail)
    ensures '\0' !in text + tail
  {
  }

  /** The exact tokeniser reads a mnemonic back into the indices Encode
      selected for it. */
  lemma TokeniseMnemonic(wl: Wordlist, e: seq<byte>, sha256: Sha256, tail: string, c: nat)
    requires WellFormed(wl) && Supported(|e|) && ReadsFit(|e|) && Trailing(tail) && c == |e| * 3 / 4
    ensures 11 * c <= 8 * |e + sha256(e)|
    ensures Tokenise(ExactToken, wl, Some(Mnemonic(wl, e, sha256) + tail)) == Scan(Indices(e + sha256(e), c), Stop(tail))
  {
    WindowsFitCoversFields(|e|, c);
    var idx := Indices(e + sha256(e), c);
    assert Mnemonic(wl, e, sha256) == Join(Words(wl, idx));
    TokeniseWords(wl, idx, tail);
  }

  /** The indices Encode selects for `e` repack into `e` and carry the
      checksum of the digest `d` of `e`. */
  lemma MnemonicIndices(e: seq<byte>, d: Digest, m: nat)
    requires |e| == 4 * m && 1 <= m <= 8
    ensures 11 * (3 * m) <= 8 * |e + d|
    ensures 4 * m <= |Repack(Indices(e + d, 3 * m))|
    ensures Repack(Indices(e + d, 3 * m))[..4 * m] == e
    ensures ChecksumMatches(Indices(e + d, 3 * m), d)
  {
    var buf := e + d;
    EntropyRepacked(e, d, m);
    LastByteChecksum(buf, m);
    assert buf[4 * m] == d[0];
  }

  lemma RecoverMnemonic(wl: Wordlist, e: seq<byte>, sha256: Sha256)
    requires WellFormed(wl) && Supported(|e|)
    ensures ReadsFit(|e|)
    ensures Recover(wl, Some(Mnemonic(wl, e, sha256)), sha256) == Success(e)
  {
    RecoverPhrase(wl, e, sha256, "");
    assert Mnemonic(wl, e, sha256) + "" == Mnemonic(wl, e, sha256);
  }

  /** A supported entropy length `n` is `4m` bytes, encoded in `c = 3m`
      words. */
  lemma WordCount(n: nat, m: nat, c: nat)
    requires Supported(n) && m == n / 4 && c == 3 * m
    ensures 1 <= m <= 8 && n == 4 * m && n * 3 / 4 == c
    ensures c * 4 / 3 == n && c % 3 == 0
  {
  }

  /** Recover succeeds with `e` once the exact scan has consumed the whole
      phrase into a multiple of three indices whose repacked entropy is `e`
      and whose checksum matches the digest of `e`. */
  lemma RecoverScanned(wl: Wordlist, phrase: Option<CStr>, sha256: Sha256, idx: seq<index11>, rest: Option<string>, e: seq<byte>)
    requires Tokenise(ExactToken, wl, phrase) == Scan(idx, rest) && !More(rest)
    requires 0 < |idx| && |idx| % 3 == 0
    requires |idx| * 4 / 3 <= |Repack(idx)| && Repack(idx)[..|idx| * 4 / 3] == e
    requires ChecksumMatches(idx, sha256(e))
    ensures Recover(wl, phrase, sha256) == Success(e)
  {
  }

  /** The intended decoder stores a mnemonic's entropy into a buffer large
      enough for it and reports its length. */
  lemma DecodeFixedMnemonic(data: Option<seq<byte>>, dataLen: nat, wl: Wordlist, e: seq<byte>, sha256: Sha256)
    requires WellFormed(wl) && Supported(|e|)
    requires data.Some? ==> |e| <= dataLen <= |data.value|
    ensures ReadsFit(|e|)
    ensures DecodeFixed(data, dataLen, wl, Some(Mnemonic(wl, e, sha256)), sha256)
      == Returned(|e|, if data.None? then None else Some(e + data.value[|e|..]))
  {
    RecoverMnemonic(wl, e, sha256);
  }

  /** The intended encoder writes a terminated phrase, and the C string in
      its buffer decodes back to the entropy. */
  lemma EncodeFixedRoundTrip(phrase: seq<char>, phraseLen: nat, wl: Wordlist, e: seq<byte>, sha256: Sha256)
    requires WellFormed(wl) && phraseLen <= |phrase|
    requires EncodeFixed(Some(phrase), phraseLen, wl, Some(e), sha256).r > 0
    ensures Supported(|e|)
    ensures CString(EncodeFixed(Some(phrase), phraseLen, wl, Some(e), sha256).buffer.value) == Some(Mnemonic(wl, e, sha256))
    ensures Recover(wl, CString(EncodeFixed(Some(phrase), phraseLen, wl, Some(e), sha256).buffer.value), sha256) == Success(e)
  {
    var out := EncodeFixed(Some(phrase), phraseLen, wl, Some(e), sha256);
    var text := Mnemonic(wl, e, sha256);
    assert out.buffer.value == text + "\0" + phrase[out.r..];
    CStringOf(text, phrase[out.r..]);
    RecoverMnemonic(wl, e, sha256);
  }
}
