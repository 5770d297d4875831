/** Inputs on which the C functions, as written, do not do what their
    comments and BIP-39 say, next to the intended behaviour. */
module Findings {
  import opened Bits
  import opened Results
  import opened Text
  import opened Crypto
  import opened Encoder
  import opened Decoder
  import opened RoundTrip
  import opened Validator

  /** Line 68 records the first entry that is NOT a prefix of the text, so
      whenever the first wordlist entry is not a prefix the word is read as
      index 0, while the exact lookup finds the entry the word is. */
  lemma PrefixLookupMisreads(wl: Wordlist, i: index11, text: string)
    requires WellFormed(wl) && i != 0 && Token(text) == wl[i] && !IsPrefix(wl[0], text)
    ensures Lookup(PrefixMismatch, wl, text, 0) == Some(0)
    ensures Lookup(ExactToken, wl, text, 0) == Some(i)
  {
    LookupWord(wl, i, text);
  }

  /** The validator hashes through the null buffer for any non-empty
      phrase that does not begin with the first wordlist entry. */
  lemma ValidationReadsNull(wl: Wordlist, phrase: CStr, sha256: Sha256)
    requires |phrase| > 0 && !IsPrefix(wl[0], phrase)
    ensures PhraseIsValid(wl, Some(phrase), sha256) == None
  {
    assert Lookup(PrefixMismatch, wl, phrase, 0) == Some(0);
    var sc := Tokenise(PrefixMismatch, wl, Some(phrase));
    assert |sc.indices| >= 1;
  }

  /** A word repeated three times ("zoo zoo zoo", say), scanned by the C
      tokeniser against a list that starts with "abandon": three words,
      each read as index 0, and the whole phrase consumed. */
  lemma ThreeWordScan(wl: Wordlist, w: CStr)
    requires wl[0] == "abandon" && |w| > 0 && w[0] != 'a' && ' ' !in w
    ensures var sc := Tokenise(PrefixMismatch, wl, Some(w + " " + w + " " + w));
      |sc.indices| == 3 && sc.rest == None && forall k :: 0 <= k < 3 ==> sc.indices[k] == 0
  {
    var t1 := w;
    var t2 := w + " " + w;
    var t3 := w + " " + t2;
    assert w + " " + w + " " + w == t3;
    assert AfterSpace(t3) == Some(t2) by {
      SplitWord(t1, t2);
    }
    assert AfterSpace(t2) == Some(t1) by {
      SplitWord(t1, t1);
    }
    assert AfterSpace(t1) == None by {
      SplitLast(t1);
    }
    var a0: seq<index11> := [];
    var a1 := a0 + [0];
    var a2 := a1 + [0];
    var a3 := a2 + [0];
    assert ScanFrom(PrefixMismatch, wl, Some(t3), a0) == ScanFrom(PrefixMismatch, wl, Some(t2), a1) by {
      ScanZero(wl, t3, a0);
    }
    assert ScanFrom(PrefixMismatch, wl, Some(t2), a1) == ScanFrom(PrefixMismatch, wl, Some(t1), a2) by {
      ScanZero(wl, t2, a1);
    }
    assert ScanFrom(PrefixMismatch, wl, Some(t1), a2) == Scan(a3, None) by {
      ScanZero(wl, t1, a2);
    }
    ThreeZeros(a0);
  }

  lemma ThreeZeros(a0: seq<index11>)
    requires a0 == []
    ensures |a0 + [0] + [0] + [0]| == 3
    ensures forall k :: 0 <= k < 3 ==> (a0 + [0] + [0] + [0])[k] == 0
  {
  }

  /** One step of the C tokeniser on a word that does not begin with
      'a': it is read as index 0. */
  lemma ScanZero(wl: Wordlist, t: string, acc: seq<index11>)
    requires wl[0] == "abandon" && |t| > 0 && t[0] != 'a' && |acc| < 24
    ensures ScanFrom(PrefixMismatch, wl, Some(t), acc) == ScanFrom(PrefixMismatch, wl, AfterSpace(t), acc + [0])
  {
    assert !IsPrefix(wl[0], t) by {
      if |wl[0]| <= |t| {
        assert t[..|wl[0]|][0] == t[0];
      }
    }
    assert Lookup(PrefixMismatch, wl, t, 0) == Some(0);
    ScanStep(PrefixMismatch, wl, t, acc, 0);
  }

  /** Indices that are all zero repack into zero bytes. */
  lemma RepackZeros(idx: seq<index11>)
    requires forall k :: 0 <= k < |idx| ==> idx[k] == 0
    ensures forall i :: 0 <= i < |Repack(idx)| ==> Repack(idx)[i] == 0
  {
    forall i | 0 <= i < |Repack(idx)|
      ensures Repack(idx)[i] == 0
    {
      ZeroByte(idx, i);
    }
  }

  lemma ZeroByte(idx: seq<index11>, i: nat)
    requires forall k :: 0 <= k < |idx| ==> idx[k] == 0
    requires i < (|idx| * 11 + 7) / 8
    ensures i * 8 / 11 < |idx| && RepackByte(idx, i) == 0
  {
    ByteInRange(|idx|, i);
    var k := i * 8 / 11;
    ZeroPair(idx, k);
    ZeroShift(Pair(idx, k), Pow2(RepackShift(i)));
  }

  lemma ZeroPair(idx: seq<index11>, k: nat)
    requires forall j :: 0 <= j < |idx| ==> idx[j] == 0
    requires k < |idx|
    ensures Pair(idx, k) == 0
  {
    assert idx[k] == 0;
  }

  lemma ZeroShift(p: nat, d: nat)
    requires p == 0 && d > 0
    ensures (p / d) % 256 == 0
  {
  }

  lemma FourZeros(s: seq<byte>)
    requires |s| == 4 && forall k :: 0 <= k < 4 ==> s[k] == 0
    ensures s == [0, 0, 0, 0]
  {
  }

  /** Three words carry a checksum of one bit: the top bit of the byte. */
  lemma TopBitOfThree(v: byte)
    ensures CheckBits(v, 3) == (if v >= 128 then 1 else 0)
  {
    assert Pow2(7) == 128;
  }

  /** Lines 85 and 89: the first r bytes are stored before the checksum is
      tested, so a phrase with a bad checksum still overwrites the caller's
      buffer, here with four zero bytes, although 0 is returned (`w` is
      "zoo", say). The real SHA-256 of four zero bytes begins with 0xdf, so
      it meets the requirement on `sha256`. */
  lemma WrittenDespiteBadChecksum(wl: Wordlist, w: CStr, sha256: Sha256, d: seq<byte>)
    requires wl[0] == "abandon" && |w| > 0 && w[0] != 'a' && ' ' !in w
    requires |d| == 4 && sha256([0, 0, 0, 0])[0] >= 128
    ensures Decoded(Some(d), 4, wl, Some(w + " " + w + " " + w), sha256) == Returned(0, Some([0, 0, 0, 0]))
  {
    ThreeWordScan(wl, w);
    FinishZeros(Tokenise(PrefixMismatch, wl, Some(w + " " + w + " " + w)), d, sha256);
  }

  /** Line 79 sets r to 0 when the buffer is too short, but line 88 still
      hashes count*4/3 bytes of it: three words into a 3-byte buffer read a
      fourth byte past its end, while the intended decoder returns 0 and
      leaves the buffer alone. */
  lemma ShortBufferOverread(wl: Wordlist, w: CStr, sha256: Sha256, d: seq<byte>)
    requires wl[0] == "abandon" && |w| > 0 && w[0] != 'a' && ' ' !in w
    requires |d| == 3
    ensures Decoded(Some(d), 3, wl, Some(w + " " + w + " " + w), sha256) == Undefined
    ensures DecodeFixed(Some(d), 3, wl, Some(w + " " + w + " " + w), sha256) == Returned(0, Some(d))
  {
    ThreeWordScan(wl, w);
  }

  /** Lines 73-90 after three words read as index 0. */
  lemma FinishZeros(sc: Scan, d: seq<byte>, sha256: Sha256)
    requires |sc.indices| == 3 && sc.rest == None && forall k :: 0 <= k < 3 ==> sc.indices[k] == 0
    requires |d| == 4 && sha256([0, 0, 0, 0])[0] >= 128
    ensures Finish(sc, Some(d), 4, sha256) == Returned(0, Some([0, 0, 0, 0]))
  {
    var idx := sc.indices;
    assert Reported(sc, Some(d), 4) == 4;
    var written := Repack(idx)[..4] + d[4..];
    assert written == [0, 0, 0, 0] && LastByte(idx) == 0 by {
      ZeroWritten(idx, d);
    }
    assert !ChecksumMatches(idx, sha256(written)) by {
      TopBitOfThree(0);
      TopBitOfThree(sha256(written)[0]);
    }
    assert written[..4] == written;
  }

  lemma ZeroWritten(idx: seq<index11>, d: seq<byte>)
    requires |idx| == 3 && forall k :: 0 <= k < 3 ==> idx[k] == 0
    requires |d| == 4
    ensures |Repack(idx)| == 5
    ensures Repack(idx)[..4] + d[4..] == [0, 0, 0, 0] && LastByte(idx) == 0
  {
    RepackZeros(idx);
    FourZeros(Repack(idx)[..4] + d[4..]);
  }

  /** Line 55 returns the phrase length without the terminator, although
      the comment of line 30 counts it; a buffer exactly that long is
      reported as filled but holds no NUL, so the caller's string is not
      terminated. */
  method ExactCapacityUnterminated(wl: Wordlist, e: seq<byte>, sha256: Sha256, p: seq<char>) returns (out: Call<char>)
    requires Supported(|e|) && ReadsFit(|e|) && |p| == |Mnemonic(wl, e, sha256)|
    ensures out == Returned(|p|, Some(Mnemonic(wl, e, sha256)))
    ensures CString(out.buffer.value) == None
  {
    out := Encode(Some(p), |p|, wl, Some(e), sha256);
    var text := Mnemonic(wl, e, sha256);
    assert Pad(text, |p|) + p[|p|..] == text;
  }

  /** From 972 bytes of entropy on, the last 32-bit read of line 44 runs
      one byte past the entropy-plus-digest buffer. */
  lemma OverreadFrom972()
    ensures ReadsFit(968) && !ReadsFit(972)
    ensures 728 * 11 / 8 + 4 == 972 + 32 + 1
  {
    ReadsFitExactly(968);
    ReadsFitExactly(972);
  }
}
