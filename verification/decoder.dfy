/** `BRBIP39Decode`: mnemonic to entropy. The phrase is split at spaces,
    each word is looked up in the wordlist, the 11-bit indices are packed
    back into bytes and the top bits of the last byte are compared with the
    SHA-256 digest. The lookup is modelled both as the C function performs
    it and as it is evidently meant to work, and so is the rest of the
    decoding. */
module Decoder {
  import opened Bits
  import opened Results
  import opened Text
  import opened Crypto

  /** How a wordlist entry is matched against the text at the current word.
      `PrefixMismatch` is the test of line 68: the entry is taken when the
      text does NOT begin with it. `ExactToken` takes the entry that equals
      the characters before the next space. */
  datatype Matching = PrefixMismatch | ExactToken

  predicate Selects(m: Matching, w: CStr, text: string)
  {
    match m
    case PrefixMismatch => !IsPrefix(w, text)
    case ExactToken => w == Token(text)
  }

  /** The inner loop of lines 67-69: the first entry at or after `from`
      that is selected for `text`, or `None` (`INT32_MAX` in C). */
  function Lookup(m: Matching, wl: Wordlist, text: string, from: nat): (r: Option<index11>)
    requires from <= 2048
    ensures r.Some? ==> from <= r.value && Selects(m, wl[r.value], text)
    ensures r.Some? ==> forall j :: from <= j < r.value ==> !Selects(m, wl[j], text)
    ensures r.None? ==> forall j :: from <= j < 2048 ==> !Selects(m, wl[j], text)
    decreases 2048 - from
  {
    if from == 2048 then None
    else if Selects(m, wl[from], text) then Some(from)
    else Lookup(m, wl, text, from + 1)
  }

  /** The state the tokeniser of lines 66-76 stops in: the indices recorded
      and the `word` pointer (`None` for NULL). */
  datatype Scan = Scan(indices: seq<index11>, rest: Option<string>)

  /** `word && *word`: a pointer to a non-empty remainder of the phrase. */
  predicate More(rest: Option<string>)
  {
    rest.Some? && |rest.value| > 0
  }

  /** Why a scan ends: no more text, 24 words read, or a word that selects
      no entry. */
  predicate Stopped(m: Matching, wl: Wordlist, sc: Scan)
  {
    !More(sc.rest) || |sc.indices| == 24 || Lookup(m, wl, sc.rest.value, 0).None?
  }

  /** The tokeniser from the current word on, `acc` holding the indices
      recorded so far. */
  function ScanFrom(m: Matching, wl: Wordlist, rest: Option<string>, acc: seq<index11>): (sc: Scan)
    requires |acc| <= 24
    ensures |acc| <= |sc.indices| <= 24 && sc.indices[..|acc|] == acc
    ensures Stopped(m, wl, sc)
    decreases 24 - |acc|
  {
    if !More(rest) || |acc| == 24 then Scan(acc, rest)
    else match Lookup(m, wl, rest.value, 0)
      case None => Scan(acc, rest)
      case Some(i) =>
        var sc := ScanFrom(m, wl, AfterSpace(rest.value), acc + [i]);
        assert sc.indices[..|acc|] == (acc + [i])[..|acc|];
        sc
  }

  function Tokenise(m: Matching, wl: Wordlist, phrase: Option<CStr>): (sc: Scan)
    ensures |sc.indices| <= 24 && Stopped(m, wl, sc)
  {
    ScanFrom(m, wl, phrase, [])
  }

  /** Line 78: the word count is a multiple of three and the whole phrase
      was consumed. */
  predicate Accepted(sc: Scan)
  {
    |sc.indices| % 3 == 0 && !More(sc.rest)
  }

  /** The right shift for output byte i at line 84. */
  function RepackShift(i: nat): (s: nat)
    ensures 4 <= s <= 14
    ensures 8 * i == 11 * (i * 8 / 11) + 22 - s - 8
  {
    (i * 8 / 11 + 2) * 11 - (i + 1) * 8
  }

  /** `x*BIP39_WORDLIST_COUNT + y` of lines 82-84: word k followed by the
      next word, or by zero after the last word, as one 22-bit number. */
  function Pair(idx: seq<index11>, k: nat): nat
    requires k < |idx|
  {
    (idx[k] as nat) * 2048 + (if k + 1 < |idx| then idx[k + 1] else 0)
  }

  /** Byte i of the repacked indices (line 84): the pair of words holding
      it, shifted right and masked to 8 bits. */
  function RepackByte(idx: seq<index11>, i: nat): byte
    requires i * 8 / 11 < |idx|
  {
    (Pair(idx, i * 8 / 11) / Pow2(RepackShift(i))) % 256
  }

  /** Byte i is bits [8i, 8i+8) of the 11-bit encodings of the indices
      followed by eleven zero bits. */
  lemma RepackByteBits(idx: seq<index11>, i: nat)
    requires i * 8 / 11 < |idx|
    ensures 8 * i + 8 <= 11 * |idx| + 11
    ensures RepackByte(idx, i) == Value(Pack(idx + [0], 11)[8 * i..8 * i + 8])
  {
    var k := i * 8 / 11;
    var x := idx[k];
    var y := if k + 1 < |idx| then idx[k + 1] else 0;
    PairHoldsByte(idx, i, k, x, y, Pair(idx, k), RepackShift(i));
  }

  lemma PackPair(x: nat, y: nat, w: nat)
    ensures Pack([x, y], w) == ToBits(x, w) + ToBits(y, w)
  {
    assert [x, y][..1] == [x];
    assert [x][..0] == [];
  }

  lemma PairHoldsByte(idx: seq<index11>, i: nat, k: nat, x: nat, y: nat, pair: nat, s: nat)
    requires k == i * 8 / 11 && k < |idx| && x == idx[k]
    requires y == if k + 1 < |idx| then idx[k + 1] else 0
    requires pair == x * 2048 + y && s == RepackShift(i)
    ensures 8 * i + 8 <= 11 * |idx| + 11
    ensures (pair / Pow2(s)) % 256 == Value(Pack(idx + [0], 11)[8 * i..8 * i + 8])
  {
    var all := Pack(idx + [0], 11);
    assert 11 * k + 22 <= |all| && 8 * i + 8 <= |all| by {
      RepackBounds(i, k, |idx|, s);
    }
    PairWindow(idx, k, x, y, pair);
    WindowByte(all, k, i, s, pair);
  }

  /** Shifting the 22-bit window at word k right by `s` and masking to 8
      bits reads the byte at bit 8i. */
  lemma WindowByte(all: seq<bool>, k: nat, i: nat, s: nat, pair: nat)
    requires 11 * k + 22 <= |all| && s <= 14 && 8 * i == 11 * k + 22 - s - 8
    requires Value(all[11 * k..11 * k + 22]) == pair
    ensures 8 * i + 8 <= |all|
    ensures (pair / Pow2(s)) % 256 == Value(all[8 * i..8 * i + 8])
  {
    var window := all[11 * k..11 * k + 22];
    var field := all[8 * i..8 * i + 8];
    ReadWindow(all, 11 * k, 22, s, 8, 8 * i);
    MaskedShift(pair, Value(window), Value(field), s);
  }

  lemma MaskedShift(a: nat, v: nat, f: nat, s: nat)
    requires a == v && (v / Pow2(s)) % Pow2(8) == f
    ensures (a / Pow2(s)) % 256 == f
  {
    Pow2Constants();
  }

  lemma RepackBounds(i: nat, k: nat, n: nat, s: nat)
    requires k == i * 8 / 11 && k < n && s == RepackShift(i)
    ensures 11 * k + 22 <= 11 * (n + 1) && 8 * i + 8 <= 11 * (n + 1)
  {
    MulMonotone(11, k + 2, n + 1);
  }

  lemma Mask8(a: int)
    ensures a % Pow2(8) == a % 256
  {
    Pow2Constants();
  }

  /** Words k and k+1 (zero past the end) as one 22-bit number. */
  lemma PairWindow(idx: seq<index11>, k: nat, x: nat, y: nat, pair: nat)
    requires k < |idx| && x == idx[k]
    requires y == if k + 1 < |idx| then idx[k + 1] else 0
    requires pair == x * 2048 + y
    ensures 11 * k + 22 <= |Pack(idx + [0], 11)|
    ensures Value(Pack(idx + [0], 11)[11 * k..11 * k + 22]) == pair
  {
    var ext: seq<nat> := idx + [0];
    assert ext[k] == x && ext[k + 1] == y;
    PackWindow2(ext, k);
    ValuePair(x, y, pair);
  }

  /** Two neighbouring 11-bit elements occupy 22 neighbouring bits. */
  lemma PackWindow2(ext: seq<nat>, k: nat)
    requires k + 2 <= |ext|
    ensures 11 * k + 22 <= |Pack(ext, 11)|
    ensures Pack(ext, 11)[11 * k..11 * k + 22] == ToBits(ext[k], 11) + ToBits(ext[k + 1], 11)
  {
    PackSlice(ext, k, k + 2, 11, 11 * k, 11 * k + 22);
    PairSlice(ext, k);
    PackPair(ext[k], ext[k + 1], 11);
  }

  lemma ValuePair(x: nat, y: nat, pair: nat)
    requires x < 2048 && y < 2048 && pair == x * 2048 + y
    ensures Value(ToBits(x, 11) + ToBits(y, 11)) == pair
  {
    Pow2Constants();
    ValueAppend(ToBits(x, 11), ToBits(y, 11));
    ValueToBits(x, 11);
    ValueToBits(y, 11);
  }

  lemma PairSlice<T>(s: seq<T>, k: nat)
    requires k + 2 <= |s|
    ensures s[k..k + 2] == [s[k], s[k + 1]]
  {
  }

  /** The bytes the loop of lines 81-86 computes, one per 8 bits of the
      11-bit indices, rounded up. */
  function Repack(idx: seq<index11>): (bytes: seq<byte>)
    ensures |bytes| == (|idx| * 11 + 7) / 8
    ensures forall i :: 0 <= i < |bytes| ==> bytes[i] == RepackByte(idx, i)
  {
    seq((|idx| * 11 + 7) / 8, i requires 0 <= i < (|idx| * 11 + 7) / 8 => RepackByte(idx, i))
  }

  /** `b`, the byte computed last by the loop of lines 81-86 (0 if it
      computed none). */
  function LastByte(idx: seq<index11>): (b: byte)
    ensures |idx| > 0 ==> b == RepackByte(idx, (|idx| * 11 + 7) / 8 - 1)
  {
    var bytes := Repack(idx);
    if |bytes| == 0 then 0 else bytes[|bytes| - 1]
  }

  /** `v >> (8 - count/3)` at line 89: the number the top count/3 bits of
      byte `v` denote. */
  function CheckBits(v: byte, count: nat): (r: nat)
    requires count <= 24
    ensures r < Pow2(count / 3)
    ensures r == Value(ToBits(v, 8)[..count / 3])
  {
    Pow2Constants();
    ValueToBits(v, 8);
    TopBits(ToBits(v, 8), count / 3);
    v / Pow2(8 - count / 3)
  }

  /** Line 89: the top count/3 bits of the last byte agree with those of
      the first digest byte, bit for bit. */
  function ChecksumMatches(idx: seq<index11>, digest: Digest): (ok: bool)
    requires |idx| <= 24
    ensures ok <==> ToBits(LastByte(idx), 8)[..|idx| / 3] == ToBits(digest[0], 8)[..|idx| / 3]
  {
    ValueEqual(ToBits(LastByte(idx), 8)[..|idx| / 3], ToBits(digest[0], 8)[..|idx| / 3]);
    CheckBits(LastByte(idx), |idx|) == CheckBits(digest[0], |idx|)
  }

  /** Lines 73-79: the byte count the call reports before the checksum is
      consulted. */
  function Reported(sc: Scan, data: Option<seq<byte>>, dataLen: nat): (r: nat)
    requires |sc.indices| <= 24
    ensures r > 0 ==> Accepted(sc) && r == |sc.indices| * 4 / 3 && (data.Some? ==> r <= dataLen)
    ensures r == 0 ==> !Accepted(sc) || |sc.indices| == 0 || (data.Some? && dataLen < |sc.indices| * 4 / 3)
  {
    var need := if Accepted(sc) then |sc.indices| * 4 / 3 else 0;
    if data.Some? && dataLen < need then 0 else need
  }

  /** Three words carry four bytes of entropy. */
  lemma EntropyLength(count: nat)
    requires count % 3 == 0 && 0 < count <= 24
    ensures count * 4 / 3 == 4 * (count / 3)
    ensures 4 <= count * 4 / 3 <= 32 && (count * 4 / 3) % 4 == 0
  {
    var m := count / 3;
    assert count == 3 * m;
    DivModOf(count * 4, 4 * m, 0, 3);
  }

  lemma RepackCoversEntropy(count: nat)
    ensures count * 4 / 3 <= (count * 11 + 7) / 8
  {
  }

  /** `BRBIP39Decode` as written, as one function of its inputs: the
      caller's buffer `data` (`None` for NULL) of declared size `dataLen`,
      the wordlist and the phrase (`None` for NULL). The first `r` repacked
      bytes are stored, `r` as at line 79, and then the first count*4/3
      bytes of the CALLER'S BUFFER are hashed, which is undefined when the
      buffer is NULL or shorter. */
  function Decoded(data: Option<seq<byte>>, dataLen: nat, wl: Wordlist, phrase: Option<CStr>, sha256: Sha256): (out: Call<byte>)
    requires data.Some? ==> dataLen <= |data.value|
    ensures var n := |Tokenise(PrefixMismatch, wl, phrase).indices| * 4 / 3;
      out.Undefined? <==> n > 0 && (data.None? || |data.value| < n)
    ensures out.Returned? ==> (out.buffer.Some? <==> data.Some?)
    ensures out.Returned? && out.r > 0 ==>
      var sc := Tokenise(PrefixMismatch, wl, phrase);
      Accepted(sc) && out.r == |sc.indices| * 4 / 3 && (data.Some? ==> out.r <= dataLen)
    ensures out.Returned? && data.Some? ==>
      var sc := Tokenise(PrefixMismatch, wl, phrase);
      var r := Reported(sc, data, dataLen);
      r <= |Repack(sc.indices)| && out.buffer.value == Repack(sc.indices)[..r] + data.value[r..]
  {
    Finish(Tokenise(PrefixMismatch, wl, phrase), data, dataLen, sha256)
  }

  /** Lines 73-90 once the tokeniser has stopped in `sc`: the count of line
      79 is reported when the checksum over the first count*4/3 bytes of
      the buffer, now holding the stored bytes, passes. */
  function Finish(sc: Scan, data: Option<seq<byte>>, dataLen: nat, sha256: Sha256): (out: Call<byte>)
    requires |sc.indices| <= 24
    requires data.Some? ==> dataLen <= |data.value|
    ensures var n := |sc.indices| * 4 / 3;
      out.Undefined? <==> n > 0 && (data.None? || |data.value| < n)
    ensures out.Returned? ==> (out.buffer.Some? <==> data.Some?)
    ensures out.Returned? ==> out.r == 0 || out.r == Reported(sc, data, dataLen)
    ensures out.Returned? && out.r > 0 ==>
      Accepted(sc) && out.r == |sc.indices| * 4 / 3 && (data.Some? ==> out.r <= dataLen)
    ensures out.Returned? && data.Some? ==>
      var r := Reported(sc, data, dataLen);
      r <= |Repack(sc.indices)| && out.buffer.value == Repack(sc.indices)[..r] + data.value[r..]
    ensures out.Returned? && out.r > 0 ==>
      out.r <= |Repack(sc.indices)| && ChecksumMatches(sc.indices, sha256(Repack(sc.indices)[..out.r]))
    ensures out.Returned? && data.Some? && Reported(sc, data, dataLen) > 0 ==>
      var r := Reported(sc, data, dataLen);
      r <= |Repack(sc.indices)| && (out.r > 0 <==> ChecksumMatches(sc.indices, sha256(Repack(sc.indices)[..r])))
  {
    var hashLen := |sc.indices| * 4 / 3;
    var r := Reported(sc, data, dataLen);
    RepackCoversEntropy(|sc.indices|);
    if hashLen > 0 && (data.None? || |data.value| < hashLen) then Undefined
    else
      var written := if data.None? then None else Some(Repack(sc.indices)[..r] + data.value[r..]);
      var hashed := if data.None? then [] else written.value[..hashLen];
      assert r > 0 ==> hashed == Repack(sc.indices)[..r];
      Returned(if ChecksumMatches(sc.indices, sha256(hashed)) then r else 0, written)
  }

  /** The inner loop of lines 67-69 over the wordlist. */
  method FindWord(wl: Wordlist, text: string) returns (found: Option<index11>)
    ensures found == Lookup(PrefixMismatch, wl, text, 0)
  {
    found := None;
    var i := 0;
    while found.None? && i < 2048
      invariant i <= 2048
      invariant found.None? ==> forall j :: 0 <= j < i ==> !Selects(PrefixMismatch, wl[j], text)
      invariant found.Some? ==> i >= 1 && found.value == i - 1
      invariant found.Some? ==> Selects(PrefixMismatch, wl[i - 1], text)
      invariant found.Some? ==> forall j :: 0 <= j < i - 1 ==> !Selects(PrefixMismatch, wl[j], text)
    {
      if !StrNCmpZero(text, wl[i], |wl[i]|) {
        found := Some(i);
      }
      i := i + 1;
    }
  }

  /** The tokeniser of lines 66-76. */
  method ScanPhrase(wl: Wordlist, phrase: Option<CStr>) returns (idx: seq<index11>, word: Option<string>)
    ensures Scan(idx, word) == Tokenise(PrefixMismatch, wl, phrase)
  {
    idx := [];
    word := phrase;
    while More(word) && |idx| < 24
      invariant |idx| <= 24
      invariant ScanFrom(PrefixMismatch, wl, word, idx) == Tokenise(PrefixMismatch, wl, phrase)
      decreases 24 - |idx|
    {
      var found := FindWord(wl, word.value);
      if found.None? {
        break;
      }
      idx := idx + [found.value];
      word := AfterSpace(word.value);
    }
  }

  /** The loop of lines 81-86: every byte is computed, the first `r` are
      stored into the caller's buffer, and `b` keeps the last one. */
  method StoreBytes(idx: seq<index11>, data: Option<seq<byte>>, r: nat) returns (buf: Option<seq<byte>>, b: byte)
    requires r <= (|idx| * 11 + 7) / 8
    requires data.Some? ==> r <= |data.value|
    ensures buf == if data.None? then None else Some(Repack(idx)[..r] + data.value[r..])
    ensures b == LastByte(idx)
  {
    buf := data;
    b := 0;
    var n := (|idx| * 11 + 7) / 8;
    var i := 0;
    ghost var bytes := Repack(idx);
    if data.Some? {
      assert bytes[..0] + data.value[0..] == data.value;
    }
    while i < n
      invariant i <= n
      invariant b == if i == 0 then 0 else bytes[i - 1]
      invariant data.None? ==> buf.None?
      invariant data.Some? ==> buf == Some(bytes[..Min(i, r)] + data.value[Min(i, r)..])
    {
      ByteInRange(|idx|, i);
      b := RepackByte(idx, i);
      if buf.Some? && i < r {
        StoreStep(bytes, data.value, i);
        buf := Some(buf.value[i := b]);
      }
      i := i + 1;
    }
  }

  /** Byte i of the loop reads word i*8/11, which exists. */
  lemma ByteInRange(count: nat, i: nat)
    requires i < (count * 11 + 7) / 8
    ensures i * 8 / 11 < count
  {
  }

  function Min(a: nat, b: nat): (m: nat)
    ensures m <= a && m <= b && (m == a || m == b)
  {
    if a <= b then a else b
  }

  /** Storing byte i over a buffer whose first i bytes are already stored. */
  lemma StoreStep<T>(bytes: seq<T>, d: seq<T>, i: nat)
    requires i < |bytes| && i < |d|
    ensures (bytes[..i] + d[i..])[i := bytes[i]] == bytes[..i + 1] + d[i + 1..]
  {
    var lhs, rhs := (bytes[..i] + d[i..])[i := bytes[i]], bytes[..i + 1] + d[i + 1..];
    assert forall j :: 0 <= j < |lhs| ==> lhs[j] == rhs[j];
  }

  /** `BRBIP39Decode`, statement by statement. */
  method Decode(data: Option<seq<byte>>, dataLen: nat, wl: Wordlist, phrase: Option<CStr>, sha256: Sha256)
    returns (out: Call<byte>)
    requires data.Some? ==> dataLen <= |data.value|
    ensures out == Decoded(data, dataLen, wl, phrase, sha256)
  {
    var idx, word := ScanPhrase(wl, phrase);
    out := Conclude(idx, word, data, dataLen, sha256);
  }

  /** Lines 73-90 of `BRBIP39Decode`, after the tokeniser stopped with the
      indices `idx` and the pointer `word`. */
  method Conclude(idx: seq<index11>, word: Option<string>, data: Option<seq<byte>>, dataLen: nat, sha256: Sha256)
    returns (out: Call<byte>)
    requires |idx| <= 24
    requires data.Some? ==> dataLen <= |data.value|
    ensures out == Finish(Scan(idx, word), data, dataLen, sha256)
  {
    ghost var sc := Scan(idx, word);
    var r := |idx| * 4 / 3;
    if |idx| % 3 != 0 || More(word) {
      r := 0;
    }
    if data.Some? && dataLen < r {
      r := 0;
    }
    assert r == Reported(sc, data, dataLen);
    RepackCoversEntropy(|idx|);
    var buf, b := StoreBytes(idx, data, r);
    var hashLen := |idx| * 4 / 3;
    if hashLen > 0 && (buf.None? || |buf.value| < hashLen) {
      assert Finish(sc, data, dataLen, sha256) == Undefined;
      return Undefined;
    }
    var digest: Digest := sha256(if buf.None? then [] else buf.value[..hashLen]);
    if CheckBits(b, |idx|) != CheckBits(digest[0], |idx|) {
      r := 0;
    }
    out := Returned(r, buf);
    assert out == Finish(sc, data, dataLen, sha256);
  }

  /** What a decoding of the evidently intended kind can report. */
  datatype DecodeError = UnknownWord | TooManyWords | WrongWordCount | ChecksumMismatch

  /** The entropy a phrase stands for, with exact word lookup and the
      checksum taken over the repacked entropy itself. As in the C code, a
      multiple of three words from 3 to 24 is accepted. */
  function Recover(wl: Wordlist, phrase: Option<CStr>, sha256: Sha256): (res: Result<seq<byte>, DecodeError>)
    ensures res.Success? ==> |res.value| % 4 == 0 && 4 <= |res.value| <= 32
    ensures res == Failure(TooManyWords) ==> |Tokenise(ExactToken, wl, phrase).indices| == 24
  {
    var sc := Tokenise(ExactToken, wl, phrase);
    var count := |sc.indices|;
    if More(sc.rest) then Failure(if count == 24 then TooManyWords else UnknownWord)
    else if count == 0 || count % 3 != 0 then Failure(WrongWordCount)
    else
      RepackCoversEntropy(count);
      EntropyLength(count);
      var entropy := Repack(sc.indices)[..count * 4 / 3];
      if ChecksumMatches(sc.indices, sha256(entropy)) then Success(entropy)
      else Failure(ChecksumMismatch)
  }

  /** `BRBIP39Decode` with the intended behaviour: it reports the entropy
      length and stores the entropy only when the phrase decodes and the
      buffer is large enough, and never touches the buffer otherwise. */
  function DecodeFixed(data: Option<seq<byte>>, dataLen: nat, wl: Wordlist, phrase: Option<CStr>, sha256: Sha256): (out: Call<byte>)
    requires data.Some? ==> dataLen <= |data.value|
    ensures out.Returned?
    ensures out.r > 0 <==> Recover(wl, phrase, sha256).Success? && (data.Some? ==> |Recover(wl, phrase, sha256).value| <= dataLen)
    ensures out.r > 0 ==>
      var e := Recover(wl, phrase, sha256).value;
      out.r == |e| && out.buffer == if data.None? then None else Some(e + data.value[|e|..])
    ensures out.r == 0 ==> out.buffer == data
  {
    match Recover(wl, phrase, sha256)
    case Failure(_) => Returned(0, data)
    case Success(e) =>
      if data.Some? && dataLen < |e| then Returned(0, data)
      else if data.None? then Returned(|e|, None)
      else Returned(|e|, Some(e + data.value[|e|..]))
  }
}
