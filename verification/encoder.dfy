/** `BRBIP39Encode`: entropy to mnemonic. The entropy is followed by its
    SHA-256 digest, word i is chosen by the 11 bits at bit offset 11*i of
    that buffer, and the words are written into the caller's phrase buffer
    with the size-probe / capacity protocol of the C function. */
module Encoder {
  import opened Bits
  import opened Results
  import opened Text
  import opened Crypto

  /** The right shift applied to the 32-bit window for word i: it lies in
      [14, 21] and leaves exactly the bits up to the end of field i. */
  function EncodeShift(i: nat): (s: nat)
    ensures 14 <= s <= 21
    ensures s + 11 + (i * 11) % 8 == 32
  {
    32 - (11 + (i * 11) % 8)
  }

  /** The 11-bit field at bit offset 11*i of `buf`, most significant bit
      first: the meaning of word i. */
  function ReadField(buf: seq<byte>, i: nat): index11
    requires 11 * i + 11 <= 8 * |buf|
  {
    Pow2Constants();
    Value(Pack(buf, 8)[11 * i..11 * i + 11])
  }

  /** The C computation of word i: a big-endian 32-bit read at byte
      i*11/8, shifted right and reduced modulo 2048. When the read stays
      inside `buf` it yields exactly the 11-bit field at offset 11*i. */
  function FieldAt(buf: seq<byte>, i: nat): (x: index11)
    requires i * 11 / 8 + 4 <= |buf|
    ensures 11 * i + 11 <= 8 * |buf|
    ensures x == ReadField(buf, i)
  {
    var j := i * 11 / 8;
    var s := EncodeShift(i);
    Pow2Constants();
    WindowHoldsField(buf, i);
    (BigEndian(buf[j..j + 4]) / Pow2(s)) % 2048
  }

  lemma ShiftOffset(i: nat)
    ensures 8 * (i * 11 / 8) + (32 - EncodeShift(i) - 11) == 11 * i
  {
  }

  /** The shift and mask of word i applied to the 32 bits starting at byte
      i*11/8 of a bit string leave the 11 bits at offset 11*i. */
  lemma FieldFromWindow(bits: seq<bool>, i: nat, at: nat)
    requires at == 8 * (i * 11 / 8) && at + 32 <= |bits|
    ensures 11 * i + 11 <= |bits|
    ensures (Value(bits[at..at + 32]) / Pow2(EncodeShift(i))) % Pow2(11) == Value(bits[11 * i..11 * i + 11])
  {
    ShiftOffset(i);
    ReadWindow(bits, at, 32, EncodeShift(i), 11, 11 * i);
  }

  lemma WindowHoldsField(buf: seq<byte>, i: nat)
    requires i * 11 / 8 + 4 <= |buf|
    ensures 11 * i + 11 <= 8 * |buf|
    ensures
      var j := i * 11 / 8;
      (BigEndian(buf[j..j + 4]) / Pow2(EncodeShift(i))) % Pow2(11) == Value(Pack(buf, 8)[11 * i..11 * i + 11])
  {
    var j := i * 11 / 8;
    var all := Pack(buf, 8);
    var s := EncodeShift(i);
    var be := BigEndian(buf[j..j + 4]);
    assert 8 * j + 32 <= |all| && be == Value(all[8 * j..8 * j + 32]) by {
      BigEndianWindow(buf, j);
    }
    var window := all[8 * j..8 * j + 32];
    assert 11 * i + 11 <= |all| && (Value(window) / Pow2(s)) % Pow2(11) == Value(all[11 * i..11 * i + 11]) by {
      FieldFromWindow(all, i, 8 * j);
    }
    ShiftOfValue(be, window, all[11 * i..11 * i + 11], s, 11);
  }

  lemma BigEndianWindow(buf: seq<byte>, j: nat)
    requires j + 4 <= |buf|
    ensures 8 * j + 32 <= |Pack(buf, 8)|
    ensures BigEndian(buf[j..j + 4]) == Value(Pack(buf, 8)[8 * j..8 * j + 32])
  {
    PackSlice(buf, j, j + 4, 8, 8 * j, 8 * j + 32);
  }

  /** The first `count` words' indices. */
  function Indices(buf: seq<byte>, count: nat): seq<index11>
    requires 11 * count <= 8 * |buf|
  {
    seq(count, i requires 0 <= i < count => ReadField(buf, i))
  }

  function Words(wl: Wordlist, idx: seq<index11>): seq<CStr>
  {
    seq(|idx|, i requires 0 <= i < |idx| => wl[idx[i]])
  }

  /** The 4-byte read for each of the first `count` words stays inside a
      `dataLen + 32`-byte buffer (the reads move forward with i, so the last
      one decides). */
  predicate WindowsFit(dataLen: nat, count: nat)
  {
    count == 0 || (count - 1) * 11 / 8 + 4 <= dataLen + 32
  }

  /** Every read of an Encode call with `dataLen` bytes of entropy fits. */
  predicate ReadsFit(dataLen: nat)
  {
    WindowsFit(dataLen, dataLen * 3 / 4)
  }

  lemma WindowsFitMonotone(dataLen: nat, count: nat, count': nat)
    requires count' <= count && WindowsFit(dataLen, count)
    ensures WindowsFit(dataLen, count')
  {
  }

  /** Fitting reads cover all the bits the words consume. */
  lemma WindowsFitCoversFields(dataLen: nat, count: nat)
    requires WindowsFit(dataLen, count)
    ensures 11 * count <= 8 * (dataLen + 32)
  {
  }

  /** For entropy lengths that are multiples of 4, the reads fit exactly up
      to 968 bytes: BIP-39's 16 to 32 bytes are safe, and from 972 bytes on
      the last read runs past the buffer. */
  lemma ReadsFitExactly(dataLen: nat)
    requires dataLen % 4 == 0
    ensures ReadsFit(dataLen) <==> dataLen <= 968
  {
  }

  /** Entropy lengths the decoder can give back: a multiple of four bytes
      from 4 to 32, that is 3 to 24 words (BIP-39 itself uses 16 to 32). */
  predicate Supported(n: nat)
  {
    n % 4 == 0 && 4 <= n <= 32
  }

  /** The phrase Encode produces for entropy `e`, without terminator. */
  function Mnemonic(wl: Wordlist, e: seq<byte>, sha256: Sha256): CStr
    requires ReadsFit(|e|)
  {
    WindowsFitCoversFields(|e|, |e| * 3 / 4);
    Join(Words(wl, Indices(e + sha256(e), |e| * 3 / 4)))
  }

  /** `n` characters of `s`, NUL-filled past its end: what `strncpy(dst, s, n)`
      puts into `dst[0..n)`. */
  function Pad(s: string, n: nat): (p: string)
    ensures |p| == n
    ensures forall j :: 0 <= j < n ==> p[j] == (if j < |s| then s[j] else '\0')
  {
    if |s| >= n then s[..n] else s + seq(n - |s|, _ => '\0')
  }

  /** `strncpy(&buf[at], src, n)`: positions [at, at+n) receive `src`,
      truncated or NUL-filled, and every other position is unchanged. */
  function StrNCopy(buf: seq<char>, at: nat, src: string, n: nat): (r: seq<char>)
    requires at + n <= |buf|
    ensures |r| == |buf|
    ensures forall j :: 0 <= j < |buf| ==>
      r[j] == (if at <= j < at + n then (if j - at < |src| then src[j - at] else '\0') else buf[j])
  {
    buf[..at] + Pad(src, n) + buf[at + n..]
  }

  /** The phrase buffer after Encode emitted `count` words forming `text`
      into a buffer of capacity `phraseLen`: untouched when no word was
      emitted or the capacity is 0; otherwise the capacity holds the text,
      truncated or NUL-filled, and the bytes past the capacity are
      untouched. */
  function Emitted(phrase: Option<seq<char>>, phraseLen: nat, text: string, count: nat): Option<seq<char>>
    requires phrase.Some? ==> phraseLen <= |phrase.value|
  {
    if phrase.None? then None
    else if phraseLen == 0 || count == 0 then phrase
    else Some(Pad(text, phraseLen) + phrase.value[phraseLen..])
  }

  lemma PadWithSpace(t: string, n: nat, rest: seq<char>)
    requires |t| < n
    ensures (Pad(t, n) + rest)[|t| := ' '] == Pad(t + " ", n) + rest
  {
  }

  lemma PadThenCopy(t: string, n: nat, rest: seq<char>, w: string)
    requires |t| < n
    ensures StrNCopy(Pad(t, n) + rest, |t|, w, n - |t|) == Pad(t + w, n) + rest
  {
    var buf := Pad(t, n) + rest;
    assert buf[..|t|] == t;
    assert buf[n..] == rest;
  }

  lemma PadFull(t: string, n: nat, more: string)
    requires |t| >= n
    ensures Pad(t + more, n) == Pad(t, n)
  {
  }

  lemma JoinSnoc(ws: seq<CStr>, w: CStr)
    ensures Join(ws + [w]) == if |ws| == 0 then w else Join(ws) + " " + w
  {
    assert (ws + [w])[..|ws|] == ws;
  }

  /** Lines 46-47: before every word but the first (`i > 0`), a space is
      stored if it starts inside the capacity and the length counts it
      either way. On the phrase emitted so far, `text`, this appends the
      separator. */
  method EmitSpace(phrase: Option<seq<char>>, phraseLen: nat, ghost text: string, ph: Option<seq<char>>, len: nat, i: nat)
    returns (ph': Option<seq<char>>, len': nat)
    requires phrase.Some? ==> phraseLen <= |phrase.value|
    requires ph == Emitted(phrase, phraseLen, text, i) && len == |text|
    ensures i > 0 ==> ph' == Emitted(phrase, phraseLen, text + " ", i) && len' == |text| + 1
    ensures i == 0 ==> ph' == ph && len' == len
  {
    ph', len' := ph, len;
    if i > 0 && ph'.Some? && len' < phraseLen {
      PadWithSpace(text, phraseLen, phrase.value[phraseLen..]);
      ph' := Some(ph'.value[len' := ' ']);
    } else if i > 0 && ph'.Some? && 0 < phraseLen {
      PadFull(text, phraseLen, " ");
    }
    if i > 0 {
      len' := len' + 1;
    }
  }

  /** Lines 48-49: the word is copied with `strncpy` if it starts inside the
      capacity, which also NUL-fills the rest of the capacity, and the
      length counts the word either way. On the emitted phrase `text` (empty
      before the first word) this appends the word. */
  method EmitText(phrase: Option<seq<char>>, phraseLen: nat, ghost text: string, word: CStr, ph: Option<seq<char>>, len: nat, count: nat)
    returns (ph': Option<seq<char>>, len': nat)
    requires phrase.Some? ==> phraseLen <= |phrase.value|
    requires ph == Emitted(phrase, phraseLen, text, count) && len == |text|
    requires count == 0 ==> text == ""
    ensures ph' == Emitted(phrase, phraseLen, text + word, count + 1)
    ensures len' == |text| + |word|
  {
    ph', len' := ph, len;
    if ph'.Some? && len' < phraseLen {
      if count == 0 {
        assert ph'.value[..0] + Pad(word, phraseLen) == Pad(word, phraseLen);
        assert text + word == word;
      } else {
        PadThenCopy(text, phraseLen, phrase.value[phraseLen..], word);
      }
      ph' := Some(StrNCopy(ph'.value, len', word, phraseLen - len'));
    } else if ph'.Some? && 0 < phraseLen {
      PadFull(text, phraseLen, word);
    }
    len' := len' + |word|;
  }

  /** `BRBIP39Encode(phrase, phraseLen, wordList, data, dataLen)`. The
      phrase buffer is `phrase` (`None` for a null pointer) holding at least
      `phraseLen` characters; the entropy is `data` with `dataLen == |data|`.
      Data that is absent or not a multiple of 4 bytes gives 0 and no write.
      Otherwise the call is undefined exactly when some 32-bit read leaves
      the entropy-plus-digest buffer; when it is defined it returns the
      length of the mnemonic (no terminator counted) if the phrase buffer is
      absent or holds at least that many characters and 0 otherwise, and it
      leaves the buffer as `Emitted` describes: nothing at or beyond
      `phraseLen` is written. */
  method Encode(phrase: Option<seq<char>>, phraseLen: nat, wl: Wordlist, data: Option<seq<byte>>, sha256: Sha256)
    returns (out: Call<char>)
    requires phrase.Some? ==> phraseLen <= |phrase.value|
    ensures data.None? || |data.value| % 4 != 0 ==> out == Returned(0, phrase)
    ensures data.Some? && |data.value| % 4 == 0 ==> (out.Undefined? <==> !ReadsFit(|data.value|))
    ensures data.Some? && |data.value| % 4 == 0 && ReadsFit(|data.value|) ==>
      var text := Mnemonic(wl, data.value, sha256);
      && out.Returned?
      && out.r == (if phrase.None? || |text| <= phraseLen then |text| else 0)
      && out.buffer == Emitted(phrase, phraseLen, text, |data.value| * 3 / 4)
  {
    if data.None? || |data.value| % 4 != 0 {
      return Returned(0, phrase);
    }
    var d := data.value;
    var buf := d + sha256(d);
    var count := |d| * 3 / 4;
    var fits, ph, len := EmitWords(phrase, phraseLen, wl, buf, count, |d|);
    if !fits {
      return Undefined;
    }
    var r := if phrase.None? || len <= phraseLen then len else 0;
    return Returned(r, ph);
  }

  /** The loop of lines 43-50 over `count` fields of `buf` (entropy then
      digest, `dataLen + 32` bytes). `fits` is false when some window read
      runs past the end of `buf`, which in C is undefined behaviour. */
  method EmitWords(phrase: Option<seq<char>>, phraseLen: nat, wl: Wordlist, buf: seq<byte>, count: nat, ghost dataLen: nat)
    returns (fits: bool, ph: Option<seq<char>>, len: nat)
    requires phrase.Some? ==> phraseLen <= |phrase.value|
    requires |buf| == dataLen + 32
    ensures fits <==> WindowsFit(dataLen, count)
    ensures fits ==> 11 * count <= 8 * |buf|
    ensures fits ==> ph == Emitted(phrase, phraseLen, Join(Words(wl, Indices(buf, count))), count)
    ensures fits ==> len == |Join(Words(wl, Indices(buf, count)))|
  {
    len := 0;
    ph := phrase;
    var i := 0;
    while i < count
      invariant i <= count
      invariant WindowsFit(dataLen, i)
      invariant 11 * i <= 8 * |buf|
      invariant ph == Emitted(phrase, phraseLen, Join(Words(wl, Indices(buf, i))), i)
      invariant len == |Join(Words(wl, Indices(buf, i)))|
    {
      if i * 11 / 8 + 4 > |buf| {
        ReadPastEnd(dataLen, i, count);
        return false, ph, len;
      }
      FitStep(dataLen, i);
      ph, len := EmitWord(phrase, phraseLen, wl, buf, ph, len, i);
      i := i + 1;
    }
    fits := true;
  }

  /** One iteration of the loop: field `i` selects a word, which is
      appended to the phrase emitted so far (lines 45-49). */
  method EmitWord(phrase: Option<seq<char>>, phraseLen: nat, wl: Wordlist, buf: seq<byte>, ph: Option<seq<char>>, len: nat, i: nat)
    returns (ph': Option<seq<char>>, len': nat)
    requires phrase.Some? ==> phraseLen <= |phrase.value|
    requires i * 11 / 8 + 4 <= |buf|
    requires ph == Emitted(phrase, phraseLen, Join(Words(wl, Indices(buf, i))), i)
    requires len == |Join(Words(wl, Indices(buf, i)))|
    ensures 11 * (i + 1) <= 8 * |buf|
    ensures ph' == Emitted(phrase, phraseLen, Join(Words(wl, Indices(buf, i + 1))), i + 1)
    ensures len' == |Join(Words(wl, Indices(buf, i + 1)))|
  {
    var word := wl[FieldAt(buf, i)];
    ghost var ws := Words(wl, Indices(buf, i));
    ghost var text := Join(ws);
    assert |ws| == i;
    ph', len' := EmitSpace(phrase, phraseLen, text, ph, len, i);
    ghost var sep := if i > 0 then text + " " else text;
    ph', len' := EmitText(phrase, phraseLen, sep, word, ph', len', i);
    JoinSnoc(ws, word);
    WordsExtend(wl, buf, i);
    assert Join(Words(wl, Indices(buf, i + 1))) == sep + word;
  }

  lemma ReadPastEnd(dataLen: nat, i: nat, count: nat)
    requires i < count && i * 11 / 8 + 4 > dataLen + 32
    ensures !WindowsFit(dataLen, count)
  {
  }

  lemma FitStep(dataLen: nat, i: nat)
    requires i * 11 / 8 + 4 <= dataLen + 32
    ensures WindowsFit(dataLen, i + 1) && 11 * (i + 1) <= 8 * (dataLen + 32)
  {
  }

  lemma WordsExtend(wl: Wordlist, buf: seq<byte>, i: nat)
    requires 11 * i + 11 <= 8 * |buf|
    ensures Words(wl, Indices(buf, i + 1)) == Words(wl, Indices(buf, i)) + [wl[ReadField(buf, i)]]
  {
  }

  /** `BRBIP39Encode` as its header comment describes it: the count it
      returns includes the NUL terminator, which is written after the
      phrase, and only supported entropy lengths are encoded, so every
      32-bit read stays inside the entropy-plus-digest buffer. A phrase
      buffer that cannot hold the phrase and its terminator is left alone
      and 0 is returned. */
  function EncodeFixed(phrase: Option<seq<char>>, phraseLen: nat, wl: Wordlist, data: Option<seq<byte>>, sha256: Sha256): (out: Call<char>)
    requires phrase.Some? ==> phraseLen <= |phrase.value|
    ensures out.Returned?
    ensures data.Some? && Supported(|data.value|) ==> ReadsFit(|data.value|)
    ensures out.r > 0 <==>
      data.Some? && Supported(|data.value|) && (phrase.None? || |Mnemonic(wl, data.value, sha256)| < phraseLen)
    ensures out.r > 0 ==> out.r == |Mnemonic(wl, data.value, sha256)| + 1
    ensures out.r > 0 && phrase.Some? ==>
      out.buffer == Some(Mnemonic(wl, data.value, sha256) + "\0" + phrase.value[out.r..])
    ensures out.r == 0 || phrase.None? ==> out.buffer == phrase
  {
    if data.None? || !Supported(|data.value|) then Returned(0, phrase)
    else
      ReadsFitExactly(|data.value|);
      var text := Mnemonic(wl, data.value, sha256);
      if phrase.None? then Returned(|text| + 1, None)
      else if |text| < phraseLen then Returned(|text| + 1, Some(text + "\0" + phrase.value[|text| + 1..]))
      else Returned(0, phrase)
  }
}
