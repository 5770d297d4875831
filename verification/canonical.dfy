/** The converse of the round trip: the intended decoder accepts nothing
    but mnemonics. A phrase that `Recover` turns into entropy `e` is the
    phrase `BRBIP39Encode` builds from `e`, possibly followed by one space,
    for every wordlist and every hash function. So, up to one trailing
    space, the codec is a bijection between the supported entropies and
    the phrases it accepts, and the checksum of lines 85-89 leaves no
    second spelling of a mnemonic. */
module Canonical {
  import opened Bits
  import opened Results
  import opened Text
  import opened Crypto
  import opened Encoder
  import opened Decoder
  import opened RoundTrip
  import opened Validator

  // ---- Words ----

  /** `t` is the words of `idx` separated by single spaces, followed by
      nothing or by one space. */
  predicate Spells(wl: Wordlist, idx: seq<index11>, t: string)
  {
    t == Join(Words(wl, idx)) || t == Join(Words(wl, idx)) + " "
  }

  /** When the exact tokeniser, started on a non-empty text after `acc`
      was recorded, ends without text left over, it recorded at least one
      more word and the text spells exactly the words it recorded. */
  lemma {:induction false} ScanJoins(wl: Wordlist, t: string, acc: seq<index11>)
    requires |acc| < 24 && |t| > 0
    requires !More(ScanFrom(ExactToken, wl, Some(t), acc).rest)
    ensures |acc| < |ScanFrom(ExactToken, wl, Some(t), acc).indices|
    ensures Spells(wl, ScanFrom(ExactToken, wl, Some(t), acc).indices[|acc|..], t)
    decreases 24 - |acc|
  {
    var sc := ScanFrom(ExactToken, wl, Some(t), acc);
    match Lookup(ExactToken, wl, t, 0)
    case None =>
    case Some(i) =>
      ScanStep(ExactToken, wl, t, acc, i);
      var u := AfterSpace(t);
      var acc' := acc + [i];
      if u.None? {
        OneWord(wl, i, t);
        assert acc'[|acc|..] == [i];
      } else if !More(u) {
        OneWordSpace(wl, i, t, u.value);
        assert acc'[|acc|..] == [i];
      } else if |acc'| < 24 {
        ScanJoins(wl, u.value, acc');
        var rest := sc.indices[|acc'|..];
        ConsSpells(wl, i, rest, t, u.value);
        SplitAfter(sc.indices, acc, i);
      }
  }

  /** A text without a space whose token is entry `i` is entry `i`. */
  lemma OneWord(wl: Wordlist, i: index11, t: string)
    requires Token(t) == wl[i] && AfterSpace(t).None?
    ensures Spells(wl, [i], t)
  {
    assert Token(t) == t[..|t|];
    assert Words(wl, [i]) == [wl[i]];
  }

  /** A text whose token is entry `i` and after whose first space nothing
      follows is entry `i` and one space. */
  lemma OneWordSpace(wl: Wordlist, i: index11, t: string, v: string)
    requires Token(t) == wl[i] && AfterSpace(t) == Some(v) && |v| == 0
    ensures Spells(wl, [i], t)
  {
    assert v == "";
    assert t == wl[i] + " " + "";
    assert Words(wl, [i]) == [wl[i]];
  }

  /** Entry `i`, a space, then a text that spells `rest`, spells `[i] +
      rest`. */
  lemma ConsSpells(wl: Wordlist, i: index11, rest: seq<index11>, t: string, v: string)
    requires |rest| >= 1 && t == wl[i] + " " + v && Spells(wl, rest, v)
    ensures Spells(wl, [i] + rest, t)
  {
    var ws := Words(wl, [i] + rest);
    assert ws[0] == wl[i];
    assert ws[1..] == Words(wl, rest);
    JoinCons(ws);
    var j := Join(Words(wl, rest));
    if v != j {
      Regroup(wl[i], j, " ");
    }
  }

  lemma SplitAfter<T>(s: seq<T>, acc: seq<T>, i: T)
    requires |acc| + 1 <= |s| && s[..|acc| + 1] == acc + [i]
    ensures s[|acc|..] == [i] + s[|acc| + 1..]
  {
    assert s[|acc|] == (acc + [i])[|acc|];
  }

  /** A phrase the exact tokeniser reads completely spells the indices it
      recorded. */
  lemma TokenisedSpells(wl: Wordlist, phrase: Option<CStr>)
    requires |Tokenise(ExactToken, wl, phrase).indices| > 0 && !More(Tokenise(ExactToken, wl, phrase).rest)
    ensures phrase.Some? && Spells(wl, Tokenise(ExactToken, wl, phrase).indices, phrase.value)
  {
    var sc := Tokenise(ExactToken, wl, phrase);
    assert More(phrase);
    ScanJoins(wl, phrase.value, []);
    assert sc.indices[0..] == sc.indices;
  }

  /** Line 78's test under exact lookup: the tokeniser read a non-empty
      multiple of three words and left no text exactly when the phrase is
      3 to 24 wordlist entries, a multiple of three, joined by single
      spaces and followed by at most one space. */
  lemma AcceptedWords(wl: Wordlist, phrase: Option<CStr>)
    requires WellFormed(wl)
    ensures Accepted(Tokenise(ExactToken, wl, phrase)) && |Tokenise(ExactToken, wl, phrase).indices| > 0 <==>
      phrase.Some? && exists idx: seq<index11> :: WordCount(idx) && Spells(wl, idx, phrase.value)
  {
    if Accepted(Tokenise(ExactToken, wl, phrase)) && |Tokenise(ExactToken, wl, phrase).indices| > 0 {
      AcceptedSpells(wl, phrase);
    }
    if phrase.Some? && exists idx: seq<index11> :: WordCount(idx) && Spells(wl, idx, phrase.value) {
      var idx: seq<index11> :| WordCount(idx) && Spells(wl, idx, phrase.value);
      SpellsAccepted(wl, idx, phrase.value);
    }
  }

  /** A word count line 78 accepts, within the tokeniser's 24. */
  predicate WordCount(idx: seq<index11>)
  {
    0 < |idx| <= 24 && |idx| % 3 == 0
  }

  lemma AcceptedSpells(wl: Wordlist, phrase: Option<CStr>)
    requires Accepted(Tokenise(ExactToken, wl, phrase)) && |Tokenise(ExactToken, wl, phrase).indices| > 0
    ensures phrase.Some? && WordCount(Tokenise(ExactToken, wl, phrase).indices)
    ensures Spells(wl, Tokenise(ExactToken, wl, phrase).indices, phrase.value)
  {
    TokenisedSpells(wl, phrase);
  }

  lemma SpellsAccepted(wl: Wordlist, idx: seq<index11>, t: CStr)
    requires WellFormed(wl) && WordCount(idx) && Spells(wl, idx, t)
    ensures Accepted(Tokenise(ExactToken, wl, Some(t)))
    ensures |Tokenise(ExactToken, wl, Some(t)).indices| > 0
  {
    var j := Join(Words(wl, idx));
    var tail := if t == j then "" else " ";
    TokeniseWords(wl, idx, tail);
    assert t == j + tail;
  }

  // ---- Bits ----

  /** The indices followed by the zero word the decoder pads with. */
  lemma PadZero(idx: seq<index11>, n: nat)
    requires n == 11 * |idx|
    ensures Pack(idx + [0], 11) == Pack(idx, 11)[..n] + Zeros(11)
  {
    var all := Pack(idx, 11);
    PackAppend(idx, [0], 11);
    assert Pack([0], 11) == Zeros(11) by {
      assert [0][..0] == [];
      ToBitsZero(11);
    }
    assert all[..n] == all;
  }

  /** The first 4m repacked bytes of 3m indices are, bit for bit, the first
      32m bits of the indices. */
  lemma RepackedBits(idx: seq<index11>, m: nat)
    requires |idx| == 3 * m && 1 <= m <= 8
    ensures 4 * m <= |Repack(idx)| && 32 * m <= |Pack(idx, 11)|
    ensures Pack(Repack(idx)[..4 * m], 8) == Pack(idx, 11)[..32 * m]
  {
    var all := Pack(idx, 11);
    var n := 11 * |idx|;
    PadZero(idx, n);
    var e := Repack(idx)[..4 * m];
    var bs := all[..32 * m];
    forall i | 0 <= i < 4 * m
      ensures bs[8 * i..8 * i + 8] == ToBits(e[i], 8)
    {
      CoveredByte(idx, all, i, n);
      ToBitsValue(all[8 * i..8 * i + 8]);
      PrefixSlice(all, 32 * m, 8 * i, 8 * i + 8);
    }
    PackOfOctets(e, bs);
  }

  /** Checksum bits that match the digest byte `d0` are its leading `m`
      bits, and they sit at bits [lo, hi) = [32m, 33m) of the indices'
      packing. */
  lemma ChecksumBits(idx: seq<index11>, m: nat, d0: byte, lo: nat, hi: nat)
    requires |idx| == 3 * m && 1 <= m <= 8 && lo == 32 * m && hi == lo + m
    requires CheckBits(LastByte(idx), 3 * m) == CheckBits(d0, 3 * m)
    ensures hi == |Pack(idx, 11)|
    ensures Pack(idx, 11)[lo..hi] == ToBits(d0, 8)[..m]
  {
    var c := 3 * m;
    LastIndex(m, c);
    var all := Pack(idx, 11);
    PadZero(idx, hi);
    LastCheckBits(idx, all, m, c, lo);
    ValueInjective(all[lo..hi], ToBits(d0, 8)[..m]);
  }

  /** Entropy `e` repacked from 3m indices whose checksum matches the
      digest `d`, followed by `d`, begins with the bits of those indices:
      its first `lo` = 32m bits are the entropy's and the next m bits are
      the checksum's. */
  lemma LeadingBits(idx: seq<index11>, m: nat, e: seq<byte>, d: Digest, lo: nat, hi: nat)
    requires |idx| == 3 * m && 1 <= m <= 8 && lo == 32 * m && hi == lo + m
    requires 4 * m <= |Repack(idx)| && e == Repack(idx)[..4 * m]
    requires ChecksumMatches(idx, d)
    ensures hi <= 8 * |e + d|
    ensures Pack(e + d, 8)[..hi] == Pack(idx, 11)
  {
    var all := Pack(idx, 11);
    var bits := Pack(e + d, 8);
    RepackedBits(idx, m);
    ChecksumBits(idx, m, d[0], lo, hi);
    HeadBits(e, d, lo);
    CheckField(e, d, m, lo, hi);
    Glue(bits, all, lo, hi);
  }

  /** The packing of `e + d` begins with the packing of `e`. */
  lemma HeadBits(e: seq<byte>, d: seq<byte>, lo: nat)
    requires lo == 8 * |e|
    ensures lo <= |Pack(e + d, 8)|
    ensures Pack(e + d, 8)[..lo] == Pack(e, 8)
  {
    PackAppend(e, d, 8);
    PrefixOfAppend(Pack(e, 8), Pack(d, 8));
  }

  /** The m bits after the entropy are the leading bits of `d[0]`. */
  lemma CheckField(e: seq<byte>, d: Digest, m: nat, lo: nat, hi: nat)
    requires |e| == 4 * m && 1 <= m <= 8 && lo == 32 * m && hi == lo + m
    ensures hi <= |Pack(e + d, 8)|
    ensures Pack(e + d, 8)[lo..hi] == ToBits(d[0], 8)[..m]
  {
    var buf := e + d;
    ByteField(buf, 4 * m, m, lo);
    assert buf[4 * m] == d[0];
  }

  lemma Glue<T>(bits: seq<T>, all: seq<T>, lo: nat, hi: nat)
    requires lo <= hi == |all| <= |bits|
    requires bits[..lo] == all[..lo] && bits[lo..hi] == all[lo..hi]
    ensures bits[..hi] == all
  {
    PrefixExtend(bits, lo, hi);
    PrefixRest(all, lo, hi);
  }

  lemma PrefixOfAppend<T>(x: seq<T>, y: seq<T>)
    ensures (x + y)[..|x|] == x
  {
  }

  /** The indices Encode selects for such an `e` are the indices `e` was
      repacked from. */
  lemma EntropyIndices(idx: seq<index11>, m: nat, e: seq<byte>, d: Digest)
    requires |idx| == 3 * m && 1 <= m <= 8
    requires 4 * m <= |Repack(idx)| && e == Repack(idx)[..4 * m]
    requires ChecksumMatches(idx, d)
    ensures 11 * (3 * m) <= 8 * |e + d|
    ensures Indices(e + d, 3 * m) == idx
  {
    var buf := e + d;
    var c := 3 * m;
    LeadingBits(idx, m, e, d, 32 * m, 33 * m);
    IndicesPack(buf, c);
    IndexFits(Indices(buf, c));
    IndexFits(idx);
    PackInjective(Indices(buf, c), idx, 11);
  }

  lemma IndexFits(s: seq<index11>)
    ensures Fits(s, 11)
  {
    Pow2Constants();
  }

  // ---- The converse ----

  /** What a successful `Recover` has established about the phrase: it
      was read completely into `idx`, 3m indices that repack into `e` and
      carry the checksum of the digest of `e`. */
  lemma RecoverFacts(wl: Wordlist, phrase: Option<CStr>, sha256: Sha256, e: seq<byte>, idx: seq<index11>, m: nat)
    requires Recover(wl, phrase, sha256) == Success(e)
    requires idx == Tokenise(ExactToken, wl, phrase).indices && m == |e| / 4
    ensures !More(Tokenise(ExactToken, wl, phrase).rest)
    ensures |idx| == 3 * m && 1 <= m <= 8 && |e| == 4 * m
    ensures 4 * m <= |Repack(idx)| && e == Repack(idx)[..4 * m]
    ensures ChecksumMatches(idx, sha256(e))
  {
    var count := |idx|;
    assert && !More(Tokenise(ExactToken, wl, phrase).rest) && 0 < count && count % 3 == 0
      && count * 4 / 3 <= |Repack(idx)| && e == Repack(idx)[..count * 4 / 3]
      && ChecksumMatches(idx, sha256(e));
    WordsOfEntropy(count, |e|, m);
  }

  /** `count` words, a multiple of three, stand for `n = 4m` bytes. */
  lemma WordsOfEntropy(count: nat, n: nat, m: nat)
    requires 0 < count <= 24 && count % 3 == 0 && n == count * 4 / 3 && m == n / 4
    ensures count == 3 * m && 1 <= m <= 8 && n == 4 * m
  {
    EntropyLength(count);
  }

  /** A phrase read completely into such indices spells the indices Encode
      selects for `e`. */
  lemma ScannedSpells(wl: Wordlist, phrase: Option<CStr>, sha256: Sha256, e: seq<byte>, idx: seq<index11>, m: nat)
    requires idx == Tokenise(ExactToken, wl, phrase).indices && !More(Tokenise(ExactToken, wl, phrase).rest)
    requires |idx| == 3 * m && 1 <= m <= 8
    requires 4 * m <= |Repack(idx)| && e == Repack(idx)[..4 * m]
    requires ChecksumMatches(idx, sha256(e))
    ensures 11 * (3 * m) <= 8 * |e + sha256(e)|
    ensures phrase.Some? && Spells(wl, Indices(e + sha256(e), 3 * m), phrase.value)
  {
    TokenisedSpells(wl, phrase);
    EntropyIndices(idx, m, e, sha256(e));
  }

  /** Text that spells the indices Encode selects for `e` is the mnemonic
      of `e`, possibly followed by one space. */
  lemma SpelledMnemonic(wl: Wordlist, e: seq<byte>, sha256: Sha256, t: string, m: nat)
    requires |e| == 4 * m && 1 <= m <= 8 && 11 * (3 * m) <= 8 * |e + sha256(e)|
    requires Spells(wl, Indices(e + sha256(e), 3 * m), t)
    ensures Supported(|e|) && ReadsFit(|e|)
    ensures t == Mnemonic(wl, e, sha256) || t == Mnemonic(wl, e, sha256) + " "
  {
    EntropyFits(|e|, m);
    assert Mnemonic(wl, e, sha256) == Join(Words(wl, Indices(e + sha256(e), 3 * m)));
  }

  /** 4m bytes, 1 <= m <= 8, are a supported length whose reads fit and
      which Encode spells in 3m words. */
  lemma EntropyFits(n: nat, m: nat)
    requires n == 4 * m && 1 <= m <= 8
    ensures Supported(n) && ReadsFit(n) && n * 3 / 4 == 3 * m
  {
    ReadsFitExactly(n);
  }

  /** Every phrase the intended decoder turns into entropy `e` is the
      mnemonic of `e`, or that mnemonic and one space; this holds for every
      wordlist, well-formed or not, and every hash function. */
  lemma RecoverOnlyMnemonic(wl: Wordlist, phrase: Option<CStr>, sha256: Sha256, e: seq<byte>)
    requires Recover(wl, phrase, sha256) == Success(e)
    ensures Supported(|e|) && ReadsFit(|e|) && phrase.Some?
    ensures phrase.value == Mnemonic(wl, e, sha256) || phrase.value == Mnemonic(wl, e, sha256) + " "
  {
    var idx := Tokenise(ExactToken, wl, phrase).indices;
    var m := |e| / 4;
    RecoverFacts(wl, phrase, sha256, e, idx, m);
    ScannedSpells(wl, phrase, sha256, e, idx, m);
    SpelledMnemonic(wl, e, sha256, phrase.value, m);
  }

  /** The phrases the intended decoder accepts are exactly the mnemonics of
      the supported entropies, each with or without one trailing space, and
      each decodes to the entropy it was built from. */
  lemma DecodesExactly(wl: Wordlist, phrase: Option<CStr>, sha256: Sha256, e: seq<byte>)
    requires WellFormed(wl)
    ensures Recover(wl, phrase, sha256) == Success(e) <==>
      && Supported(|e|) && ReadsFit(|e|) && phrase.Some?
      && (phrase.value == Mnemonic(wl, e, sha256) || phrase.value == Mnemonic(wl, e, sha256) + " ")
  {
    if Recover(wl, phrase, sha256) == Success(e) {
      RecoverOnlyMnemonic(wl, phrase, sha256, e);
    }
    if Supported(|e|) && ReadsFit(|e|) && phrase.Some? {
      var text := Mnemonic(wl, e, sha256);
      if phrase.value == text {
        RecoverMnemonic(wl, e, sha256);
      } else if phrase.value == text + " " {
        RecoverPhrase(wl, e, sha256, " ");
      }
    }
  }

  /** A phrase the intended validator accepts is the mnemonic of the
      entropy it decodes to, possibly followed by one space. */
  lemma ValidIsMnemonic(wl: Wordlist, phrase: Option<CStr>, sha256: Sha256)
    requires PhraseIsValidFixed(wl, phrase, sha256)
    ensures Recover(wl, phrase, sha256).Success?
    ensures var e := Recover(wl, phrase, sha256).value;
      && Supported(|e|) && ReadsFit(|e|) && phrase.Some?
      && (phrase.value == Mnemonic(wl, e, sha256) || phrase.value == Mnemonic(wl, e, sha256) + " ")
  {
    RecoverOnlyMnemonic(wl, phrase, sha256, Recover(wl, phrase, sha256).value);
  }
}
