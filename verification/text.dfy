/** Text-level vocabulary of the codec: C strings, the 2048-entry wordlist,
    the space-separated phrase and the two C library routines the decoder's
    tokeniser uses (`strncmp` against a word's length, `strchr` for the next
    space). */
module Text {
  import opened Results

  /** The characters of a C string before its terminator: never a NUL. */
  type CStr = s: string | '\0' !in s

  /** BIP39_WORDLIST_COUNT entries, supplied by the caller. */
  type Wordlist = wl: seq<CStr> | |wl| == 2048 witness seq(2048, _ => "")

  /** A wordlist a decoder can invert: distinct, non-empty words without
      spaces (the published BIP-39 lists have this shape). */
  predicate WellFormed(wl: Wordlist)
  {
    && (forall i :: 0 <= i < 2048 ==> |wl[i]| > 0 && ' ' !in wl[i])
    && (forall i, j :: 0 <= i < j < 2048 ==> wl[i] != wl[j])
  }

  /** `strncmp(text, w, strlen(w)) == 0` for NUL-free `w` and `text`. */
  predicate IsPrefix(w: string, text: string)
  {
    |w| <= |text| && text[..|w|] == w
  }

  /** `strncmp(s1, s2, n) == 0`: comparing character by character, the
      first `n` positions agree or both strings end together before
      them. A string reads as NUL at its end. Compared over the length of
      a NUL-free `s2`, this is `s1` beginning with `s2`. */
  function StrNCmpZero(s1: string, s2: CStr, n: nat): (r: bool)
    ensures n == |s2| ==> (r <==> IsPrefix(s2, s1))
    decreases n
  {
    var c1 := if |s1| > 0 then s1[0] else '\0';
    var c2 := if |s2| > 0 then s2[0] else '\0';
    if n == 0 then true
    else if c1 != c2 then false
    else if c1 == '\0' then true
    else
      var t2: CStr := s2[1..];
      assert n == |s2| ==> (IsPrefix(s2, s1) <==> IsPrefix(t2, s1[1..])) by {
        if n == |s2| {
          assert s2 == [c2] + t2;
          if IsPrefix(t2, s1[1..]) {
            assert s1[..|s2|] == [s1[0]] + s1[1..][..|t2|];
          }
          if IsPrefix(s2, s1) {
            assert s1[1..][..|t2|] == s1[..|s2|][1..];
          }
        }
      }
      StrNCmpZero(s1[1..], t2, n - 1)
  }

  /** Position of the first space of `s`, or `|s|` if there is none. */
  function FirstSpace(s: string): (k: nat)
    ensures k <= |s|
    ensures forall j :: 0 <= j < k ==> s[j] != ' '
    ensures k < |s| ==> s[k] == ' '
  {
    if |s| == 0 || s[0] == ' ' then 0 else 1 + FirstSpace(s[1..])
  }

  /** The characters before the first space. */
  function Token(s: string): string
  {
    s[..FirstSpace(s)]
  }

  /** `strchr(s, ' ')`, then one past it: the text after the first space, or
      a null pointer when `s` has no space. */
  function AfterSpace(s: string): (r: Option<string>)
    ensures r.Some? <==> ' ' in s
    ensures r.Some? ==> s == Token(s) + " " + r.value
  {
    var k := FirstSpace(s);
    if k < |s| then
      assert s == s[..k] + " " + s[k + 1..];
      Some(s[k + 1..])
    else None
  }

  /** Total number of characters in `ws`. */
  function TotalLength(ws: seq<string>): nat
  {
    if |ws| == 0 then 0 else TotalLength(ws[..|ws| - 1]) + |ws[|ws| - 1]|
  }

  /** The words separated by single spaces, without a leading or trailing
      space. */
  function Join(ws: seq<CStr>): (s: CStr)
    ensures |ws| > 0 ==> |s| == TotalLength(ws) + |ws| - 1
    ensures |ws| > 0 && |ws[0]| > 0 && ' ' !in ws[0] ==> s[0] != ' '
  {
    if |ws| == 0 then ""
    else if |ws| == 1 then ws[0]
    else
      var init := ws[..|ws| - 1];
      assert init[0] == ws[0];
      Join(init) + " " + ws[|ws| - 1]
  }

  /** Joining is also splitting off the first word. */
  lemma {:induction false} JoinCons(ws: seq<CStr>)
    requires |ws| >= 2
    ensures Join(ws) == ws[0] + " " + Join(ws[1..])
    decreases |ws|
  {
    if |ws| > 2 {
      var init := ws[..|ws| - 1];
      JoinCons(init);
      assert init[1..] == ws[1..][..|ws| - 2];
    } else {
      assert ws[1..] == [ws[1]];
    }
  }

  /** The C string a buffer holds: its characters before the first NUL,
      or `None` when there is no NUL, so that reading it as a string runs
      past the end of the buffer. */
  function CString(buf: seq<char>): (s: Option<CStr>)
    ensures s.Some? <==> '\0' in buf
    ensures s.Some? ==> |s.value| < |buf| && buf[..|s.value|] == s.value && buf[|s.value|] == '\0'
  {
    if |buf| == 0 then None
    else if buf[0] == '\0' then Some("")
    else
      assert buf == [buf[0]] + buf[1..];
      match CString(buf[1..])
      case None => None
      case Some(t) => Some([buf[0]] + t)
  }

  /** A string written with a terminator reads back as itself. */
  lemma {:induction false} CStringOf(t: CStr, rest: seq<char>)
    ensures CString(t + "\0" + rest) == Some(t)
    decreases |t|
  {
    var buf := t + "\0" + rest;
    if |t| > 0 {
      assert buf[1..] == t[1..] + "\0" + rest;
      CStringOf(t[1..], rest);
      assert [t[0]] + t[1..] == t;
    }
  }
}
