/** `BIP39DeriveKey`: the 64-byte seed of a mnemonic is PBKDF2 with
    HMAC-SHA512 over the phrase, salted with "mnemonic" followed by the
    passphrase, 2048 rounds. */
module Seed {
  import opened Results
  import opened Text
  import opened Crypto

  /** The salt of lines 107-111: "mnemonic", then the passphrase if there
      is one. */
  function Salt(passphrase: Option<CStr>): (s: CStr)
    ensures |s| >= 8 && s[..8] == "mnemonic"
    ensures s[8..] == Passphrase(passphrase)
  {
    "mnemonic" + Passphrase(passphrase)
  }

  /** The passphrase text, empty when there is none. */
  function Passphrase(passphrase: Option<CStr>): CStr
  {
    if passphrase.None? then "" else passphrase.value
  }

  /** The PBKDF2 call of line 112. */
  function SeedRequest(phrase: CStr, passphrase: Option<CStr>): KdfRequest
  {
    KdfRequest(HmacSha512, 64, phrase, Salt(passphrase), 2048, 64)
  }

  /** Lines 105-114: the key buffer is overwritten with the derived seed
      when there is a phrase and left as it was otherwise. */
  function DeriveKey(key: Key, phrase: Option<CStr>, passphrase: Option<CStr>, pbkdf2: Pbkdf2): (k: Key)
    ensures phrase.None? ==> k == key
    ensures phrase.Some? ==> k == pbkdf2(SeedRequest(phrase.value, passphrase))
  {
    if phrase.None? then key else pbkdf2(SeedRequest(phrase.value, passphrase))
  }

  /** Distinct passphrases give distinct salts, and so distinct PBKDF2
      requests; an absent passphrase is the empty one. */
  lemma SaltInjective(p: Option<CStr>, q: Option<CStr>)
    ensures Salt(p) == Salt(q) <==> Passphrase(p) == Passphrase(q)
  {
    if Salt(p) == Salt(q) {
      assert Salt(p)[8..] == Salt(q)[8..];
    }
  }

  /** The request PBKDF2 receives is the phrase, the salt and the fixed
      parameters of BIP-39, whatever the key held before. */
  lemma SeedOfPhrase(key: Key, key': Key, phrase: CStr, passphrase: Option<CStr>, pbkdf2: Pbkdf2)
    ensures DeriveKey(key, Some(phrase), passphrase, pbkdf2) == DeriveKey(key', Some(phrase), passphrase, pbkdf2)
    ensures DeriveKey(key, Some(phrase), passphrase, pbkdf2) == pbkdf2(SeedRequest(phrase, passphrase))
    ensures SeedRequest(phrase, passphrase).prf == HmacSha512 && SeedRequest(phrase, passphrase).prfLen == 64
    ensures SeedRequest(phrase, passphrase).password == phrase
    ensures SeedRequest(phrase, passphrase).salt == Salt(passphrase)
    ensures |SeedRequest(phrase, passphrase).salt| == 8 + |Passphrase(passphrase)|
    ensures SeedRequest(phrase, passphrase).rounds == 2048 && SeedRequest(phrase, passphrase).keyLen == 64
  {
  }
}
