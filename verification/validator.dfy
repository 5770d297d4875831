/** `BRBIP39PhraseIsValid`: a phrase is valid when decoding it into no
    buffer reports a positive length. */
module Validator {
  import opened Bits
  import opened Results
  import opened Text
  import opened Crypto
  import opened Encoder
  import opened Decoder
  import opened RoundTrip

  /** Line 100 as written: `BRBIP39Decode(NULL, 0, ...)`, then `> 0`.
      `None` stands for undefined behaviour: as soon as one word was
      recorded the decoder hashes count*4/3 bytes read through the null
      buffer, so the validator never answers true. */
  function PhraseIsValid(wl: Wordlist, phrase: Option<CStr>, sha256: Sha256): (v: Option<bool>)
    ensures v.None? <==> |Tokenise(PrefixMismatch, wl, phrase).indices| > 0
    ensures v != Some(true)
  {
    var sc := Tokenise(PrefixMismatch, wl, phrase);
    assert |sc.indices| == 0 ==> Reported(sc, None, 0) == 0;
    match Decoded(None, 0, wl, phrase, sha256)
    case Undefined => None
    case Returned(r, _) => Some(r > 0)
  }

  /** The validator over the intended decoder: a phrase is valid exactly
      when it decodes to entropy. */
  function PhraseIsValidFixed(wl: Wordlist, phrase: Option<CStr>, sha256: Sha256): (v: bool)
    ensures v <==> Recover(wl, phrase, sha256).Success?
  {
    DecodeFixed(None, 0, wl, phrase, sha256).r > 0
  }

  /** Every mnemonic Encode builds is valid for the intended validator. */
  lemma MnemonicIsValid(wl: Wordlist, e: seq<byte>, sha256: Sha256)
    requires WellFormed(wl) && Supported(|e|)
    ensures ReadsFit(|e|)
    ensures PhraseIsValidFixed(wl, Some(Mnemonic(wl, e, sha256)), sha256)
  {
    RecoverMnemonic(wl, e, sha256);
  }
}
