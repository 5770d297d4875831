# BIP-39 mnemonic codec (loafwallet-core `BRBIP39Mnemonic.c`)

A Dafny model of the BIP-39 codec of loafwallet-core and proofs about it.
It covers four C functions:

- `BRBIP39Encode` turns 4·k bytes of entropy into a phrase of 3·k words.
  It appends the SHA-256 digest of the entropy to the entropy. Word i is
  then chosen by the 11 bits at bit offset 11·i of that buffer. The C code
  reads those bits with a big-endian 32-bit read, a right shift and
  `% 2048`. It writes the words, separated by spaces, into a caller-sized
  buffer, and a NULL buffer asks for the size.
- `BRBIP39Decode` splits the phrase at spaces and takes at most 24 words.
  It looks each word up in the wordlist and packs the 11-bit indices back
  into bytes. It compares the leading count/3 bits of the last byte with
  the first digest byte.
- `BRBIP39PhraseIsValid` is a decode into no buffer.
- `BIP39DeriveKey` derives the seed: PBKDF2 with HMAC-SHA512 over the
  phrase, 2048 rounds, 64 bytes, salted with "mnemonic" followed by the
  passphrase.

The two central results concern the intended decoder, which uses exact word
lookup. Decoding the phrase Encode builds from entropy e gives e back
(RoundTrip.RecoverPhrase). Conversely, every phrase the intended decoder
accepts is such a phrase, alone or followed by one space
(Canonical.DecodesExactly).

Modules, in dependency order:

| file | module | contents |
|---|---|---|
| results.dfy | `Results` | `Option`, `Result`, and `Call`, the outcome of a C call: the returned count and the caller's buffer afterwards, or `Undefined` for C undefined behaviour |
| bits.dfy | `Bits` | bytes, 11-bit indices, MSB-first bit strings, `Value`/`ToBits`/`Pack`, and the shift-and-mask window lemma |
| crypto.dfy | `Crypto` | SHA-256 and PBKDF2 as function-valued parameters |
| text.dfy | `Text` | C strings, the wordlist, `strncmp`-prefix, `strchr`-split, the join of words, and reading a C string out of a buffer |
| encoder.dfy | `Encoder` | `BRBIP39Encode` as written, and as intended |
| decoder.dfy | `Decoder` | `BRBIP39Decode` as written (a function, and a method statement by statement), and the intended decoder `Recover` |
| roundtrip.dfy | `RoundTrip` | decoding a generated mnemonic gives the entropy back |
| canonical.dfy | `Canonical` | the converse: every phrase the intended decoder accepts is the mnemonic of the entropy it decodes to |
| validator.dfy | `Validator` | `BRBIP39PhraseIsValid` as written, and as intended |
| seed.dfy | `Seed` | `BIP39DeriveKey` |
| findings.dfy | `Findings` | concrete inputs on which the C code does not do what it means to |

Conventions:

- C `>>` on unsigned values is division by a power of two, and `& 0xff` is
  `% 256`. No 32-bit intermediate in the code can overflow: the 32-bit
  window is below 2^32, and `x*2048 + y` is below 2^22. So unbounded
  arithmetic agrees with the C arithmetic.
- A NULL pointer is `None`.
- A buffer is a sequence at least as long as the capacity the caller
  declares.
- A C string is a NUL-free `string`.

The comment of line 30 says the count Encode returns includes the NUL
terminator. Line 55 returns the length without it. The model follows the
code (see Findings).

BIP-39 looks each word up by exact match. Line 68 instead records the
first entry that is NOT a prefix of the word. The model follows the code,
and models the exact lookup as the intended decoder.

## Model

| member | source | states |
|---|---|---|
| Bits.BigEndian | BRBIP39Mnemonic.c:44 | `be32` of four bytes is the number their 32 bits denote, most significant first |
| Text.AfterSpace | BRBIP39Mnemonic.c:74-75 | `strchr` then `++`: NULL exactly when the text has no space; otherwise the text is the token, a space, and the result |
| Text.Join | BRBIP39Mnemonic.c:46-49 | the phrase of n words has their total length plus n-1 separators and does not start with a space |
| Text.JoinCons | BRBIP39Mnemonic.c:46-49 | the phrase of several words is the first word, a space, and the phrase of the rest |
| Text.CString | BRBIP39Mnemonic.c:30 | a buffer holds a C string exactly when it contains a NUL; the string is the prefix before the first NUL |
| Text.CStringOf | BRBIP39Mnemonic.c:30 | a string written with its terminator reads back as itself, whatever follows |
| Text.StrNCmpZero | BRBIP39Mnemonic.c:68 | `strncmp(word, w, strlen(w)) == 0`, compared character by character, holds exactly when the word begins with `w` |
| Encoder.EncodeShift | BRBIP39Mnemonic.c:45 | the shift `32 - (11 + (i*11) % 8)` lies in [14, 21] and stops exactly at the end of field i |
| Encoder.FieldAt | BRBIP39Mnemonic.c:44-45 | the be32 read at byte i*11/8, shifted and reduced `% 2048`, is the 11-bit field at bit 11·i of the buffer |
| Encoder.WindowHoldsField | BRBIP39Mnemonic.c:44-45 | the shifted and masked 32-bit window equals the value of bits [11i, 11i+11) of the buffer |
| Encoder.ReadsFitExactly | BRBIP39Mnemonic.c:36-44 | for a multiple of 4 bytes, every 32-bit read stays inside the entropy-plus-digest buffer exactly when there are at most 968 bytes |
| Encoder.Pad | BRBIP39Mnemonic.c:48 | what `strncpy` puts in n characters: the source, truncated or NUL-filled |
| Encoder.StrNCopy | BRBIP39Mnemonic.c:48 | `strncpy(&buf[at], src, n)` puts `src`, truncated or NUL-filled, at positions [at, at+n); every other position and the length are unchanged |
| Encoder.EmitSpace | BRBIP39Mnemonic.c:46-47 | before every word but the first, the separator joins the emitted text and the length counts it, whether or not it fits |
| Encoder.EmitText | BRBIP39Mnemonic.c:48-49 | after the copy the buffer holds the emitted text plus the word, cut at the capacity, and the length counts the whole word |
| Encoder.EmitWord | BRBIP39Mnemonic.c:44-49 | one iteration: the field at bit 11·i selects a word, and the buffer state and the length move from the join of i words to the join of i+1 words |
| Encoder.EmitWords | BRBIP39Mnemonic.c:43-50 | the loop is defined exactly when every read fits; the buffer then holds the joined words cut to the capacity, and the length is the phrase length |
| Encoder.Encode | BRBIP39Mnemonic.c:31-56 | absent data or data that is not a multiple of 4 bytes gives 0 and no write; otherwise the call is undefined exactly when some read overruns; else it returns the phrase length (or 0 when the capacity is too small) and writes nothing at or past the capacity |
| Encoder.EncodeFixed | BRBIP39Mnemonic.c:30-56 | intended encoder: a positive result exactly for 4-32 bytes of entropy and room for the phrase and its NUL; the result then counts the NUL, the buffer holds the phrase and the NUL, and the rest is untouched |
| Decoder.Lookup | BRBIP39Mnemonic.c:67-69 | the first wordlist entry the matching selects for the word, with no earlier entry selected; or none when no entry is selected |
| Decoder.FindWord | BRBIP39Mnemonic.c:67-69 | the loop over the wordlist, testing with `strncmp`, computes the as-written lookup |
| Decoder.ScanFrom | BRBIP39Mnemonic.c:66-76 | the tokeniser keeps the indices already recorded, records at most 24, and stops only at the end of the text, at 24 words or at an unknown word |
| Decoder.Tokenise | BRBIP39Mnemonic.c:66-76 | the tokeniser from the start of the phrase stops in a stopping state with at most 24 indices |
| Decoder.ScanPhrase | BRBIP39Mnemonic.c:66-76 | the while loop computes the indices and the final `word` pointer of the tokeniser |
| Decoder.RepackShift | BRBIP39Mnemonic.c:84 | the shift of byte i lies in [4, 14] and places byte i at bit 8i of the 22-bit window of words i*8/11 and i*8/11+1 |
| Decoder.RepackByteBits | BRBIP39Mnemonic.c:81-84 | byte i of the loop is bits [8i, 8i+8) of the 11-bit indices followed by eleven zero bits |
| Decoder.CheckBits | BRBIP39Mnemonic.c:89 | `v >> (8 - count/3)` is the number the leading count/3 bits of v denote, below 2^(count/3) |
| Decoder.ChecksumMatches | BRBIP39Mnemonic.c:89 | the test passes exactly when the leading count/3 bits of the last byte and of the first digest byte are the same bits |
| Decoder.Reported | BRBIP39Mnemonic.c:73-79 | the count before the checksum is positive only for a consumed phrase of a multiple of three words, where it is count*4/3 and fits the buffer; 0 otherwise |
| Decoder.EntropyLength | BRBIP39Mnemonic.c:73 | 3m words give 4m bytes, between 4 and 32 |
| Decoder.Decoded | BRBIP39Mnemonic.c:59-95 | the as-written call is undefined exactly when some word is recorded and the buffer is NULL or shorter than count*4/3; a positive result needs a consumed phrase of a multiple of three words and is count*4/3, within the capacity; the buffer holds the first r repacked bytes of line 79 and its old bytes after them |
| Decoder.Finish | BRBIP39Mnemonic.c:78-90 | the same once the tokeniser has stopped; the result is 0 or line 79's count; a positive result means the checksum test passed on the digest of the stored repacked bytes, and once line 79's count is positive the result is positive exactly when it does |
| Decoder.StoreBytes | BRBIP39Mnemonic.c:81-86 | the loop stores the first r repacked bytes over the caller's buffer and leaves `b` as the last byte |
| Decoder.Decode | BRBIP39Mnemonic.c:59-95 | the statement-by-statement decoder computes the as-written call |
| Decoder.Conclude | BRBIP39Mnemonic.c:78-94 | lines 78-94 compute the as-written result from the tokeniser's final state |
| Decoder.Recover | BRBIP39Mnemonic.c:59-95 | intended decoding: success is 4-32 bytes, a multiple of 4; `TooManyWords` only after 24 words |
| Decoder.DecodeFixed | BRBIP39Mnemonic.c:58-95 | intended decoder: a positive result exactly when the phrase decodes and the entropy fits; the buffer then holds the entropy; otherwise the buffer is untouched |
| RoundTrip.ScanChain | BRBIP39Mnemonic.c:66-76 | along texts whose words select the given indices, one after the other, the tokeniser records exactly those indices and ends at the pointer after the last word |
| RoundTrip.WordsChain | BRBIP39Mnemonic.c:43-50 | the phrase built from wordlist entries of a well-formed list, with or without a trailing space, is such a chain for the exact lookup |
| RoundTrip.TokeniseWords | BRBIP39Mnemonic.c:66-76 | with exact lookup, the tokeniser gives back the indices of a phrase built from 1 to 24 words; it ends at NULL, or at the empty text after a trailing space |
| RoundTrip.SplitJoin | BRBIP39Mnemonic.c:74-75 | splitting a joined phrase at the first space gives its first word and the phrase of the rest; after the last word, NULL or the empty text after a trailing space |
| RoundTrip.LookupWord | BRBIP39Mnemonic.c:67-69 | in a well-formed wordlist the exact lookup finds the entry the word is |
| RoundTrip.IndicesPack | BRBIP39Mnemonic.c:43-45 | packing the chosen indices back into 11-bit fields gives the leading bits of the entropy-plus-digest buffer |
| RoundTrip.PaddedIndices | BRBIP39Mnemonic.c:81-84 | the indices followed by the zero word the decoder pads with are the buffer's leading bits and eleven zero bits |
| RoundTrip.RepackCovered | BRBIP39Mnemonic.c:81-84 | every byte the indices cover completely is repacked to the byte of the buffer it came from |
| RoundTrip.EntropyRepacked | BRBIP39Mnemonic.c:81-85 | the first 4m repacked bytes of a mnemonic's 3m indices are the entropy |
| RoundTrip.LastCheckBits | BRBIP39Mnemonic.c:81-89 | for 3m indices, the checksum bits of the last byte of the loop are bits [32m, 33m) of the indices' 11-bit encodings |
| RoundTrip.LastByteChecksum | BRBIP39Mnemonic.c:89 | the checksum bits of the last repacked byte are the leading bits of the first digest byte |
| RoundTrip.TokeniseMnemonic | BRBIP39Mnemonic.c:66-76 | the exact tokeniser reads the mnemonic of e back into the indices Encode chose for it |
| RoundTrip.MnemonicIndices | BRBIP39Mnemonic.c:81-89 | the indices Encode chooses for e repack into e and pass the checksum test against the digest of e |
| RoundTrip.RecoverPhrase | BRBIP39Mnemonic.c:31-95 | for every well-formed wordlist, every hash and every supported length, intended decoding of the mnemonic of e, alone or followed by one space (line 78 accepts an empty remainder), gives e |
| RoundTrip.RecoverMnemonic | BRBIP39Mnemonic.c:31-95 | for every well-formed wordlist, every hash and every supported length, intended decoding of the mnemonic of e gives e |
| RoundTrip.DecodeFixedMnemonic | BRBIP39Mnemonic.c:58-95 | the intended decoder writes a mnemonic's entropy into a large enough buffer and returns its length |
| RoundTrip.EncodeFixedRoundTrip | BRBIP39Mnemonic.c:30-95 | whenever the intended encoder writes, its buffer holds a terminated C string that is the mnemonic and decodes back to the entropy |
| Canonical.ScanJoins | BRBIP39Mnemonic.c:66-78 | when the exact tokeniser ends with no text left, the text it read is the recorded words joined by single spaces, with at most one trailing space |
| Canonical.TokenisedSpells | BRBIP39Mnemonic.c:66-78 | a phrase consumed into at least one index spells exactly those indices |
| Canonical.AcceptedWords | BRBIP39Mnemonic.c:66-78 | under exact lookup, line 78 accepts a non-empty word count exactly when the phrase is 3 to 24 wordlist entries, a multiple of three, joined by single spaces with at most one trailing space |
| Canonical.RepackedBits | BRBIP39Mnemonic.c:81-85 | the first 4m repacked bytes of 3m indices are, bit for bit, the first 32m bits of the indices |
| Canonical.ChecksumBits | BRBIP39Mnemonic.c:89 | when the checksum test passes against a digest byte, the m bits after bit 32m of the indices are that byte's leading m bits |
| Canonical.LeadingBits | BRBIP39Mnemonic.c:81-89 | the repacked entropy of indices that pass the checksum, followed by its digest, begins with the 33m bits of the indices |
| Canonical.EntropyIndices | BRBIP39Mnemonic.c:81-89 | Encode run on that entropy chooses exactly the indices it was repacked from |
| Canonical.RecoverFacts | BRBIP39Mnemonic.c:73-89 | a successful intended decoding consumed the phrase into 3m indices (1 <= m <= 8) that repack into the 4m-byte entropy and pass the checksum |
| Canonical.SpelledMnemonic | BRBIP39Mnemonic.c:43-50 | text spelling the indices Encode chooses for e is the mnemonic of e, with at most one trailing space |
| Canonical.RecoverOnlyMnemonic | BRBIP39Mnemonic.c:31-95 | for every wordlist and every hash, a phrase that decodes to e is the mnemonic of e, alone or followed by one space |
| Canonical.DecodesExactly | BRBIP39Mnemonic.c:31-95 | for a well-formed wordlist: a phrase decodes to e exactly when e has a supported length and the phrase is the mnemonic of e, alone or followed by one space |
| Canonical.ValidIsMnemonic | BRBIP39Mnemonic.c:97-101 | a phrase the intended validator accepts is the mnemonic of the entropy it decodes to, with at most one trailing space |
| Validator.PhraseIsValid | BRBIP39Mnemonic.c:98-101 | as written: undefined exactly when the tokeniser records a word, and never true |
| Validator.PhraseIsValidFixed | BRBIP39Mnemonic.c:97-101 | intended: valid exactly when the phrase decodes to entropy |
| Validator.MnemonicIsValid | BRBIP39Mnemonic.c:97-101 | every mnemonic of supported entropy is valid for the intended validator |
| Seed.Salt | BRBIP39Mnemonic.c:107-111 | the salt is "mnemonic" followed by the passphrase, or "mnemonic" alone when there is none |
| Seed.DeriveKey | BRBIP39Mnemonic.c:105-114 | without a phrase the key is left as it was; with one it is PBKDF2 of the phrase and salt |
| Seed.SaltInjective | BRBIP39Mnemonic.c:107-111 | two passphrases give the same salt exactly when their texts agree, so NULL and "" share one |
| Seed.SeedOfPhrase | BRBIP39Mnemonic.c:112 | the seed does not depend on the old key contents and is PBKDF2 of one request: HMAC-SHA512 with 64-byte output, the phrase as password, the salt of lines 107-111 (8 plus the passphrase length), 2048 rounds, 64 bytes |
| Findings.PrefixLookupMisreads | BRBIP39Mnemonic.c:68 | a word that is entry i ≠ 0 and does not begin with entry 0 is read as index 0, while the exact lookup finds i |
| Findings.ValidationReadsNull | BRBIP39Mnemonic.c:88-100 | a non-empty phrase not beginning with entry 0 makes the validator hash through NULL |
| Findings.ThreeWordScan | BRBIP39Mnemonic.c:66-76 | with "abandon" first, a word not beginning with 'a', three times, is read as three zero indices and consumed |
| Findings.ShortBufferOverread | BRBIP39Mnemonic.c:79-88 | three words decoded into a 3-byte buffer make the as-written call undefined, since line 88 hashes 4 bytes of it; the intended decoder returns 0 and leaves the buffer alone |
| Findings.WrittenDespiteBadChecksum | BRBIP39Mnemonic.c:85-89 | that phrase decoded into a 4-byte buffer returns 0 but leaves four zero bytes in the buffer |
| Findings.ExactCapacityUnterminated | BRBIP39Mnemonic.c:46-55 | with a buffer exactly as long as the phrase, Encode reports success and leaves a buffer with no NUL |
| Findings.OverreadFrom972 | BRBIP39Mnemonic.c:33-44 | 968 bytes of entropy are read safely; with 972 the last 32-bit read ends one byte past the 1004-byte buffer |

## Left out

- SHA-256, HMAC-SHA512 and PBKDF2 (`BRSHA256`, `BRSHA512`, `BRPBKDF2`) belong to another library. They are parameters, and every proof holds for any function of their types.
- The wordlist contents are a parameter. The round trip needs a well-formed list: distinct, non-empty words with no space, as the BIP-39 lists are.
- Unicode NFKD normalisation of the phrase and passphrase (comment of lines 103-104) is the caller's job.
- The zeroing of working storage at lines 52-54 and 91-93 has no effect on any result. A value model has no memory to clear.
- Stack layout and the variable-length arrays of lines 36 and 107 are not modelled. A read past `buf` is `Undefined` for the whole call.
- C `char` and `uint8_t` are not distinguished from Dafny `char` and `nat < 256`. `strlen`, `strncmp` and `strchr` are modelled on sequences.
- The `INT32_MAX` sentinel of lines 67-71 is `None`.
- The caller's promise that `dataLen` (Encode) is the entropy's length and that the declared capacities are no larger than the buffers is a precondition.
- Decoder.Decoded: all undefined behaviour is one `Undefined` outcome. The model does not say which bytes a NULL or short read would return.
- Validator.PhraseIsValid: a call that reaches undefined behaviour is `None`. No truth value is claimed for it.
- Seed.SeedOfPhrase: a statement about the request only. PBKDF2 is a parameter, so nothing is said about the derived bytes.
- Decoder.Recover: the contract itself states only the result's shape. Its meaning is stated by Canonical.DecodesExactly: the accepted phrases are exactly the mnemonics, each alone or with one trailing space.

## Findings

| source | as written | input that shows it | evidently intended | confidence | as-written member | corrected member |
|---|---|---|---|---|---|---|
| BRBIP39Mnemonic.c:68 | `strncmp(...) != 0` records the first entry that is NOT a prefix of the word | with "abandon" as entry 0, any word not beginning with "abandon" ("zoo") is read as index 0 | record the entry the word is (exact match up to the next space) | not executed | Findings.PrefixLookupMisreads | RoundTrip.RecoverMnemonic |
| BRBIP39Mnemonic.c:88-100 | the checksum hashes count*4/3 bytes of `data`, which the validator passes as NULL | `BRBIP39PhraseIsValid` on "zoo zoo zoo" hashes through a null pointer, so it never reports a valid phrase | hash the repacked entropy itself | not executed | Findings.ValidationReadsNull | Validator.PhraseIsValidFixed |
| BRBIP39Mnemonic.c:79-88 | after line 79 sets r to 0 for a short buffer, line 88 still hashes count*4/3 bytes of it | "zoo zoo zoo" decoded into a 3-byte buffer declared as 3 bytes: the hash reads a fourth byte past the end | return 0 without reading the buffer | not executed | Findings.ShortBufferOverread | Decoder.DecodeFixed |
| BRBIP39Mnemonic.c:85-89 | the first r bytes are stored before the checksum is tested | "zoo zoo zoo" decoded into a 4-byte buffer returns 0 but overwrites the buffer with four zero bytes | write the entropy only once the checksum passes | not executed | Findings.WrittenDespiteBadChecksum | Decoder.DecodeFixed |
| BRBIP39Mnemonic.c:46-55 | the returned length excludes the terminator, which `strncpy` writes only if there is room | 16 bytes of entropy and a phrase buffer exactly as long as the phrase: Encode reports success and the buffer holds no NUL | require room for the NUL and count it, as the comment of line 30 says | not executed | Findings.ExactCapacityUnterminated | Encoder.EncodeFixed |
| BRBIP39Mnemonic.c:33-44 | only `dataLen % 4` is checked before the 32-bit reads of `buf` | 972 bytes of entropy: the last read, at bytes 1001-1004, passes the end of the 1004-byte buffer | accept only the BIP-39 lengths (at most 32 bytes) | not executed | Findings.OverreadFrom972 | Encoder.EncodeFixed |
