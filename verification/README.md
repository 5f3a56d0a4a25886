# Cryptopals: CTR edit-oracle attack and repeating-key-XOR breaker, modelled in Dafny

This project models two parts of a cryptopals solution set.

**`CtrEdit`** (`ctr_edit.dfy`) models `set4/challenge25.py`. That file is the random-access
read/write AES-CTR challenge. A `SessionOracle` holds a key and a nonce that are fixed
when it is built. Every `encrypt` and `__decrypt` starts a fresh counter-mode stream at
position 0 (section 6.5 of NIST SP 800-38A). `edit` decrypts a ciphertext, splices new
text in at an offset, and encrypts again under the same keystream. The attacker
`decrypt(oracle, ct)` makes one `edit` call that overwrites the whole plaintext with
`'A'`s. It then recovers the plaintext as C xor P' xor C'.

AES is represented only by its keystream: a total function `Keystream` from (key, nonce,
position) to a byte. Everything else is exact sequence and XOR algebra. The module also
has the two helpers from the same file: `xorstr`, and `pkcs7_pad` (PKCS#7 padding,
section 6.3 of RFC 5652).

**`RepeatingKeyXor`** (`repeating_key_xor.dfy`) models the structural part of
`set1/challenge6.py`, `repeated_key_xor_decrypt`, which works in these steps:
1. It splits a hex string into two-digit bytes, left zero-padding odd lengths.
2. For each key length, it transposes the bytes into columns with stride slices
   `ct_split[i::keylen]`.
3. It breaks each column as single-byte XOR, sums the column scores, and zips the
   decrypted columns back together.
4. It returns the best-scoring attempt over key lengths 2..`max_len`.

The single-byte breaker `decrypt` and the scorer `score` come from `challenge3`. They
are function parameters here.

`arithmetic.dfy` holds three facts about `*`, `/` and `%` that both modules use.

## Model

| member | source | states |
|---|---|---|
| `CtrEdit.XorStr` | set4/challenge25.py:49-57 | needs the second string to be at least as long as the first; the result is as long as the first |
| `CtrEdit.XorStrInvolution` | set4/challenge25.py:49-57 | XOR-ing twice with the same (long enough) mask gives the input back |
| `CtrEdit.Pkcs7Pad` | set4/challenge25.py:66-72 | for every block length whose pad `length - len(s) % length` fits in a byte (where `chr(pad)` succeeds): the result is `s` followed by `pad` bytes of value `pad`, `pad` is in 1..length, and the total length is a multiple of the block length |
| `CtrEdit.Pkcs7PadMinimal` | set4/challenge25.py:71-72 | no multiple of the block length that is longer than `s` is shorter than the padded result, so the padding is the shortest possible |
| `CtrEdit.SessionOracle.constructor` | set4/challenge25.py:84-89 | the session's key, nonce and keystream are the ones given; they are `const` fields and never change afterwards |
| `CtrEdit.SessionOracle.Keystream` | set4/challenge25.py:87-93 | the first `n` bytes of the session's counter-mode stream: byte `i` is the keystream at position `i` for this key and initial counter block `nonce` |
| `CtrEdit.SessionOracle.KeystreamPrefix` | set4/challenge25.py:91-97 | every fresh encryptor or decryptor starts at position 0, so a shorter stream is a prefix of a longer one |
| `CtrEdit.SessionOracle.Encrypt` | set4/challenge25.py:91-93 | keeps the length; ciphertext byte `i` is plaintext byte `i` xor keystream byte `i`, counting from position 0 on every call |
| `CtrEdit.SessionOracle.Decrypt` | set4/challenge25.py:95-97 | keeps the length; plaintext byte `i` is ciphertext byte `i` xor keystream byte `i`, counting from position 0 (the same keystream XOR as `Encrypt`) |
| `CtrEdit.SessionOracle.Edit` | set4/challenge25.py:99-111 | when `offset + len(newtext) <= len(ct)`: the length is unchanged, bytes outside `[offset, offset+len(newtext))` equal `ct`, and byte `i` inside is `newtext[i-offset]` xor keystream byte `i` |
| `CtrEdit.DecryptEncrypt` | set4/challenge25.py:91-97 | decrypting an encryption gives the plaintext back |
| `CtrEdit.EncryptDecrypt` | set4/challenge25.py:91-97 | encrypting a decryption gives the ciphertext back |
| `CtrEdit.KeystreamIndependentOfContent` | set4/challenge25.py:85-93 | for any two plaintexts and any position inside both, ciphertext xor plaintext is the same: the keystream depends on the position only |
| `CtrEdit.EditIdempotent` | set4/challenge25.py:109-111 | a second edit with the same offset and text returns the same ciphertext as the first |
| `CtrEdit.EditWholeIsEncrypt` | set4/challenge25.py:109-111 | an edit at offset 0 whose text is as long as the ciphertext equals a fresh encryption of that text, whatever the old ciphertext was |
| `CtrEdit.Recover` | set4/challenge25.py:113-125 | the attacker, using only one `Edit` at offset 0 with a probe of `len(ct)` bytes `'A'`, returns exactly the oracle's decryption of `ct` |
| `CtrEdit.FullRecovery` | set4/challenge25.py:113-125 | for every plaintext `P`, the attacker applied to `encrypt(P)` returns `P` |
| `RepeatingKeyXor.BytePairs` | set1/challenge6.py:99 | an even-length string splits into half as many entries, each two characters long |
| `RepeatingKeyXor.HexPairs` | set1/challenge6.py:96-99 | `ct_split` has `ceil(len(s)/2)` entries, each two characters long |
| `RepeatingKeyXor.JoinBytePairs` | set1/challenge6.py:99 | joining the two-character entries gives the even-length string back |
| `RepeatingKeyXor.HexPairsSpec` | set1/challenge6.py:96-99 | `ct_split` has `ceil(len(s)/2)` entries, each two characters long, and joining them gives `s` with a `'0'` in front exactly when `len(s)` is odd |
| `RepeatingKeyXor.Stride` | set1/challenge6.py:88 | the slice `xs[j::k]` has `ColumnLength(len(xs), j, k)` entries, one per index `j + m*k` below `len(xs)` (see `ColumnLengthAt`) |
| `RepeatingKeyXor.StrideAt` | set1/challenge6.py:87-88 | entry `m` of `xs[j::k]` is `xs[j + m*k]` |
| `RepeatingKeyXor.ColumnLengthAt` | set1/challenge6.py:87-88 | column `j` has an `m`-th entry if and only if `j + m*k` is an index |
| `RepeatingKeyXor.TransposeColumn` | set1/challenge6.py:87-88 | column `j` holds exactly the entries whose index is `j` plus a multiple of `k` (both directions), in their original order |
| `RepeatingKeyXor.Transpose` | set1/challenge6.py:87-88 | there are `k` columns, and column `j` has `ColumnLength(len(xs), j, k)` entries; its contents are stated by `TransposeColumn` |
| `RepeatingKeyXor.Columns` | set1/challenge6.py:87-88 | there are `keylen` hex columns, and when every entry of `ct_split` has two digits, column `j` has two digits per byte of stride column `j` |
| `RepeatingKeyXor.Segments` | set1/challenge6.py:87-88 | `pt_segments` has one entry per column, and with a breaker that gives one character per byte, segment `j` is as long as column `j` |
| `RepeatingKeyXor.ColumnLengthNonIncreasing` | set1/challenge6.py:87-88 | a later column is never longer than an earlier one |
| `RepeatingKeyXor.ColumnLengthBalanced` | set1/challenge6.py:87-88 | columns at most `k` apart differ in length by at most one |
| `RepeatingKeyXor.ColumnLengthsSum` | set1/challenge6.py:87-88 | the `k` column lengths add up to the number of entries |
| `RepeatingKeyXor.ZipPlacement` | set1/challenge6.py:91-93 | for segments with the column lengths of `k` columns over `n` entries: the zip has exactly `n` characters (none dropped), and character `i` of segment `j` is at position `i*k + j` |
| `RepeatingKeyXor.ZipLayout` | set1/challenge6.py:91-93 | for segments with the column lengths of `k` columns over `n` entries: the zip has `n` characters, and character `p` is character `p / k` of segment `p % k` |
| `RepeatingKeyXor.ZipTranspose` | set1/challenge6.py:87-93 | zipping the untransformed columns returns the original sequence |
| `RepeatingKeyXor.TotalScoreAppend` | set1/challenge6.py:89 | the total score, defined segment by segment, is Python's left-to-right `sum`: extending the list by one segment adds that segment's score |
| `RepeatingKeyXor.FixedLenDecrypt` | set1/challenge6.py:75-94 | the attempt reports the key length it used and the sum of the segment scores; when every entry of `ct_split` has two digits and the breaker gives one character per byte, the plaintext has one character per ciphertext byte, and character `p` is character `p / keylen` of the segment of column `p % keylen` |
| `RepeatingKeyXor.AttemptLayout` | set1/challenge6.py:87-94 | when the breaker gives one character per byte: segment `j` is as long as column `j`, the attempt's plaintext has one character per ciphertext byte, and character `i` of segment `j` is at position `i*keylen + j` |
| `RepeatingKeyXor.FirstBest` | set1/challenge6.py:105 | the chosen attempt has the maximum score, and every earlier attempt scores strictly less, because the sort is stable under `reverse=True` |
| `RepeatingKeyXor.FirstBestUnique` | set1/challenge6.py:105 | those two properties single out one index |
| `RepeatingKeyXor.RepeatedKeyXorDecrypt` | set1/challenge6.py:58-105 | `max_len` defaults to 40. There is no result exactly when `max_len < 2`. Otherwise the result is the attempt for some key length in 2..`max_len`, on the padded split of `s`. No key length in that range scores higher, and every smaller key length scores strictly lower |

## Left out

- AES and the `cryptography` library (`Cipher`, `algorithms.AES`, `modes.CTR`) are not modelled. The keystream is a parameter of the oracle, a total function of (key, nonce, position). Counter-block construction and 128-bit counter wrap-around are therefore not modelled.
- `rand_bytes` and the `random` module are not modelled. The key and the nonce (16 bytes each) are constructor parameters.
- `b642hex` and `binascii` are not modelled. They are library base64/hex decoding (section 4 of RFC 4648).
- `aes_ecb_decrypt` is not modelled. It only manufactures the sample plaintext, and it ignores its key argument in favour of a hard-coded key.
- The `__main__` blocks are not modelled: file reading, `print`, the fixed input files.
- `multiprocessing.Pool` is not modelled. Its `map` is a plain sequential map (`Segments`).
- `challenge3.decrypt` and `challenge3.score` are function parameters. That file is not part of this model, so the English scoring is not modelled.
- `AttemptLayout`: assumes that `decrypt` gives one character per byte of its hex input. Without that assumption the source's zip can drop characters, and nothing is claimed about layout.
- `SessionOracle.Edit`: the range `offset + len(newtext) <= len(ct)` is a precondition. The source does not check it; outside the range, Python slicing returns a ciphertext of a different length.
- `edit` rejects no out-of-range request, and `decrypt(oracle, ct)` never checks its probe's length. The model adds no error for either. The attacker's probe always has `len(ct)` bytes.
- Negative offsets are not modelled: `offset` is a natural number. Python would count a negative offset from the end.
- Python 2 `str` characters are modelled as bytes (`bv8`) in `CtrEdit`.
- `Pkcs7Pad`: requires a block length of at least 1 and a pad `length - len(s) % length` of at most 255. Outside that domain the source fails: a block length of 0 divides by zero, and `chr(pad)` raises for a pad above 255.
- `XorStr`: a second string shorter than the first is a precondition violation. In the source it raises `IndexError`, and its callers never pass such strings.
- `RepeatedKeyXorDecrypt`: with `max_len < 2` the source raises `IndexError` on `[0]` of an empty list. The model returns `None`.
- `RepeatedKeyXorDecrypt`: only the first element of `sorted(..., reverse=True)` is modelled. The rest of the sorted list is discarded by the source.
- Characters of the hex string are not checked to be hex digits. They are passed to `decrypt` unexamined, as in the source.
