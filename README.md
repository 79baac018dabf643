# oath-manager: the code generator and its store, in Dafny

This project models the core of oath-manager, a small HOTP/TOTP client.

- **`OATH`** (`oath.py`) holds a Base32 secret and an optional HOTP counter.
  - It pads the secret with `=` to a multiple of a block size and decodes it case-insensitively.
  - It packs the moving factor as a signed 64-bit big-endian value. The factor is the explicit counter, or the 30-second time step when the counter is absent or zero.
  - It produces six-character codes by the dynamic truncation of RFC 4226.
- **`OATHStore`** (`store.py`) is a dictionary from account name to `OATH`.
  - It is filled from INI sections.
  - It asks the named generator for a code.

Files:

- `wrappers.dfy`: `Option`, `Result` and `Outcome`. Python exceptions are modelled as values of these types.
- `strings.dfy`: `Repeat(c, n)`, Python's `c * n`. It builds both the `=` padding and the spaces of a code.
- `digits.dfy`: fixed-width big-endian positional numbers. The counter bytes, the Base32 quanta, the 4-byte truncation read and the decimal digits of the code all use them.
- `base32.dfy`:
  - `Base32.Decode` is `base64.b32decode(s, casefold=True)`. It checks in this order: ASCII, then a length that is a multiple of 8, then the alphabet, then the pad count.
  - `Base32.Encode` is the encoder of section 6 of RFC 4648. It is the reference that the decoder inverts.
- `oath.dfy`:
  - The arithmetic of `OATH` is written as functions with lemmas.
  - Class `Oath.Oath` has the fields of `OATH`. Its methods assign `key_b` and `hotp_value_b` step by step, as the source does.
  - HMAC-SHA1 is a parameter `mac`: any function from key bytes and message bytes to a 20-octet digest.
  - The clock is a parameter `now`, the time step of the call.
- `store.dfy`:
  - Class `Store.OathStore` has a mutable `map<string, Oath.Oath>`.
  - `Load` is a loop over sections that are already parsed.
  - `Store.LoadKeys` is the function that specifies `Load`.

The model follows the code's actual behaviour, including these quirks:

- Codes are padded with spaces (`{val:6d}`), not zeros. `Oath.FormatCodeIsZeroFilledIff` states exactly when the two renderings agree.
- `clean_key` discards its result, so spaces are not removed. A key with a space is refused (`Oath.KeyWithSpaceRejected`).
- The padding block is the `size` argument, not a fixed 8.
- Looking up an absent name raises `KeyError` rather than returning "not found".

## Model

| member | source | states |
|---|---|---|
| Oath.PyMod | oath.py:35 | Python's `%`: the Euclidean remainder for a positive divisor, a value in `(b, 0]` for a negative one |
| Oath.PyModCongruent | oath.py:35 | for either sign of the divisor, `a` minus Python's `a % b` is a multiple of `b` |
| Oath.PaddingSize | oath.py:35 | for a positive size the padding is in `[0, size)`, makes the length a multiple of `size`, and is the least such count (0 when already aligned); for a negative size it is never positive, so no `=` is added |
| Oath.PaddingSizeOfShortfall | oath.py:35 | with the default block of 8, the padding is the unique `p < 8` that aligns the length |
| Oath.PadChars | oath.py:36 | `"=" * k` is `k` equals signs when `k` is positive, and empty otherwise |
| Oath.KeyBytes | oath.py:35-37 | a block size of 0 raises (`ZeroDivisionError`) |
| Oath.EncodedKeyPadding | oath.py:35-36 | the padding computed for a Base32 text stripped of its `=` restores exactly the stripped `=` |
| Oath.UnpaddedKeyRoundTrip | oath.py:34-37 | a key that is, up to letter case, the unpadded Base32 text of `secret` decodes to `secret` |
| Oath.KeyBytesCaseInsensitive | oath.py:37 | keys that differ only in letter case decode to the same bytes or fail alike |
| Oath.KeyWithSpaceRejected | oath.py:31-37 | a key containing a space always fails to decode, because `clean_key` does not remove it |
| Oath.RemoveSpaces | oath.py:32 | the discarded `replace(" ", "")` has no space, is shorter by exactly the number of spaces, and keeps every other character |
| Oath.RemoveSpacesAppend | oath.py:32 | removing spaces from a concatenation removes them from each part |
| Oath.RemoveSpacesOfChar | oath.py:32 | a space is dropped and any other character is kept in place, so the other characters keep their order |
| Oath.Oath.CleanKey | oath.py:31-32 | the generator is left unchanged |
| Oath.Oath.PadKey | oath.py:34-37 | it succeeds exactly when the padded key decodes; `key_b` then holds the decoded bytes; on failure `key_b` is untouched and the error is the decoder's |
| Oath.Oath.UpdateHotpValueB | oath.py:25-29 | it fails exactly when the counter is outside the signed 64-bit range; otherwise `hotp_value_b` afterwards is the packed counter |
| Oath.Counter | oath.py:27 | `hotp_value or now`: the result differs from the time step only when it is the explicit counter; it equals the time step exactly when the counter is absent, zero, or equal to it |
| Oath.PackInt64 | oath.py:27 | `struct.pack(">q")` succeeds exactly on the signed 64-bit range; it gives eight bytes, and raises otherwise |
| Oath.PackRoundTrip | oath.py:27 | unpacking the packed counter gives the counter back |
| Oath.UnpackRoundTrip | oath.py:27 | every 8 bytes are the packing of the in-range value they unpack to |
| Oath.PackInjective | oath.py:27 | distinct counters pack to distinct bytes |
| Oath.ZeroCounterUsesClock | oath.py:27 | an explicit counter of 0 gives the same code as no counter: the time step |
| Oath.ExplicitCounterIgnoresClock | oath.py:27 | with a non-zero explicit counter, the code is the same at every time step |
| Oath.TimeStepDeterminesCode | oath.py:27 | without a counter, code generation for a decodable key always succeeds, and the counter bytes unpack to the time step |
| Oath.Oath.Init | oath.py:13-18 | the fields hold the key, the counter and the block size, and neither the decoded key nor the counter bytes is set yet |
| Oath.Oath.Create | oath.py:12-23 | construction succeeds exactly when the key decodes and the counter packs, and then yields a fresh valid generator with the given fields and the packed counter; otherwise it yields the first error |
| Oath.Offset | oath.py:46 | the offset `hmac[-1] & 0x0F` is at most 15, so the 4-byte read lies inside the 20-byte digest |
| Oath.Truncate | oath.py:47 | the truncated value is below 10^6 |
| Oath.TruncateIsRfc4226 | oath.py:46-47 | the truncation is the dynamic truncation of section 5.3 of RFC 4226, written as the sample code of section 5.4 writes it with bit masks and shifts, reduced mod 10^6 |
| Oath.Rfc4226BinCodeBound | oath.py:47 | the 31-bit value that is reduced is below 2^31 |
| Oath.Mask31LowBits | oath.py:47 | `& 0x7FFFFFFF` keeps the low 31 bits: the result is below 2^31, differs from the input by a multiple of 2^31, and a value below 2^31 is kept whole |
| Oath.Mask31OfWord | oath.py:47 | `& 0x7FFFFFFF` on a big-endian word clears only the top bit of its first byte |
| Oath.DecimalLength | oath.py:48 | the digit count of `n` is the least `len >= 1` with `n < 10^len` |
| Oath.FormatCodeDigits | oath.py:48 | `f"{val:6d}"` for any value: the decimal string right-aligned with spaces in a field of six, or the whole string when it is longer |
| Oath.FormatCodeLayout | oath.py:48 | a value below 10^6 has at most six digits, and its code is spaces followed by those digits |
| Oath.FormatCodeAsZeros | oath.py:48 | reading the spaces of the code as `0` gives the six-digit zero-filled rendering of RFC 4226 |
| Oath.FormatCodeShape | oath.py:48 | the code is six characters, each a space or a digit, with a digit last; its zero-filled reading has the value `val` |
| Oath.FormatCodeIsZeroFilledIff | oath.py:48 | the code equals the zero-filled rendering exactly when `val >= 100000` |
| Oath.Hotp | oath.py:45-48 | the code of a key and counter bytes is six characters, and read with its spaces as zeros it is the truncated HMAC, zero-filled |
| Oath.Code | oath.py:12-48 | generation succeeds exactly when the key decodes and the counter packs; a key error is reported first, then the counter error; a code is six characters |
| Oath.CodeShape | oath.py:43-48 | every generated code is six characters, and its zero-filled reading is the truncated HMAC |
| Oath.Oath.Hmac | oath.py:39-41 | for a constructed generator, the digest is `mac` of the decoded key and the stored counter bytes |
| Oath.Oath.GenCode | oath.py:43-48 | the counter bytes are refreshed to the packed counter; the returned string is the code of the key and counter under `mac`; it has six characters; the generator stays valid |
| Base32.Decode | oath.py:37 | a non-ASCII input and a length that is not a multiple of 8 raise, in that order; a success implies neither |
| Base32.DecodeCauses | oath.py:37 | for ASCII input of whole quanta, a non-alphabet character before the `=` run raises `Non-base32 digit`; otherwise a run of 2, 5, 7 or 8 or more `=` raises `Incorrect padding`; the decode succeeds exactly when neither holds |
| Base32.DecodeThenEncode | oath.py:37 | a text that decodes is, upper-cased, the encoding of its bytes, at every position except the last symbol before the `=` run, whose low bits the decoder ignores |
| Base32.ReencodeQuanta | oath.py:37 | re-encoding decoded symbol values gives them back, except the last value of a final partial quantum |
| Base32.ReencodePadding | oath.py:37 | the decoded bytes are encoded with as many `=` as the text had |
| Base32.PartialReencode | oath.py:37 | a final quantum of 2, 4, 5 or 7 symbols decodes to bytes whose encoding has the same number of symbols and agrees on all but the last |
| Base32.QuantumReencode | oath.py:37 | a quantum of eight symbols decodes to five bytes that encode back to it |
| Base32.EncodeShape | oath.py:37 | `Base32.Encode`, the reference encoder the decoder is proved against, yields ASCII upper-case text a multiple of eight long: its symbols followed by its `=` run |
| Base32.SymbolValuesChars | oath.py:37 | the symbols decode exactly when every character is in the alphabet, each to its own value |
| Base32.QuantumRoundTrip | oath.py:37 | a full quantum of eight symbols decodes to the five bytes it encodes |
| Base32.PartialRoundTrip | oath.py:37 | a final partial quantum decodes to the one to four bytes it encodes, ignoring the zero bits the encoder appended |
| Base32.QuantaRoundTrip | oath.py:37 | decoding the symbol values of any byte string gives it back |
| Base32.RoundTrip | oath.py:37 | `b32decode(b32encode(bs)) == bs` for every byte string |
| Base32.CaseInsensitive | oath.py:37 | inputs equal after upper-casing decode alike (`casefold=True`) |
| Base32.SpaceRejected | oath.py:37 | an input containing a space is refused |
| Store.SectionKey | store.py:15-16 | a section yields an entry exactly when it has a key value that decodes with the default block; an error is tagged with the section where the load stops |
| Store.LoadKeysDomain | store.py:15-16 | a load keeps every name already stored, adds only section names, and a failed load is tagged with one of the sections |
| Store.LoadPassedAll | store.py:15-16 | a load that succeeds had a decodable key in every section |
| Store.LoadPassesAll | store.py:15-16 | a load in which every section has a decodable key succeeds |
| Store.LoadAdditive | store.py:12-16 | a name that no section mentions keeps its presence and its key |
| Store.LoadLastWins | store.py:15-16 | after a successful load, each section name holds the key of the last section with that name |
| Store.LoadStopsAt | store.py:15-16 | a load stops at the first failing section: it keeps the keys assigned before it, does not insert the failing section, and reports that section's error |
| Store.OathStore.constructor | store.py:8 | a new store is empty |
| Store.OathStore.SetItem | store.py:9-10 | assignment stores a fresh generator for the value under the name, replacing any previous one, and changes no other entry; the new generator's counter bytes are the packed time step; a key that does not decode raises and leaves the store as it was |
| Store.OathStore.Load | store.py:12-16 | the store's keys after the loop, and its outcome, are those of `LoadKeys` from the keys before; names no section mentions keep their generator object; every other entry is old and unchanged or fresh; after a successful load every section's name holds a fresh generator whose counter bytes are the packed time step |
| Store.OathStore.GenCode | store.py:23-28 | an absent name raises `KeyError`, changing nothing; a present name yields that generator's code for its key, without a counter, with the default block; only that generator changes, and its counter bytes become the packed time step; no entry is added, removed or replaced |

## Left out

- `crypto.py` (salt file, PBKDF2, Fernet) is not part of this model. It is library calls and file I/O.
- The internals of HMAC-SHA1 (oath.py:39-41) are not modelled. `Oath.Oath.Hmac` applies the parameter `mac` to the stored bytes, and every property holds for any `mac`.
- `time.time()` and the float division `int(time.time() / 30)` are not modelled.
  - The time step is the parameter `now`, of a type that holds only signed 64-bit values.
  - A real clock is always in that range, so only an explicit counter can make `struct.pack` fail.
- INI parsing by `ConfigParser` (store.py:13-14) is not modelled.
  - `Load` takes the sections in the order `sections()` returns them.
  - Each section carries what `config.get(section, "key")` finds: no option (`NoOptionError`), an option without a value (`OATH(None)` raising), or a string.
  - Inheritance from the DEFAULT section is part of that lookup.
  - The value interpolation of `config.get` is not modelled. A `%` reference it cannot resolve raises `InterpolationError`, an outcome `KeyOption` does not represent.
  - Malformed INI text is not modelled.
- `load_from_file` (store.py:18-21), `__repr__` (oath.py:50-51) and the `__main__` blocks are left out. They are file I/O and printing.
- Store.OathStore.Load: one time step `now` serves the whole call, whereas each `OATH(...)` reads the clock again. This affects only the counter bytes of the new entries: the contract states them for the single `now`.
- Store.SectionKey: the section tag on `NoKeyValue` and `InvalidEntry` records where the load stopped. In the program only `NoOptionError` names the section. The `AttributeError` from `None.replace` (oath.py:32) and the `binascii.Error` or `ValueError` from `b32decode` (oath.py:37) carry no section name.
- Store.OathStore.Load: the order of the dictionary's entries is not modelled. The map has no order.
- Oath.Oath.Create: arguments of the wrong Python type (a non-string key, a non-integer counter) are excluded by the Dafny types, apart from a missing key value, which `Store.SectionKey` models.
- Store.OathStore.GenCode: the `return None` branch (store.py:25-26) is not modelled. A generator object is always truthy, so that branch is never taken.
