# ChromeAppBound key extraction, modelled in Dafny

This project models the self-contained core of `chrome_decrypt.cpp`. The tool
reads the App-Bound encrypted key that Chrome keeps in its `Local State` file and
has Chrome's elevation service decrypt it. The modelled core is:

- the constants, declared as Dafny `const`s with their values in `chrome_decrypt.cpp`:
  - `LocalState.KeySize` (32, `chrome_decrypt.cpp:91`), the size of the decrypted
    key. It is only used by the COM part, which is left out;
  - `LocalState.KeyPrefix` (`'A', 'P', 'P', 'B'`, `chrome_decrypt.cpp:92`);
  - `Base64.Base64Chars` (`A-Z`, `a-z`, `0-9`, `+`, `/`, `chrome_decrypt.cpp:94-97`),
    whose layout `AlphabetLayout` states;
  - `LocalState.SearchKey` (`"app_bound_encrypted_key":"`, `chrome_decrypt.cpp:209`);
- `IsBase64`, the alphabet test;
- `Base64Decode`, a lenient base64 decoder. It stops without error at the first
  `=` or character outside the alphabet. Each full group of four characters
  packs into three bytes. A trailing group of 1, 2 or 3 characters gives 0, 1 or
  2 bytes;
- the string handling of `RetrieveEncryptedKeyFromLocalState`. It finds
  `"app_bound_encrypted_key":"`, takes the value up to the next `"`, decodes it,
  checks the `APPB` header and returns the bytes after the header;
- `BytesToHexString`, which writes every byte as two lower-case hex digits.

The four files:

- `cpp_string.dfy` (module `CppString`) holds the C++ pieces the code relies on:
  - `uint8_t` as the newtype `byte`;
  - narrowing into it, as `Narrow`;
  - `std::string::find` with a start position, as `Find`, and its `npos`.
- `base64.dfy` (module `Base64`):
  - `Decode` is the specification, in two stages. Each consumed character
    becomes the value `Base64Chars.find` gives for it (its sextet). The sextets
    are then packed group by group.
  - `Base64Decode` is the loop of `chrome_decrypt.cpp` over its four- and three-byte buffers,
    kept as `array`s, and is proved equal to `Decode`.
  - The module also holds a reference encoder for section 4 of RFC 4648
    (`Encode`), used for the round trip.
- `hex.dfy` (module `Hex`): `BytesToHexString` is a loop that appends to the
  output string, as the `ostringstream` does. It is proved equal to `Hex`, which
  is the `std::hex`/`setw(2)`/`setfill('0')` formatting of each byte.
- `local_state.dfy` (module `LocalState`): `ExtractEncryptedKey` maps the file's
  contents to `Ok(key)` or to one error tag for each early return in
  `chrome_decrypt.cpp`.

## Model

| member | source | states |
|---|---|---|
| CppString.Narrow | chrome_decrypt.cpp:117 | storing an unsigned value into a `uint8_t` keeps it modulo 256; `NarrowByte` states that a byte value is kept unchanged, `FillerIsNarrowedNPos` that `npos` becomes 0xFF |
| CppString.Find | chrome_decrypt.cpp:210 | `std::string::find(pat, from)`, also used at line 221; its contract is `FindSpec` (first occurrence at or after `from`, `npos` exactly when there is none) and `FindChar` |
| CppString.FindSpec | chrome_decrypt.cpp:210 | `find(pat, from)` is `npos` exactly when `pat` occurs nowhere at or after `from`, and otherwise is its first occurrence there |
| CppString.FindChar | chrome_decrypt.cpp:221 | `find("\"", from)` is `npos` exactly when no `"` stands at or after `from`, and otherwise is the index of the first one |
| CppString.OccursAtChar | chrome_decrypt.cpp:221 | a one-character pattern occurs exactly where that character stands |
| Base64.IsBase64 | chrome_decrypt.cpp:99-102 | `isalnum(c) \|\| c == '+' \|\| c == '/'` in the C locale; `IsBase64IsAlphabet` states that it holds exactly on the characters of `Base64Chars` |
| Base64.Continues | chrome_decrypt.cpp:111 | the character test of the loop guard, `encoded_string[in_] != '=' && IsBase64(...)`; `ContinuesIsAlphabet` states that it holds exactly on the 64 alphabet characters |
| Base64.AlphabetLayout | chrome_decrypt.cpp:94-97 | `Base64Chars` has 64 characters: `A-Z`, `a-z`, `0-9`, `+`, `/` in that order |
| Base64.RangeIndex | chrome_decrypt.cpp:94-97 | a character's alphabet index is below 64 exactly when `IsBase64` holds, and then the alphabet holds that character at that index |
| Base64.AlphabetInjective | chrome_decrypt.cpp:94-97 | no two indices of `Base64Chars` hold the same character |
| Base64.IsBase64IsAlphabet | chrome_decrypt.cpp:99-102 | `IsBase64(c)` holds exactly when `c` is one of the 64 characters of `Base64Chars` |
| Base64.FindInAlphabet | chrome_decrypt.cpp:116-117 | `Base64Chars.find(c)` is the alphabet index of `c`, or `npos` for every character outside the alphabet |
| Base64.Sextet | chrome_decrypt.cpp:116-117 | the value stored for a slot holding `c`; `SextetIsFind` states that it is `Base64Chars.find(c)` narrowed, `SextetOfEncode` that it inverts the alphabet |
| Base64.ByteChar | chrome_decrypt.cpp:117 | the `uint8_t` slot converted to the `char` that `Base64Chars.find` is given (also line 136); `LookUpIsSextet` states what the look-up then yields |
| Base64.LookUp | chrome_decrypt.cpp:135-136 | `Base64Chars.find` of a slot's character, narrowed; `LookUpIsSextet` states that it is the sextet of that character |
| Base64.SextetIsFind | chrome_decrypt.cpp:116-117 | the sextet of `c` is `Base64Chars.find(c)` narrowed into a `uint8_t` |
| Base64.LookUpIsSextet | chrome_decrypt.cpp:116-117 | looking up a slot gives the sextet of the character the slot holds |
| Base64.FillerIsNarrowedNPos | chrome_decrypt.cpp:132-136 | a cleared slot holds `'\0'`, whose `find` is `npos`, which narrows to 0xFF |
| Base64.Sextets | chrome_decrypt.cpp:116-117 | the per-character look-up over the consumed characters; it has one sextet per character, and `SextetsAt` and `SextetsAppend` state which |
| Base64.Pack | chrome_decrypt.cpp:119-121 | the three narrowed sums of lines 119-121 (also 138-140); `PackFields` states that it inverts the six-bit split of three bytes, `PackFirstByte` and `PackFirstTwoBytes` which slots each byte depends on |
| Base64.SlotValue | chrome_decrypt.cpp:132-136 | slot `j` of a group after the look-up: the group's own sextet, or 0xFF past a partial group; `LookedUpSlots` states that the slots end up holding it |
| Base64.PackGroup | chrome_decrypt.cpp:132-140 | the four slots of a group, with 0xFF past a partial group, packed into three bytes; `LookUpAndPack` states that the buffers compute it, `PartialGroupIgnoresFiller` that the bytes kept do not depend on the filler |
| Base64.DecodeSextets | chrome_decrypt.cpp:112-145 | three bytes per full group of sextets, then `t-1` bytes of a trailing group of `t`; stated by `DecodeSextetsLength`, `DecodeSextetsAt`, `DecodeSextetsStep`, `DecodeSextetsTail` and `DecodeSextetsAppend` |
| Base64.Decode | chrome_decrypt.cpp:104-152 | what `Base64Decode` returns: the sextets of the consumed prefix, packed; `Base64Decode` is proved equal to it, and `TruncatesAtValidPrefix`, `DecodedLength`, `GroupsInOrder`, `PartialGroupIgnoresFiller` and `RoundTrip` state its properties |
| Base64.ValidPrefixLength | chrome_decrypt.cpp:111 | the loop consumes a prefix whose characters are all neither `=` nor outside the alphabet, and stops at the end or at the first character that is |
| Base64.LookUpSlots | chrome_decrypt.cpp:116-117 | each of the four slots is replaced by the narrowed `find` of its character |
| Base64.PackSlots | chrome_decrypt.cpp:119-121 | the three bytes are `Pack` of the four slots |
| Base64.LookUpAndPack | chrome_decrypt.cpp:116-121 | a group read into the slots, with `'\0'` after it, packs into the bytes of the group's sextets with 0xFF filling the unused slots |
| Base64.ClearFrom | chrome_decrypt.cpp:132-133 | the slots from `i` on become 0 and those before `i` are unchanged |
| Base64.PushBytes | chrome_decrypt.cpp:123-124 | the output grows by exactly the first `n` packed bytes |
| Base64.DecodeFullGroup | chrome_decrypt.cpp:114-126 | after the `n`-th full group, the output is the decoding of the first `4(n+1)` characters |
| Base64.DecodeLastGroup | chrome_decrypt.cpp:129-145 | after a trailing group of `i` characters, the output is the decoding of all `4n+i` consumed characters |
| Base64.ReadChar | chrome_decrypt.cpp:113-126 | one consumed character is stored in the next slot; when the group fills, its three bytes are appended and the count restarts, so the output is always the decoding of the whole groups read so far |
| Base64.Base64Decode | chrome_decrypt.cpp:104-152 | the loop over the buffers returns exactly `Decode(s)` |
| Base64.LookedUpSlots | chrome_decrypt.cpp:132-136 | after the look-up, slot `m` holds the sextet of group character `m`, or 0xFF past the group |
| Base64.LookedUpSlot | chrome_decrypt.cpp:132-136 | a slot holding a group character looks up to its sextet, and a cleared slot looks up to 0xFF |
| Base64.FullGroupBytes | chrome_decrypt.cpp:114-126 | appending the three packed bytes of group `n` to the decoding of the first `4n` characters gives the decoding of the first `4(n+1)` |
| Base64.LastGroupBytes | chrome_decrypt.cpp:129-145 | appending the first `i-1` packed bytes of a trailing group of `i` characters gives the decoding of all `4n+i` characters |
| Base64.SextetsOfSplit | chrome_decrypt.cpp:113-117 | the sextets of `s[..n]` are those of `s[..m]` followed by those of `s[m..n]` |
| Base64.SextetsAt | chrome_decrypt.cpp:113-117 | the sextet at index `k` is that of the character at index `k` |
| Base64.SextetsAppend | chrome_decrypt.cpp:113-117 | the characters are looked up one by one, so the sextets of a concatenation are the concatenated sextets |
| Base64.DecodeSextetsAppend | chrome_decrypt.cpp:111-126 | decoding whole groups and then the rest is the same as decoding the concatenation |
| Base64.DecodeSextetsStep | chrome_decrypt.cpp:114-126 | a full group adds exactly its three packed bytes |
| Base64.DecodeSextetsTail | chrome_decrypt.cpp:129-145 | a trailing group of `t` sextets adds the first `t - 1` of its packed bytes |
| Base64.ValidPrefixUnique | chrome_decrypt.cpp:111 | the loop's stopping point is the only index whose characters before it all continue and which does not |
| Base64.ContinuesIsAlphabet | chrome_decrypt.cpp:111 | the loop goes on past `c` exactly when `c` is in `Base64Chars` |
| Base64.TruncatesAtValidPrefix | chrome_decrypt.cpp:111 | when the longest alphabet-only prefix is `s[..n]`, decoding `s` equals decoding `s[..n]` |
| Base64.StopsAtFirstInvalid | chrome_decrypt.cpp:111 | whatever follows the first `=` or non-alphabet character has no effect on the result |
| Base64.DecodeSextetsLength | chrome_decrypt.cpp:112-145 | `n` sextets give `3*(n/4)` bytes, plus `n%4 - 1` when `n%4 != 0` |
| Base64.DecodedLength | chrome_decrypt.cpp:104-152 | the output has `3*(n/4) + max(0, n%4 - 1)` bytes, with `n` the length of the consumed prefix |
| Base64.DecodeSextetsAt | chrome_decrypt.cpp:112-126 | bytes `3k..3k+2` of the output are packed from sextets `4k..4k+3` |
| Base64.GroupsInOrder | chrome_decrypt.cpp:112-126 | bytes `3k..3k+2` of the output are packed from characters `4k..4k+3` of the input, in input order |
| Base64.DecodedPrefixAt | chrome_decrypt.cpp:112-126 | once `4k+4` characters are consumed, bytes `3k..3k+2` are packed from characters `4k..4k+3` |
| Base64.PartialGroupIgnoresFiller | chrome_decrypt.cpp:129-145 | the bytes of a trailing group of 1 to 3 characters do not depend on what the unused slots hold |
| Base64.PackFirstByte | chrome_decrypt.cpp:119 | the first packed byte depends only on the first two slots |
| Base64.PackFirstTwoBytes | chrome_decrypt.cpp:119-120 | the first two packed bytes depend only on the first three slots |
| Base64.EncodeUnpaddedAlphabet | chrome_decrypt.cpp:94-97 | the reference encoder emits only characters of `Base64Chars` |
| Base64.SextetOfEncode | chrome_decrypt.cpp:116-117 | looking up the alphabet character of sextet `e` gives back `e` |
| Base64.QuantumSextets | chrome_decrypt.cpp:116-117 | the characters of an encoded quantum look up to the four six-bit fields of its three bytes |
| Base64.PackFields | chrome_decrypt.cpp:119-121 | packing the four six-bit fields of three bytes gives those three bytes back |
| Base64.PackNoCarry | chrome_decrypt.cpp:119-121 | when the three sums of lines 119-121 are already below 256, narrowing leaves them unchanged and `Pack` gives exactly those three bytes |
| Base64.SextetsPrefix | chrome_decrypt.cpp:113-117 | the sextets of a prefix are the prefix of the sextets |
| Base64.QuantumDecodes | chrome_decrypt.cpp:114-126 | four encoding characters decode to their three bytes |
| Base64.PairDecodes | chrome_decrypt.cpp:129-145 | the three characters that encode two bytes decode to those two bytes |
| Base64.SingleDecodes | chrome_decrypt.cpp:129-145 | the first two characters of a quantum decode to its first byte |
| Base64.PairEncodingDecodes | chrome_decrypt.cpp:129-145 | the unpadded encoding of two bytes packs back to those two bytes |
| Base64.SingleEncodingDecodes | chrome_decrypt.cpp:129-145 | the unpadded encoding of one byte packs back to that byte |
| Base64.DecodeEncodeSextets | chrome_decrypt.cpp:112-145 | packing the sextets of the unpadded encoding of `b` gives `b` |
| Base64.RoundTrip | chrome_decrypt.cpp:104-152 | decoding the section 4 RFC 4648 encoding of any bytes, padded or not, gives back those bytes |
| Hex.Numeral | chrome_decrypt.cpp:158 | the lower-case base-16 numeral `std::hex` writes, without leading zeros; `FormatByteNibbles` states what it gives for a byte |
| Hex.PadLeft | chrome_decrypt.cpp:158 | `std::setw(width)` with `std::setfill(fill)`: the text padded on the left with `fill` up to `width`; `FormatByteNibbles` states what it gives for a byte |
| Hex.FormatByte | chrome_decrypt.cpp:158 | a byte written with `std::hex`, `setw(2)` and `setfill('0')`; `FormatByteNibbles` states that it is the high nibble digit followed by the low one |
| Hex.Hex | chrome_decrypt.cpp:154-160 | every byte formatted, in order; `BytesToHexString` is proved equal to it, and `HexLength`, `HexAt`, `HexDigitsOnly` and `ParseHexOfHex` state its properties |
| Hex.BytesToHexString | chrome_decrypt.cpp:154-160 | the loop returns `Hex(b[..size])`, which has `2*size` characters, with characters `2k` and `2k+1` the high and low nibble digits of `b[k]` |
| Hex.FormatByteNibbles | chrome_decrypt.cpp:158 | `std::hex` with `setw(2)` and `setfill('0')` writes a byte as its high nibble digit, then its low nibble digit, zero-padded |
| Hex.HexLength | chrome_decrypt.cpp:154-160 | the string is exactly twice as long as the bytes |
| Hex.HexAt | chrome_decrypt.cpp:154-160 | characters `2k` and `2k+1` are the digits of the high and low nibble of byte `k` |
| Hex.HexDigitsOnly | chrome_decrypt.cpp:154-160 | only the characters `0-9a-f` appear |
| Hex.HexCharIsDigit | chrome_decrypt.cpp:158 | both characters written for byte `k` are among `0-9a-f` |
| Hex.ParseHexOfHex | chrome_decrypt.cpp:154-160 | reading two digits per byte gives the bytes back |
| Hex.ParseLastByte | chrome_decrypt.cpp:158 | the two characters appended for one byte read back as that byte |
| Hex.HexInjective | chrome_decrypt.cpp:154-160 | different byte sequences print differently |
| LocalState.HasKeyPrefix | chrome_decrypt.cpp:239 | the decoded bytes start with `APPB`; `ValueSelected` states where it decides the result |
| LocalState.Substr | chrome_decrypt.cpp:231 | `content.substr(pos, count)`: at most `count` characters from `pos` on; `ValueSelected` states that it selects exactly `content[p+27..e]` |
| LocalState.ExtractEncryptedKey | chrome_decrypt.cpp:209-253 | the extraction from the file's contents; its contract is `KeyNotFoundExactly`, `MalformedKeyExactly`, `ValueSelected`, `OkIsDecodedWithoutHeader` and `ExtractsEncodedKey` |
| LocalState.RetrieveEncryptedKey | chrome_decrypt.cpp:176-254 | the result is `LocalStateUnavailable` exactly when the file's contents could not be read; otherwise it is the extraction from those contents |
| LocalState.KeyNotFoundExactly | chrome_decrypt.cpp:209-218 | the result is `KeyNotFound` exactly when `"app_bound_encrypted_key":"` occurs nowhere in the file |
| LocalState.FindIsFirst | chrome_decrypt.cpp:210 | the search settles on the first occurrence of the entry |
| LocalState.MalformedKeyExactly | chrome_decrypt.cpp:220-229 | with the entry found, the result is `MalformedKey` exactly when no `"` follows its opening quote |
| LocalState.ValueSelected | chrome_decrypt.cpp:220-253 | with the first entry at `p` and the first `"` after it at `e`: the decoded value is `content[p+27..e]` and holds no `"`. The result is the decoded bytes after `APPB`, or `InvalidHeader` when they do not start with `APPB` (also when fewer than four bytes were decoded) |
| LocalState.OkIsDecodedWithoutHeader | chrome_decrypt.cpp:253 | on success, `KeyPrefix` followed by the returned key is exactly the decoded value |
| LocalState.EncodingHasNoQuote | chrome_decrypt.cpp:221 | no base64 encoding contains `"`, so the value ends at the quote that closes it |
| LocalState.EntryIsFirst | chrome_decrypt.cpp:210 | an entry with no earlier occurrence of the search key before it is the first occurrence |
| LocalState.ExtractsEncodedKey | chrome_decrypt.cpp:209-253 | a file whose first entry holds the base64 encoding (padded or not) of `APPB` followed by `key` and then `"` yields exactly `key` |

## Left out

- COM and the elevation service (`CoInitializeEx`, `CoCreateInstance`, `CoSetProxyBlanket`, `DecryptData`, BSTR handling): these are foreign IPC calls whose behaviour is not visible here.
- The 32-byte `memcpy` of the decrypted plaintext (lines 407-408): it copies an opaque remote result.
- `GetAppDataPath`, building the file path, opening and reading the file, and `PrintChromeVersion`: these are file system and Win32 I/O. `RetrieveEncryptedKey` takes the file's contents as a parameter, with `None` when the path is unknown or the file does not open.
- Console output and colours (`SetConsoleColor`, `std::cout`, `std::cerr`): they have no effect on the results.
- The out-of-bounds hex print at line 379: it prints 20 bytes of a key that may be shorter. `BytesToHexString` requires instead that `size` bytes are present.
- `IsBase64`: `isalnum` is taken in the C locale, so only ASCII letters and digits count.
- `Pack`: the shifts and masks of lines 119-121 on `int`-promoted values below 256 are written as the arithmetic they perform (`x << k` is `x * 2^k`, `(x & 0x30) >> 4` is `(x / 16) % 4`, and so on). The bit-level identities are not proved.
- `Base64Decode`: `in_len` is an `int`, so input longer than `INT_MAX` would wrap. The model's counter is unbounded. The post-decrement that runs once more when the loop guard fails only affects a variable that is not read afterwards.
- `HasKeyPrefix`: when fewer than four bytes are decoded, `std::equal` at line 239 reads past the end of the vector, which is undefined behaviour. The model treats that case as `InvalidHeader`.
- `ExtractEncryptedKey`: `chrome_decrypt.cpp` returns an empty vector for every failure, and a file whose key is exactly `APPB` also returns an empty vector. The model returns a distinct error tag for each failure.
- Character width and text mode: the file's contents are a `string` with one character per `char` that the text-mode `std::ifstream` read of lines 195-205 yields. On Windows that read turns `\r\n` into `\n` and may stop at 0x1A; the model starts from whatever string the read produced and does not model that translation. A `char` above 127 is never in the alphabet, whichever signedness `char` has.
