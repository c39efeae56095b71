# Base64 codec of the socket file-transfer service

The service sends binary files over a text channel by wrapping them in Base64, and this project models its
codec, `libs_cpp/encode_decode_base64.cpp`. It covers these parts:

- the alphabet `base64_chars` and the validator `is_base64`;
- `base64_encode`, which turns a byte buffer into padded Base64 text;
- `base64_decode`, which turns text back into bytes;
- `createTempFile`, which derives the name of the intermediate text file.

The two codec functions are modelled as imperative methods in `Base64Codec`; the alphabet, `is_base64` and
the `find` lookup are in `Base64Alphabet`. The methods keep the C++ loops and their variables:

- the counter `i` and the position `in_`;
- the scratch arrays `char_array_3` and `char_array_4`, which they update in place;
- the result, which grows one character or one byte at a time.

The C++ bit expressions are copied as they are, over `bv8`, so they wrap the way `BYTE` does. The helper
methods for each block of the C++ loops state the new array contents or the appended result, and lemmas tie
those to the specification. `Base64Encode` and `Base64Decode` are proved equal to `Encode` and `Decode`, pure
functions in `Base64Spec`. That specification states section 4 of RFC 4648 independently of the C++ masks:

- each 24-bit group is split into four 6-bit values;
- each value selects a character of Table 1;
- a final group of one or two bytes is completed with zero bits and padded with `=`.

On the decoding side, the specification describes what this decoder does beyond the RFC:

- it reads the longest prefix of alphabet characters other than `=`, and ignores the rest;
- it decodes that prefix four characters at a time;
- a final group of k characters gives k - 1 bytes.

`Base64Properties` proves lemmas about the specification alone. Some of them also serve the proofs of the
methods in `Base64Codec`. They cover:

- output lengths;
- the output alphabet and where padding goes;
- where decoding stops, and that the rest of the text is ignored;
- the decoded length;
- the lossless round trip `decode(encode(b)) == b`.

`StdString` models the `std::string` operations the code uses, with `size_t` taken as 64 bits and unsigned:

- `find`;
- `find_last_of`;
- `substr` from position 0;
- `size_t` subtraction with wrap-around.

`TempFile` models `createTempFile` as written, including its wrap-around arithmetic. It sits beside a
corrected version (see Findings).

Modelling decisions:

- `BYTE` is `bv8`. Text (`std::string`) is a `string` whose characters stand for the bytes of the
  `std::string`.
- In `base64_decode`, `char_array_4[i] = encoded_string[in_]` stores a character into a byte (`CharToByte`).
  `base64_chars.find(char_array_4[i])` turns the byte back into a character (`ByteToChar`). The `size_t` that
  `find` returns is then truncated to a byte (`ToByte`). So the zero bytes that fill the unused slots of a
  final group look up as `npos` and become `0xff`. The model keeps this, and proves that no emitted byte
  depends on those slots.
- `isalnum` is read in the C locale: the letters `A`–`Z`, `a`–`z` and the digits `0`–`9`.

## Model

| member | source | states |
|---|---|---|
| `Base64Alphabet.IsAlnum` | libs_cpp/encode_decode_base64.cpp:15 | `isalnum` in the C locale: true exactly for `A`–`Z`, `a`–`z` and `0`–`9` (a definition; `IsBase64Exact` uses it) |
| `Base64Alphabet.IsBase64` | libs_cpp/encode_decode_base64.cpp:13-16 | `is_base64(c)`: `isalnum(c)` or `c` is `+` or `/` (a definition; `IsBase64Exact` proves it is exactly membership in `base64_chars`) |
| `Base64Alphabet.ToByte` | libs_cpp/encode_decode_base64.cpp:92 | storing the `size_t` result of `find` into a `BYTE` keeps it modulo 256 (a definition; `ToByteSmall` and `NPosByte` give its values below 256 and at `npos`) |
| `Base64Alphabet.ToByteSmall` | libs_cpp/encode_decode_base64.cpp:92 | a `find` result below 256 is stored into a `BYTE` unchanged |
| `Base64Alphabet.NPosByte` | libs_cpp/encode_decode_base64.cpp:110 | `npos` stored into a `BYTE` is `0xff` |
| `Base64Alphabet.CharToByte` | libs_cpp/encode_decode_base64.cpp:87 | `char_array_4[i] = encoded_string[in_]` keeps the character's code as the byte's value |
| `Base64Alphabet.ByteToChar` | libs_cpp/encode_decode_base64.cpp:92 | a `BYTE` passed to `find` as a `char` keeps its value as the character's code |
| `Base64Alphabet.CharByteChar` | libs_cpp/encode_decode_base64.cpp:87-92 | a text character stored into a byte and passed back to `find` is the same character |
| `Base64Alphabet.Lookup` | libs_cpp/encode_decode_base64.cpp:92 | `(BYTE) base64_chars.find(char_array_4[i])`, also at line 110 (a definition; `LookupIsTable` proves its value on every byte) |
| `StdString.Find` | libs_cpp/encode_decode_base64.cpp:92 | `std::string::find(char)` as a search from the front, also at line 110 (a definition; `FindResult` proves what it returns) |
| `Base64Spec.Accepted` | libs_cpp/encode_decode_base64.cpp:85 | the loop test `encoded_string[in_] != '=' && is_base64(encoded_string[in_])` (a definition; `StopIndex` uses it) |
| `Base64Alphabet.IsBase64Exact` | libs_cpp/encode_decode_base64.cpp:7-16 | `is_base64(c)` holds exactly for the characters of `base64_chars` |
| `Base64Alphabet.AlphabetIsTable` | libs_cpp/encode_decode_base64.cpp:7-10 | `base64_chars` has 64 characters, and character k is the RFC 4648 Table 1 entry for value k |
| `Base64Alphabet.AlphabetDistinct` | libs_cpp/encode_decode_base64.cpp:7-10 | the 64 alphabet characters are pairwise distinct, so the encoding can be inverted |
| `Base64Alphabet.FindAlphabet` | libs_cpp/encode_decode_base64.cpp:92 | `base64_chars.find` of the k-th alphabet character is k |
| `Base64Alphabet.FindOutside` | libs_cpp/encode_decode_base64.cpp:110 | `base64_chars.find` of a character outside the alphabet is `npos` |
| `Base64Alphabet.LookupIsTable` | libs_cpp/encode_decode_base64.cpp:92 | `find` stored into a `BYTE` gives the 6-bit value of an alphabet character, and `0xff` for any other byte |
| `Base64Alphabet.LookupZero` | libs_cpp/encode_decode_base64.cpp:106-110 | a zero-filled slot of a final group looks up as `0xff` |
| `StdString.FindResult` | libs_cpp/encode_decode_base64.cpp:92 | `find` gives `npos` exactly when the character is absent, and otherwise the index of its first occurrence |
| `StdString.FindLastOf` | libs_cpp/encode_decode_base64.cpp:21 | `find_last_of` gives `npos` exactly when the character is absent, and otherwise an index holding it with no occurrence after it |
| `StdString.SizeSub` | libs_cpp/encode_decode_base64.cpp:24 | `size_t` subtraction is exact when it does not go below zero, and wraps modulo 2^64 when it does |
| `StdString.SubstrFromStart` | libs_cpp/encode_decode_base64.cpp:24 | `substr(0, n)` is a prefix of the string, of length n clipped to the string's length |
| `Base64Spec.StopIndex` | libs_cpp/encode_decode_base64.cpp:85 | the decoder reads every character before the stop index, which is accepted (in the alphabet and not `=`), and the character at the stop index is not accepted |
| `Base64Codec.EncodeBitsAreSextets` | libs_cpp/encode_decode_base64.cpp:45-48 | the four C++ mask-and-shift expressions give the four 6-bit values of the 24-bit group, most significant first |
| `Base64Codec.SplitGroup` | libs_cpp/encode_decode_base64.cpp:45-48 | after the four assignments, `char_array_4` holds the 6-bit values of the three bytes in `char_array_3`; the same code is repeated at lines 61-64 |
| `Base64Codec.CharsSnoc` | libs_cpp/encode_decode_base64.cpp:51 | appending `base64_chars[v]` for one more value v extends the alphabet characters of the values by one |
| `Base64Codec.AppendAlphabetChars` | libs_cpp/encode_decode_base64.cpp:50-51 | the `for` loop appends the alphabet characters of the first `count` values of `char_array_4`; the same code is repeated at lines 66-67 |
| `Base64Codec.EncodeGroupsStep` | libs_cpp/encode_decode_base64.cpp:43-53 | one more full group of three bytes adds its four characters at the end of the encoding |
| `Base64Codec.EncodeFullGroup` | libs_cpp/encode_decode_base64.cpp:43-53 | the `if (i == 3)` block turns the text of the groups so far into the text of those groups plus the new one |
| `Base64Codec.TailFromCompleted` | libs_cpp/encode_decode_base64.cpp:58-67 | a final group of one or two bytes, completed with zero bytes, gives one character more than it has bytes: the final quantum |
| `Base64Codec.EncodeTailPadded` | libs_cpp/encode_decode_base64.cpp:69-70 | the final quantum of n bytes is followed by 3 - n `=` signs |
| `Base64Codec.EncodeSplit` | libs_cpp/encode_decode_base64.cpp:40-71 | the encoding is the full groups followed by the padded final group |
| `Base64Codec.EncodeFinalGroup` | libs_cpp/encode_decode_base64.cpp:56-71 | the `if (i)` block appends the padded encoding of the `count` bytes left in `char_array_3` |
| `Base64Codec.Base64Encode` | libs_cpp/encode_decode_base64.cpp:32-74 | `base64_encode(buf, bufLen)` returns the RFC 4648 encoding of the first `bufLen` bytes |
| `Base64Codec.LookupValue` | libs_cpp/encode_decode_base64.cpp:87-92 | an alphabet character stored into a byte and looked up gives its 6-bit value |
| `Base64Codec.LookupValues` | libs_cpp/encode_decode_base64.cpp:91-92 | after lookup, every slot that held an alphabet character holds that character's value |
| `Base64Codec.LookupSlots` | libs_cpp/encode_decode_base64.cpp:91-92 | the lookup loop replaces each of the four slots by its looked-up value; the same code is repeated at lines 109-110 |
| `Base64Codec.DecodeBitsAreOctets` | libs_cpp/encode_decode_base64.cpp:94-96 | the three C++ shift-and-add expressions give the three bytes of the 24-bit group made of four 6-bit values |
| `Base64Codec.JoinGroup` | libs_cpp/encode_decode_base64.cpp:94-96 | after the three assignments, `char_array_3` holds the C++ expressions over `char_array_4`; the same code is repeated at lines 112-114 |
| `Base64Codec.AppendBytes` | libs_cpp/encode_decode_base64.cpp:98-99 | the `push_back` loop appends the first `count` bytes of `char_array_3`; the same code is repeated at lines 116-117 |
| `Base64Codec.JoinedGroup` | libs_cpp/encode_decode_base64.cpp:91-96 | the bytes joined from a full group's looked-up values are that group's decoding |
| `Base64Codec.DecodeGroupsStep` | libs_cpp/encode_decode_base64.cpp:89-100 | one more full group of four characters adds its three bytes at the end of the decoding |
| `Base64Codec.DecodeFullGroup` | libs_cpp/encode_decode_base64.cpp:91-99 | the body of the `if (i == 4)` block appends the three bytes of the four characters held in `char_array_4` |
| `Base64Codec.DecodeNextGroup` | libs_cpp/encode_decode_base64.cpp:89-101 | the `if (i == 4)` block turns the decoding of the groups so far into the decoding of those groups plus the next one |
| `Base64Codec.DecodeTailFromSlots` | libs_cpp/encode_decode_base64.cpp:106-117 | for a final group of k characters, the first k - 1 joined bytes do not depend on the zero-filled slots |
| `Base64Codec.DecodeFinalGroup` | libs_cpp/encode_decode_base64.cpp:104-118 | the `if (i)` block appends the k - 1 bytes of the k characters left in `char_array_4` |
| `Base64Codec.DecodeAccepted` | libs_cpp/encode_decode_base64.cpp:85-118 | when the loop stops after the accepted prefix, the decoding is its full groups followed by the rest of the prefix |
| `Base64Codec.DecodeRest` | libs_cpp/encode_decode_base64.cpp:104-120 | after the loop, the characters read since the last full group complete the decoding |
| `Base64Codec.Base64Decode` | libs_cpp/encode_decode_base64.cpp:76-121 | `base64_decode(s)` returns the decoding of the accepted prefix of `s` |
| `Base64Properties.EncodeGroupsLength` | libs_cpp/encode_decode_base64.cpp:40-54 | every full group of three bytes gives four characters |
| `Base64Properties.EncodeLength` | libs_cpp/encode_decode_base64.cpp:40-71 | encoding n bytes gives exactly 4 * ((n + 2) / 3) characters, and the result is empty exactly when the input is |
| `Base64Properties.EncodePadding` | libs_cpp/encode_decode_base64.cpp:56-71 | the encoding ends in exactly 0, 1 or 2 `=` signs (0 exactly when n % 3 == 0), and every character before them is an alphabet character |
| `Base64Properties.EncodeAlphabet` | libs_cpp/encode_decode_base64.cpp:50-70 | every encoded character is in `base64_chars` or is `=` |
| `Base64Properties.StopIndexOfEncode` | libs_cpp/encode_decode_base64.cpp:85 | decoding an encoding reads exactly the characters before its padding |
| `Base64Properties.CharsValues` | libs_cpp/encode_decode_base64.cpp:51 | the characters chosen for 6-bit values are alphabet characters whose values are those values |
| `Base64Properties.DecodeQuantum` | libs_cpp/encode_decode_base64.cpp:94-96 | decoding the four characters of a group gives back its three bytes |
| `Base64Properties.DecodeGroupsSnoc` | libs_cpp/encode_decode_base64.cpp:89-100 | decoding full groups followed by one more group appends that group's three bytes |
| `Base64Properties.DecodeEncodeGroups` | libs_cpp/encode_decode_base64.cpp:43-53 | decoding the full groups of an encoding gives back their bytes |
| `Base64Properties.DecodeEncodeTail` | libs_cpp/encode_decode_base64.cpp:56-71 | decoding the unpadded final quantum gives back the one or two bytes it came from |
| `Base64Properties.DecodeSplit` | libs_cpp/encode_decode_base64.cpp:85-118 | a text whose accepted prefix is full groups g then a rest r decodes to g's bytes followed by r's |
| `Base64Properties.DecodeOfEncode` | libs_cpp/encode_decode_base64.cpp:32-121 | decoding an encoding decodes its full groups and its final quantum separately |
| `Base64Properties.RoundTrip` | libs_cpp/encode_decode_base64.cpp:32-121 | `base64_decode(base64_encode(b)) == b` for every byte sequence b, the empty one included |
| `Base64Properties.DecodeReadsPrefix` | libs_cpp/encode_decode_base64.cpp:85 | decoding depends only on the accepted prefix |
| `Base64Properties.StopIndexAppend` | libs_cpp/encode_decode_base64.cpp:85 | text appended after the first non-accepted character does not move the stop index |
| `Base64Properties.DecodeSamePrefix` | libs_cpp/encode_decode_base64.cpp:85 | two texts with the same accepted prefix decode to the same bytes |
| `Base64Properties.DecodeIgnoresRest` | libs_cpp/encode_decode_base64.cpp:85 | everything after the first `=` or non-alphabet character is ignored |
| `Base64Properties.DecodeGroupsLength` | libs_cpp/encode_decode_base64.cpp:89-100 | every full group of four characters gives three bytes |
| `Base64Properties.DecodeLength` | libs_cpp/encode_decode_base64.cpp:89-118 | an accepted prefix of length k decodes to 3 * (k / 4) + max(0, k % 4 - 1) bytes, and the empty text to none |
| `TempFile.LastDotFixesPrefix` | libs_cpp/encode_decode_base64.cpp:21-24 | the kept prefix is the whole name when there is no dot or the last dot is at 0, and otherwise stops one character before the last dot |
| `TempFile.CreateTempFile` | libs_cpp/encode_decode_base64.cpp:18-30 | the name always ends in `_temp.txt`, after a prefix of the input, and that prefix is as `LastDotFixesPrefix` states |
| `TempFile.CreateTempFileDropsCharBeforeDot` | libs_cpp/encode_decode_base64.cpp:21-27 | for any stem, any character c and any extension without a dot, `stem + c + "." + ext` gives `stem + "_temp.txt"`, whatever c is |
| `TempFile.CreateTempFileCollides` | libs_cpp/encode_decode_base64.cpp:24 | `a.txt` and `b.txt` both give `_temp.txt`, with nothing of their stems left |
| `TempFile.CreateTempFileIntended` | libs_cpp/encode_decode_base64.cpp:21-27 | the corrected name keeps the whole stem before the last dot, or the whole name when there is no dot, and ends in `_temp.txt` |
| `TempFile.IntendedKeepsStemsApart` | libs_cpp/encode_decode_base64.cpp:21-27 | with the corrected prefix, names with different stems get different temporary names |

## Left out

- `encodeFileToFile` and `decodeFileToFile` (libs_cpp/encode_decode_base64.cpp:123-172) are left out. They only read a whole file, call the codec on its contents and write the result, plus console messages; that is file I/O.
- The rest of the service is left out: the server in `libs_cpp/Server.cpp` (sockets, threads, the running flag, the connection set), the chunked transfer, and the end-marker framing. It is networking and concurrency, and the framing is declared in `include/Server.h` without an implementation.
- `include/encode_decode_base64.h` only declares the functions and `BYTE`, which is modelled as `bv8`.
- `Base64Codec.Base64Encode`: the `unsigned int bufLen` parameter is a `nat` bounded by the array's length, and the `int` counters are unbounded. Narrowing of these widths is not modelled, because lengths are assumed to fit.
- `Base64Codec.Base64Decode`: `int in_len = encoded_string.size()` is a `nat`, so a string longer than `INT_MAX` characters, where the conversion would go wrong, is not modelled.
- `Base64Codec.Base64Decode`: a character of the text stands for one byte of the `std::string`. Only characters below 256 can be stored into `char_array_4`, and `is_base64` guarantees that. Characters from 128 up are never alphabet characters in the C locale, so choosing `char` over `signed char` makes no difference.
- `Base64Alphabet.IsBase64`: `isalnum` is taken in the C locale. Other locales, where more bytes count as alphanumeric, are not modelled.
- The post-decrement `in_len--` in the loop test of `base64_decode` and the final `i++` of `while (i++ < 3)` in `base64_encode` change a counter after its last test. Nothing reads the counter afterwards, so the model stops the counter at the bound.
- `TempFile.CreateTempFile` requires the name to be shorter than `npos`, which every `std::string` is. The `out_of_range` exception of `substr` cannot occur, because the position passed is always 0.

## Findings

| source | as written | input that shows it | evidently intended | confidence | as-written member | corrected member |
|---|---|---|---|---|---|---|
| libs_cpp/encode_decode_base64.cpp:24 | `substr(0, dot_position - 1)` drops the character just before the last dot as well as the extension | `a.txt` and `b.txt` both give `_temp.txt`, so two inputs share one temporary file; in general `xc.ext` gives `x_temp.txt` for every character c | `substr(0, dot_position)`, the substring before the dot that the comment on line 23 announces | not executed | `TempFile.CreateTempFileCollides` | `TempFile.CreateTempFileIntended` |
