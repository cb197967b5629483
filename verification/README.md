# Base64 codec and string tokenizer, modelled in Dafny

Two small C++ components: `Base64Code`, which encodes and decodes Base64
(the standard alphabet `A-Z a-z 0-9 + /`, `=` padding), and `stringTokenizer`,
which cuts a string into tokens separated by runs of delimiter characters and
can also cut out two-byte GB2312 (Chinese) characters.

- `StdString.dfy` is `std::string::find` of one character with its `npos` sentinel.
- `Base64.dfy` first defines what the codec computes as functions on byte
  sequences: `Encoded`, and `Decoded` built from `DecodeGroup`. It proves the
  properties of those functions: output length, the bit formulas per group,
  the padding layout, decode's 1/2/3 bytes per group, and the round trip
  `Decoded(Encoded(s)) == s`. Then `Encode` and `Decode` run the C++ loops over
  the fixed buffers `byte3` and `byte4` (Dafny arrays), and each is proved to
  return exactly that function.
- `Tokenizer.dfy` defines a function for what `next()`, `nextGB2312()` and
  `split()` return, with lemmas about them. The class `StringTokenizer` holds
  the fields `_buffer`, `_token`, `_delimiter` and the cursor `_currPos`, which
  is an index `cur` here. Its methods run the C++ loops and are proved against
  those functions.

A C++ `char` is a Dafny `char` in the tokenizer, and its code is the byte.
The tokenizer's invariant `Valid()` admits only codes below 256 in the buffer
and the delimiters (`IsBytes`). A C++ `char` is a `bv8` in the codec. There,
`bv8` arithmetic is the C++ arithmetic whose result is stored in an
`unsigned char`.

## Model

| member | source | states |
|---|---|---|
| StdString.Find | stringTokenizer/stringTokenizer.cpp:95 | `s.find(x)` is `npos` iff `x` does not occur; otherwise the index of the first occurrence |
| Base64.BaseCharsLayout | base64Code/base64Code.cpp:10-13 | the index table has 64 characters: A-Z at 0..25, a-z at 26..51, 0-9 at 52..61, `+` at 62 and `/` at 63 |
| Base64.Char | base64Code/base64Code.cpp:33 | the table character of a 6-bit index: looking it up again gives the index back, and it is never `=` |
| Base64.Index | base64Code/base64Code.cpp:68 | the index stored for a character: a 6-bit value or the sentinel 255, and 255 for `=` |
| Base64.CharIsBaseChars | base64Code/base64Code.cpp:33 | `Char(i)` is `baseString[i]` for every 6-bit index |
| Base64.IndexChar | base64Code/base64Code.cpp:68 | looking up the character of index i gives i back; no index maps to `=`, and `=` maps to 255 |
| Base64.CharIndex | base64Code/base64Code.cpp:68 | every character whose index is not 255 is the character of that index |
| Base64.BaseCharsDistinct | base64Code/base64Code.cpp:10-13 | the 64 table characters are pairwise distinct |
| Base64.FindFound | base64Code/base64Code.cpp:68 | `find` of a table character returns its index |
| Base64.FindMissing | base64Code/base64Code.cpp:68 | `find` of any other character (such as `=`) returns `npos` |
| Base64.IndexIsFind | base64Code/base64Code.cpp:68 | `Index(c)` equals `baseString.find(c)` truncated to an `unsigned char`, i.e. 255 for `npos` |
| Base64.Sextets | base64Code/base64Code.cpp:28-31 | the four `byte4` values computed from `byte3` (the formulas repeat at lines 43-46); SextetsBits states what they hold |
| Base64.Octets | base64Code/base64Code.cpp:70-72 | the three `byte3` values computed from `byte4`, one from each pair of neighbouring indices |
| Base64.Octet0 | base64Code/base64Code.cpp:70 | the first decoded byte has the six bits of index 0 on top, then the top two bits of index 1's six |
| Base64.Octet1 | base64Code/base64Code.cpp:71 | the second decoded byte has the low four bits of index 1 on top, then the middle four bits of index 2's six |
| Base64.Octet2 | base64Code/base64Code.cpp:72 | for a 6-bit index 3, the third decoded byte has the low two bits of index 2 on top, then index 3 |
| Base64.SextetsBits | base64Code/base64Code.cpp:28-31 | the four `byte4` values are below 64 and hold the same 24 bits as the three `byte3` bytes, most significant first |
| Base64.OctetsBits | base64Code/base64Code.cpp:70-72 | on 6-bit indices, the three `byte3` bytes of decode hold the same 24 bits as the four indices |
| Base64.OctetsSextets | base64Code/base64Code.cpp:70-72 | decode's byte formulas undo encode's index formulas; byte 0 depends only on indices 0-1 and byte 1 only on indices 0-2, so trailing padding leaves them intact |
| Base64.FirstByte | base64Code/base64Code.cpp:70 | decode's first byte formula recovers the first input byte from encode's first two indices |
| Base64.SecondByte | base64Code/base64Code.cpp:71 | decode's second byte formula recovers the second input byte from encode's indices 1 and 2 |
| Base64.ThirdByte | base64Code/base64Code.cpp:72 | decode's third byte formula recovers the third input byte from encode's indices 2 and 3 |
| Base64.EncodeGroup | base64Code/base64Code.cpp:24-35 | a full group of three bytes encodes to four characters |
| Base64.EncodeGroups | base64Code/base64Code.cpp:24-35 | n full groups encode to 4n characters |
| Base64.EncodeTail | base64Code/base64Code.cpp:36-53 | no remainder gives no characters; a remainder of 1 or 2 bytes gives 4 characters |
| Base64.Encoded | base64Code/base64Code.cpp:15-55 | what `encode(s)` returns: the group loop's output followed by the padded remainder; it is empty exactly for the empty input |
| Base64.Decoded | base64Code/base64Code.cpp:57-87 | what `decode(s)` returns, group after group; it is empty exactly for the empty input |
| Base64.DecodeGroup | base64Code/base64Code.cpp:73-84 | a group of four characters decodes to 1 byte if its third index is the sentinel 255, else 2 if its fourth is, else 3 |
| Base64.EncodedLength | base64Code/base64Code.cpp:18-19 | the encoding of n bytes has 4·⌈n/3⌉ characters; the empty string encodes to the empty string |
| Base64.EncodeGroupsAppend | base64Code/base64Code.cpp:24-35 | encoding whole groups distributes over concatenation |
| Base64.EncodeGroupsSnoc | base64Code/base64Code.cpp:24-35 | one more group of three bytes appends exactly its four characters |
| Base64.EncodeGroupsAt | base64Code/base64Code.cpp:24-35 | input group g (bytes 3g..3g+2) becomes output characters 4g..4g+3 |
| Base64.EncodedGroup | base64Code/base64Code.cpp:28-33 | the four characters of each full group g are the table characters at `b0>>2`, `(b0&3)<<4 \| b1>>4`, `(b1&15)<<2 \| b2>>6` and `b2&63` |
| Base64.SextetsForm | base64Code/base64Code.cpp:28-31 | the masked formulas of the source equal the shift-and-or forms |
| Base64.EncodeGroupAlphabet | base64Code/base64Code.cpp:32-34 | the four characters of a full group are all table characters |
| Base64.EncodeGroupsAlphabet | base64Code/base64Code.cpp:24-35 | every character produced by the group loop is a table character |
| Base64.EncodedPadding | base64Code/base64Code.cpp:36-53 | for n % 3 = r > 0 the output ends with 3 − r `=` after r + 1 table characters; when r = 0 there is no `=`; `=` appears nowhere else |
| Base64.DecodedAppend | base64Code/base64Code.cpp:66-85 | decoding works group by group: it distributes over concatenation of whole groups |
| Base64.DecodedSnoc | base64Code/base64Code.cpp:66-85 | one more group of four characters appends exactly what that group decodes to |
| Base64.DecodedLength | base64Code/base64Code.cpp:60-64 | decoding a length-4k input yields between k and 3k bytes |
| Base64.DecodeEncodeGroup | base64Code/base64Code.cpp:66-85 | a full group decodes back to the three bytes it was encoded from |
| Base64.DecodeEncodeTail | base64Code/base64Code.cpp:73-79 | a padded remainder decodes back to exactly its one or two bytes |
| Base64.DecodeEncodeGroups | base64Code/base64Code.cpp:66-85 | decoding undoes the group loop of encode |
| Base64.RoundTrip | base64Code/base64Code.cpp:15-87 | the encoding of any byte string has a length divisible by 4 (so decode accepts it), and decoding it gives the string back |
| Base64.Load | base64Code/base64Code.cpp:25-27 | `buf[i] = s[pos++]` for the next count bytes: the buffer prefix is that slice of the input, the rest of the buffer is unchanged, and the position advances by count |
| Base64.SplitBytes | base64Code/base64Code.cpp:28-31 | after the four assignments, `byte4` holds the four 6-bit indices of `byte3` |
| Base64.AppendChars | base64Code/base64Code.cpp:32-34 | appends the table characters of the first count indices of `byte4`, in order |
| Base64.EncodeGroupOfSextets | base64Code/base64Code.cpp:32-34 | the indices in `byte4` are all below 64, and their characters are the encoding of the group |
| Base64.EncodeTailOfSextets | base64Code/base64Code.cpp:40-52 | for a zero-filled remainder, the first r + 1 characters of `byte4` followed by `=` padding are the encoding of the remainder |
| Base64.EncodeNextGroup | base64Code/base64Code.cpp:25-34 | one iteration of the group loop appends the encoding of the next three bytes |
| Base64.EncodeRemainder | base64Code/base64Code.cpp:36-53 | the remainder branch appends the padded encoding of the last one or two bytes |
| Base64.Encode | base64Code/base64Code.cpp:15-55 | `encode(s)` returns `Encoded(s)`, about which the lemmas above state length, padding, alphabet and round trip |
| Base64.LoadIndices | base64Code/base64Code.cpp:67-69 | `byte4[i]` is the truncated `find` of the next four input characters, and the position advances by 4 |
| Base64.JoinBytes | base64Code/base64Code.cpp:70-72 | after the three assignments, `byte3` holds the bytes joined from the four indices |
| Base64.AppendDecoded | base64Code/base64Code.cpp:73-84 | the if / else-if / else appends exactly what the group decodes to |
| Base64.Decode | base64Code/base64Code.cpp:57-87 | `decode(s)` of a length divisible by 4 returns `Decoded(s)`, which undoes `Encoded` |
| Tokenizer.DefaultDelimiterChars | stringTokenizer/stringTokenizer.h:16 | `DEFAULT_DELIMITER` is exactly space, `\t`, `\v`, `\n`, `\r`, `\f`, in that order |
| Tokenizer.SkipDelims | stringTokenizer/stringTokenizer.cpp:87-90 | skipping delimiters never moves the cursor backwards or past the end |
| Tokenizer.SkipDelimsStops | stringTokenizer/stringTokenizer.cpp:87-90 | skipping passes only delimiters and stops at the end or on a non-delimiter |
| Tokenizer.SkipDelimsAgain | stringTokenizer/stringTokenizer.cpp:87-90 | skipping delimiters twice is the same as once |
| Tokenizer.RunEnd | stringTokenizer/stringTokenizer.cpp:55-59 | the token loop never moves the cursor backwards or past the end |
| Tokenizer.RunEndStops | stringTokenizer/stringTokenizer.cpp:55-59 | the token loop passes only non-delimiters and stops at the end or on a delimiter |
| Tokenizer.NextToken | stringTokenizer/stringTokenizer.cpp:47-61 | the new cursor is at least the old one plus the token's length, and within the buffer |
| Tokenizer.NextTokenSpec | stringTokenizer/stringTokenizer.cpp:47-61 | next() returns the stretch just before the new cursor, after only delimiters; it is a maximal run of non-delimiters, the cursor ends at the end or on a delimiter, and the token is empty only at the end |
| Tokenizer.Tokens | stringTokenizer/stringTokenizer.cpp:105-114 | the tokens of successive next() calls from the cursor, up to the first ""; none when the cursor is at the end |
| Tokenizer.TokensCount | stringTokenizer/stringTokenizer.cpp:105-114 | split() returns at most as many tokens as characters remain after the cursor |
| Tokenizer.TokensSpec | stringTokenizer/stringTokenizer.cpp:105-114 | every token split() returns is non-empty and free of delimiters |
| Tokenizer.RemoveDelimsSkip | stringTokenizer/stringTokenizer.cpp:87-90 | skipped delimiters contribute nothing to the remaining text |
| Tokenizer.RemoveDelimsKeep | stringTokenizer/stringTokenizer.cpp:55-59 | a run of non-delimiters is kept whole and in order |
| Tokenizer.SplitConcat | stringTokenizer/stringTokenizer.cpp:105-114 | the tokens of split(), concatenated, are the rest of the buffer with every delimiter removed |
| Tokenizer.TokensStep | stringTokenizer/stringTokenizer.cpp:108-111 | a non-empty token from next() is followed by the tokens from where it stops |
| Tokenizer.NextTokenAtEnd | stringTokenizer/stringTokenizer.cpp:48-60 | once next() returns "", the cursor is at the end and every further call returns "" without moving it |
| Tokenizer.TokensCover | stringTokenizer/stringTokenizer.cpp:105-114 | split() returns no token iff only delimiters remain after the cursor |
| Tokenizer.IsLeadByte | stringTokenizer/stringTokenizer.cpp:98-100 | the GB2312 lead bytes 0xA2..0xFD; every one of them is a non-ASCII byte |
| Tokenizer.SignedLeadByte | stringTokenizer/stringTokenizer.cpp:98-100 | with a signed `char`, `c > char(0xa1) && c < char(0xfe)` holds exactly for the bytes 0xA2..0xFD |
| Tokenizer.RunEndGB | stringTokenizer/stringTokenizer.cpp:70-82 | the ASCII run of nextGB2312() stays within the buffer and never moves backwards |
| Tokenizer.RunEndGBStops | stringTokenizer/stringTokenizer.cpp:70-82 | that run passes only bytes that are neither delimiters nor lead bytes, and stops at the end, a delimiter or a lead byte |
| Tokenizer.LeadNotLast | stringTokenizer/stringTokenizer.cpp:74-75 | the next token does not start with a lead byte that is the last byte; it always holds when the last byte is no lead byte |
| Tokenizer.NextGB | stringTokenizer/stringTokenizer.cpp:63-84 | what nextGB2312() returns and where it leaves the cursor; the new cursor is at least the old one plus the token's length, and within the buffer |
| Tokenizer.NextGBKinds | stringTokenizer/stringTokenizer.cpp:63-84 | after the delimiters (so a token never starts with one), nextGB2312() returns "" only at the end, a lead byte with its following byte, or a maximal run of bytes that are neither delimiters nor lead bytes |
| Tokenizer.RunEndGBNoLead | stringTokenizer/stringTokenizer.cpp:70-82 | without lead bytes, the GB2312 run ends where next()'s run ends |
| Tokenizer.NextGBNoLead | stringTokenizer/stringTokenizer.cpp:63-84 | on text without lead bytes, nextGB2312() and next() return the same token and cursor |
| Tokenizer.StringTokenizer.Empty | stringTokenizer/stringTokenizer.cpp:12-14 | default constructor: empty buffer and token, default delimiters, cursor at 0 |
| Tokenizer.StringTokenizer.constructor | stringTokenizer/stringTokenizer.cpp:16-18 | buffer and delimiters as given (DEFAULT_DELIMITER when omitted), empty token, cursor at 0 |
| Tokenizer.StringTokenizer.Set | stringTokenizer/stringTokenizer.cpp:27-31 | buffer and delimiters replaced (DEFAULT_DELIMITER when omitted), cursor at 0, token kept |
| Tokenizer.StringTokenizer.SetString | stringTokenizer/stringTokenizer.cpp:33-36 | buffer replaced, cursor at 0, delimiters and token kept |
| Tokenizer.StringTokenizer.SetDelimiter | stringTokenizer/stringTokenizer.cpp:38-40 | delimiters replaced; buffer, cursor and token kept |
| Tokenizer.StringTokenizer.AddDelimiter | stringTokenizer/stringTokenizer.cpp:42-44 | the delimiters become old + new, so a character is a delimiter afterwards iff it was one or is among the new ones |
| Tokenizer.StringTokenizer.IsDelimiter | stringTokenizer/stringTokenizer.cpp:94-96 | true iff the character occurs in the delimiter string |
| Tokenizer.StringTokenizer.IsChineseCharacter | stringTokenizer/stringTokenizer.cpp:98-100 | true iff the byte under the cursor lies in 0xA2..0xFD, whatever the argument |
| Tokenizer.StringTokenizer.SkipDelimiter | stringTokenizer/stringTokenizer.cpp:87-90 | the cursor moves to where SkipDelims stops |
| Tokenizer.StringTokenizer.Next | stringTokenizer/stringTokenizer.cpp:47-61 | on an empty buffer it returns "" with token and cursor unchanged; otherwise it returns and stores in the token the token NextToken gives, and moves the cursor where NextToken says |
| Tokenizer.StringTokenizer.NextGB2312 | stringTokenizer/stringTokenizer.cpp:63-84 | on an empty buffer it returns "" with token and cursor unchanged; otherwise it returns and stores the token NextGB gives, and moves the cursor where NextGB says |
| Tokenizer.StringTokenizer.ScanGB2312 | stringTokenizer/stringTokenizer.cpp:70-82 | from a cursor past the delimiters, the loop builds the token NextGB gives and leaves the cursor where NextGB says |
| Tokenizer.StringTokenizer.Split | stringTokenizer/stringTokenizer.cpp:105-114 | returns the non-empty tokens of successive next() calls from the cursor; the cursor ends at the end of the buffer, and the token is "" afterwards (unchanged on an empty buffer) |

## Left out

- Memory management is not modelled: `result.reserve` (`base64Code.cpp` lines 22 and 64), the destructor, and the copying of `std::string` and `std::vector` values. Dafny sequences are values, so the copying has no observable effect here.
- Sizes are unbounded. `npos` is the largest 64-bit `size_t`. The tokenizer's methods require the delimiter string to be shorter than `npos` so that `find` can answer.
- Encode and Decode: the model puts no bound on the input length. The C++ codec counts with `int pos` and `int g` (`base64Code.cpp` lines 20, 24, 26, 62, 66); for inputs of 2^31 bytes or more they overflow, which is undefined behaviour. Its `unsigned group` (lines 18 and 60) truncates the `size_t` quotient for inputs longer than about 3 · 2^32 bytes. Neither is modelled.
- Base64.Decode: the C++ code only `assert`s that the length is a multiple of 4. That is modelled as a precondition, not as what happens when assertions are compiled out (the trailing characters would be ignored).
- Base64.Decoded: characters outside the alphabet other than `=` are decoded as computed, with index 255. No error is reported, because the C++ code reports none. Only inputs produced by `encode` get properties about them.
- Base64.EncodedGroup: the source adds the two parts of an index (`+`); the lemma writes `|`. SextetsForm proves the two forms equal.
- Base64.Char and Base64.Index: they are defined by the ranges of the alphabet, not by indexing and searching the literal. CharIsBaseChars and IndexIsFind prove them equal to `baseString[i]` and to the truncated `baseString.find(c)`.
- Encode and Decode: the loop bodies are split into helper methods (Load, SplitBytes, AppendChars, LoadIndices, JoinBytes, AppendDecoded). Each of them does exactly the statements it cites, and together they run in the source's order.
- Tokenizer.StringTokenizer.NextGB2312: requires that a lead byte starting a token is not the last byte of the buffer (LeadNotLast). In that case the C++ code reads and steps past `_buffer.end()`, which is undefined behaviour.
- Tokenizer.StringTokenizer.IsChineseCharacter: it tests the byte under the cursor and ignores its argument, as the C++ code does. Every call passes the byte under the cursor anyway.
- Tokenizer.SignedLeadByte: a `char` of the tokenizer stands for a byte, so the signed reading is stated for character codes below 256. Whether `char` is signed is a platform choice; both readings select the same lead bytes.
- The cursor `_currPos` is an index, not an iterator. An iterator invalidated by reassigning `_buffer` is not modelled, because `set` and `setString` reset the cursor right away.
- The remaining files of the repository are not part of this model: the container and functional headers, the tokenizer's test driver, and the design-pattern and garbage-collector code.
