# GitZipQR core, modelled in Dafny

GitZipQR turns a file (or a directory, zipped first) into a folder of QR code
images and back. The encoder encrypts the data, cuts the ciphertext into
1400-byte chunks and writes one PNG per chunk, named `qr-%06d.png`. Each PNG
holds a JSON envelope with these fields:

- `type`: the tag `GitZipQR-CHUNK-ENC`;
- `chunk`, `total`;
- `hash`: the chunk's SHA-256 in hex;
- `dataB64`: the chunk in Base64;
- `name`, `ext`;
- `cipherHash`;
- `saltB64`, `nonceB64`;
- the KDF parameters.

The decoder scans a directory for `.png`/`.jpg`/`.jpeg` files and reads each
one as a PNG to find its QR text. A file that libpng cannot open or read (any
JPEG among them) raises an exception outside the worker's `try`, which ends the
program. It accepts the texts whose type tag and per-chunk hash check out, and
keeps the chunks in an index-to-bytes map where the last writer wins. The file
name, extension, global hash, salt and nonce are latches: each takes its
value from the first accepted text that finds it empty, reaches that key in
its latch chain and offers a non-empty value (after `b64d` for salt and
nonce). A key whose `get` throws, because it is not a string, ends the chain
for that text, so the later latches do not see it. The chunk count is set
by every accepted text that reaches the last latch while it is still
negative, so a negative `total` does not stick. Once every index `0..total-1` is
present, it joins the chunks, checks the global hash and hands the ciphertext,
salt, nonce and associated data to the decryption.

The project models the sequential logic of that pipeline. It has one module
per concern:

- `Basics`: bytes, `Option`/`Result` and decimal text.
- `Base64`: `b64` and `b64d` of src/common.hpp, as loops proved against a
  functional encoder and decoder.
- `Hex`: the nibble loop of `sha256_hex`.
- `Passwords`: `join_passwords` and the newline trim of `prompt_hidden`.
- `MiniJson`: the `mini_json::value` of third_party/json.hpp. It has a
  recursive-descent parser that returns `(value, next index)`, the serialiser,
  and `contains`/`get`.
- `JsonWriter`: `dump_into` as recursive methods appending to a string stream
  object.
- `Paths`: the `filename()`/`extension()`/`stem()` rules of
  `std::filesystem::path`, and the `std::tolower` loop.
- `Encode`: `materialize_data`, the chunk split, the envelope of `do_one`, the
  file names and the AES-GCM associated data of src/encode.cpp.
- `Decode`: the decoder of src/decode.cpp: the image filter, the
  validate/store/latch worker as a `Scanner` class and as a fold `Scan`, and
  the completion, gap, global-hash and crypto-parameter checks. A second
  decoder loop skips images that do not read, for the finding below.
- `RoundTrip`: what the decoder makes of the encoder's own output.

SHA-256 is a parameter (`Hasher`, a function from bytes to 32 bytes). The QR
reader is a parameter from a path to its text, or to nothing when the PNG
cannot be read. The thread pools of both
programs become a sequential pass over the inputs. Order matters here: the
latches keep the first value they see and the chunk map keeps the last.

Behaviour of the source that the model shows:

- JSON numbers are printed with six significant digits, so 1000000 and
  1000001 dump to the same text (`MiniJson.LargeNumbersCollide`). The round
  trip of an encoding therefore holds below 10^6 chunks.
- `parse_obj` does not skip white space between a `,` and the next key, so
  `{"a":1, "b":2}` is refused (`MiniJson.SpaceAfterComma`). The serialiser
  never writes such a space.
- A repeated key keeps its first value (`MiniJson.RepeatedKeyKeepsFirst`).
- One image that does not read as a PNG terminates the decoder, even when the
  other images hold every chunk (`RoundTrip.UnreadableBesideComplete`); see
  "## Findings".
- The associated data carries the KDF thread count. The decoder rebuilds that
  count from its own hardware concurrency rather than reading it from the
  envelope. The two associated data texts agree exactly when the encoding and
  decoding machines report the same count (`RoundTrip.AadAgrees`).

## Model

| member | source | states |
|---|---|---|
| `Basics.ToBytes` | src/encode.cpp:68 | a string becomes the byte vector of its characters, one byte per character, same length |
| `Basics.Decimal` | src/encode.cpp:78 | decimal text is all digits, non-empty, and "0" exactly for zero (no leading zero otherwise) |
| `Basics.DecimalRoundTrip` | src/encode.cpp:78 | reading the decimal text of n gives back n |
| `Basics.ZeroPadded` | src/encode.cpp:78 | `%06d` text: all digits, at least the width long, and its value is n |
| `Basics.ZeroPaddedInjective` | src/encode.cpp:78 | different numbers give different zero-padded texts |
| `Hex.Sha256Hex` | src/common.hpp:18-19 | the hex digest is 64 lower-case hex characters |
| `Hex.HexDigest` | src/common.hpp:19 | the nibble loop writes exactly the hex text of the digest |
| `Hex.HexAt` | src/common.hpp:19 | characters 2i and 2i+1 are the high and low nibble of byte i |
| `Hex.HexInjective` | src/common.hpp:19 | two digests with the same hex text are equal |
| `Passwords.JoinPasswords` | src/common.hpp:32 | the loop builds the parts separated by single NULs |
| `Passwords.JoinLength` | src/common.hpp:32 | the empty list gives ""; otherwise the length is the sum of the part lengths plus count-1 |
| `Passwords.SplitJoin` | src/common.hpp:32 | splitting the joined text at NUL gives back the parts (for NUL-free parts): one NUL between parts and none at either end |
| `Passwords.SplitAppendPlain` | src/common.hpp:32 | appending NUL-free text only extends the last part |
| `Passwords.TrimLineEnds` | src/common.hpp:35 | the result is a prefix of the file contents, does not end in `\n`/`\r`, and everything removed was `\n` or `\r` |
| `Base64.IndexOfChar` | src/common.hpp:29-30 | the decode table maps each alphabet character back to its value |
| `Base64.CharOfIndex` | src/common.hpp:29-30 | a character the table accepts is the alphabet character of its value |
| `Base64.EncodeShape` | src/common.hpp:24-27 | output length is 4*ceil(n/3); alphabet characters only, then `==`, `=` or nothing as n%3 is 1, 2 or 0 |
| `Base64.EncodeStep` | src/common.hpp:24-25 | each full triple adds the four characters of its 24 bits |
| `Base64.EncodeTail` | src/common.hpp:26-27 | one or two left-over bytes give two or three characters and the padding |
| `Base64.B64` | src/common.hpp:23-28 | the loop with the 24-bit word produces the Base64 text of the input |
| `Base64.AccumulatorStep` | src/common.hpp:31 | one alphabet character updates `val`/`valb` and emits a byte exactly when four, two or three sextets complete one |
| `Base64.ReadStep` | src/common.hpp:31 | one turn of the loop: `=` ends the output, a foreign character is skipped, an alphabet character advances the decoder |
| `Base64.B64d` | src/common.hpp:29-31 | the loop with the bit accumulator computes the decoded bytes |
| `Base64.DecodeEncode` | src/common.hpp:23-31 | `b64d(b64(x)) == x` for every byte sequence |
| `Base64.DecodeLength` | src/common.hpp:31 | k alphabet characters before the first `=` give floor(6k/8) bytes |
| `Base64.DecodeStopsAtPad` | src/common.hpp:31 | everything from the first `=` on is ignored |
| `Base64.DecodeSkipsForeign` | src/common.hpp:31 | a character outside the alphabet other than `=` is skipped |
| `MiniJson.InsertLookup` | third_party/json.hpp:47 | `emplace` adds a key only when absent; every other key is unchanged |
| `MiniJson.InsertSorted` | third_party/json.hpp:12 | inserting into an ordered member list keeps it ordered by key, as `std::map` is |
| `MiniJson.InsertAllLookup` | third_party/json.hpp:47 | after a run of emplaces a key holds its earliest value |
| `MiniJson.LookupSome` | third_party/json.hpp:29 | a key is found exactly when some member has it |
| `MiniJson.ContainsIff` | third_party/json.hpp:30 | `contains(k)` holds exactly when the value is an object with a member named k |
| `MiniJson.SkipWs` | third_party/json.hpp:35 | `skipws` never moves backwards and stays within the text |
| `MiniJson.SkipWsSpec` | third_party/json.hpp:35 | everything skipped is white space and the character reached is not |
| `MiniJson.SkipWsIdempotent` | third_party/json.hpp:35 | skipping white space twice is skipping it once |
| `MiniJson.StrBody` | third_party/json.hpp:59-60 | a string body, when terminated, ends after the start and inside the text |
| `MiniJson.StrBodyEscape` | third_party/json.hpp:59 | a backslash takes the next character literally, so the escaped text of t reads back as t up to the closing quote |
| `MiniJson.ParseStr` | third_party/json.hpp:57-61 | a parsed string consumes at least one character and stays within the text |
| `MiniJson.ParseStrNoQuote` | third_party/json.hpp:58 | a string must start with `"`, else the "expected quote" error |
| `MiniJson.StrBodyUnterminated` | third_party/json.hpp:59-60 | a body with no `"` to the end of the text is the "unterminated string" error |
| `MiniJson.ParseStrUnterminated` | third_party/json.hpp:58-60 | an opening `"` with no closing one is the "unterminated string" error |
| `MiniJson.Backslashed` | third_party/json.hpp:59 | every character behind a backslash: twice as long |
| `MiniJson.StrBodyBackslashed` | third_party/json.hpp:59 | a backslash followed by c reads as c for every character c, `"` and the backslash included, up to the closing quote |
| `MiniJson.StrBodyPlain` | third_party/json.hpp:59 | characters other than `"` and the backslash are copied one by one |
| `MiniJson.EscapedQuoteUnterminated` | third_party/json.hpp:59-60 | a string whose only closing quote is escaped is unterminated |
| `MiniJson.ParseStrDump` | third_party/json.hpp:57-60 | `parse_str` of the dump of a string returns the original string |
| `MiniJson.NumSpanSpec` | third_party/json.hpp:63 | the number scan takes all and only the number characters from the cursor |
| `MiniJson.ParseNum` | third_party/json.hpp:62-65 | a parsed number consumes its whole run and stays within the text |
| `MiniJson.ParseAny` | third_party/json.hpp:36-43 | a parsed value moves the cursor forward and stays within the text |
| `MiniJson.ParseObj` | third_party/json.hpp:44-50 | a parsed object moves the cursor past its `{` and stays within the text |
| `MiniJson.ParseMembers` | third_party/json.hpp:46-48 | the member loop moves forward and stays within the text |
| `MiniJson.ParseArr` | third_party/json.hpp:51-56 | a parsed array moves the cursor past its `[` and stays within the text |
| `MiniJson.ParseElems` | third_party/json.hpp:53-54 | the element loop moves forward and stays within the text |
| `MiniJson.LeadingSpace` | third_party/json.hpp:37 | leading white space does not change what is parsed |
| `MiniJson.OnlySpace` | third_party/json.hpp:37 | white space to the end of the text is the "json eof" error |
| `MiniJson.ParseLiteralDump` | third_party/json.hpp:41-42 | `true`, `false` and `null` are recognised |
| `MiniJson.ParseAnyOpen` | third_party/json.hpp:38 | `[` starts an array and `{` an object |
| `MiniJson.ParseArrOpen` | third_party/json.hpp:52 | `[]` is the empty array; anything else goes to the element loop |
| `MiniJson.ParseObjOpen` | third_party/json.hpp:45 | `{}` is the empty object; anything else goes to the member loop |
| `MiniJson.ParseElemsLast` | third_party/json.hpp:53-54 | an element followed by `]` closes the array with that element last |
| `MiniJson.ParseElemsMore` | third_party/json.hpp:53-54 | an element followed by `,` is appended and the loop continues after the comma |
| `MiniJson.ParseMembersLast` | third_party/json.hpp:46-48 | a member followed by `}` is emplaced and closes the object |
| `MiniJson.ParseMembersMore` | third_party/json.hpp:46-48 | a member followed by `,` is emplaced and the loop continues after the comma |
| `MiniJson.NumTextChars` | third_party/json.hpp:69 | a number below 10^6 in magnitude is printed as its exact decimal, which the number scan reads back |
| `MiniJson.LastDigitLost` | third_party/json.hpp:69 | seven-digit numbers that differ only in a last digit below 5 print the same |
| `MiniJson.LargeNumbersCollide` | third_party/json.hpp:69 | 1000000 and 1000001 dump to the same text |
| `MiniJson.EscapePlain` | third_party/json.hpp:72 | a key without `"` or `\` is written as it is |
| `MiniJson.DumpFirst` | third_party/json.hpp:66-73 | every dump is non-empty and starts with a character that begins a value |
| `MiniJson.ParseAnyDump` | third_party/json.hpp:36-73 | a dumped value embedded in a text parses back to itself and ends where its dump ends |
| `MiniJson.ParseArrDump` | third_party/json.hpp:51-56 | the dump of an array parses back to the same array |
| `MiniJson.ParseObjDump` | third_party/json.hpp:44-50 | the dump of an object parses back to its members emplaced in order |
| `MiniJson.ParseElemsDump` | third_party/json.hpp:53-54 | the element loop over a dumped item list returns those items |
| `MiniJson.ParseMembersDump` | third_party/json.hpp:46-48 | the member loop over a dumped member list emplaces those members |
| `MiniJson.ParseIgnoresRest` | third_party/json.hpp:33 | `parse` returns the first complete value and ignores trailing text |
| `MiniJson.DumpParse` | third_party/json.hpp:32-33 | `parse(dump(v)) == v` for ordered objects with plain keys and numbers below 10^6 |
| `MiniJson.RepeatedKeyKeepsFirst` | third_party/json.hpp:47 | an object text with a repeated key parses to the first occurrence |
| `MiniJson.KeepFirst` | third_party/json.hpp:47 | emplacing a key twice keeps the first value |
| `MiniJson.SpaceAfterComma` | third_party/json.hpp:48 | white space after a `,` in an object is the "expected quote" error |
| `JsonWriter.StringStream.constructor` | third_party/json.hpp:32 | a new stream is empty |
| `JsonWriter.StringStream.Write` | third_party/json.hpp:70 | writing appends to the stream and changes nothing else |
| `JsonWriter.EscapeAppend` | third_party/json.hpp:70 | escaping distributes over concatenation |
| `JsonWriter.DumpItemsSnoc` | third_party/json.hpp:71 | the array loop adds `,` before every element but the first |
| `JsonWriter.DumpMembersSnoc` | third_party/json.hpp:72 | the object loop adds `,` before every `"k":v` but the first |
| `JsonWriter.DumpInto` | third_party/json.hpp:66-73 | `dump_into` appends exactly the dump of the value |
| `JsonWriter.DumpStrInto` | third_party/json.hpp:70 | the string branch appends the quoted, escaped string |
| `JsonWriter.DumpItemsInto` | third_party/json.hpp:71 | the array loop appends the comma-separated element dumps |
| `JsonWriter.DumpMembersInto` | third_party/json.hpp:72 | the object loop appends the comma-separated `"k":v` pieces in key order |
| `JsonWriter.DumpText` | third_party/json.hpp:32 | `dump()` returns the dump of the value |
| `Paths.LastIndex` | src/encode.cpp:16 | the last position of a character, or -1, with no later occurrence |
| `Paths.Filename` | src/encode.cpp:16 | `filename()` is a suffix without `/`, preceded by `/` when shorter than the path |
| `Paths.Extension` | src/encode.cpp:24 | `extension()` is a suffix that starts with its only `.`, and never the whole name |
| `Paths.Stem` | src/encode.cpp:25 | stem followed by extension is the file name |
| `Paths.MaterializeData` | src/encode.cpp:14-28 | a directory gives its name and `.zip`; a file gives base + ext == its name, ext empty or starting with `.` after a non-empty base |
| `Paths.Lower` | src/decode.cpp:52 | `tolower` maps `A`..`Z` to `a`..`z` and leaves every other character alone |
| `Paths.LowerAll` | src/decode.cpp:52 | lower-casing works character by character and keeps the length |
| `Paths.LowerInPlace` | src/decode.cpp:52 | the in-place loop leaves the array lower-cased |
| `Paths.LowerCopy` | src/decode.cpp:52 | the loop on a copy of the extension returns it lower-cased |
| `Encode.Threads` | src/encode.cpp:57 | `max(1, hardware_concurrency)`: at least one, the core count when known |
| `Encode.ChunkCount` | src/encode.cpp:66 | total == ceil(sz/1400): enough chunks for every byte, no empty chunk, zero only for empty data |
| `Encode.ChunkAt` | src/encode.cpp:67 | chunk i has min(1400, sz-1400i) bytes, and follows the bytes of chunks 0..i-1 |
| `Encode.ChunkFull` | src/encode.cpp:67 | every chunk but the last is full |
| `Encode.SplitChunks` | src/encode.cpp:65-67 | the loop yields total chunks, chunk i is chunk i of the data, and together they are the data |
| `Encode.FileId` | src/encode.cpp:68 | fileId is 16 lower-case hex characters: the first 8 bytes of the hash of nameBase |
| `Encode.ChunkFileName` | src/encode.cpp:78 | the name is `qr-`, the six-digit zero-padded index, `.png` |
| `Encode.ChunkFileNameInjective` | src/encode.cpp:78 | distinct indices give distinct file names |
| `Encode.ChunkFileNameLength` | src/encode.cpp:78 | below 10^6 a chunk file name is 13 characters |
| `Encode.MapOf` | src/encode.cpp:59 | building a `std::map` from a list orders it by key and keeps each key's first value |
| `Encode.EnvelopeKeysDistinct` | src/encode.cpp:73-76 | the fourteen envelope keys are pairwise distinct |
| `Encode.EnvelopeLookup` | src/encode.cpp:72-77 | each envelope key looks up the value listed with it |
| `Encode.EnvelopeFields` | src/encode.cpp:72-77 | every envelope carries the type tag, chunk i, the total, name, ext, cipherHash, salt, nonce, and `hash`/`dataB64` made from the same chunk |
| `Encode.EnvelopeDumpable` | src/encode.cpp:72-78 | the envelope's dump parses back to it (below 10^6 chunks and threads) |
| `Encode.KdfParamsDumpable` | src/encode.cpp:75 | the KDF parameter object's dump parses back to it |
| `Encode.AadDumpable` | src/encode.cpp:59-60 | the associated data object's dump parses back to it |
| `Encode.AadNamesThreads` | src/encode.cpp:59-60 | two associated data texts for the same name differ exactly when the thread counts differ |
| `Encode.AadThreads` | src/encode.cpp:59 | the associated data object records the KDF thread count under `p` |
| `Encode.Codes` | src/encode.cpp:82-84 | one QR code per chunk index |
| `Encode.CodeAt` | src/encode.cpp:83 | the i-th code is the QR for chunk i |
| `Encode.CodesNamesDistinct` | src/encode.cpp:78 | no two chunks are written to the same file |
| `Encode.DoOne` | src/encode.cpp:70-78 | given the ciphertext hash, file id and chunk i as computed, `do_one(i)` writes code i |
| `Encode.EncodeChunks` | src/encode.cpp:82-84 | the loop over all chunk indices produces every chunk's QR code in index order |
| `Decode.Select` | src/decode.cpp:50-54 | the filter keeps at most the entries it was given |
| `Decode.SelectIff` | src/decode.cpp:50-54 | a path is kept exactly when some entry with that path passes the filter |
| `Decode.SelectSnoc` | src/decode.cpp:53 | one more entry adds its path at the end exactly when it passes |
| `Decode.Images` | src/decode.cpp:50-54 | the image list is no longer than the directory listing |
| `Decode.ImagesIff` | src/decode.cpp:50-54 | a path is scanned exactly when it is a regular file with a `.png`/`.jpg`/`.jpeg` extension in any case |
| `Decode.CheckEntry` | src/decode.cpp:51-53 | the loop body's test is the image predicate |
| `Decode.Visit` | src/decode.cpp:51-53 | one directory entry appends its path exactly when it is an image |
| `Decode.CollectImages` | src/decode.cpp:49-54 | the directory loop collects exactly the images, in directory order |
| `Decode.Check` | src/decode.cpp:62-67 | the worker's checks accept exactly what the validation function accepts |
| `Decode.ValidateIff` | src/decode.cpp:62-67 | a text is accepted exactly when it is non-empty, parses, has the type tag, a numeric chunk and total, and its `dataB64` decodes to bytes whose hash is `hash` |
| `Decode.LatchText` | src/decode.cpp:70 | a latched text that is non-empty stays as it is |
| `Decode.LatchBytes` | src/decode.cpp:73 | a latched byte field that is non-empty stays as it is |
| `Decode.Latch` | src/decode.cpp:70-75 | the latches leave the chunks alone and never overwrite a field already set, nor a non-negative expected total |
| `Decode.LatchExt` | src/decode.cpp:71 | from `ext` on, the latches keep every field already set |
| `Decode.LatchCipherSha` | src/decode.cpp:72 | from `cipherHash` on, the latches keep every field already set |
| `Decode.LatchSalt` | src/decode.cpp:73 | from `saltB64` on, the latches keep every field already set |
| `Decode.LatchNonce` | src/decode.cpp:74-75 | the nonce and total latches keep every field already set |
| `Decode.StepLatches` | src/decode.cpp:68-75 | a rejected text changes nothing; an accepted one never overwrites a latched field |
| `Decode.StepChunks` | src/decode.cpp:69 | an accepted text stores its data under its index, replacing what was there; other indices are unchanged |
| `Decode.LatchesHold` | src/decode.cpp:70-75 | a field latched after some prefix of the texts keeps that value to the end of the scan |
| `Decode.LatchChain` | src/decode.cpp:70-75 | what one text's latch chain writes. Each field still empty takes the string under its key (its `b64d` for salt and nonce). The total takes the text's own total while the expected total is negative. A key holding a non-string while its field is empty throws and ends the chain: no later latch of that text writes |
| `Decode.ChainedStop` | src/decode.cpp:70-76 | a latch that throws leaves its own and every later field as it was, as the `catch` does |
| `Decode.ExtChain` | src/decode.cpp:71-75 | the chain from the `ext` latch on writes what `Decode.LatchChain` says for those fields |
| `Decode.CipherShaChain` | src/decode.cpp:72-75 | the chain from the `cipherHash` latch on, likewise |
| `Decode.SaltChain` | src/decode.cpp:73-75 | the chain from the `saltB64` latch on, likewise |
| `Decode.NonceChain` | src/decode.cpp:74-75 | the nonce and total latches, likewise |
| `Decode.StoreChain` | src/decode.cpp:69-75 | storing the chunk before the latches does not change what they write |
| `Decode.StepFields` | src/decode.cpp:60-76 | one text sets each field that was unset before it to what the text offers it, and leaves the rest; a rejected text offers nothing |
| `Decode.ScanSteps` | src/decode.cpp:60-76 | along the list, each field after text `i` is its value before text `i` updated by what text `i` offers it |
| `Decode.FirstOffer` | src/decode.cpp:70-75 | for a field updated by a run of latches: it ends set exactly when some offer found it unset and set it, and then it holds that offer; any offer that would set it leaves it set; a set value stays to the end |
| `Decode.NameLatched` | src/decode.cpp:70 | `nameBase` ends non-empty exactly when some text found it empty and offered a non-empty name, and then it is that name; any text that offers a non-empty name leaves it set |
| `Decode.ExtLatched` | src/decode.cpp:71 | the same for `metaExt` and `ext` |
| `Decode.CipherShaLatched` | src/decode.cpp:72 | the same for `cipherSha` and `cipherHash` |
| `Decode.SaltLatched` | src/decode.cpp:73 | the same for `salt` and the `b64d` of `saltB64` |
| `Decode.NonceLatched` | src/decode.cpp:74 | the same for `nonce` and the `b64d` of `nonceB64` |
| `Decode.TotalLatched` | src/decode.cpp:75 | `expectedTotal` ends non-negative exactly when some text whose chain reached line 75 found it negative and offered a non-negative total, and then it is that total; a negative total does not stick |
| `Decode.ScanHas` | src/decode.cpp:69 | after the scan an index is present exactly when some accepted text carried it |
| `Decode.ScanLast` | src/decode.cpp:69 | the data at an index is that of the last accepted text that carried the index |
| `Decode.Range` | src/decode.cpp:83 | the index set 0..n-1 has n elements |
| `Decode.ChunksComplete` | src/decode.cpp:81-83 | neither "Missing chunks" nor "Gap" exactly when the total is positive and the key set is {0..total-1} |
| `Decode.GapIff` | src/decode.cpp:83 | "Gap" exactly when the count matches the total but some key lies outside 0..total-1 |
| `Decode.Scanner.constructor` | src/decode.cpp:56-58 | the decoder starts with no chunks, empty latches and total -1 |
| `Decode.Scanner.Accept` | src/decode.cpp:60-76 | one worker turn moves the state as the fold step does |
| `Decode.Scanner.Store` | src/decode.cpp:70 | the name latch under the lock, then the later latches |
| `Decode.Scanner.StoreExt` | src/decode.cpp:71 | the ext latch, then the later latches |
| `Decode.Scanner.StoreCipherSha` | src/decode.cpp:72 | the cipherHash latch, then the later latches |
| `Decode.Scanner.StoreSalt` | src/decode.cpp:73 | the salt latch, then the later latches |
| `Decode.Scanner.StoreNonce` | src/decode.cpp:74-75 | the nonce and total latches |
| `Decode.Scanner.Finish` | src/decode.cpp:81-98 | after the workers: the missing-chunk, gap, global-hash and crypto-parameter checks in that order, then the ciphertext, salt, nonce, associated data and output name |
| `Decode.Texts` | src/decode.cpp:37-42 | when every image reads, one text per image, in list order, each the one the QR reader returns for it |
| `Decode.ScanSnoc` | src/decode.cpp:60-62 | one more text scanned is one more worker step from the state the earlier texts left |
| `Decode.UnreadableAborts` | src/decode.cpp:16-22 | one image whose PNG read throws ends `main` with termination, whatever the others hold |
| `Decode.Restore` | src/decode.cpp:48-98 | `main` yields "No QR images" for a listing without images, termination when some image does not read, else the outcome of the scan of their texts |
| `Decode.Readings` | src/decode.cpp:62 | skipping unreadable images keeps at most one text per image |
| `Decode.ReadingsSnoc` | src/decode.cpp:62 | one more image adds its text when it reads and nothing when it does not |
| `Decode.ReadingsIff` | src/decode.cpp:62 | a text is read exactly when some image reads as it |
| `Decode.ReadingsAll` | src/decode.cpp:62 | when every image reads, skipping reads the same texts as the source |
| `Decode.SkippingAgrees` | src/decode.cpp:62-63 | the skipping decoder never terminates, and agrees with the source whenever every image reads |
| `Decode.RestoreSkipping` | src/decode.cpp:48-98 | the decoder loop with an unreadable image skipped like one without a QR code computes the skipping outcome |
| `RoundTrip.PayloadAccepted` | src/decode.cpp:62-67 | the decoder accepts every payload the encoder writes, with the encoder's index, total and chunk |
| `RoundTrip.LatchEnvelope` | src/decode.cpp:70-75 | the latches of an envelope leave every field holding the encoder's value |
| `RoundTrip.StepPayload` | src/decode.cpp:68-75 | reading one payload stores its chunk and leaves the latches at the encoder's values |
| `RoundTrip.ScanPayloads` | src/decode.cpp:60-78 | scanning any sequence of payloads stores exactly their chunks and latches the encoder's metadata |
| `RoundTrip.JoinedChunks` | src/decode.cpp:83 | joining chunks 0..n-1 of the encoding gives the first n chunks of the ciphertext |
| `RoundTrip.AllChunks` | src/decode.cpp:81-83 | when every index was read the map has total keys, no gap, and joins to the ciphertext |
| `RoundTrip.AllRead` | src/decode.cpp:81-98 | with every chunk read, decoding restores the ciphertext, salt and nonce and names the file nameBase + ext |
| `RoundTrip.SomeMissing` | src/decode.cpp:81 | a chunk never read gives "Missing chunks" |
| `RoundTrip.DecodeEncoded` | src/decode.cpp:60-98 | payloads by index decode to the original exactly when every index occurs, otherwise "Missing chunks" |
| `RoundTrip.IndexRead` | src/decode.cpp:62 | chunk k's payload is among the texts exactly when index k is |
| `RoundTrip.DecodeTexts` | src/decode.cpp:60-98 | any texts from one encoding, in any order and repetition, restore the original exactly when every chunk's payload is among them, otherwise "Missing chunks" |
| `RoundTrip.RestoreEncoded` | src/decode.cpp:48-98 | a directory of this encoding's QR images: no images gives "No QR images", an unreadable image terminates, all chunks restore the original, else "Missing chunks" |
| `RoundTrip.RestoreSkippingEncoded` | src/decode.cpp:48-98 | skipping unreadable images: no images gives "No QR images"; the original is restored exactly when every chunk's payload is read from some image, else "Missing chunks" |
| `RoundTrip.UnreadableBesideComplete` | src/decode.cpp:62 | one unreadable image beside images holding every chunk: the source terminates, the skipping decoder restores the original |
| `RoundTrip.AadAgrees` | src/decode.cpp:94-95 | decoder and encoder build the same associated data exactly when their thread counts agree |
| `RoundTrip.ChunkFileNameNoSlash` | src/encode.cpp:78 | a chunk file name has no `/` |
| `RoundTrip.ChunkFileParts` | src/decode.cpp:52 | a chunk file name is its own `filename()` and has extension `.png` |
| `RoundTrip.ChunkFileIsImage` | src/decode.cpp:51-53 | the encoder's `qr-%06d.png` files pass the decoder's image filter |

## Left out

- SHA-256, scrypt and AES-256-GCM are OpenSSL calls. SHA-256 is a parameter
  function from bytes to 32 bytes. The key derivation, the encryption and the
  decryption are not modelled: decoding ends with the inputs the decryption
  would get.
- Reading the input file, `sha256_hex_file` and writing the output are file
  I/O. The ciphertext is a byte sequence, and the hex loop is shared with
  `sha256_hex`.
- QR encoding (`qrencode`), libpng reading and ZXing detection are external
  tools and libraries. The source has no JPEG reader. The decoder takes the
  reader as a function from a path to its text, or to nothing when `png_rgba`
  throws, and the encoder stops at the payload text and file name of each
  code.
- The `zip` shell-out and temporary files are external. A directory input is
  modelled only by its name and the `.zip` extension.
- Threads, `std::atomic` cursors, mutexes and progress output are
  concurrency. Both worker pools are one sequential pass. The decoder's pass
  reads the images in list order, and each turn does what a worker does under
  the lock.
- Password prompts, terminal echo, `GZQR_PASSFILE` and other environment
  variables are interaction. The password file's contents are a parameter to
  the trim.
- The `Password >=8` check and the password count prompt are left out with the
  prompts.
- `config.hpp` and its default password are not part of this model.
- The KDF parameters are not read back on decode. The decoder uses its own core
  count, as the source does.
- MiniJson.ParseNum: numbers are integers. A run of number characters that is
  not an optionally negative digit string (a fraction, an exponent, a `+`) is
  the error `BadNumber`, where `std::stod` would read a double.
- MiniJson.ParseAny: its own contract, like those of ParseObj, ParseMembers,
  ParseArr, ParseElems, ParseStr, StrBody, ParseNum and SkipWs, says only that
  the cursor moves forward within the text. What each one returns is stated by
  the lemmas beside it (SkipWsSpec, LeadingSpace, OnlySpace, ParseAnyOpen, the
  `...Last`/`...More` lemmas, the `...Dump` round trips, and for strings
  ParseStrNoQuote, StrBodyUnterminated, ParseStrUnterminated,
  StrBodyBackslashed, StrBodyPlain and EscapedQuoteUnterminated). Whole-value
  results for texts that are not dumps (a number scan followed by junk, a
  literal prefix such as `tru`) have no lemma.
- MiniJson.Dump: only integer-valued numbers are printed. Numbers of 10^6 or
  more use the six-significant-digit scientific form of `ostream << double`,
  with round-half-to-even on the exact decimal. Integers beyond 2^53 are not
  first rounded to the nearest double.
- MiniJson.DumpParse: holds only for numbers below 10^6 in magnitude and
  objects with keys free of `"` and `\`, because larger numbers lose digits
  when printed and keys are written unescaped.
- RoundTrip.DecodeTexts: holds only below 10^6 chunks and threads, for the same
  number-printing reason. A payload holds exactly one chunk, and salt and nonce
  are non-empty (16 and 12 random bytes in the source).
- The `(int)` casts of `chunk`, `total` and the file size are not modelled.
  Indices are unbounded integers.
- Base64.B64d: keeps only the low 12 bits of the accumulator `val`, which is
  all that any emitted byte reads. The source's signed `int` grows without a
  mask.
- Basics.ToBytes: a character stands for one byte of a `std::string`, taken
  modulo 256. Characters at or above 256, whose UTF-8 encoding is several
  bytes, are outside the model. The hash of a file name is the hash of those
  bytes.
- `std::tolower` is modelled for the "C" locale only.
- `sha256_hex` truncation to 16 characters for `fileId` is modelled as the hex
  of the first 8 digest bytes. The two are the same text.

## Findings

| source | as written | input that shows it | evidently intended | confidence | as-written member | corrected member |
|---|---|---|---|---|---|---|
| src/decode.cpp:62 | `decode_qr` runs before the worker's `try`, so the exception `png_rgba` throws for a file libpng cannot read leaves the thread and terminates the program | a directory holding every `qr-%06d.png` of an encoding plus one `.jpg` (the filter selects it, libpng rejects it) | skip an unreadable image as one without a QR code, and restore the file from the others | not executed | `RoundTrip.UnreadableBesideComplete` | `RoundTrip.RestoreSkippingEncoded` |
