# MIME body decoders of mailparser, modelled in Dafny

This project models the three decoder streams of `lib/streams.js` in
mailparser: the quoted-printable decoder (`QPDecode`), the binary passthrough
(`BinaryDecode`) and the uuencode decoder (`UUEDecode`). Each takes encoded
chunks and emits decoded bytes. It keeps a running `length` of what it emitted
and an MD5 `checksum` fed with the same bytes.

- `basics.dfy` (module `Basics`): octets, `Result` for a call that may throw,
  and the foreign primitives as the `Collaborators` value. It also holds the
  digest bookkeeping. The MD5 state is a ghost log of the byte sequences given
  to `update`, and `Measured` ties `length` to that log. `BufferConcat` is
  Node's `Buffer.concat(list, totalLength)`.
- `text.dfy` (module `Text`): removal of one leading CRLF from a
  quoted-printable chunk, the `replace(/\r\n/g, '\n')` normalisation, and the
  `split(/\s/)` that finds the uuencoded file name.
- `charset.dfy` (module `Charset`): the constructors' charset default and the
  case-insensitive three-way charset dispatch shared by both text decoders.
- `qp_stream.dfy` (module `QPStream`): class `QPDecoder` with `current`,
  `length` and the digest log. It comes with the pure `AppendChunk`,
  `Accumulate` and `DecodeAll` that specify it.
- `binary_stream.dfy` (module `BinaryStream`): class `BinaryDecoder`.
- `uue_stream.dfy` (module `UUEStream`): class `UUEDecoder` with `buf`,
  `buflen`, `length` and the digest log, and its `Decode`.

The foreign primitives are `mimelib.decodeQuotedPrintable`, `uue.decodeFile`
and `encoding.convert`. They stay uninterpreted: each decoder is built with a
`Collaborators` value holding three functions and only calls them. An `Err`
from any of them is a thrown exception. It reaches the caller of the read,
and `length` and the digest stay as they were.

Each class has a `Valid()` invariant:

- `QPDecoder`: `current` is `Accumulate` of every chunk written, and `length`
  equals the number of bytes fed to the digest.
- `UUEDecoder`: `buf` holds the non-empty chunks written, in order, and
  `buflen` is the sum of their lengths. `length` equals the number of bytes
  fed to the digest.
- `BinaryDecoder`: the bytes fed to the digest, which are also the bytes
  pushed, are the bytes received, in order. `length` equals their number.

Lines 62 and 152 call `encoding.convert(buffer, "utf-8", charset)`. The
`encoding` package documents its parameters as `(text, toCharset,
fromCharset)`. The model passes the arguments as the code writes them:
`"utf-8"` second and the charset name, as given, third. It does not decide
which direction the converter goes.

## Model

| member | source | states |
|---|---|---|
| `Basics.BufferConcat` | lib/streams.js:131 | `Buffer.concat(list, n)` has exactly `n` bytes: the joined chunks cut to `n`, or padded with zeros past their end |
| `Basics.BufferConcatExact` | lib/streams.js:117-118 | when `n` is the running total that `_write` keeps in `buflen`, `Buffer.concat(buf, buflen)` is exactly the joined chunks |
| `Basics.TotalLengthIsConcatLength` | lib/streams.js:118 | the running sum of chunk lengths equals the length of the joined chunks |
| `Basics.ConcatAppend` | lib/streams.js:68 | the bytes fed to the digest by successive updates are the concatenation of the updates, so splitting the feed does not change the total |
| `Basics.MeasuredPush` | lib/streams.js:67-68 | adding `buffer.length` to `length` and feeding `buffer` to the digest keeps `length` equal to the number of bytes digested |
| `Text.StripLeadingCrlf` | lib/streams.js:42-44 | a chunk that starts with CRLF is CRLF followed by the result; any other chunk is returned unchanged; at most two characters go |
| `Text.StripLeadingCrlfOnce` | lib/streams.js:42-44 | only one leading CRLF is removed, even when the chunk starts with two |
| `Text.NormalizeLineEndings` | lib/streams.js:147 | `replace(/\r\n/g, '\n')` never lengthens the text. `NormalizeUnchangedIff` (a text with no `\r\n` is kept) and `NormalizeFirstCrlf` (the leftmost `\r\n` becomes `\n` and the scan resumes after it) together fix its result on every text; `NormalizeShrinksByCrlfCount` gives its length |
| `Text.NormalizeShrinksByCrlfCount` | lib/streams.js:147 | replacing `\r\n` with `\n` shortens the text by exactly the number of `\r\n` occurrences |
| `Text.NormalizeUnchangedIff` | lib/streams.js:147 | the normalised text equals the input exactly when the input holds no `\r\n` |
| `Text.NormalizeNotIdempotent` | lib/streams.js:147 | `"\r\r\n"` normalises to `"\r\n"`, and that normalises again to `"\n"` |
| `Text.NormalizeUndoesExpand` | lib/streams.js:147 | for a text with no carriage return, turning each LF into CRLF and then normalising gives the text back |
| `Text.NormalizeFirstCrlf` | lib/streams.js:147 | for a text `a + "\r\n" + b` whose part `a` holds no `\r\n`, the result is `a`, then `\n`, then the normalised `b`: the replacement works left to right, so a run of `\r` before the pair is kept |
| `Text.NormalizeConcat` | lib/streams.js:131-147 | normalisation distributes over any split except one that falls between the `\r` and the `\n` of a pair |
| `Text.NormalizePerChunkDiffers` | lib/streams.js:131-147 | a `\r\n` split across two chunks survives normalising each chunk on its own, which is why the chunks are joined before the replacement |
| `Text.IsWhitespace` | lib/streams.js:142 | on ASCII, the class `\s` is exactly space, tab, LF, CR, vertical tab and form feed. Digits, letters and `._-+` are never separators |
| `Text.SplitWhitespace` | lib/streams.js:142 | `split(/\s/)` always gives at least one token. `SplitWhitespaceRoundTrip` characterises it fully |
| `Text.SplitWhitespaceRoundTrip` | lib/streams.js:142 | `split(/\s/)` gives one more token than there are whitespace characters, and no token holds whitespace. Putting the separators back between the tokens gives the text back |
| `Text.FilenameTokenOfHeader` | lib/streams.js:142 | in `a w1 b w2 name rest`, with single whitespace separators and `rest` empty or starting with whitespace, the file name is `name` |
| `Text.FilenameToken` | lib/streams.js:142 | token 2 of `split(/\s/)`, or `''` when it is missing: the name holds no whitespace, and a header with fewer than two whitespace characters has no token 2, so the name is `""`. `FilenameTokenOfHeader` gives its value on a well-formed header |
| `Text.FilenameTokenOfBeginLine` | lib/streams.js:142 | the header `begin 644 a.txt` followed by CRLF yields `a.txt` |
| `Text.FilenameTokenDoubledFirstSeparator` | lib/streams.js:142 | `begin  644 a.txt`, with two spaces after `begin`, yields `644`, because consecutive whitespace gives an empty token |
| `Text.FilenameTokenDoubledSecondSeparator` | lib/streams.js:142-145 | two whitespace characters in a row after the second token make token 2 empty, so no file name is found |
| `Charset.EffectiveCharset` | lib/streams.js:21-32 | an absent or empty charset argument gives `"UTF-8"`, a constructor called without `new` always gives `"UTF-8"`, and a non-empty argument given with `new` is kept. The result is `"UTF-8"` exactly in those cases or when `"UTF-8"` itself was given |
| `Charset.Lower` | lib/streams.js:59 | `toLowerCase()` gives a name equal to the original up to letter case, with no upper-case ASCII letter left |
| `Charset.Classify` | lib/streams.js:59-65 | the dispatch picks `binary` exactly when the name equals `"binary"` ignoring case, and UTF-8 exactly when it equals `"utf-8"` ignoring case |
| `Charset.ClassifyIgnoresCase` | lib/streams.js:149-153 | two names that differ only in letter case take the same branch |
| `Charset.DefaultCharsetIsUtf8` | lib/streams.js:32 | the default charset `"UTF-8"` takes the UTF-8 branch |
| `Charset.ApplyCharset` | lib/streams.js:59-65 | `binary` and `utf-8` (any case) leave the decoded bytes unchanged. Any other name gives what `convert(bytes, "utf-8", name)` returns, with the name as given |
| `Charset.DefaultCharsetKeepsBytes` | lib/streams.js:108 | with the default charset, or `"Binary"`, the decoded bytes pass unchanged whatever the converter does |
| `Charset.IsoCharsetConverts` | lib/streams.js:151-152 | `"ISO-8859-1"` reaches the converter |
| `QPStream.AppendChunk` | lib/streams.js:36-50 | an empty chunk leaves `current` as it was. A non-empty chunk always sets it. An existing `current` is always a prefix of the new one |
| `QPStream.Accumulate` | lib/streams.js:41-50 | `current` after a sequence of writes is set exactly when one of the chunks was non-empty. `AccumulateJoinsPieces` gives its value |
| `QPStream.AccumulateJoinsPieces` | lib/streams.js:41-50 | after any sequence of chunks handed to `_write`, `current` is unset if every chunk was empty. Otherwise it is the non-empty chunks, each with one leading CRLF removed, joined by CRLF in arrival order |
| `QPStream.AccumulateTwoLines` | lib/streams.js:41-50 | writing `"abc"` and then `"\r\ndef"` gives `current == "abc\r\ndef"` |
| `QPStream.DecodeAll` | lib/streams.js:57-65 | a failure of the quoted-printable decoder propagates. Otherwise the read yields the charset step applied to the decode of the whole `current`, set or unset |
| `QPStream.DecodeAllDefaultCharset` | lib/streams.js:57-65 | with the default charset a read emits exactly what the foreign decoder returns |
| `QPStream.QPDecoder.constructor` | lib/streams.js:21-34 | a new decoder has the effective charset, no `current`, `length` 0 and an empty digest |
| `QPStream.QPDecoder.Write` | lib/streams.js:36-53 | the callback runs exactly when the chunk is non-empty. `current` becomes `AppendChunk(old current, chunk)` and the old `current` stays a prefix. `length` and the digest do not change |
| `QPStream.QPDecoder.Read` | lib/streams.js:56-71 | `current` is decoded again in full. On success `length` grows by exactly the emitted buffer's size and the digest gets exactly that buffer. On failure nothing changes |
| `QPStream.ReadTwice` | lib/streams.js:56-70 | two reads with no write between them emit the same buffer and leave `current` and the written chunks as they were. On success they add twice its length and feed it to the digest twice. On failure `length` and the digest are unchanged |
| `BinaryStream.BinaryDecoder.constructor` | lib/streams.js:75-83 | a new passthrough has `length` 0 and an empty digest |
| `BinaryStream.BinaryDecoder.Transform` | lib/streams.js:85-93 | a non-empty chunk is pushed unchanged, `length` grows by its size and the digest gets it. An empty chunk changes nothing. `length` always equals the total input size |
| `BinaryStream.PassTwo` | lib/streams.js:85-93 | two chunks through a fresh passthrough: the digested output is their concatenation and `length` is their total size |
| `UUEStream.HeaderOf` | lib/streams.js:142 | the header is the first min(length, 1024) bytes of the buffer read as text |
| `UUEStream.FilenameOfIgnoresTail` | lib/streams.js:142 | buffers that agree on their first 1024 bytes give the same file name |
| `UUEStream.FilenameOf` | lib/streams.js:142 | the file name holds no whitespace, and fewer than two whitespace characters in the first 1024 bytes means no file name |
| `UUEStream.NonEmptyKeepsBytes` | lib/streams.js:112-118 | dropping the empty chunks, as `_write` does, keeps the bytes the chunks make up |
| `UUEStream.UUEDecoder.constructor` | lib/streams.js:98-110 | a new decoder has the effective charset, an empty `buf`, `buflen` 0, `length` 0 and an empty digest |
| `UUEStream.UUEDecoder.Write` | lib/streams.js:112-121 | the callback runs exactly when the chunk is non-empty. A non-empty chunk is appended to `buf` and an empty one is ignored. `buflen` grows by the chunk's length and stays the sum of the lengths in `buf` |
| `UUEStream.UUEDecoder.Decode` | lib/streams.js:139-156 | no file name gives an empty buffer. Otherwise the CRLF-normalised text goes to the uudecoder with the file name. Its failure propagates, and its output goes through the charset step |
| `UUEStream.UUEDecoder.Flush` | lib/streams.js:130-137 | decodes the bytes of every chunk written, whatever the chunk boundaries. On success `length` grows by the result's size and the digest gets the result. On failure nothing changes |
| `UUEStream.UUEDecoder.Read` | lib/streams.js:124-128 | a read is a flush, and its result is what is pushed |
| `UUEStream.ReadWithoutHeader` | lib/streams.js:142-145 | input with no file name in its first 1024 bytes reads as an empty buffer with no error. The decoder stays valid, `buf`, `buflen` and the written chunks are unchanged, `length` stays the same, and the digest is fed the empty buffer |

## Left out

- Node's stream machinery is not modelled: the `Duplex` and `Transform` inheritance, `push`, the callbacks, the `size` hint of `_read`, and backpressure, which the code says it does not implement. A buffer that is pushed is the method's result. Whether `_write` invokes its callback is the `acknowledged` result. After an empty chunk the callback is never invoked (lib/streams.js:37-39, 113-115), so Node's Writable hands no later chunk to `_write`. The model still accepts later writes: its sequences of chunks include ones a real stream would never deliver past an empty chunk.
- The bodies of `mimelib.decodeQuotedPrintable`, `uue.decodeFile` and `encoding.convert` are not modelled. They are uninterpreted functions, passed in as `Collaborators`.
- MD5 is not modelled. The digest is the ghost log of the buffers given to `update`. The final digest equals MD5 of the logged bytes joined; that is a property of MD5, not of this code.
- `Base64Stream` is a re-export of `base64-stream` with no logic of its own here.
- Node's buffer and string conversions are modelled only for ASCII-range data. `toString()` and `toString('ascii')` read one character per byte (`Text.AsText`). `toLowerCase()` lower-cases ASCII letters only.
- `QPStream.QPDecoder.Read`: in the `utf-8` branch the source re-materialises the decoded string as UTF-8 bytes (`new Buffer(buffer, "utf-8")`). In the `binary` branch it keeps the string, counts its characters and lets `update` encode it. On ASCII-range data both leave the bytes unchanged, and that is how the model treats them.
- An absent chunk (`undefined` or `null`) is modelled as the empty sequence. The source sends it down the same no-op branch as an empty chunk.
- A charset argument that is truthy but not a string is not modelled. On such a value the source's `toLowerCase()` would throw.
- `UUEDecode` sets a field `current` that it never reads. The model leaves it out.
- The digest's finalisation (`digest()`) is not modelled, because it happens outside this file.
