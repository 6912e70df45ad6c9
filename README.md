# Gatling HTTP client: form body serialiser and file part content cursor

This project models two pieces of the streaming request-body layer of the
Gatling HTTP client, and proves properties of the models in Dafny.

**Form body (`FormUrlEncodedRequestBody`), module `FormBody` in `form_body.dfy`.**
An ordered list of params (a name and an optional value) is serialised into one
`application/x-www-form-urlencoded` string. The format is that of the
serializer in section 5.2 of the WHATWG URL Standard, with two differences the
model reproduces: an empty list is an error rather than the empty string, and
a param with a null value is written as its name alone, without `=`. Each
param is appended to one string builder as its encoded name, then `=` and its
encoded value when the value is non-null, then `&`. The builder is then
shortened by one character to drop the last `&`.
`Encode` is that loop. It is proved equal to the reference definition
`Serialize`, which joins one segment per param with `&`.
`Build` writes the text one byte per character (`writeAscii`) and declares that
byte count as the content length. `GetBytes` writes the text in the platform's
default charset.
The percent-encoders are foreign code, so they are parameters (`Encoders`): a
UTF-8 fast path, and a generic encoder that takes the charset name. Every
property holds for any such pair, given what it says about the encoders'
output: ASCII only, or never a raw `&` / `=`.

**File part content (`FilePartImpl`), module `FileParts` in `file_part.dfy`.**
This is the CONTENT phase of a multipart part (section 5.1 of RFC 2046, RFC 7578).
The class `FilePart` holds the file, the length fixed at construction, a lazily
opened `FileChannel`, the read cursor `position`, and the inherited `state` and
`slowTarget`.
- `CopyContentInto` fills a `ByteBuf` from the channel's own position.
- `TransferContentTo` moves up to a chunk of bytes from `position` to a `Sink`.
Each call advances the cursor by the positive count it got. It finishes the part
(state `PostContent`, channel closed if still open) when the cursor reaches the
length or the count is negative. Each method's postcondition ties the new cursor
to the pure function `Step` of the old one. The lemmas about `Run`, a sequence of
`Step`s, give the properties of whole transfers.

The transfer primitives (`ByteBuf.WriteBytes`, `FileChannel.TransferTo`) are
nondeterministic. Each moves any number of the file's remaining bytes, up to the
requested maximum, or reports -1. A closed channel always reports -1.

Three behaviours of the code that are easy to misread:
- `transferContentTo` flags a slow target whenever the part is not finished
  after the call. This happens even when the full chunk was moved, not only on a
  short transfer.
- `copyContentInto` compares the cursor with the file's current length
  (`file.length()`). `transferContentTo` compares it with the length recorded
  at construction. The model keeps both limits.
- `copyContentInto` reads from the channel's own position, not from `position`.
  The model proves the two stay equal as long as only `copyContentInto` is used.

## Model

| member | source | states |
|---|---|---|
| `FormBody.EncodeField` | gatling-http-client/src/main/java/io/gatling/http/client/body/form/FormUrlEncodedRequestBody.java:70-80 | the field is encoded by the UTF-8 fast path when the charset is UTF-8, otherwise by the generic encoder with the charset's name (nothing when that throws); the result is ASCII when the encoders are, and it never contains a delimiter the encoders escape |
| `FormBody.AppendFormField` | gatling-http-client/src/main/java/io/gatling/http/client/body/form/FormUrlEncodedRequestBody.java:70-81 | the builder is extended by exactly the field's encoding, and it stays ASCII when it was ASCII |
| `FormBody.AppendFormParam` | gatling-http-client/src/main/java/io/gatling/http/client/body/form/FormUrlEncodedRequestBody.java:61-68 | the builder is extended by the param's segment followed by `&`, so it always ends with `&` afterwards |
| `FormBody.SetLength` | gatling-http-client/src/main/java/io/gatling/http/client/body/form/FormUrlEncodedRequestBody.java:57 | truncating to a negative length fails; otherwise the result has the requested length, is a prefix of the builder when shorter, and extends it when longer |
| `FormBody.Encode` | gatling-http-client/src/main/java/io/gatling/http/client/body/form/FormUrlEncodedRequestBody.java:51-59 | the loop fails exactly on an empty param list; otherwise it returns the `&`-join of one segment per param, in input order |
| `FormBody.Build` | gatling-http-client/src/main/java/io/gatling/http/client/body/form/FormUrlEncodedRequestBody.java:42-49 | fails exactly on an empty list; otherwise the bytes are the serialised text written one byte per character, and the declared content length equals the number of bytes and the number of characters |
| `FormBody.GetBytes` | gatling-http-client/src/main/java/io/gatling/http/client/body/form/FormUrlEncodedRequestBody.java:89-92 | fails exactly on an empty list; otherwise it returns the serialised text in UTF-8, which with ASCII encoders is exactly the byte content `Build` writes |
| `FormBody.WriteAscii` | gatling-http-client/src/main/java/io/gatling/http/client/body/form/FormUrlEncodedRequestBody.java:47 | one byte per character, equal to the character's code for codes below 256 |
| `FormBody.TerminatedIsJoin` | gatling-http-client/src/main/java/io/gatling/http/client/body/form/FormUrlEncodedRequestBody.java:54-67 | for a non-empty list, the builder after the loop is the `&`-join of the segments plus one trailing `&`, so dropping the last character leaves no trailing separator |
| `FormBody.SerializeSegments` | gatling-http-client/src/main/java/io/gatling/http/client/body/form/FormUrlEncodedRequestBody.java:54-67 | with encoders that escape `&`, splitting the body on `&` gives back exactly one segment per param, segment i being param i's: no reordering, no merging, no deduplication |
| `FormBody.SegmentShape` | gatling-http-client/src/main/java/io/gatling/http/client/body/form/FormUrlEncodedRequestBody.java:61-67 | with encoders that escape `=`, a segment contains `=` exactly when the value is non-null (the empty string included); before the first `=` is the encoded name, after it the encoded value |
| `FormBody.SerializeLength` | gatling-http-client/src/main/java/io/gatling/http/client/body/form/FormUrlEncodedRequestBody.java:54-57 | the body of n params is as long as its segments together plus n - 1 separators |
| `FormBody.SerializeIsAscii` | gatling-http-client/src/main/java/io/gatling/http/client/body/form/FormUrlEncodedRequestBody.java:45-48 | with ASCII encoders, names and values both encoded in the body's charset, the whole body is ASCII |
| `FormBody.AsciiUtf8` | gatling-http-client/src/main/java/io/gatling/http/client/body/form/FormUrlEncodedRequestBody.java:90-91 | on ASCII text, the default-charset bytes of `getBytes` equal the `writeAscii` bytes of `build` |
| `FileParts.FilePart.constructor` | gatling-http-client/src/main/java/io/gatling/http/client/body/multipart/impl/FilePartImpl.java:32-41 | a new part has cursor 0, no channel, and a recorded length equal to the file's size (`ContentLength()`) at construction |
| `FileParts.FilePart.GetChannel` | gatling-http-client/src/main/java/io/gatling/http/client/body/multipart/impl/FilePartImpl.java:43-48 | the first call opens a fresh channel at position 0, and later calls return the same channel without opening another (at most one open, by `Valid`) |
| `FileParts.FilePart.CopyContentInto` | gatling-http-client/src/main/java/io/gatling/http/client/body/multipart/impl/FilePartImpl.java:50-68 | at most the buffer's writable bytes move, and they are the file's bytes from the channel position; the cursor and the channel position grow by exactly a positive count and stay put otherwise; the part finishes, channel closed, when the cursor equals `ContentLength()` (the file's current length, as `getContentLength` returns it) or the count is negative; a read on a channel already closed reports -1 and finishes the part; on a file unchanged since construction `ContentLength()` equals the recorded length, and a cursor in step with the channel never exceeds it |
| `FileParts.FilePart.TransferContentTo` | gatling-http-client/src/main/java/io/gatling/http/client/body/multipart/impl/FilePartImpl.java:70-88 | at most one chunk moves, and it is the file's bytes from the cursor; the channel position does not move; the cursor grows by exactly a positive count; the part finishes, channel closed, when the cursor equals the recorded length or the count is negative, and otherwise the target is flagged slow; a transfer on a channel already closed reports -1 and finishes the part; the raw count is returned; on a file unchanged since construction the cursor never exceeds `ContentLength()`, which equals the recorded length |
| `FileParts.FilePart.Close` | gatling-http-client/src/main/java/io/gatling/http/client/body/multipart/impl/FilePartImpl.java:90-94 | an opened channel ends up closed, and closing a channel that is already closed (by the content path or an earlier close) changes nothing |
| `FileParts.FileChannel.Close` | gatling-http-client/src/main/java/io/gatling/http/client/body/multipart/impl/FilePartImpl.java:64-66 | closing releases the handle once, and closing again is a no-op |
| `FileParts.ByteBuf.WriteBytes` | gatling-http-client/src/main/java/io/gatling/http/client/body/multipart/impl/FilePartImpl.java:57-58 | the read moves at most the requested and the remaining bytes, appends exactly the file's bytes from the channel position and advances that position; a closed channel reports -1 |
| `FileParts.FileChannel.TransferTo` | gatling-http-client/src/main/java/io/gatling/http/client/body/multipart/impl/FilePartImpl.java:72-75 | the transfer moves at most `count` and the remaining bytes, taken from the given position, and leaves the channel's own position alone; a closed channel reports -1 |
| `FileParts.RunPosition` | gatling-http-client/src/main/java/io/gatling/http/client/body/multipart/impl/FilePartImpl.java:59-61 | after any sequence of calls, the cursor has advanced by exactly the sum of the positive counts |
| `FileParts.RunBounded` | gatling-http-client/src/main/java/io/gatling/http/client/body/multipart/impl/FilePartImpl.java:35-41 | when no call moves more than the bytes left, the cursor is monotone and never passes the length |
| `FileParts.FinishedStays` | gatling-http-client/src/main/java/io/gatling/http/client/body/multipart/impl/FilePartImpl.java:62-63 | once in POST_CONTENT, further calls leave the part there |
| `FileParts.NegativeFinishes` | gatling-http-client/src/main/java/io/gatling/http/client/body/multipart/impl/FilePartImpl.java:79-80 | a negative count in any call finishes the part |
| `FileParts.FinishesOnce` | gatling-http-client/src/main/java/io/gatling/http/client/body/multipart/impl/FilePartImpl.java:79-83 | a run of calls moves the part into POST_CONTENT once if it ends there having started elsewhere, and never otherwise |
| `FileParts.FinishesAtLength` | gatling-http-client/src/main/java/io/gatling/http/client/body/multipart/impl/FilePartImpl.java:76-83 | with no negative counts and no call moving more than the bytes left, an unfinished part finishes exactly when the bytes delivered add up to the length |

## Left out

- Integer widths: `position` is a Java `long` and the copied count an `int`. The model uses unbounded integers, because a file never gets near these bounds.
- The percent-encoders (`Utf8UrlEncoder`, `java.net.URLEncoder`) are parameters. Their internals are foreign code.
- The platform default charset used by `getBytes` is taken to be UTF-8. Java strings are UTF-16, while the model's characters are code points, so for a character outside the Basic Multilingual Plane `writeAscii` writes two `?` in Java and one in the model. This only matters for non-ASCII text, which ASCII encoders never produce.
- Netty buffer allocation, `ByteBufAllocator` and the thread-local `StringBuilderPool` are left out. The builder is a string value that starts empty.
- ByteBuf.WriteBytes: requires the requested length to fit in the writable bytes, because buffer growth is not modelled. The part always asks for exactly the writable bytes.
- Real file I/O is replaced by a `DiskFile` holding bytes and nondeterministic transfer primitives. This covers `RandomAccessFile`, `FileChannel.transferTo` and `ByteBuf.writeBytes`. The JDK's `transferTo` never reports a negative count and throws on a closed channel. The model lets either primitive report -1, and a closed channel reports -1, which is the signal the part treats as the end. `IOException` paths and `closeSilently`'s swallowing of exceptions are not modelled.
- The base class is not shown: `FileLikePartImpl`/`PartImpl`, with the PRE_CONTENT and POST_CONTENT boundary and header bytes, the transition to DONE, and `super.close()`. The constructor's initial state is taken as PRE_CONTENT. `FileParts.FilePart.Close` models only the release of the channel.
- `MultipartChunkedInput.DEFAULT_CHUNK_SIZE` is a positive parameter of `TransferContentTo`.
- `newBuilder` and `toString` have no behaviour worth modelling.
- `HttpClient.java` (connection pool, HTTP/2 dispatch, flush) is not part of this model.
