# CheckSumIt hasher, modelled in Dafny

CheckSumIt computes checksums of files. Its core is the static class
`Hasher` (`CheckSumIt/Hasher.cs`). `GetHashAsync` takes a file and an ordered
list of algorithm names ("MD5", "SHA-1", "SHA-256", "SHA-384", "SHA-512") and
returns one hex digest per name, in request order. The hash objects are not
created per call: they live in one process-wide dictionary, `nameToHasher`,
keyed by name. Every call appends bytes to these objects and then takes each
value with `GetValueAndReset`, which also resets the object.

The method has two branches, split on the file size against a fixed
`CAPACITY` of 256 MiB:

- **In memory** (`size < CAPACITY`). The whole file is read into one buffer.
  For each name in turn, the buffer is appended to that name's object, and
  the value is taken and reset.
- **Streaming** (`size >= CAPACITY`). One buffer of `CAPACITY` bytes is
  refilled from a stream. Each chunk read is appended to the object of every
  requested name in turn. The loop stops at the first read that returns no
  bytes. Then each object's value is taken and reset, in request order.

## How the model is built

- `wrappers.dfy`: `Option` and `Result`.
- `hex.dfy`: bytes, and the hex text form of a digest
  (`CryptographicBuffer.EncodeToHexString`): two lower-case digits per
  byte, high nibble first. A decoder is
  the partner of the encoder. It shows the encoding loses nothing.
- `algorithms.dfy`: the five dictionary keys and the algorithm each one opens.
  The digest function itself is a parameter, `HashFunction`. Nothing is
  assumed about it, so every result holds whatever the platform computes.
- `streams.dfy`: the file as the streaming branch sees it. `InputStream` is a
  class over the file's bytes with a `position`. `Buffer` is a class with a
  fixed-size `array` and a `Length`. `ReadAsync` refills the buffer that was
  passed to it, which is the buffer the source goes on to test and append.
  While bytes remain, it delivers between one and `count` of them; at the end
  of the stream it delivers none. The stream decides how many.
- `hash_table.dfy` (module `HashTable`): the dictionary as a value. A `Table`
  maps each name to a `HashState`: the algorithm and the bytes appended since
  the last reset. Functions give the effect of each step: `AppendTo`,
  `ResetEntry`, `Feed` (one chunk to every name), `FeedChunks` (the read
  loop), `Finish` (the final query) and `Buffered` (the in-memory branch).
  `InMemory` and `Streamed` give a whole call, error path included. The
  lemmas say what these functions mean for the digests returned.
- `hasher.dfy` (module `Hashing`): the class `Hasher`. Its field `states` is
  the shared dictionary, updated in place. Its methods follow the source
  loop by loop. Each method is proved against the functions of `HashTable`.

A name requested twice refers to the same dictionary entry, just as it refers
to the same object in the source. The model therefore shows the source's
behaviour on repeated names (see `StreamedRepeatedName`).

`GetHash` returns a ghost log of the chunks the reads delivered, so that its
postcondition can state the streaming result for whatever chunk sizes the
stream chose.

Points of the code's behaviour that the model keeps:

- `CAPACITY` is a fixed 256 MiB (CheckSumIt/Hasher.cs:16). No other size
  policy exists.
- The split is `size < CAPACITY`, so a file of exactly 256 MiB is streamed
  (CheckSumIt/Hasher.cs:33).
- Hash objects are shared across calls (CheckSumIt/Hasher.cs:18-25). As a
  result, a repeated name gives different digests in the streaming branch.
- An unknown name is found during enumeration, in the streaming branch
  while the first chunk is fed. The objects of the names before it are
  left holding that chunk, which is the first bytes of the file
  (`StreamedStops`, `Hashing.Hasher.GetHash`).

## Model

| member | source | states |
|---|---|---|
| `Hex.EncodeToHexString` | CheckSumIt/Hasher.cs:40 | The hex form of a digest has two characters per byte, and every character is a hex digit. |
| `Hex.DecodeHexString` | CheckSumIt/Hasher.cs:40 | Partner of the encoder: a decoded string has twice as many characters as the bytes it gives. |
| `Hex.DecodeEncode` | CheckSumIt/Hasher.cs:40 | Decoding the hex form of any byte sequence gives back exactly that sequence. |
| `Hex.EncodeInjective` | CheckSumIt/Hasher.cs:64-65 | Two digests print as the same hex string if and only if they are the same bytes. |
| `Algorithms.Lookup` | CheckSumIt/Hasher.cs:18-25 | A name resolves to an algorithm exactly when it is one of the five keys, and the algorithm's key is that name. |
| `Algorithms.LookupName` | CheckSumIt/Hasher.cs:18-25 | Every algorithm is registered under its own key and resolves back to itself. |
| `HashTable.InitialTable` | CheckSumIt/Hasher.cs:18-25 | The dictionary as created holds exactly the five keys, each bound to its algorithm, each object empty. |
| `HashTable.FirstUnknown` | CheckSumIt/Hasher.cs:38 | The lookup throws at the first name the dictionary lacks: that position holds an unknown name, and all earlier positions hold known ones. |
| `HashTable.AppendTo` | CheckSumIt/Hasher.cs:39 | `Append` extends the named object's bytes by the data, keeps its algorithm, and leaves every other object and the key set unchanged. |
| `HashTable.ResetEntry` | CheckSumIt/Hasher.cs:40 | The reset half of `GetValueAndReset` empties the named object and changes no other object and no key. |
| `HashTable.InMemory` | CheckSumIt/Hasher.cs:33-41 | The whole in-memory call. It succeeds exactly when every name is a key, with one digest per name (`Buffered`'s). Otherwise it fails at `FirstUnknown` with a requested name the dictionary lacks, and the earlier names are left appended and reset. The key set never changes. |
| `HashTable.Streamed` | CheckSumIt/Hasher.cs:44-67 | The whole streaming call over the chunks read. It succeeds exactly when every name is a key, with one digest per name (`Finish` after `FeedChunks`). Otherwise it fails during the first chunk at `FirstUnknown` with a requested name the dictionary lacks, and the earlier names are left holding that chunk. The key set never changes. |
| `HashTable.Feed` | CheckSumIt/Hasher.cs:57-60 | Feeding one chunk to every requested object never adds or removes a dictionary key. |
| `HashTable.FeedChunks` | CheckSumIt/Hasher.cs:53-63 | The read loop never adds or removes a dictionary key. |
| `HashTable.Finish` | CheckSumIt/Hasher.cs:64-65 | The final query yields exactly one digest per requested name and keeps the key set. |
| `HashTable.Buffered` | CheckSumIt/Hasher.cs:36-41 | The in-memory branch yields exactly one digest per requested name and keeps the key set. |
| `HashTable.FeedDistinct` | CheckSumIt/Hasher.cs:57-60 | With distinct names, one pass of the foreach appends the chunk exactly once to each requested object and leaves all others unchanged. |
| `HashTable.FeedChunksDistinct` | CheckSumIt/Hasher.cs:53-63 | With distinct names, after the read loop each requested object holds its old bytes followed by the concatenation of all chunks, in order. Every algorithm sees identical content, and unrequested objects are untouched. |
| `HashTable.FinishTable` | CheckSumIt/Hasher.cs:64-65 | With distinct names, the final query empties exactly the requested objects. |
| `HashTable.FinishDigests` | CheckSumIt/Hasher.cs:64-65 | With distinct names, position i of the result is the hex digest of what the object of the i-th name held: the output is aligned with the request order. |
| `HashTable.BufferedTable` | CheckSumIt/Hasher.cs:38-40 | The in-memory branch leaves exactly the requested objects empty, even for repeated names, because every append is immediately reset. |
| `HashTable.BufferedDigests` | CheckSumIt/Hasher.cs:36-41 | When the requested objects start empty, position i of the in-memory result is the hex digest of the whole file under the i-th name's algorithm. This holds for repeated names too. |
| `HashTable.InMemoryCorrect` | CheckSumIt/Hasher.cs:33-41 | When every name is known and the requested objects start empty, the in-memory call returns the expected digests in request order and resets exactly the requested objects. |
| `HashTable.StreamedMatchesBuffered` | CheckSumIt/Hasher.cs:46-65 | With known, distinct names whose objects start empty, streaming any chunks that concatenate to the file gives the same digests and the same final dictionary as the in-memory branch. Chunk boundaries do not affect the result. |
| `HashTable.ReadStep` | CheckSumIt/Hasher.cs:55-60 | A read that delivers the next 1..CAPACITY bytes keeps every chunk within bounds, and the chunks still concatenate to the prefix of the file read so far. |
| `HashTable.InMemoryStops` | CheckSumIt/Hasher.cs:36-41 | If the i-th name is the first unknown one, the in-memory call fails with that name. The objects of the earlier names have been appended to and reset. |
| `HashTable.StreamedStops` | CheckSumIt/Hasher.cs:51-60 | If the i-th name is the first unknown one, the streaming call fails with that name. The objects of the earlier names are left holding the first chunk. |
| `HashTable.ResetAllOfClean` | CheckSumIt/Hasher.cs:40 | Resetting the requested objects of a clean dictionary gives back the same dictionary. |
| `HashTable.ConcatDoubled` | CheckSumIt/Hasher.cs:57-60 | The bytes a twice-requested object receives, each chunk twice in a row, are twice as long as the content. |
| `HashTable.FeedRepeated` | CheckSumIt/Hasher.cs:51-60 | For any chunks read, a name requested twice is one object, so it ends holding its old bytes followed by c1 c1 c2 c2 ...: each chunk twice in a row. |
| `HashTable.DoubledDiffers` | CheckSumIt/Hasher.cs:57-60 | With two different one-byte chunks, what a twice-requested object receives (c1 c1 c2 c2) is not the content doubled. |
| `HashTable.FinishRepeated` | CheckSumIt/Hasher.cs:64-65 | A name requested twice is one object, so the second query finds it already reset and yields the digest of no bytes. |
| `HashTable.BufferedRepeated` | CheckSumIt/Hasher.cs:36-41 | In the in-memory branch, the second query of a repeated name again sees the whole buffer. |
| `HashTable.StreamedRepeatedName` | CheckSumIt/Hasher.cs:46-65 | For a name requested twice and any chunks read, streaming gives the digest of c1 c1 c2 c2 ... (the content doubled when it is read in one chunk) and then the digest of no bytes. The in-memory branch gives the digest of the content at both positions. |
| `Streams.Buffer.constructor` | CheckSumIt/Hasher.cs:49 | A new buffer has the requested capacity and holds no data. |
| `Streams.InputStream.Open` | CheckSumIt/Hasher.cs:46-47 | A stream opens at the start of the file. |
| `Streams.InputStream.ReadAsync` | CheckSumIt/Hasher.cs:55 | A read fills the buffer with the next at most `count` bytes of the file, in order. It returns none exactly at the end of the file. |
| `Hashing.Hasher.constructor` | CheckSumIt/Hasher.cs:18-25 | The shared dictionary starts as the initial table: five keys, each object empty. |
| `Hashing.Hasher.Append` | CheckSumIt/Hasher.cs:39 | Appending to the object under a name updates the shared dictionary as `AppendTo` says and keeps it well formed. |
| `Hashing.Hasher.GetValueAndReset` | CheckSumIt/Hasher.cs:40 | Returns the digest of the bytes the object held and leaves that object empty. |
| `Hashing.Hasher.GetHash` | CheckSumIt/Hasher.cs:27-68 | Buffered exactly when `size < CAPACITY`. Success exactly when every name is one of the five keys. Every chunk read has 1..CAPACITY bytes, and the chunks always form a prefix of the file (on failure, the first bytes of the file), which on success is the whole file. With objects empty on entry and, when streaming, distinct names, the result is the hex digest of the file per name in request order, and a clean dictionary is left as it was. |
| `Hashing.Hasher.HashInMemory` | CheckSumIt/Hasher.cs:33-42 | The in-memory loop returns what `InMemory` specifies, error path included, and leaves the dictionary `InMemory` gives. |
| `Hashing.Hasher.HashStreamed` | CheckSumIt/Hasher.cs:44-67 | The streaming branch returns what `Streamed` specifies for the chunks it read. There is at least one chunk, each within bounds; together they are a prefix of the file, and on success the whole file. |
| `Hashing.Hasher.FeedStream` | CheckSumIt/Hasher.cs:49-63 | The read loop ends, at the first empty read. Each chunk is fed to every name, and the dictionary ends as `FeedChunks` says. An unknown name stops it during the first chunk. The chunks read are always a prefix of the file. |
| `Hashing.Hasher.AppendToEach` | CheckSumIt/Hasher.cs:57-60 | One pass of the foreach appends the chunk to each named object in order. An unknown name stops it with the earlier names fed. |
| `Hashing.Hasher.ValuesAndReset` | CheckSumIt/Hasher.cs:64-65 | The final query returns one hex digest per name, in order, resetting each object as `Finish` says. |

## Left out

- The user interface in `CheckSumIt/MainPage.xaml.cs` (file picker, drag and drop, check boxes, busy flag, result text) is not part of this model.
- The cryptographic algorithms (MD5 and the SHA family) and `HashAlgorithmProvider` are platform code. The digest function is an uninterpreted parameter of the model.
- `async`/`await` is modelled as plain sequential calls. The file's size is taken to be the length of its content; a file that changes between the size query and the reads is not modelled.
- LINQ's deferred evaluation is modelled as if the caller enumerated each result exactly once, right when the call returns. In the source, both returned queries are lazy: the in-memory `Select` (CheckSumIt/Hasher.cs:36-41) and the streaming branch's final query (CheckSumIt/Hasher.cs:64-65). Their lookups, `Append`, `GetValueAndReset` calls and resets run only when the caller enumerates the result. In the streaming branch, that is after the `using` blocks have closed the streams. The model runs them inside the call, so the statement that a call leaves the requested objects reset holds only in this eager reading. A second enumeration of a streaming result would take the values again and yield digests of no bytes; that is not modelled. The query over the dictionary that the read loop uses is re-run on every chunk; because the dictionary never changes its keys, the model looks names up once per pass, as the source does. Each such pass, and the final query, also re-enumerates the caller's `hashAlgorithms` (CheckSumIt/Hasher.cs:51, 57, 64). The model takes the names as one fixed sequence, so it assumes they enumerate the same way on every pass. The caller's lazy query over the check boxes (CheckSumIt/MainPage.xaml.cs:60-62) could in principle change between chunks; that is not modelled.
- Read failures and other I/O exceptions from the stream are not modelled. Neither is disposal of the stream at the end of the `using` blocks.
- The source's `KeyNotFoundException` is modelled as a `Failure(KeyNotFound(name))` result. The changes the call made to the shared dictionary before the throw are kept.
- `ReadAsync` is modelled as delivering any 1..`count` bytes while data remains. Reads that always fill the buffer until the end of the file are one case of this.
- Streams.InputStream.ReadAsync: assumes the data lands in the buffer that was passed in. The source ignores the buffer that `IInputStream.ReadAsync` returns (CheckSumIt/Hasher.cs:55) and then tests and appends the buffer it passed (CheckSumIt/Hasher.cs:56, 59). The platform contract allows the data to come back in a different buffer. The loop would then stop at once and hash no bytes. The model does not capture that case, so the concatenation and digest properties of `Hashing.Hasher.FeedStream` and `Hashing.Hasher.GetHash` rest on this assumption.
- The letter case of the hex output is taken to be lower case. Nothing in the model depends on it except the exact characters.
