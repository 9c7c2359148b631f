/**
  The static Hasher class of CheckSumIt/Hasher.cs. Its dictionary of hash
  objects is created once and shared by every call, so it is modelled as an
  object whose `states` field the methods update in place; the functions of
  HashTable say what each update does.
 */
module Hashing {
  import opened Wrappers
  import opened Hex
  import opened Algorithms
  import opened HashTable
  import opened Streams

  /** Files below this size are read whole; larger ones are streamed in chunks of at most this size (256 MiB). */
  const CAPACITY: nat := 1024 * 1024 * 256

  class Hasher {
    /** The platform's digest functions, fixed for the life of the process. */
    const hash: HashFunction
    /** nameToHasher: one hash object per algorithm name. */
    var states: Table

    /** The dictionary always holds the five names, each bound to its own algorithm. */
    ghost predicate Valid()
      reads this
    {
      && states.Keys == SupportedNames
      && forall n :: n in states ==> Name(states[n].algorithm) == n
    }

    constructor (hash: HashFunction)
      ensures Valid() && this.hash == hash && states == InitialTable()
    {
      this.hash := hash;
      states := InitialTable();
    }

    /** CryptographicHash.Append on the object registered under `name`. */
    method Append(name: string, data: seq<byte>)
      requires Valid() && name in states
      modifies this
      ensures Valid() && states == AppendTo(old(states), name, data)
    {
      states := AppendTo(states, name, data);
    }

    /** CryptographicHash.GetValueAndReset on the object registered under `name`. */
    method GetValueAndReset(name: string) returns (value: seq<byte>)
      requires Valid() && name in states
      modifies this
      ensures Valid() && states == ResetEntry(old(states), name)
      ensures value == hash(old(states)[name].algorithm, old(states)[name].acc)
    {
      value := hash(states[name].algorithm, states[name].acc);
      states := ResetEntry(states, name);
    }

    /**
      GetHashAsync: one hex digest per requested name, for the file whose
      bytes are `file`. Files under CAPACITY bytes are hashed from one
      buffer; others are streamed, and `chunks` records what each read
      delivered. An unknown name fails with KeyNotFound.
     */
    method GetHash(file: seq<byte>, names: seq<string>) returns (r: Result<seq<string>, HashError>, ghost chunks: seq<seq<byte>>)
      requires Valid()
      modifies this
      ensures Valid()
      ensures r.Success? <==> forall i :: 0 <= i < |names| ==> names[i] in SupportedNames
      ensures |file| < CAPACITY ==> Outcome(r, states) == InMemory(hash, old(states), names, file)
      ensures |file| >= CAPACITY ==>
        && chunks != [] && Bounded(chunks, CAPACITY) && Concat(chunks) <= file
        && (r.Success? ==> Concat(chunks) == file)
        && Outcome(r, states) == Streamed(hash, old(states), names, chunks)
      // the answer the program promises, whenever the objects asked for start empty
      // (and, when streaming, no name is asked for twice)
      ensures && Known(old(states), names) && RequestedEmpty(old(states), names)
              && (|file| < CAPACITY || Distinct(names))
              ==> r == Success(Expected(hash, old(states), names, file)) && states == ResetAll(old(states), names)
      // a successful call on a clean dictionary leaves it exactly as it was
      ensures Clean(old(states)) && r.Success? && (|file| < CAPACITY || Distinct(names)) ==> states == old(states)
    {
      if Clean(states) {
        ResetAllOfClean(states, names);
      }
      if |file| < CAPACITY {
        r := HashInMemory(file, names);
        chunks := [];
        if Known(old(states), names) && RequestedEmpty(old(states), names) {
          InMemoryCorrect(hash, old(states), names, file);
        }
      } else {
        r, chunks := HashStreamed(file, names);
        if Known(old(states), names) && RequestedEmpty(old(states), names) && Distinct(names) {
          StreamedMatchesBuffered(hash, old(states), names, chunks, file);
        }
      }
    }

    /** The small-file branch: for each name in turn, append the whole buffer, then take the value and reset. */
    method HashInMemory(buffer: seq<byte>, names: seq<string>) returns (r: Result<seq<string>, HashError>)
      requires Valid()
      modifies this
      ensures Valid()
      ensures Outcome(r, states) == InMemory(hash, old(states), names, buffer)
    {
      ghost var t0 := states;
      var digests: seq<string> := [];
      var i := 0;
      while i < |names|
        invariant 0 <= i <= |names| && Valid() && states.Keys == t0.Keys
        invariant Known(t0, names[..i])
        invariant Run(digests, states) == Buffered(hash, t0, names[..i], buffer)
      {
        var name := names[i];
        if name !in states {
          r := Failure(KeyNotFound(name));
          InMemoryStops(hash, t0, names, i, buffer);
          return;
        }
        BufferedStep(hash, t0, names, i, buffer);
        Append(name, buffer);
        var value := GetValueAndReset(name);
        digests := digests + [EncodeToHexString(value)];
        i := i + 1;
      }
      assert names[..i] == names;
      r := Success(digests);
    }

    /**
      The large-file branch: a stream over the file and one buffer of
      CAPACITY bytes; the chunks read are fed to the requested objects, then
      each object's value is taken and reset, in request order.
     */
    method HashStreamed(file: seq<byte>, names: seq<string>) returns (r: Result<seq<string>, HashError>, ghost chunks: seq<seq<byte>>)
      requires Valid() && file != []
      modifies this
      ensures Valid()
      ensures chunks != [] && Bounded(chunks, CAPACITY) && Concat(chunks) <= file
      ensures r.Success? ==> Concat(chunks) == file
      ensures Outcome(r, states) == Streamed(hash, old(states), names, chunks)
    {
      var stream := new InputStream.Open(file);
      var buffer := new Buffer(CAPACITY);
      var missing;
      missing, chunks := FeedStream(stream, buffer, names);
      if missing.Some? {
        r := Failure(KeyNotFound(names[missing.value]));
        StreamedStops(hash, old(states), names, missing.value, chunks[0]);
        return;
      }
      var digests := ValuesAndReset(names);
      r := Success(digests);
    }

    /**
      The read loop of the large-file branch: refill the buffer from the
      stream; while a read delivers bytes, append them to the object of every
      name in turn; stop at the first read that delivers none. Every read
      but the last shortens what is left to read, so the loop ends. The
      names are looked up during the first chunk; an unknown one stops the
      loop there, with `missing` its position.
     */
    method FeedStream(stream: InputStream, buffer: Buffer, names: seq<string>) returns (missing: Option<nat>, ghost chunks: seq<seq<byte>>)
      requires Valid() && stream.Valid() && buffer.Valid()
      requires stream.position == 0 && stream.content != [] && buffer.Capacity == CAPACITY
      modifies this, stream, buffer, buffer.data
      ensures Valid() && chunks != [] && Bounded(chunks, CAPACITY) && Concat(chunks) <= stream.content
      ensures missing.None? ==>
        && Concat(chunks) == stream.content
        && Known(old(states), names) && states == FeedChunks(old(states), names, chunks)
      ensures missing.Some? ==>
        && |chunks| == 1 && missing.value < |names| && names[missing.value] !in old(states)
        && Known(old(states), names[..missing.value])
        && states == Feed(old(states), names[..missing.value], chunks[0])
    {
      ghost var t0 := states;
      ghost var file := stream.content;
      chunks := [];
      while true
        invariant Valid() && stream.Valid() && buffer.Valid()
        invariant stream.content == file && buffer.Capacity == CAPACITY
        invariant Bounded(chunks, CAPACITY) && Concat(chunks) == file[..stream.position]
        invariant chunks == [] ==> states == t0
        invariant chunks != [] ==> Known(t0, names) && states == FeedChunks(t0, names, chunks)
        decreases |file| - stream.position
      {
        ghost var p0 := stream.position;
        stream.ReadAsync(buffer, CAPACITY);
        if buffer.Length > 0 {
          var chunk := buffer.data[..buffer.Length];
          ReadStep(chunks, chunk, file, p0, stream.position, CAPACITY);
          missing := AppendToEach(names, chunk);
          if missing.Some? {
            assert chunks == [];
            chunks := [chunk];
            return;
          }
          FeedChunksStep(t0, names, chunks, chunk);
          chunks := chunks + [chunk];
        } else {
          break;
        }
      }
      missing := None;
    }

    /**
      One pass of the foreach over the requested objects: `chunk` is appended
      to the object of each name in turn. Looking up a name the dictionary
      does not hold throws; `missing` is then its position, and the names
      before it have received the chunk.
     */
    method AppendToEach(names: seq<string>, chunk: seq<byte>) returns (missing: Option<nat>)
      requires Valid()
      modifies this
      ensures Valid()
      ensures missing.None? ==> Known(old(states), names) && states == Feed(old(states), names, chunk)
      ensures missing.Some? ==>
        && missing.value < |names| && names[missing.value] !in old(states)
        && Known(old(states), names[..missing.value])
        && states == Feed(old(states), names[..missing.value], chunk)
    {
      ghost var t0 := states;
      var i := 0;
      while i < |names|
        invariant 0 <= i <= |names| && Valid() && states.Keys == t0.Keys
        invariant Known(t0, names[..i])
        invariant states == Feed(t0, names[..i], chunk)
      {
        if names[i] !in states {
          return Some(i);
        }
        FeedStep(t0, names, i, chunk);
        Append(names[i], chunk);
        i := i + 1;
      }
      assert names[..i] == names;
      missing := None;
    }

    /** The final query: each requested object's value, hex-encoded, in request order, each object reset. */
    method ValuesAndReset(names: seq<string>) returns (digests: seq<string>)
      requires Valid() && Known(states, names)
      modifies this
      ensures Valid()
      ensures Run(digests, states) == Finish(hash, old(states), names)
    {
      ghost var t0 := states;
      digests := [];
      var i := 0;
      while i < |names|
        invariant 0 <= i <= |names| && Valid() && states.Keys == t0.Keys
        invariant Run(digests, states) == Finish(hash, t0, names[..i])
      {
        FinishStep(hash, t0, names, i);
        var value := GetValueAndReset(names[i]);
        digests := digests + [EncodeToHexString(value)];
        i := i + 1;
      }
      assert names[..i] == names;
    }
  }
}
