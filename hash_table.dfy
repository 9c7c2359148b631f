/**
  The shared dictionary of hash objects as a value, and what one call of the
  hasher does to it (CheckSumIt/Hasher.cs:18-68). Each entry models one
  CryptographicHash: the bytes appended to it since its last reset. The
  functions here specify the methods of Hashing.Hasher; the lemmas state what
  those specifications mean for the digests returned.
 */
module HashTable {
  import opened Wrappers
  import opened Hex
  import opened Algorithms

  /** One hash object: the algorithm it was opened with and the bytes it holds. */
  datatype HashState = HashState(algorithm: Algorithm, acc: seq<byte>)

  /** The dictionary from algorithm name to hash object. */
  type Table = map<string, HashState>

  /** The dictionary indexer's failure on a name it does not hold. */
  datatype HashError = KeyNotFound(name: string)

  /** Digests produced so far and the table they leave behind. */
  datatype Run = Run(digests: seq<string>, table: Table)

  /** What a call of the hasher returns, with the table it leaves behind. */
  datatype Outcome = Outcome(result: Result<seq<string>, HashError>, table: Table)

  /** The dictionary as the program creates it: every algorithm once, each hash object empty. */
  function InitialTable(): (t: Table)
    ensures t.Keys == SupportedNames
    ensures forall n :: n in t ==> Lookup(n) == Some(t[n].algorithm) && t[n].acc == []
  {
    map["MD5" := HashState(MD5, []), "SHA-1" := HashState(SHA1, []),
        "SHA-256" := HashState(SHA256, []), "SHA-384" := HashState(SHA384, []),
        "SHA-512" := HashState(SHA512, [])]
  }

  predicate Known(t: Table, names: seq<string>)
  {
    forall i :: 0 <= i < |names| ==> names[i] in t
  }

  predicate Distinct(names: seq<string>)
  {
    forall i, j :: 0 <= i < j < |names| ==> names[i] != names[j]
  }

  /** Every requested hash object holds no bytes. */
  predicate RequestedEmpty(t: Table, names: seq<string>)
  {
    forall i :: 0 <= i < |names| && names[i] in t ==> t[names[i]].acc == []
  }

  /** Every hash object in the table holds no bytes. */
  predicate Clean(t: Table)
  {
    forall n :: n in t ==> t[n].acc == []
  }

  /** One more known name extends a known prefix. */
  lemma KnownExtend(t: Table, names: seq<string>, i: nat)
    requires i < |names| && Known(t, names[..i]) && names[i] in t
    ensures Known(t, names[..i + 1])
  {
    var longer := names[..i + 1];
    forall j | 0 <= j < |longer| ensures longer[j] in t {
      if j < i {
        assert longer[j] == names[..i][j];
      }
    }
  }

  /** The position of the first name the table does not hold: where the lookup throws. */
  function FirstUnknown(t: Table, names: seq<string>): (k: nat)
    requires !Known(t, names)
    ensures k < |names| && names[k] !in t
    ensures forall j :: 0 <= j < k ==> names[j] in t
  {
    if names[0] !in t then 0
    else
      assert !Known(t, names[1..]) by {
        var i :| 0 <= i < |names| && names[i] !in t;
        assert names[1..][i - 1] == names[i];
      }
      1 + FirstUnknown(t, names[1..])
  }

  /** CryptographicHash.Append: the object's bytes grow by `data`. */
  function AppendTo(t: Table, name: string, data: seq<byte>): (r: Table)
    requires name in t
    ensures r.Keys == t.Keys
    ensures r[name].algorithm == t[name].algorithm && r[name].acc == t[name].acc + data
    ensures forall n :: n in t && n != name ==> r[n] == t[n]
  {
    t[name := t[name].(acc := t[name].acc + data)]
  }

  /** The reset half of CryptographicHash.GetValueAndReset: the object holds nothing again. */
  function ResetEntry(t: Table, name: string): (r: Table)
    requires name in t
    ensures r.Keys == t.Keys
    ensures r[name].algorithm == t[name].algorithm && r[name].acc == []
    ensures forall n :: n in t && n != name ==> r[n] == t[n]
  {
    t[name := t[name].(acc := [])]
  }

  /** One streamed chunk appended to the object of each name in turn, repeats included. */
  function Feed(t: Table, names: seq<string>, chunk: seq<byte>): (r: Table)
    requires Known(t, names)
    ensures r.Keys == t.Keys
  {
    if names == [] then t
    else AppendTo(Feed(t, names[..|names| - 1], chunk), names[|names| - 1], chunk)
  }

  /** The streaming loop: every chunk, in the order read, fed to every name. */
  function FeedChunks(t: Table, names: seq<string>, chunks: seq<seq<byte>>): (r: Table)
    requires Known(t, names)
    ensures r.Keys == t.Keys
  {
    if chunks == [] then t
    else Feed(FeedChunks(t, names, chunks[..|chunks| - 1]), names, chunks[|chunks| - 1])
  }

  /** The final query of the streaming branch: each name's digest, in order, each object reset. */
  function Finish(hash: HashFunction, t: Table, names: seq<string>): (r: Run)
    requires Known(t, names)
    ensures |r.digests| == |names| && r.table.Keys == t.Keys
  {
    if names == [] then Run([], t)
    else
      var prev := Finish(hash, t, names[..|names| - 1]);
      var n := names[|names| - 1];
      Run(prev.digests + [EncodeToHexString(hash(prev.table[n].algorithm, prev.table[n].acc))], ResetEntry(prev.table, n))
  }

  /** The in-memory branch: per name, append the whole buffer, then take the value and reset. */
  function Buffered(hash: HashFunction, t: Table, names: seq<string>, data: seq<byte>): (r: Run)
    requires Known(t, names)
    ensures |r.digests| == |names| && r.table.Keys == t.Keys
  {
    if names == [] then Run([], t)
    else
      var prev := Buffered(hash, t, names[..|names| - 1], data);
      var n := names[|names| - 1];
      var fed := AppendTo(prev.table, n, data);
      Run(prev.digests + [EncodeToHexString(hash(fed[n].algorithm, fed[n].acc))], ResetEntry(fed, n))
  }

  /** A whole in-memory call; an unknown name stops it where the lookup throws. */
  function InMemory(hash: HashFunction, t: Table, names: seq<string>, data: seq<byte>): (r: Outcome)
    ensures r.result.Success? <==> Known(t, names)
    ensures r.result.Success? ==> |r.result.value| == |names|
    ensures r.result.Failure? ==> r.result.error.name in names && r.result.error.name !in t
    ensures r.table.Keys == t.Keys
  {
    if Known(t, names) then
      var r := Buffered(hash, t, names, data);
      Outcome(Success(r.digests), r.table)
    else
      var k := FirstUnknown(t, names);
      Outcome(Failure(KeyNotFound(names[k])), Buffered(hash, t, names[..k], data).table)
  }

  /**
    A whole streaming call over the chunks read. The names are looked up
    while the first chunk is fed, so an unknown name stops the call there,
    after the names before it have received that chunk.
   */
  function Streamed(hash: HashFunction, t: Table, names: seq<string>, chunks: seq<seq<byte>>): (r: Outcome)
    requires chunks != []
    ensures r.result.Success? <==> Known(t, names)
    ensures r.result.Success? ==> |r.result.value| == |names|
    ensures r.result.Failure? ==> r.result.error.name in names && r.result.error.name !in t
    ensures r.table.Keys == t.Keys
  {
    if Known(t, names) then
      var r := Finish(hash, FeedChunks(t, names, chunks), names);
      Outcome(Success(r.digests), r.table)
    else
      var k := FirstUnknown(t, names);
      Outcome(Failure(KeyNotFound(names[k])), Feed(t, names[..k], chunks[0]))
  }

  /** The bytes of all chunks, in order. */
  function Concat(chunks: seq<seq<byte>>): seq<byte>
  {
    if chunks == [] then [] else Concat(chunks[..|chunks| - 1]) + chunks[|chunks| - 1]
  }

  /** Every chunk holds at least one and at most `capacity` bytes. */
  predicate Bounded(chunks: seq<seq<byte>>, capacity: nat)
  {
    forall i :: 0 <= i < |chunks| ==> 0 < |chunks[i]| <= capacity
  }

  /** Reference definition of a correct answer: the hex digest of `data` for each name, in request order. */
  function Expected(hash: HashFunction, t: Table, names: seq<string>, data: seq<byte>): (d: seq<string>)
    requires Known(t, names)
  {
    seq(|names|, i requires 0 <= i < |names| => EncodeToHexString(hash(t[names[i]].algorithm, data)))
  }

  /** The table with the objects of the requested names emptied and all others as they were. */
  function ResetAll(t: Table, names: seq<string>): Table
  {
    map n | n in t :: if n in names then t[n].(acc := []) else t[n]
  }

  // ---------------------------------------------------------------------------
  // One step of each loop of Hashing.Hasher, stated on prefixes of the names
  // ---------------------------------------------------------------------------

  lemma BufferedStep(hash: HashFunction, t: Table, names: seq<string>, i: nat, data: seq<byte>)
    requires i < |names| && Known(t, names[..i]) && names[i] in t
    ensures Known(t, names[..i + 1])
    ensures var prev := Buffered(hash, t, names[..i], data);
            var fed := AppendTo(prev.table, names[i], data);
            Buffered(hash, t, names[..i + 1], data)
              == Run(prev.digests + [EncodeToHexString(hash(fed[names[i]].algorithm, fed[names[i]].acc))], ResetEntry(fed, names[i]))
  {
    KnownExtend(t, names, i);
    assert names[..i + 1][..i] == names[..i];
  }

  lemma FeedStep(t: Table, names: seq<string>, i: nat, chunk: seq<byte>)
    requires i < |names| && Known(t, names[..i]) && names[i] in t
    ensures Known(t, names[..i + 1])
    ensures Feed(t, names[..i + 1], chunk) == AppendTo(Feed(t, names[..i], chunk), names[i], chunk)
  {
    KnownExtend(t, names, i);
    assert names[..i + 1][..i] == names[..i];
  }

  lemma FinishStep(hash: HashFunction, t: Table, names: seq<string>, i: nat)
    requires i < |names| && Known(t, names)
    ensures var prev := Finish(hash, t, names[..i]);
            Finish(hash, t, names[..i + 1])
              == Run(prev.digests + [EncodeToHexString(hash(prev.table[names[i]].algorithm, prev.table[names[i]].acc))], ResetEntry(prev.table, names[i]))
  {
    assert names[..i + 1][..i] == names[..i];
  }

  lemma FeedChunksStep(t: Table, names: seq<string>, chunks: seq<seq<byte>>, chunk: seq<byte>)
    requires Known(t, names)
    ensures FeedChunks(t, names, chunks + [chunk]) == Feed(FeedChunks(t, names, chunks), names, chunk)
  {
    assert (chunks + [chunk])[..|chunks|] == chunks;
  }

  /** A read that delivers the next bytes of `file` extends the chunks read so far. */
  lemma ReadStep(chunks: seq<seq<byte>>, chunk: seq<byte>, file: seq<byte>, p0: nat, p1: nat, capacity: nat)
    requires p0 < p1 <= |file| && p1 - p0 <= capacity && chunk == file[p0..p1]
    requires Bounded(chunks, capacity) && Concat(chunks) == file[..p0]
    ensures Bounded(chunks + [chunk], capacity) && Concat(chunks + [chunk]) == file[..p1]
  {
    assert (chunks + [chunk])[..|chunks|] == chunks;
    assert file[..p1] == file[..p0] + chunk;
  }

  /** The in-memory call when the lookup of names[i] is the first to fail. */
  lemma InMemoryStops(hash: HashFunction, t: Table, names: seq<string>, i: nat, data: seq<byte>)
    requires i < |names| && Known(t, names[..i]) && names[i] !in t
    ensures InMemory(hash, t, names, data) == Outcome(Failure(KeyNotFound(names[i])), Buffered(hash, t, names[..i], data).table)
  {
    var k := FirstUnknown(t, names);
    assert k == i;
  }

  /** The streaming call when the lookup of names[i] is the first to fail, during the first chunk. */
  lemma StreamedStops(hash: HashFunction, t: Table, names: seq<string>, i: nat, chunk: seq<byte>)
    requires i < |names| && Known(t, names[..i]) && names[i] !in t
    ensures Streamed(hash, t, names, [chunk]) == Outcome(Failure(KeyNotFound(names[i])), Feed(t, names[..i], chunk))
  {
    var k := FirstUnknown(t, names);
    assert k == i;
  }

  // ---------------------------------------------------------------------------
  // Lemmas
  // ---------------------------------------------------------------------------

  /** Dropping the last name keeps the names distinct, and the last name is not among the rest. */
  lemma DistinctFront(names: seq<string>)
    requires names != [] && Distinct(names)
    ensures Distinct(names[..|names| - 1]) && names[|names| - 1] !in names[..|names| - 1]
  {
    var front := names[..|names| - 1];
    forall i | 0 <= i < |front| ensures front[i] != names[|names| - 1] {
      assert front[i] == names[i];
    }
  }

  /** With distinct names, feeding a chunk appends it once to each requested object and touches no other. */
  lemma {:induction false} FeedDistinct(t: Table, names: seq<string>, chunk: seq<byte>)
    requires Known(t, names) && Distinct(names)
    ensures forall n :: n in t ==>
      Feed(t, names, chunk)[n] == if n in names then t[n].(acc := t[n].acc + chunk) else t[n]
  {
    if names != [] {
      var front, last := names[..|names| - 1], names[|names| - 1];
      DistinctFront(names);
      FeedDistinct(t, front, chunk);
      assert names == front + [last];
    }
  }

  /**
    With distinct names, the streaming loop leaves each requested object
    holding its old bytes followed by every chunk read, in order: all
    algorithms see the same content. Other objects are untouched.
   */
  lemma {:induction false} FeedChunksDistinct(t: Table, names: seq<string>, chunks: seq<seq<byte>>)
    requires Known(t, names) && Distinct(names)
    ensures forall n :: n in t ==>
      FeedChunks(t, names, chunks)[n] == if n in names then t[n].(acc := t[n].acc + Concat(chunks)) else t[n]
  {
    if chunks != [] {
      var front := chunks[..|chunks| - 1];
      FeedChunksDistinct(t, names, front);
      FeedDistinct(FeedChunks(t, names, front), names, chunks[|chunks| - 1]);
    }
  }

  /** With distinct names, the final query empties exactly the requested objects. */
  lemma {:induction false} FinishTable(hash: HashFunction, t: Table, names: seq<string>)
    requires Known(t, names) && Distinct(names)
    ensures forall n :: n in t ==>
      Finish(hash, t, names).table[n] == if n in names then t[n].(acc := []) else t[n]
  {
    if names != [] {
      var front, last := names[..|names| - 1], names[|names| - 1];
      DistinctFront(names);
      FinishTable(hash, t, front);
      assert names == front + [last];
    }
  }

  /**
    With distinct names, the final query returns, for each name in request
    order, the hex digest of what its object holds.
   */
  lemma {:induction false} FinishDigests(hash: HashFunction, t: Table, names: seq<string>)
    requires Known(t, names) && Distinct(names)
    ensures forall i :: 0 <= i < |names| ==>
      Finish(hash, t, names).digests[i] == EncodeToHexString(hash(t[names[i]].algorithm, t[names[i]].acc))
  {
    if names != [] {
      var front, last := names[..|names| - 1], names[|names| - 1];
      DistinctFront(names);
      FinishDigests(hash, t, front);
      FinishTable(hash, t, front);
      var prev := Finish(hash, t, front);
      assert prev.table[last] == t[last];
      var r := Finish(hash, t, names);
      assert r.digests == prev.digests + [EncodeToHexString(hash(t[last].algorithm, t[last].acc))];
      forall i | 0 <= i < |front|
        ensures r.digests[i] == EncodeToHexString(hash(t[names[i]].algorithm, t[names[i]].acc))
      {
        assert r.digests[i] == prev.digests[i] && names[i] == front[i];
      }
    }
  }

  /** The in-memory branch always leaves exactly the requested objects empty, repeats included. */
  lemma {:induction false} BufferedTable(hash: HashFunction, t: Table, names: seq<string>, data: seq<byte>)
    requires Known(t, names)
    ensures forall n :: n in t ==>
      Buffered(hash, t, names, data).table[n] == if n in names then t[n].(acc := []) else t[n]
  {
    if names != [] {
      var front, last := names[..|names| - 1], names[|names| - 1];
      BufferedTable(hash, t, front, data);
      assert names == front + [last];
    }
  }

  /**
    The in-memory branch, repeats included: when the requested objects start
    empty, each position gets the hex digest of the whole buffer under its
    own algorithm.
   */
  lemma {:induction false} BufferedDigests(hash: HashFunction, t: Table, names: seq<string>, data: seq<byte>)
    requires Known(t, names) && RequestedEmpty(t, names)
    ensures forall i :: 0 <= i < |names| ==>
      Buffered(hash, t, names, data).digests[i] == EncodeToHexString(hash(t[names[i]].algorithm, data))
  {
    if names != [] {
      var front, last := names[..|names| - 1], names[|names| - 1];
      assert RequestedEmpty(t, front) by {
        forall i | 0 <= i < |front| && front[i] in t ensures t[front[i]].acc == [] {
          assert front[i] == names[i];
        }
      }
      BufferedDigests(hash, t, front, data);
      BufferedTable(hash, t, front, data);
      var prev := Buffered(hash, t, front, data);
      var fed := AppendTo(prev.table, last, data);
      assert fed[last].acc == prev.table[last].acc + data == data;
      var r := Buffered(hash, t, names, data);
      assert r.digests == prev.digests + [EncodeToHexString(hash(t[last].algorithm, data))];
      forall i | 0 <= i < |names|
        ensures r.digests[i] == EncodeToHexString(hash(t[names[i]].algorithm, data))
      {
        if i < |front| {
          assert r.digests[i] == prev.digests[i] && names[i] == front[i];
        } else {
          assert r.digests[i] == EncodeToHexString(hash(t[last].algorithm, data)) && names[i] == last;
        }
      }
    }
  }

  /** The in-memory branch when the requested objects start empty: the expected digests, requested objects reset. */
  lemma InMemoryCorrect(hash: HashFunction, t: Table, names: seq<string>, data: seq<byte>)
    requires Known(t, names) && RequestedEmpty(t, names)
    ensures InMemory(hash, t, names, data) == Outcome(Success(Expected(hash, t, names, data)), ResetAll(t, names))
  {
    BufferedDigests(hash, t, names, data);
    BufferedTable(hash, t, names, data);
    var r := Buffered(hash, t, names, data);
    assert r.digests == Expected(hash, t, names, data);
    assert r.table == ResetAll(t, names);
  }

  /**
    Chunk boundaries do not matter: with distinct names whose objects start
    empty, streaming any chunks whose concatenation is `data` yields the
    same digests and the same table as the in-memory branch over `data`.
   */
  lemma StreamedMatchesBuffered(hash: HashFunction, t: Table, names: seq<string>,
                                chunks: seq<seq<byte>>, data: seq<byte>)
    requires Known(t, names) && Distinct(names) && RequestedEmpty(t, names)
    requires chunks != [] && Concat(chunks) == data
    ensures Streamed(hash, t, names, chunks) == Outcome(Success(Expected(hash, t, names, data)), ResetAll(t, names))
  {
    var fed := FeedChunks(t, names, chunks);
    FeedChunksDistinct(t, names, chunks);
    FinishDigests(hash, fed, names);
    FinishTable(hash, fed, names);
    var s := Finish(hash, fed, names);
    forall i | 0 <= i < |names|
      ensures s.digests[i] == Expected(hash, t, names, data)[i]
    {
      assert names[i] in names;
      assert fed[names[i]].acc == t[names[i]].acc + data == data;
    }
    assert s.digests == Expected(hash, t, names, data);
    assert s.table == ResetAll(t, names);
  }

  /** Resetting the requested objects of a clean table changes nothing. */
  lemma ResetAllOfClean(t: Table, names: seq<string>)
    requires Clean(t)
    ensures RequestedEmpty(t, names)
    ensures ResetAll(t, names) == t
  {
  }

  /** The bytes of all chunks, each written twice in a row: c1 c1 c2 c2 ... */
  function ConcatDoubled(chunks: seq<seq<byte>>): (r: seq<byte>)
    ensures |r| == 2 * |Concat(chunks)|
  {
    if chunks == [] then [] else ConcatDoubled(chunks[..|chunks| - 1]) + chunks[|chunks| - 1] + chunks[|chunks| - 1]
  }

  /** One chunk fed to a name requested twice reaches its one object twice. */
  lemma FeedTwice(t: Table, name: string, chunk: seq<byte>)
    requires name in t
    ensures Known(t, [name, name])
    ensures Feed(t, [name, name], chunk)[name] == t[name].(acc := t[name].acc + chunk + chunk)
  {
    assert [name, name][..1] == [name] && [name][..0] == [];
    assert Feed(t, [], chunk) == t;
  }

  /**
    A name requested twice is one object, so the streaming loop appends each
    chunk to it twice in a row: it ends holding c1 c1 c2 c2 ..., which in
    general differs from the content doubled once there are two chunks.
   */
  lemma {:induction false} FeedRepeated(t: Table, name: string, chunks: seq<seq<byte>>)
    requires name in t
    ensures Known(t, [name, name])
    ensures FeedChunks(t, [name, name], chunks)[name] == t[name].(acc := t[name].acc + ConcatDoubled(chunks))
  {
    var names := [name, name];
    FeedTwice(t, name, []);
    if chunks != [] {
      var front, last := chunks[..|chunks| - 1], chunks[|chunks| - 1];
      FeedRepeated(t, name, front);
      var u := FeedChunks(t, names, front);
      FeedTwice(u, name, last);
      assert chunks == front + [last];
      FeedChunksStep(t, names, front, last);
      assert FeedChunks(t, names, chunks) == Feed(u, names, last);
    }
  }

  /** With two different one-byte chunks, c1 c1 c2 c2 is not the content doubled. */
  lemma DoubledDiffers()
    ensures ConcatDoubled([[0], [1]]) == [0, 0, 1, 1]
    ensures ConcatDoubled([[0], [1]]) != Concat([[0], [1]]) + Concat([[0], [1]])
  {
    var chunks: seq<seq<byte>> := [[0], [1]];
    assert chunks[..1] == [[0]] && chunks[..1][..0] == [];
    assert Concat(chunks) == [0, 1];
    assert ConcatDoubled(chunks) == [0, 0, 1, 1];
    assert (Concat(chunks) + Concat(chunks))[1] == 1;
  }

  /** A name requested twice is one object, so the second query of the final step finds it already reset. */
  lemma FinishRepeated(hash: HashFunction, t: Table, name: string)
    requires name in t
    ensures Finish(hash, t, [name, name]).digests
         == [EncodeToHexString(hash(t[name].algorithm, t[name].acc)), EncodeToHexString(hash(t[name].algorithm, []))]
  {
    assert [name, name][..1] == [name] && [name][..0] == [];
    assert Finish(hash, t, []) == Run([], t);
  }

  /** In the in-memory branch a repeated name is appended and reset at each position, so both see the buffer. */
  lemma BufferedRepeated(hash: HashFunction, t: Table, name: string, data: seq<byte>)
    requires name in t
    ensures Buffered(hash, t, [name, name], data).digests
         == [EncodeToHexString(hash(t[name].algorithm, t[name].acc + data)),
             EncodeToHexString(hash(t[name].algorithm, data))]
  {
    assert [name, name][..1] == [name] && [name][..0] == [];
    assert Buffered(hash, t, [], data) == Run([], t);
    assert [] + data == data;
  }

  /**
    A repeated name in the streaming branch: both positions share one
    object, so it is fed each chunk twice in a row and the second query
    finds it already reset. The first digest is over c1 c1 c2 c2 ... (the
    content doubled when there is one chunk) and the second over no
    content, where the in-memory branch gives the digest of the content at
    both positions.
   */
  lemma StreamedRepeatedName(hash: HashFunction, t: Table, name: string, chunks: seq<seq<byte>>, data: seq<byte>)
    requires name in t && t[name].acc == []
    requires chunks != [] && Concat(chunks) == data
    ensures Streamed(hash, t, [name, name], chunks).result
         == Success([EncodeToHexString(hash(t[name].algorithm, ConcatDoubled(chunks))),
                     EncodeToHexString(hash(t[name].algorithm, []))])
    ensures |chunks| == 1 ==> ConcatDoubled(chunks) == data + data
    ensures InMemory(hash, t, [name, name], data).result
         == Success([EncodeToHexString(hash(t[name].algorithm, data)),
                     EncodeToHexString(hash(t[name].algorithm, data))])
  {
    var names := [name, name];
    FeedRepeated(t, name, chunks);
    var fed := FeedChunks(t, names, chunks);
    assert fed[name].acc == ConcatDoubled(chunks);
    FinishRepeated(hash, fed, name);
    assert Streamed(hash, t, names, chunks).result == Success(Finish(hash, fed, names).digests);
    if |chunks| == 1 {
      assert chunks[..0] == [];
      assert Concat(chunks) == chunks[0];
      assert ConcatDoubled(chunks) == chunks[0] + chunks[0];
    }
    BufferedRepeated(hash, t, name, data);
    assert t[name].acc + data == data;
  }
}
