/** The framed transfer of build artifacts from a guest to the host. */
module BuildStream {
  import opened Bytes

  // "SANDWEAVE-BUILD-1\n" and "COMPLETE\n"
  const MAGIC: bytes := [83, 65, 78, 68, 87, 69, 65, 86, 69, 45, 66, 85, 73, 76, 68, 45, 49, 10]
  const COMPLETE: bytes := [67, 79, 77, 80, 76, 69, 84, 69, 10]
  const CHUNK := 262144
  const DIGEST := 32

  /** A cryptographic hash, of which only the size of its result is known. */
  type Hash = bytes -> bytes

  ghost predicate Sized(hash: Hash) {
    forall data :: |hash(data)| == DIGEST
  }

  /** `struct.pack('!I', size)`. */
  function PackLong(size: nat): bytes
    requires size < 0x1_0000_0000
  {
    Packed(size / 65536) + Packed(size % 65536)
  }

  predicate Chunks(chunks: seq<bytes>) {
    forall c | c in chunks :: 1 <= |c| <= CHUNK
  }

  function Concat(chunks: seq<bytes>): bytes {
    if chunks == [] then [] else chunks[0] + Concat(chunks[1..])
  }

  function Frames(chunks: seq<bytes>): bytes
    requires Chunks(chunks)
  {
    if chunks == [] then [] else PackLong(|chunks[0]|) + chunks[0] + Frames(chunks[1..])
  }

  function Archive(chunks: seq<bytes>, hash: Hash): bytes
    requires Chunks(chunks)
  {
    Frames(chunks) + PackLong(0) + hash(Concat(chunks))
  }

  function Stream(root: seq<bytes>, helpers: seq<bytes>, hash: Hash): bytes
    requires Chunks(root) && Chunks(helpers)
  {
    MAGIC + Archive(root, hash) + Archive(helpers, hash) + COMPLETE
  }

  /* Reading. */

  function TakeChunks(data: bytes): Option<(seq<bytes>, bytes)> {
    if |data| < 4 then None
    else
      var size := Long(data, 0);
      if size == 0 then Some(([], data[4..]))
      else if size > CHUNK || |data| < 4 + size then None
      else
        match TakeChunks(data[4 + size..])
        case None => None
        case Some((chunks, rest)) => Some(([data[4..4 + size]] + chunks, rest))
  }

  function TakeArchive(data: bytes, hash: Hash): Option<(bytes, bytes)> {
    match TakeChunks(data)
    case None => None
    case Some((chunks, rest)) =>
      if |rest| < DIGEST || rest[..DIGEST] != hash(Concat(chunks)) then None
      else Some((Concat(chunks), rest[DIGEST..]))
  }

  function Received(data: bytes, hash: Hash): Option<(bytes, bytes)> {
    if |data| < |MAGIC| || data[..|MAGIC|] != MAGIC then None
    else
      match TakeArchive(data[|MAGIC|..], hash)
      case None => None
      case Some((root, rest)) =>
        match TakeArchive(rest, hash)
        case None => None
        case Some((helpers, end)) => if end == COMPLETE then Some((root, helpers)) else None
  }

  lemma LongOfPacked(size: nat, rest: bytes)
    requires size < 0x1_0000_0000
    ensures |PackLong(size) + rest| >= 4 && Long(PackLong(size) + rest, 0) == size
    ensures (PackLong(size) + rest)[4..] == rest
  {
  }

  lemma PackedOfLong(data: bytes)
    requires |data| >= 4
    ensures Long(data, 0) < 0x1_0000_0000 && data == PackLong(Long(data, 0)) + data[4..]
  {
    assert data[0] == PackLong(Long(data, 0))[0] && data[1] == PackLong(Long(data, 0))[1];
  }

  lemma Regrouped(a: bytes, b: bytes, c: bytes, d: bytes)
    ensures a + b + c + d == a + (b + (c + d))
  {
  }

  lemma NothingFramed()
    ensures Frames([]) == [] && Concat([]) == []
  {
  }

  /** How reading proceeds: an end mark, a chunk, or neither. */
  lemma TakeStep(data: bytes)
    requires |data| >= 4
    ensures Long(data, 0) == 0 ==> TakeChunks(data) == Some(([], data[4..]))
    ensures Long(data, 0) > CHUNK || |data| < 4 + Long(data, 0) ==> TakeChunks(data) == None
    ensures 0 < Long(data, 0) <= CHUNK && 4 + Long(data, 0) <= |data| ==>
              TakeChunks(data) ==
              match TakeChunks(data[4 + Long(data, 0)..])
              case None => None
              case Some((chunks, rest)) => Some(([data[4..4 + Long(data, 0)]] + chunks, rest))
  {
  }

  lemma FramesCons(c: bytes, chunks: seq<bytes>)
    requires 1 <= |c| <= CHUNK && Chunks(chunks)
    ensures Chunks([c] + chunks) && Frames([c] + chunks) == PackLong(|c|) + c + Frames(chunks)
  {
    assert ([c] + chunks)[1..] == chunks;
  }

  lemma ChunkRead(c: bytes, more: bytes)
    requires 1 <= |c| <= CHUNK
    ensures TakeChunks(PackLong(|c|) + (c + more)) ==
            match TakeChunks(more)
            case None => None
            case Some((chunks, rest)) => Some(([c] + chunks, rest))
  {
    hide TakeChunks;
    var data := PackLong(|c|) + (c + more);
    LongOfPacked(|c|, c + more);
    assert data[4..4 + |c|] == data[4..][..|c|] == c && data[4 + |c|..] == data[4..][|c|..] == more;
    TakeStep(data);
  }

  lemma {:induction false} ChunksRead(chunks: seq<bytes>, rest: bytes)
    requires Chunks(chunks)
    ensures TakeChunks(Frames(chunks) + (PackLong(0) + rest)) == Some((chunks, rest))
  {
    var end := PackLong(0) + rest;
    LongOfPacked(0, rest);
    TakeStep(end);
    if chunks == [] {
      NothingFramed();
      assert [] + end == end;
    } else {
      hide TakeChunks, PackLong, Frames;
      var c, others := chunks[0], chunks[1..];
      assert chunks == [c] + others;
      FramesCons(c, others);
      var framed := Frames(others);
      Regrouped(PackLong(|c|), c, framed, end);
      ChunkRead(c, framed + end);
      ChunksRead(others, rest);
    }
  }

  lemma OneMoreWritten(data: bytes, size: nat, chunks: seq<bytes>, rest: bytes)
    requires 0 < size <= CHUNK && 4 + size <= |data| && data == PackLong(size) + data[4..]
    requires Chunks(chunks) && data[4 + size..] == Frames(chunks) + (PackLong(0) + rest)
    ensures Chunks([data[4..4 + size]] + chunks)
    ensures data == Frames([data[4..4 + size]] + chunks) + (PackLong(0) + rest)
  {
    hide PackLong, Frames, Chunks;
    var c := data[4..4 + size];
    FramesCons(c, chunks);
    assert data[4..] == c + data[4 + size..];
    Regrouped(PackLong(size), c, Frames(chunks), PackLong(0) + rest);
  }

  lemma {:induction false} ChunksWritten(data: bytes)
    requires TakeChunks(data).Some?
    ensures
      var (chunks, rest) := TakeChunks(data).value;
      Chunks(chunks) && data == Frames(chunks) + (PackLong(0) + rest)
  {
    PackedOfLong(data);
    TakeStep(data);
    var size := Long(data, 0);
    if size == 0 {
      NothingFramed();
      assert [] + data == data;
    } else {
      hide TakeChunks, PackLong, Frames, Chunks;
      var later := data[4 + size..];
      ChunksWritten(later);
      OneMoreWritten(data, size, TakeChunks(later).value.0, TakeChunks(later).value.1);
    }
  }

  lemma ArchiveRead(chunks: seq<bytes>, hash: Hash, rest: bytes)
    requires Chunks(chunks) && Sized(hash)
    ensures TakeArchive(Archive(chunks, hash) + rest, hash) == Some((Concat(chunks), rest))
  {
    hide TakeChunks, PackLong, Frames, Concat;
    var sum := hash(Concat(chunks));
    assert Archive(chunks, hash) + rest == Frames(chunks) + (PackLong(0) + (sum + rest));
    ChunksRead(chunks, sum + rest);
    assert (sum + rest)[..DIGEST] == sum && (sum + rest)[DIGEST..] == rest;
  }

  lemma ArchiveWritten(data: bytes, hash: Hash) returns (chunks: seq<bytes>)
    requires TakeArchive(data, hash).Some?
    ensures Chunks(chunks) && Concat(chunks) == TakeArchive(data, hash).value.0
    ensures data == Archive(chunks, hash) + TakeArchive(data, hash).value.1
  {
    hide TakeChunks, PackLong, Frames, Concat;
    chunks := TakeChunks(data).value.0;
    var rest := TakeChunks(data).value.1;
    ChunksWritten(data);
    assert rest == rest[..DIGEST] + rest[DIGEST..];
  }

  /** However the payloads were cut into chunks, the receiver gets them back. */
  lemma TransferRoundTrip(root: seq<bytes>, helpers: seq<bytes>, hash: Hash)
    requires Chunks(root) && Chunks(helpers) && Sized(hash)
    ensures Received(Stream(root, helpers, hash), hash) == Some((Concat(root), Concat(helpers)))
  {
    hide TakeArchive, Archive, Concat;
    var tail := Archive(helpers, hash) + COMPLETE;
    var data := Stream(root, helpers, hash);
    assert data == MAGIC + (Archive(root, hash) + tail);
    assert data[..|MAGIC|] == MAGIC && data[|MAGIC|..] == Archive(root, hash) + tail;
    ArchiveRead(root, hash, tail);
    ArchiveRead(helpers, hash, COMPLETE);
  }

  /** The receiver accepts nothing but what the sender writes for the payloads it reports. */
  lemma OnlyStreamsAccepted(data: bytes, hash: Hash) returns (root: seq<bytes>, helpers: seq<bytes>)
    requires Received(data, hash).Some?
    ensures Chunks(root) && Chunks(helpers) && data == Stream(root, helpers, hash)
    ensures Received(data, hash).value == (Concat(root), Concat(helpers))
  {
    hide TakeArchive, Archive, Concat;
    var first := data[|MAGIC|..];
    root := ArchiveWritten(first, hash);
    var rest := TakeArchive(first, hash).value.1;
    helpers := ArchiveWritten(rest, hash);
    assert data == MAGIC + first;
    assert rest == Archive(helpers, hash) + COMPLETE;
    assert data == MAGIC + Archive(root, hash) + Archive(helpers, hash) + COMPLETE;
  }

  /** No accepted stream is a proper prefix of another, so a cut-off or continued stream is always rejected. */
  lemma PrefixesRejected(data: bytes, more: bytes, hash: Hash)
    requires Sized(hash) && Received(data, hash).Some? && more != []
    ensures Received(data + more, hash) == None
  {
    hide TakeArchive, Archive, Concat;
    var root, helpers := OnlyStreamsAccepted(data, hash);
    var tail := Archive(helpers, hash) + (COMPLETE + more);
    assert data + more == MAGIC + (Archive(root, hash) + tail);
    assert (data + more)[..|MAGIC|] == MAGIC && (data + more)[|MAGIC|..] == Archive(root, hash) + tail;
    ArchiveRead(root, hash, tail);
    ArchiveRead(helpers, hash, COMPLETE + more);
    assert COMPLETE + more != COMPLETE;
  }

  /* The two ends. */

  lemma TakeNothing(data: bytes)
    requires |data| < 4
    ensures TakeChunks(data) == None
  {
  }

  /** A stream that gives out its octets in pieces of arbitrary positive size, whatever was asked for. */
  class Source {
    const data: bytes
    var pos: nat
    var pieces: seq<nat>

    constructor (data: bytes, pieces: seq<nat>)
      ensures this.data == data && pos == 0
    {
      this.data, this.pieces, pos := data, pieces, 0;
    }

    predicate Valid()
      reads this
    {
      pos <= |data|
    }

    function Left(): bytes
      requires Valid()
      reads this
    {
      data[pos..]
    }

    /** A read gives nothing only at the end, and otherwise at least one octet. */
    method Read(size: nat) returns (part: bytes)
      requires Valid() && 0 < size
      modifies this
      ensures Valid() && |part| <= size
      ensures part + Left() == old(Left())
      ensures part == [] <==> old(Left()) == []
    {
      var most := if |data| - pos < size then |data| - pos else size;
      var short := if pieces == [] then most else if pieces[0] + 1 < most then pieces[0] + 1 else most;
      pieces := if pieces == [] then [] else pieces[1..];
      part := data[pos..pos + short];
      pos := pos + short;
    }

    method Exact(size: nat) returns (r: Option<bytes>)
      requires Valid()
      modifies this
      ensures Valid()
      ensures r.Some? <==> size <= |old(Left())|
      ensures r.Some? ==> r.value == old(Left())[..size] && Left() == old(Left())[size..]
    {
      var parts: bytes := [];
      while |parts| < size
        invariant Valid() && |parts| <= size && parts + Left() == old(Left())
        decreases size - |parts|
      {
        var part := Read(size - |parts|);
        if part == [] {
          return None;
        }
        parts := parts + part;
      }
      assert old(Left())[..size] == parts && old(Left())[size..] == Left();
      return Some(parts);
    }

    /** Reads one archive chunk by chunk, and checks the digest of what it has written out. */
    method ReceiveArchive(hash: Hash) returns (r: Option<bytes>)
      requires Valid() && Sized(hash)
      modifies this
      ensures Valid()
      ensures r.Some? <==> TakeArchive(old(Left()), hash).Some?
      ensures r.Some? ==> (r.value, Left()) == TakeArchive(old(Left()), hash).value
    {
      hide TakeChunks;
      var output: bytes := [];
      ghost var chunks: seq<bytes> := [];
      ghost var whole := TakeChunks(Left());
      NothingFramed();
      assert whole.Some? ==> chunks + whole.value.0 == whole.value.0;
      while true
        invariant Valid() && output == Concat(chunks)
        invariant whole == Onto(chunks, TakeChunks(Left()))
        decreases |Left()|
      {
        ghost var before := Left();
        var field := Exact(4);
        if field.None? {
          TakeNothing(before);
          return None;
        }
        var size := Long(field.value, 0);
        assert size == Long(before, 0);
        TakeStep(before);
        if size == 0 {
          assert chunks + [] == chunks;
          break;
        }
        if size > CHUNK {
          return None;
        }
        var chunk := Exact(size);
        if chunk.None? {
          return None;
        }
        assert before[4..][..size] == before[4..4 + size] && before[4..][size..] == before[4 + size..];
        OntoNext(chunks, chunk.value, TakeChunks(Left()));
        ConcatAppend(chunks, chunk.value);
        output := output + chunk.value;
        chunks := chunks + [chunk.value];
      }
      var sum := Exact(DIGEST);
      if sum.None? || sum.value != hash(output) {
        return None;
      }
      return Some(output);
    }
  }

  lemma {:induction false} ConcatAppend(chunks: seq<bytes>, c: bytes)
    ensures Concat(chunks + [c]) == Concat(chunks) + c
  {
    if chunks == [] {
      assert chunks + [c] == [c];
    } else {
      assert (chunks + [c])[1..] == chunks[1..] + [c];
      ConcatAppend(chunks[1..], c);
    }
  }

  method Receive(source: Source, hash: Hash) returns (r: Option<(bytes, bytes)>)
    requires source.Valid() && source.pos == 0 && Sized(hash)
    modifies source
    ensures r == Received(source.data, hash)
  {
    hide TakeArchive;
    assert source.Left() == source.data;
    var magic := source.Exact(|MAGIC|);
    if magic.None? || magic.value != MAGIC {
      return None;
    }
    var root := source.ReceiveArchive(hash);
    if root.None? {
      return None;
    }
    var helpers := source.ReceiveArchive(hash);
    if helpers.None? {
      return None;
    }
    ghost var end := source.Left();
    var complete := source.Exact(|COMPLETE|);
    if complete.None? || complete.value != COMPLETE {
      return None;
    }
    var more := source.Read(1);
    assert end == end[..|COMPLETE|] + end[|COMPLETE|..];
    return if more == [] then Some((root.value, helpers.value)) else None;
  }

  lemma FramedNext(chunks: seq<bytes>, i: nat, out: bytes, digested: bytes)
    requires Chunks(chunks) && i < |chunks|
    ensures out + Frames(chunks[i..]) == out + PackLong(|chunks[i]|) + chunks[i] + Frames(chunks[i + 1..])
    ensures digested + Concat(chunks[i..]) == digested + chunks[i] + Concat(chunks[i + 1..])
  {
    assert chunks[i..][1..] == chunks[i + 1..];
  }

  /** Writes one archive. Only a producer that succeeded gets its checksum sent. */
  method SendArchive(out: bytes, chunks: seq<bytes>, succeeded: bool, hash: Hash) returns (out': bytes)
    requires Chunks(chunks)
    ensures out' == out + if succeeded then Archive(chunks, hash) else Frames(chunks)
  {
    hide PackLong, Frames, Concat;
    out' := out;
    var digested: bytes := [];
    NothingFramed();
    assert chunks[0..] == chunks;
    for i := 0 to |chunks|
      invariant out' + Frames(chunks[i..]) == out + Frames(chunks)
      invariant digested + Concat(chunks[i..]) == Concat(chunks)
    {
      FramedNext(chunks, i, out', digested);
      digested := digested + chunks[i];
      out' := out' + PackLong(|chunks[i]|) + chunks[i];
    }
    assert chunks[|chunks|..] == [];
    assert digested == Concat(chunks) && out' == out + Frames(chunks);
    if succeeded {
      out' := out' + PackLong(0) + hash(digested);
    }
  }

  /** What reaches the receiver: an archive whose producer fails ends the export after its chunks. */
  function Exported(root: seq<bytes>, rootMade: bool, helpers: seq<bytes>, helpersMade: bool, hash: Hash): bytes
    requires Chunks(root) && Chunks(helpers)
  {
    if !rootMade then MAGIC + Frames(root)
    else if !helpersMade then MAGIC + Archive(root, hash) + Frames(helpers)
    else Stream(root, helpers, hash)
  }

  method Export(root: seq<bytes>, rootMade: bool, helpers: seq<bytes>, helpersMade: bool, hash: Hash)
    returns (out: bytes, ok: bool)
    requires Chunks(root) && Chunks(helpers)
    ensures out == Exported(root, rootMade, helpers, helpersMade, hash)
    ensures ok <==> rootMade && helpersMade
  {
    hide Archive, Frames;
    out := SendArchive(MAGIC, root, rootMade, hash);
    if !rootMade {
      return out, false;
    }
    out := SendArchive(out, helpers, helpersMade, hash);
    if !helpersMade {
      return out, false;
    }
    return out + COMPLETE, true;
  }

  /** The receiver accepts an export exactly when both producers succeeded, and then gets what they produced. */
  lemma FailuresAreRejected(root: seq<bytes>, rootMade: bool, helpers: seq<bytes>, helpersMade: bool, hash: Hash)
    requires Chunks(root) && Chunks(helpers) && Sized(hash)
    ensures Received(Exported(root, rootMade, helpers, helpersMade, hash), hash) ==
            if rootMade && helpersMade then Some((Concat(root), Concat(helpers))) else None
  {
    hide Received, Frames, Concat, PackLong;
    TransferRoundTrip(root, helpers, hash);
    var out, whole := Exported(root, rootMade, helpers, helpersMade, hash), Stream(root, helpers, hash);
    var rest := Archive(helpers, hash) + COMPLETE;
    assert whole == MAGIC + Archive(root, hash) + rest by {
      assert MAGIC + Archive(root, hash) + Archive(helpers, hash) + COMPLETE == MAGIC + Archive(root, hash) + rest;
    }
    if !rootMade {
      var more := PackLong(0) + hash(Concat(root)) + rest;
      assert out + more == whole;
      assert |more| >= |COMPLETE|;
      RejectedBefore(out, more, hash);
    } else if !helpersMade {
      var more := PackLong(0) + hash(Concat(helpers)) + COMPLETE;
      assert out + more == whole;
      assert |more| >= |COMPLETE|;
      RejectedBefore(out, more, hash);
    }
  }

  lemma RejectedBefore(data: bytes, more: bytes, hash: Hash)
    requires Sized(hash) && more != [] && Received(data + more, hash).Some?
    ensures Received(data, hash) == None
  {
    hide Received;
    if Received(data, hash).Some? {
      PrefixesRejected(data, more, hash);
    }
  }
}
