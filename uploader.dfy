/** The client's upload thread (`P2PUploader`): the file is read in windows
    of `chunkSize` bytes, each window is hashed and offered to the peers in
    rotation from a random start until one accepts it, and a descriptor of
    every placed chunk is handed back to the file's metadata, unless some
    task waits for ever on a peer that never answers. Chunk tasks run one
    after another here. */
module P2PUploader {
  import opened Common
  import opened Wire
  import HashUtils
  import P2PServer

  /** `P2PClientConfig`: 1 MiB chunks, two copies wanted, five threads. */
  const CHUNK_SIZE: nat := 1024 * 1024
  const NUMBER_OF_COPIES: nat := 2
  const MAX_THREADS: nat := 5

  /** `ReqChunkDto` as the uploader fills it: `chunk_peers` is never set. */
  datatype ChunkDescriptor = ChunkDescriptor(index: nat, hash: string, size: nat, peers: Option<seq<Peer>>)

  /** How `uploadChunk` ends against one peer: `readUTF` reads back "OK";
      it reads anything else, or an `IOException` is thrown (no connection,
      a socket closed without a reply, a hash `writeUTF` cannot write); or
      the peer keeps the connection open without replying, and `readUTF`,
      with no socket timeout set, blocks for ever. */
  datatype Answer = Accepted | Refused | Silent

  /** How a peer answers the upload of a chunk with a given hash (a socket
      exchange, outside the model). */
  type Oracle = (Peer, string, seq<byte>) -> Answer

  /** What the upload depends on besides the file and the peers: the digest,
      the peers' answers, and `new Random().nextInt(K)` for the task of each
      chunk index (taken modulo K). */
  datatype Environment = Environment(sha: HashUtils.Hasher, answer: Oracle, random: nat -> nat)

  // -----------------------------------------------------------------------
  // Splitting the file

  /** The chunks read from a file with a buffer of `c` bytes, in read order. */
  function Chunks(file: seq<byte>, c: nat): (chunks: seq<seq<byte>>)
    requires c > 0
    ensures forall i :: 0 <= i < |chunks| ==> 0 < |chunks[i]| <= c
    decreases |file|
  {
    if file == [] then []
    else if |file| <= c then [file]
    else [file[..c]] + Chunks(file[c..], c)
  }

  /** The first chunk is the first window; the rest are the chunks of what
      follows it. */
  lemma ChunksStep(file: seq<byte>, c: nat)
    requires c > 0 && file != []
    ensures var n := if |file| < c then |file| else c;
            Chunks(file, c) == [file[..n]] + Chunks(file[n..], c)
  {
    if |file| <= c {
      assert file[|file|..] == [];
      assert file[..|file|] == file;
    }
  }

  /** There are ceil(N / C) chunks; an empty file has none. */
  lemma {:induction false} ChunkCount(file: seq<byte>, c: nat)
    requires c > 0
    ensures |Chunks(file, c)| == (|file| + c - 1) / c
    ensures file == [] <==> Chunks(file, c) == []
    decreases |file|
  {
    if file == [] {
    } else if |file| <= c {
      DivOne(|file| + c - 1, c);
    } else {
      ChunkCount(file[c..], c);
      DivStep(|file| + c - 1, c);
    }
  }

  /** Integer division has one quotient. */
  lemma DivUnique(x: nat, c: nat, q: int, r: int)
    requires c > 0 && x == q * c + r && 0 <= r < c
    ensures x / c == q
  {
    var q', r' := x / c, x % c;
    assert x == q' * c + r' && 0 <= r' < c;
    if q > q' {
      MulAtLeast(q - q', c);
      Distribute(q, q', c);
    } else if q < q' {
      MulAtLeast(q' - q, c);
      Distribute(q', q, c);
    }
  }

  lemma MulAtLeast(a: int, c: nat)
    requires a >= 1
    ensures a * c >= c
  {
  }

  lemma Distribute(a: int, b: int, c: int)
    ensures (a - b) * c == a * c - b * c
  {
  }

  lemma DivOne(x: nat, c: nat)
    requires c <= x < 2 * c
    ensures x / c == 1
  {
    DivUnique(x, c, 1, x - c);
  }

  lemma DivStep(x: nat, c: nat)
    requires 0 < c <= x
    ensures (x - c) / c + 1 == x / c
  {
    var q, r := (x - c) / c, (x - c) % c;
    DivUnique(x, c, q + 1, r);
  }

  /** Every chunk but the last is exactly `c` bytes long. */
  lemma {:induction false} ChunkSizes(file: seq<byte>, c: nat)
    requires c > 0
    ensures var chunks := Chunks(file, c);
            forall i :: 0 <= i < |chunks| - 1 ==> |chunks[i]| == c
    decreases |file|
  {
    if |file| > c {
      ChunkSizes(file[c..], c);
      var chunks := Chunks(file, c);
      assert chunks == [file[..c]] + Chunks(file[c..], c);
      forall i | 1 <= i < |chunks| - 1 ensures |chunks[i]| == c {
        assert chunks[i] == Chunks(file[c..], c)[i - 1];
      }
    }
  }

  /** The chunks laid end to end. */
  function Concat(chunks: seq<seq<byte>>): (bytes: seq<byte>)
  {
    if chunks == [] then [] else chunks[0] + Concat(chunks[1..])
  }

  /** Laying the chunks end to end gives the file back. */
  lemma {:induction false} ChunksConcat(file: seq<byte>, c: nat)
    requires c > 0
    ensures Concat(Chunks(file, c)) == file
    decreases |file|
  {
    if file == [] {
    } else if |file| <= c {
      assert Concat([file]) == file + Concat([]);
    } else {
      ChunksConcat(file[c..], c);
      var chunks := Chunks(file, c);
      assert chunks[1..] == Chunks(file[c..], c);
      assert file == file[..c] + file[c..];
    }
  }

  // -----------------------------------------------------------------------
  // Placing one chunk

  /** The peer tried at attempt `i` of a task starting at `start`:
      `(startIndex + i) % peerCount`. */
  function Position(start: nat, i: nat, k: nat): (p: nat)
    requires start < k && i < k
    ensures p < k
    ensures p == if start + i < k then start + i else start + i - k
  {
    (start + i) % k
  }

  /** The peer positions tried for a task starting at `start`, in order. */
  function Rotation(start: nat, k: nat): (order: seq<nat>)
    requires start < k
  {
    seq(k, i requires 0 <= i < k => Position(start, i, k))
  }

  /** A rotation visits every peer exactly once. */
  lemma RotationIsPermutation(start: nat, k: nat)
    requires start < k
    ensures forall i, j :: 0 <= i < j < k ==> Rotation(start, k)[i] != Rotation(start, k)[j]
    ensures forall p :: 0 <= p < k ==> p in Rotation(start, k)
  {
    var order := Rotation(start, k);
    forall i, j | 0 <= i < j < k ensures order[i] != order[j] {
      assert order[i] == Position(start, i, k) && order[j] == Position(start, j, k);
    }
    forall p | 0 <= p < k ensures p in order {
      var i := if start <= p then p - start else p + k - start;
      assert order[i] == Position(start, i, k) == p;
    }
  }

  /** The attempt (counted from the start) at which the rotation stops,
      looking no earlier than attempt `i`: the first peer that does not
      refuse, whether it accepts or never answers. */
  function FirstUnrefused(peers: seq<Peer>, start: nat, answer: Oracle, hash: string, data: seq<byte>, i: nat)
    : (r: Option<nat>)
    requires start < |peers| && i <= |peers|
    ensures r.Some? ==> i <= r.value < |peers|
                        && answer(peers[Position(start, r.value, |peers|)], hash, data) != Refused
                        && forall j :: i <= j < r.value ==> answer(peers[Position(start, j, |peers|)], hash, data) == Refused
    ensures r.None? ==> forall j :: i <= j < |peers| ==> answer(peers[Position(start, j, |peers|)], hash, data) == Refused
    decreases |peers| - i
  {
    if i == |peers| then None
    else if answer(peers[Position(start, i, |peers|)], hash, data) != Refused then Some(i)
    else FirstUnrefused(peers, start, answer, hash, data, i + 1)
  }

  /** Attempts are made in rotation, each peer at most once, and they stop
      at the first peer that does not refuse. */
  lemma AttemptsEndAtFirstNonRefusal(peers: seq<Peer>, start: nat, answer: Oracle, hash: string, data: seq<byte>)
    requires start < |peers|
    ensures var r := FirstUnrefused(peers, start, answer, hash, data, 0);
            var tried := Rotation(start, |peers|)[..if r.Some? then r.value + 1 else |peers|];
            && (forall i, j :: 0 <= i < j < |tried| ==> tried[i] != tried[j])
            && (r.Some? <==> exists p :: p in tried && answer(peers[p], hash, data) != Refused)
            && (r.Some? ==> answer(peers[tried[|tried| - 1]], hash, data) != Refused)
            && (r.None? ==> forall p :: 0 <= p < |peers| ==> p in tried)
  {
    var r := FirstUnrefused(peers, start, answer, hash, data, 0);
    var k := |peers|;
    RotationIsPermutation(start, k);
    var tried := Rotation(start, k)[..if r.Some? then r.value + 1 else k];
    if r.Some? {
      assert tried[|tried| - 1] == Position(start, r.value, k);
    } else {
      assert tried == Rotation(start, k);
      forall p | p in tried ensures answer(peers[p], hash, data) == Refused {
        var i :| 0 <= i < |tried| && tried[i] == p;
        assert p == Position(start, i, k);
      }
    }
  }

  /** How the task of one chunk ends: its descriptor is recorded, every peer
      refused it, or it waits for ever on a peer that never answers. */
  datatype Outcome = Stored(descriptor: ChunkDescriptor) | Unplaced | Stuck

  /** The outcome of the task for chunk `index`. */
  function Placement(peers: seq<Peer>, index: nat, chunk: seq<byte>, env: Environment): (r: Outcome)
    ensures r.Stored? ==> r.descriptor == ChunkDescriptor(index, HashUtils.ContentHash(env.sha, chunk), |chunk|, None)
    ensures |peers| == 0 ==> r == Unplaced
  {
    if |peers| == 0 then Unplaced
    else
      var hash := HashUtils.ContentHash(env.sha, chunk);
      var start := env.random(index) % |peers|;
      var r := FirstUnrefused(peers, start, env.answer, hash, chunk, 0);
      if r.None? then Unplaced
      else if env.answer(peers[Position(start, r.value, |peers|)], hash, chunk) == Accepted
      then Stored(ChunkDescriptor(index, hash, |chunk|, None))
      else Stuck
  }

  /** The outcomes of the tasks of all chunks, by chunk index. */
  function Outcomes(chunks: seq<seq<byte>>, peers: seq<Peer>, env: Environment): (outcomes: seq<Outcome>)
    ensures |outcomes| == |chunks|
    ensures forall i :: 0 <= i < |chunks| ==> outcomes[i] == Placement(peers, i, chunks[i], env)
  {
    seq(|chunks|, i requires 0 <= i < |chunks| => Placement(peers, i, chunks[i], env))
  }

  /** Outcomes whose descriptors carry their own position as index. */
  predicate Indexed(outcomes: seq<Outcome>)
  {
    forall i :: 0 <= i < |outcomes| && outcomes[i].Stored? ==> outcomes[i].descriptor.index == i
  }

  /** What one task adds to `uploadedChunks`. */
  function Entries(outcome: Outcome): seq<ChunkDescriptor>
  {
    match outcome
    case Stored(d) => [d]
    case _ => []
  }

  /** The descriptors of the first `n` outcomes, in task order. */
  function Recorded(outcomes: seq<Outcome>, n: nat): seq<ChunkDescriptor>
    requires n <= |outcomes|
  {
    if n == 0 then []
    else Recorded(outcomes, n - 1) + Entries(outcomes[n - 1])
  }

  /** The first task, from `i` on, that never returns; `|outcomes|` when
      every one of them returns. */
  function FirstStuck(outcomes: seq<Outcome>, i: nat): (k: nat)
    requires i <= |outcomes|
    ensures i <= k <= |outcomes|
    ensures k < |outcomes| ==> outcomes[k].Stuck?
    ensures forall j :: i <= j < k ==> !outcomes[j].Stuck?
    decreases |outcomes| - i
  {
    if i == |outcomes| || outcomes[i].Stuck? then i else FirstStuck(outcomes, i + 1)
  }

  /** Whether some chunk's task waits for ever, so that `run` blocks in
      `future.get()` and never publishes `file_chunks`. */
  predicate Hangs(file: seq<byte>, c: nat, peers: seq<Peer>, env: Environment)
    requires c > 0
  {
    var outcomes := Outcomes(Chunks(file, c), peers, env);
    FirstStuck(outcomes, 0) < |outcomes|
  }

  /** Every descriptor the chunk tasks record before the first task that
      never returns (all of them when none hangs). */
  function Placed(file: seq<byte>, c: nat, peers: seq<Peer>, env: Environment): seq<ChunkDescriptor>
    requires c > 0
  {
    var outcomes := Outcomes(Chunks(file, c), peers, env);
    Recorded(outcomes, FirstStuck(outcomes, 0))
  }

  /** Each recorded descriptor is the outcome of the task of its index. */
  lemma {:induction false} RecordedSound(outcomes: seq<Outcome>, n: nat)
    requires n <= |outcomes| && Indexed(outcomes)
    ensures forall d :: d in Recorded(outcomes, n) ==> d.index < n && outcomes[d.index] == Stored(d)
  {
    if n > 0 {
      RecordedSound(outcomes, n - 1);
    }
  }

  /** Each successful task has its descriptor recorded. */
  lemma {:induction false} RecordedComplete(outcomes: seq<Outcome>, n: nat)
    requires n <= |outcomes|
    ensures forall i :: 0 <= i < n && outcomes[i].Stored? ==> outcomes[i].descriptor in Recorded(outcomes, n)
  {
    if n > 0 {
      RecordedComplete(outcomes, n - 1);
    }
  }

  /** Descriptors are recorded in increasing index order, so no index twice. */
  lemma {:induction false} RecordedIncreasing(outcomes: seq<Outcome>, n: nat)
    requires n <= |outcomes| && Indexed(outcomes)
    ensures forall j, k :: 0 <= j < k < |Recorded(outcomes, n)| ==>
              Recorded(outcomes, n)[j].index < Recorded(outcomes, n)[k].index
  {
    if n > 0 {
      RecordedIncreasing(outcomes, n - 1);
      RecordedSound(outcomes, n - 1);
      var before := Recorded(outcomes, n - 1);
      forall j | 0 <= j < |before| ensures before[j].index < n - 1 {
        assert before[j] in before;
      }
      var recorded := Recorded(outcomes, n);
      if outcomes[n - 1].Stored? {
        assert recorded == before + [outcomes[n - 1].descriptor];
        assert outcomes[n - 1].descriptor.index == n - 1;
        forall j, k | 0 <= j < k < |recorded| ensures recorded[j].index < recorded[k].index {
          assert recorded[j] == before[j];
          if k < |before| {
            assert recorded[k] == before[k];
          }
        }
      } else {
        assert recorded == before;
      }
    }
  }

  lemma OutcomeOfChunk(chunks: seq<seq<byte>>, peers: seq<Peer>, env: Environment, i: nat, data: seq<byte>)
    requires i < |chunks| && data == chunks[i]
    ensures Outcomes(chunks, peers, env)[i] == Placement(peers, i, data, env)
  {
  }

  lemma RecordedStep(outcomes: seq<Outcome>, n: nat)
    requires n < |outcomes|
    ensures Recorded(outcomes, n + 1) == Recorded(outcomes, n) + Entries(outcomes[n])
  {
  }

  lemma AppendAssociative<T>(a: seq<T>, b: seq<T>, c: seq<T>)
    ensures a + b + c == a + (b + c)
  {
  }

  /** No successful task, no descriptor. */
  lemma {:induction false} RecordedNone(outcomes: seq<Outcome>, n: nat)
    requires n <= |outcomes|
    requires forall i :: 0 <= i < |outcomes| ==> !outcomes[i].Stored?
    ensures Recorded(outcomes, n) == []
  {
    if n > 0 {
      RecordedNone(outcomes, n - 1);
    }
  }

  /** Every descriptor in `file_chunks` is that of a chunk some peer
      accepted: its index, the hash of exactly its bytes, its length, and no
      peer list. */
  lemma PlacedSound(file: seq<byte>, c: nat, peers: seq<Peer>, env: Environment)
    requires c > 0
    ensures var chunks := Chunks(file, c);
            forall d :: d in Placed(file, c, peers, env) ==>
              && d.index < |chunks|
              && Placement(peers, d.index, chunks[d.index], env) == Stored(d)
              && d.hash == HashUtils.ContentHash(env.sha, chunks[d.index])
              && d.size == |chunks[d.index]|
              && d.peers == None
  {
    var chunks := Chunks(file, c);
    var outcomes := Outcomes(chunks, peers, env);
    assert Indexed(outcomes);
    RecordedSound(outcomes, FirstStuck(outcomes, 0));
  }

  /** When no task hangs, a chunk has a descriptor in `file_chunks` exactly
      when some peer accepted it; when one hangs, the same holds for every
      chunk before it. */
  lemma PlacedComplete(file: seq<byte>, c: nat, peers: seq<Peer>, env: Environment)
    requires c > 0
    ensures var chunks := Chunks(file, c);
            var n := FirstStuck(Outcomes(chunks, peers, env), 0);
            && (!Hangs(file, c, peers, env) ==> n == |chunks|)
            && forall i :: 0 <= i < n ==>
                 ((exists d :: d in Placed(file, c, peers, env) && d.index == i) <==> Placement(peers, i, chunks[i], env).Stored?)
  {
    var chunks := Chunks(file, c);
    var outcomes := Outcomes(chunks, peers, env);
    var n := FirstStuck(outcomes, 0);
    var placed := Placed(file, c, peers, env);
    PlacedSound(file, c, peers, env);
    RecordedComplete(outcomes, n);
    forall i | 0 <= i < n && Placement(peers, i, chunks[i], env).Stored?
      ensures exists d :: d in placed && d.index == i
    {
      var d := outcomes[i].descriptor;
      assert d in placed && d.index == i;
    }
  }

  /** No chunk index appears twice in `file_chunks`: each chunk is placed on
      one peer, however many copies are wanted. */
  lemma PlacedOnce(file: seq<byte>, c: nat, peers: seq<Peer>, env: Environment)
    requires c > 0
    ensures var placed := Placed(file, c, peers, env);
            forall j, k :: 0 <= j < k < |placed| ==> placed[j].index != placed[k].index
  {
    var chunks := Chunks(file, c);
    var outcomes := Outcomes(chunks, peers, env);
    assert Indexed(outcomes);
    var n := FirstStuck(outcomes, 0);
    RecordedIncreasing(outcomes, n);
    var placed := Placed(file, c, peers, env);
    assert placed == Recorded(outcomes, n);
    forall j, k | 0 <= j < k < |placed| ensures placed[j].index != placed[k].index {
      assert placed[j].index < placed[k].index;
    }
  }

  /** Outcomes none of which is a success or a hang record nothing and let
      the run finish. */
  lemma NothingRecorded(outcomes: seq<Outcome>)
    requires forall i :: 0 <= i < |outcomes| ==> outcomes[i] == Unplaced
    ensures FirstStuck(outcomes, 0) == |outcomes|
    ensures Recorded(outcomes, |outcomes|) == []
  {
    RecordedNone(outcomes, |outcomes|);
  }

  /** With no peers no task places anything, and none hangs. */
  lemma NoPeersNoPlacement(file: seq<byte>, c: nat, env: Environment)
    requires c > 0
    ensures Placed(file, c, [], env) == []
    ensures !Hangs(file, c, [], env)
  {
    NothingRecorded(Outcomes(Chunks(file, c), [], env));
  }

  /** When every peer refuses every chunk, nothing is recorded and the run
      finishes. */
  lemma NothingPlacedWhenAllRefuse(file: seq<byte>, c: nat, peers: seq<Peer>, env: Environment)
    requires c > 0
    requires forall p, h, d :: env.answer(p, h, d) == Refused
    ensures Placed(file, c, peers, env) == []
    ensures !Hangs(file, c, peers, env)
  {
    var chunks := Chunks(file, c);
    var outcomes := Outcomes(chunks, peers, env);
    forall i | 0 <= i < |outcomes| ensures outcomes[i] == Unplaced {
      if |peers| > 0 {
        var chunk := chunks[i];
        var r := FirstUnrefused(peers, env.random(i) % |peers|, env.answer,
                                HashUtils.ContentHash(env.sha, chunk), chunk, 0);
        assert r.None?;
      }
    }
    NothingRecorded(outcomes);
  }

  /** `uploadChunk` against a peer that runs this client's own handler with
      the given uploads directory. A frame `writeUTF` cannot write is an
      `IOException`. A frame on which the handler waits for the client to
      close is never answered, since the client only closes after
      `readUTF`. Otherwise the handler replies and closes, and the reply
      must read back as "OK". */
  function HandlerAnswer(stores: Peer -> P2PServer.Store): Oracle
  {
    (p: Peer, hash: string, data: seq<byte>) =>
      var frame := UploadFrame(hash, data);
      if frame.None? then Refused
      else if P2PServer.AwaitsClose(frame.value) then Silent
      else if ClientAccepts(P2PServer.Serve(stores(p), frame.value).reply) then Accepted
      else Refused
  }

  /** A peer running this client's own handler never answers an upload of
      a chunk under its hash. */
  lemma HandlerNeverAnswers(stores: Peer -> P2PServer.Store, sha: HashUtils.Hasher, chunk: seq<byte>, p: Peer)
    ensures HandlerAnswer(stores)(p, HashUtils.ContentHash(sha, chunk), chunk) == Silent
  {
    P2PServer.UploadFrameMisfiled(stores(p), sha, chunk);
  }

  /** Against peers that all run this client's own handler, the task of the
      first chunk waits for ever on the first peer it tries: any non-empty
      file hangs the run before a single descriptor is recorded, so
      `file_chunks` is never set. */
  lemma OwnHandlerHangsUpload(file: seq<byte>, c: nat, peers: seq<Peer>,
                              sha: HashUtils.Hasher, stores: Peer -> P2PServer.Store, random: nat -> nat)
    requires c > 0
    ensures var env := Environment(sha, HandlerAnswer(stores), random);
            && (Hangs(file, c, peers, env) <==> |peers| > 0 && file != [])
            && Placed(file, c, peers, env) == []
  {
    var env := Environment(sha, HandlerAnswer(stores), random);
    var chunks := Chunks(file, c);
    var outcomes := Outcomes(chunks, peers, env);
    ChunkCount(file, c);
    if |peers| == 0 {
      NoPeersNoPlacement(file, c, env);
    } else if file != [] {
      var chunk := chunks[0];
      var hash := HashUtils.ContentHash(sha, chunk);
      var start := random(0) % |peers|;
      HandlerNeverAnswers(stores, sha, chunk, peers[Position(start, 0, |peers|)]);
      assert FirstUnrefused(peers, start, env.answer, hash, chunk, 0) == Some(0);
      assert outcomes[0] == Stuck;
      assert FirstStuck(outcomes, 0) == 0;
    }
  }

  /** One read of the upload loop yields the next chunk, and the rest of the
      file holds the chunks after it. */
  lemma NextChunk(file: seq<byte>, pos: nat, c: nat, chunks: seq<seq<byte>>, index: nat, n: int)
    requires c > 0 && pos < |file| && index <= |chunks|
    requires Chunks(file[pos..], c) == chunks[index..]
    requires n == ReadCount(|file| - pos, c)
    ensures index < |chunks|
    ensures 0 < n && pos + n <= |file|
    ensures file[pos..pos + n] == chunks[index]
    ensures Chunks(file[pos + n..], c) == chunks[index + 1..]
  {
    ChunksStep(file[pos..], c);
    assert file[pos..][..n] == file[pos..pos + n];
    assert file[pos..][n..] == file[pos + n..];
    assert chunks[index..][1..] == chunks[index + 1..];
  }

  // -----------------------------------------------------------------------
  // The upload thread

  class Uploader {
    /** The peers offered by the tracker, copied once. */
    const peers: seq<Peer>
    /** Size of the read buffer. */
    const chunkSize: nat
    /** `uploadedChunks`: descriptors appended by the chunk tasks. */
    var uploadedChunks: seq<ChunkDescriptor>
    /** `fileMetaData.file_chunks`: unset until the thread completes. */
    var fileChunks: Option<seq<ChunkDescriptor>>

    constructor (peers: seq<Peer>)
      ensures this.peers == peers && chunkSize == CHUNK_SIZE
      ensures uploadedChunks == [] && fileChunks == None
    {
      this.peers := peers;
      chunkSize := CHUNK_SIZE;
      uploadedChunks := [];
      fileChunks := None;
    }

    /** `uploadChunkToPeers`: peers are tried from `start` onwards, wrapping
        around, until one does not refuse. An acceptance appends a
        descriptor. A peer that never answers keeps the task waiting in
        that attempt for ever; the result `Silent` reports this, and
        nothing after it happens. `tried` lists the positions tried, in
        order. */
    method UploadChunkToPeers(chunkIndex: nat, hash: string, data: seq<byte>, start: nat, answer: Oracle)
      returns (result: Answer, ghost tried: seq<nat>)
      requires start < |peers|
      modifies this
      ensures var r := FirstUnrefused(peers, start, answer, hash, data, 0);
              && result == (if r.None? then Refused else answer(peers[Position(start, r.value, |peers|)], hash, data))
              && tried == Rotation(start, |peers|)[..if r.Some? then r.value + 1 else |peers|]
      ensures uploadedChunks == old(uploadedChunks)
                                + if result == Accepted then [ChunkDescriptor(chunkIndex, hash, |data|, None)] else []
      ensures fileChunks == old(fileChunks)
    {
      var peerCount := |peers|;
      tried := [];
      for i := 0 to peerCount
        invariant FirstUnrefused(peers, start, answer, hash, data, i) == FirstUnrefused(peers, start, answer, hash, data, 0)
        invariant tried == Rotation(start, peerCount)[..i]
        invariant uploadedChunks == old(uploadedChunks) && fileChunks == old(fileChunks)
      {
        var peer := peers[(start + i) % peerCount];
        assert (start + i) % peerCount == Position(start, i, peerCount);
        tried := tried + [(start + i) % peerCount];
        var reply := answer(peer, hash, data);
        if reply == Accepted {
          uploadedChunks := uploadedChunks + [ChunkDescriptor(chunkIndex, hash, |data|, None)];
          return Accepted, tried;
        }
        if reply == Silent {
          // `readUTF` never returns
          return Silent, tried;
        }
      }
      return Refused, tried;
    }

    /** The body of the loop of `run` for one chunk once it is read: hash it,
        draw the start and run its task. `stuck` reports a task that never
        returns. */
    method SubmitChunk(chunkIndex: nat, chunkData: seq<byte>, env: Environment, ghost outcome: Outcome)
      returns (stuck: bool)
      requires |peers| > 0 && outcome == Placement(peers, chunkIndex, chunkData, env)
      modifies this
      ensures stuck <==> outcome.Stuck?
      ensures uploadedChunks == old(uploadedChunks) + Entries(outcome)
      ensures fileChunks == old(fileChunks)
    {
      var hashed := HashUtils.ComputeHash(env.sha, HashUtils.ByteArray(chunkData));
      var chunkHash := hashed.value;
      var startIndex := env.random(chunkIndex) % |peers|;
      var result, _ := UploadChunkToPeers(chunkIndex, chunkHash, chunkData, startIndex, env.answer);
      stuck := result == Silent;
    }

    /** The body of the loop of `run` once `bytesRead` bytes have been read
        at `pos`: copy them out of the buffer, submit the chunk and move on
        to the next one. What the run has recorded on top of `base` grows
        by this chunk's entry. */
    method ProcessChunk(file: seq<byte>, pos: nat, bytesRead: int, chunkIndex: nat, env: Environment,
                        ghost chunks: seq<seq<byte>>, ghost outcomes: seq<Outcome>,
                        ghost base: seq<ChunkDescriptor>)
      returns (nextPos: nat, nextIndex: nat, stuck: bool)
      requires chunkSize > 0 && |peers| > 0 && pos < |file| && chunkIndex <= |chunks|
      requires Chunks(file[pos..], chunkSize) == chunks[chunkIndex..]
      requires bytesRead == ReadCount(|file| - pos, chunkSize)
      requires outcomes == Outcomes(chunks, peers, env)
      requires uploadedChunks == base + Recorded(outcomes, chunkIndex)
      modifies this
      ensures nextPos == pos + bytesRead && nextIndex == chunkIndex + 1
      ensures pos < nextPos <= |file| && nextIndex <= |chunks|
      ensures Chunks(file[nextPos..], chunkSize) == chunks[nextIndex..]
      ensures stuck <==> outcomes[chunkIndex].Stuck?
      ensures stuck ==> FirstStuck(outcomes, chunkIndex) == chunkIndex
      ensures !stuck ==> FirstStuck(outcomes, chunkIndex) == FirstStuck(outcomes, nextIndex)
      ensures uploadedChunks == base + Recorded(outcomes, nextIndex)
      ensures stuck ==> uploadedChunks == base + Recorded(outcomes, chunkIndex)
      ensures fileChunks == old(fileChunks)
    {
      NextChunk(file, pos, chunkSize, chunks, chunkIndex, bytesRead);
      var chunkData := file[pos..pos + bytesRead];
      OutcomeOfChunk(chunks, peers, env, chunkIndex, chunkData);
      stuck := SubmitChunk(chunkIndex, chunkData, env, outcomes[chunkIndex]);
      RecordedStep(outcomes, chunkIndex);
      AppendAssociative(base, Recorded(outcomes, chunkIndex), Entries(outcomes[chunkIndex]));
      ghost var rest := file[pos + bytesRead..];
      ghost var restChunks := chunks[chunkIndex + 1..];
      nextPos := pos + bytesRead;
      nextIndex := chunkIndex + 1;
      assert file[nextPos..] == rest && chunks[nextIndex..] == restChunks;
    }

    /** The reading loop of `run` together with the waits of
        `future.get()`: read the file chunk by chunk, hash each chunk, pick
        a random start and hand the chunk to its task. The model runs each
        task to its end inside the loop, before the next read, so a task
        that never returns stops the loop here, where in the code the loop
        reaches the end of the file and `future.get()` blocks instead.
        `finished` is false when `run` never gets past these waits (no
        peers, or a stuck task). */
    method ReadAndSubmit(file: seq<byte>, env: Environment, ghost outcomes: seq<Outcome>) returns (finished: bool)
      requires chunkSize > 0 && outcomes == Outcomes(Chunks(file, chunkSize), peers, env)
      modifies this
      ensures finished <==> (|peers| > 0 || file == []) && FirstStuck(outcomes, 0) == |outcomes|
      ensures uploadedChunks == old(uploadedChunks) + Recorded(outcomes, FirstStuck(outcomes, 0))
      ensures fileChunks == old(fileChunks)
    {
      var chunkIndex: nat := 0;
      var pos := 0;
      ghost var chunks := Chunks(file, chunkSize);
      assert file[pos..] == file && chunks[chunkIndex..] == chunks;
      assert Chunks(file[pos..], chunkSize) == chunks[chunkIndex..];
      while true
        invariant 0 <= pos <= |file|
        invariant chunkIndex <= |chunks|
        invariant Chunks(file[pos..], chunkSize) == chunks[chunkIndex..]
        invariant FirstStuck(outcomes, chunkIndex) == FirstStuck(outcomes, 0)
        invariant uploadedChunks == old(uploadedChunks) + Recorded(outcomes, chunkIndex)
        invariant fileChunks == old(fileChunks)
        invariant |peers| == 0 ==> pos == 0 && chunkIndex == 0
        decreases |file| - pos
      {
        var bytesRead := ReadCount(|file| - pos, chunkSize);
        if bytesRead == -1 {
          break;
        }
        if |peers| == 0 {
          // `nextInt(0)` throws
          NoPeersNoPlacement(file, chunkSize, env);
          return false;
        }
        var stuck;
        pos, chunkIndex, stuck := ProcessChunk(file, pos, bytesRead, chunkIndex, env, chunks, outcomes, old(uploadedChunks));
        if stuck {
          return false;
        }
      }
      assert file[pos..] == [];
      assert chunkIndex == |chunks|;
      assert FirstStuck(outcomes, chunkIndex) == |chunks|;
      finished := true;
    }

    /** `run`: the reading loop, then, once every task has returned, the
        publication of what they recorded. `completed` says whether `run`
        gets that far. With no peers, `nextInt(0)` throws on the first
        chunk, outside the caught exceptions, and the thread dies. A task
        that never returns blocks the thread in `future.get()`. In both
        cases `file_chunks` stays unset. */
    method Run(file: seq<byte>, env: Environment) returns (completed: bool)
      requires chunkSize > 0
      modifies this
      ensures completed <==> (|peers| > 0 || file == []) && !Hangs(file, chunkSize, peers, env)
      ensures uploadedChunks == old(uploadedChunks) + Placed(file, chunkSize, peers, env)
      ensures fileChunks == if completed then Some(uploadedChunks) else old(fileChunks)
    {
      ghost var outcomes := Outcomes(Chunks(file, chunkSize), peers, env);
      completed := ReadAndSubmit(file, env, outcomes);
      if completed {
        fileChunks := Some(uploadedChunks);
      }
    }
  }
}
