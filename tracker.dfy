/** The tracker's request logic (`Server/main.py`): the set of active peers
    with its add, remove and heartbeat operations, the upload of a file's
    manifest into the tables, and the assembly of a file's download
    listing. */
module TrackerMain {
  import opened Common
  import opened ServerUtils
  import Wire
  import P2PServer

  const HTTP_OK: int := 200
  const HTTP_NOT_FOUND: int := 404
  const HTTP_CONFLICT: int := 409
  const HTTP_INTERNAL_ERROR: int := 500

  // The heartbeat

  /** The 11 bytes `heart_check` sends: the `ping      ` header and a
      newline. */
  const HEARTBEAT_PING: seq<byte> := Wire.PING_HEADER + [10]

  /** What pinging one peer comes to: the connection or the read failed
      (`socket.timeout`, `ConnectionRefusedError`, `OSError`), the reply was
      not valid UTF-8, or it decoded to `text`. */
  datatype PingOutcome = Unreachable | Undecodable | Replied(text: string)

  /** The network, as seen by the heartbeat: a ping's outcome per peer. */
  type Pinger = Peer -> PingOutcome

  /** `str.isspace`: the characters Python's `strip()` removes. */
  predicate PyWhitespace(c: char)
  {
    || ('\t' <= c <= '\r') || ('\U{001C}' <= c <= ' ')
    || c == '\U{0085}' || c == '\U{00A0}' || c == '\U{1680}'
    || ('\U{2000}' <= c <= '\U{200A}')
    || c == '\U{2028}' || c == '\U{2029}' || c == '\U{202F}' || c == '\U{205F}' || c == '\U{3000}'
  }

  function StripStart(s: string): (r: string)
    ensures |r| <= |s| && r == s[|s| - |r|..]
    ensures r == [] || !PyWhitespace(r[0])
    ensures forall k :: 0 <= k < |s| - |r| ==> PyWhitespace(s[k])
  {
    if s != [] && PyWhitespace(s[0]) then StripStart(s[1..]) else s
  }

  function StripEnd(s: string): (r: string)
    ensures |r| <= |s| && r == s[..|r|]
    ensures r == [] || !PyWhitespace(r[|r| - 1])
    ensures forall k :: |r| <= k < |s| ==> PyWhitespace(s[k])
  {
    if s != [] && PyWhitespace(s[|s| - 1]) then StripEnd(s[..|s| - 1]) else s
  }

  /** `r` is the part of `s` starting at `a`, and everything before and
      after it is whitespace. */
  predicate StrippedAt(s: string, a: int, r: string)
  {
    && 0 <= a <= |s| - |r| && r == s[a..a + |r|]
    && (forall k :: 0 <= k < a ==> PyWhitespace(s[k]))
    && (forall k :: a + |r| <= k < |s| ==> PyWhitespace(s[k]))
  }

  /** `str.strip()`. */
  function Strip(s: string): (r: string)
    ensures |r| <= |s|
    ensures r == [] || (!PyWhitespace(r[0]) && !PyWhitespace(r[|r| - 1]))
    ensures exists a :: StrippedAt(s, a, r)
  {
    var t := StripStart(s);
    StrippedAtComposed(s, t, StripEnd(t));
    StripEnd(t)
  }

  /** Dropping from the front and then from the back drops a prefix and a
      suffix of the original. */
  lemma StrippedAtComposed(s: string, t: string, r: string)
    requires |t| <= |s| && t == s[|s| - |t|..]
    requires forall k :: 0 <= k < |s| - |t| ==> PyWhitespace(s[k])
    requires |r| <= |t| && r == t[..|r|]
    requires forall k :: |r| <= k < |t| ==> PyWhitespace(t[k])
    ensures StrippedAt(s, |s| - |t|, r)
  {
    var a := |s| - |t|;
    forall k | a + |r| <= k < |s|
      ensures PyWhitespace(s[k])
    {
      assert s[k] == t[k - a];
    }
  }

  /** The peer server's `pong      ` reply, stripped, is the `pong` the
      heartbeat expects. */
  lemma PongStripped()
    ensures Strip(Decode(Wire.PONG)) == "pong"
  {
    Wire.DecodePadded("pong", Wire.HEADER_LENGTH);
    StripPadded("pong", 6);
  }

  /** A word that neither starts nor ends with whitespace, followed by
      spaces, strips to the word. */
  lemma {:induction false} StripPadded(word: string, n: nat)
    requires word != [] && !PyWhitespace(word[0]) && !PyWhitespace(word[|word| - 1])
    ensures Strip(word + seq(n, _ => ' ')) == word
  {
    var s := word + seq(n, _ => ' ');
    assert s[0] == word[0];
    assert StripStart(s) == s;
    if n > 0 {
      assert s[..|s| - 1] == word + seq(n - 1, _ => ' ');
      StripPadded(word, n - 1);
    } else {
      assert s == word;
    }
  }

  /** A peer stays iff its reply, stripped, is `pong`. */
  predicate Responds(outcome: PingOutcome)
  {
    outcome.Replied? && Strip(outcome.text) == "pong"
  }

  /** The peers that survive a heartbeat round. */
  function Survivors(peers: set<Peer>, ping: Pinger): (r: set<Peer>)
    ensures r <= peers
  {
    set p | p in peers && Responds(ping(p))
  }

  /** The heartbeat never evicts a peer whose own server answers it: that
      server answers the heartbeat's ping with `pong      `, whatever it
      stores. */
  lemma ServingPeerSurvives(peers: set<Peer>, ping: Pinger, p: Peer, store: P2PServer.Store)
    requires p in peers
    requires ping(p) == Replied(Decode(P2PServer.Serve(store, HEARTBEAT_PING).reply))
    ensures p in Survivors(peers, ping)
  {
    P2PServer.PingAnswered(store, [10]);
    PongStripped();
  }

  /** A peer that cannot be reached, or that replies anything but `pong`
      padded with whitespace, is dropped. */
  lemma SilentPeerDropped(peers: set<Peer>, ping: Pinger, p: Peer)
    requires ping(p).Unreachable? || (ping(p).Replied? && Strip(ping(p).text) != "pong")
    ensures p !in Survivors(peers, ping)
  {
  }

  /** The set of `(ip, port)` pairs the tracker believes alive. */
  class ActivePeers {
    var members: set<Peer>

    constructor (initial: set<Peer>)
      ensures members == initial
    {
      members := initial;
    }

    /** `add_active_peer`: `True` iff the pair was new. */
    method AddActivePeer(peer: Peer) returns (added: bool)
      modifies this
      ensures added <==> peer !in old(members)
      ensures members == old(members) + {peer}
    {
      if peer !in members {
        members := members + {peer};
        return true;
      }
      return false;
    }

    /** `remove_active_peer`: `True` iff the pair was present. */
    method RemoveActivePeer(peer: Peer) returns (removed: bool)
      modifies this
      ensures removed <==> peer in old(members)
      ensures members == old(members) - {peer}
    {
      if peer in members {
        members := members - {peer};
        return true;
      }
      return false;
    }

    /** `POST /peers/add`: 200, or 409 when the peer is already listed. */
    method ApiAddPeer(peer: Peer) returns (status: int)
      modifies this
      ensures status == if peer in old(members) then HTTP_CONFLICT else HTTP_OK
      ensures members == old(members) + {peer}
    {
      var added := AddActivePeer(peer);
      status := if added then HTTP_OK else HTTP_CONFLICT;
    }

    /** `POST /peers/remove`: 200, or 404 when the peer is not listed. */
    method ApiRemovePeer(peer: Peer) returns (status: int)
      modifies this
      ensures status == if peer in old(members) then HTTP_OK else HTTP_NOT_FOUND
      ensures members == old(members) - {peer}
    {
      var removed := RemoveActivePeer(peer);
      status := if removed then HTTP_OK else HTTP_NOT_FOUND;
    }

    /** `heart_check`: ping every listed peer and drop those that do not
        answer `pong`. The set is replaced only once every peer is pinged; a
        reply that is not UTF-8 raises out of the loop and leaves it as it
        was. */
    method HeartCheck(ping: Pinger) returns (r: Result<set<Peer>, PingOutcome>)
      modifies this
      ensures r.Err? <==> exists p :: p in old(members) && ping(p).Undecodable?
      ensures r.Err? ==> members == old(members)
      ensures r.Ok? ==> members == Survivors(old(members), ping) && r.value == members
    {
      var pending := members;
      var kept := members;
      while pending != {}
        invariant pending <= members
        invariant forall p :: p in kept <==> p in members && (p in pending || Responds(ping(p)))
        invariant forall p :: p in members && p !in pending ==> !ping(p).Undecodable?
        decreases |pending|
      {
        var peer :| peer in pending;
        match ping(peer) {
          case Undecodable =>
            return Err(Undecodable);
          case Unreachable =>
            kept := kept - {peer};
          case Replied(text) =>
            if Strip(text) != "pong" {
              kept := kept - {peer};
            }
        }
        pending := pending - {peer};
      }
      members := kept;
      r := Ok(members);
    }
  }

  // The upload of a manifest

  /** One entry of `file_chunks` in an upload request. */
  datatype ManifestChunk = ManifestChunk(chunkIndex: int, chunkHash: string, chunkSize: int, chunkPeers: seq<Peer>)

  /** The body of `POST /files/upload_file`. */
  datatype Manifest = Manifest(fileName: string, fileHash: string, fileSize: int, fileEnc: bool,
                               fileChunks: seq<ManifestChunk>)

  /** The JSON body of a successful upload. */
  datatype UploadReply = UploadReply(fileId: nat, fileName: string, fileHash: string, message: string)

  const UPLOADED_WITHOUT_CHUNKS: string := "File uploaded without chunks"
  const UPLOADED_WITH_CHUNKS: string := "File and chunks uploaded successfully"

  /** Whether some entry carries `index`. */
  predicate IndexSeen(entries: seq<ManifestChunk>, index: int)
  {
    exists k :: 0 <= k < |entries| && entries[k].chunkIndex == index
  }

  /** `total_number_of_chunks` after the grouping loop: raised to
      `index + 1` by every entry whose index reaches the running total. */
  function Total(entries: seq<ManifestChunk>): nat
  {
    if entries == [] then 0
    else
      var t := Total(entries[..|entries| - 1]);
      var index := entries[|entries| - 1].chunkIndex;
      if index >= t then index + 1 else t
  }

  /** The total is one past the largest index, or 0 when no index is
      non-negative. */
  lemma {:induction false} TotalIsMaxPlusOne(entries: seq<ManifestChunk>)
    ensures forall k :: 0 <= k < |entries| ==> entries[k].chunkIndex < Total(entries)
    ensures Total(entries) == 0 || IndexSeen(entries, Total(entries) - 1)
  {
    if entries != [] {
      var front := entries[..|entries| - 1];
      TotalIsMaxPlusOne(front);
      assert forall k :: 0 <= k < |front| ==> front[k] == entries[k];
    }
  }

  /** The peers grouped under `index`: the `chunk_peers` of every entry
      with that index, concatenated in request order. */
  function PeersOf(entries: seq<ManifestChunk>, index: int): seq<Peer>
  {
    if entries == [] then []
    else
      var last := entries[|entries| - 1];
      PeersOf(entries[..|entries| - 1], index) + (if last.chunkIndex == index then last.chunkPeers else [])
  }

  /** Entries of other indices contribute nothing to a group, and every
      peer of an entry lands in its group. */
  lemma {:induction false} PeersOfMembers(entries: seq<ManifestChunk>, index: int, p: Peer)
    ensures p in PeersOf(entries, index) <==>
              exists k :: 0 <= k < |entries| && entries[k].chunkIndex == index && p in entries[k].chunkPeers
  {
    if entries != [] {
      var front := entries[..|entries| - 1];
      PeersOfMembers(front, index, p);
      assert forall k :: 0 <= k < |front| ==> front[k] == entries[k];
    }
  }

  lemma {:induction false} PeersOfUnseen(entries: seq<ManifestChunk>, index: int)
    requires !IndexSeen(entries, index)
    ensures PeersOf(entries, index) == []
  {
    if entries != [] {
      var front := entries[..|entries| - 1];
      assert forall k :: 0 <= k < |front| ==> front[k] == entries[k];
      PeersOfUnseen(front, index);
    }
  }

  /** Python list indexing of `chunk_upload_status`: a negative index counts
      from the end; out of range is an `IndexError`. */
  function Slot(index: int, total: nat): (slot: Option<nat>)
    ensures slot.Some? <==> -(total as int) <= index < total
    ensures slot.Some? ==> slot.value < total
    ensures slot.Some? && index >= 0 ==> slot.value == index
  {
    if 0 <= index < total then Some(index)
    else if -(total as int) <= index < 0 then Some(total + index)
    else None
  }

  /** Progress of the storing loop: the entries handed to `insert_chunk`,
      the status slots set to `True`, and whether an `IndexError` ended it. */
  datatype Progress = Progress(inserted: seq<ManifestChunk>, taken: set<nat>, failed: bool)

  /** The storing loop over `entries`, with a status list of length `total`. */
  function Store(entries: seq<ManifestChunk>, total: nat): (pr: Progress)
    ensures forall s :: s in pr.taken ==> s < total
  {
    if entries == [] then Progress([], {}, false)
    else
      var pr := Store(entries[..|entries| - 1], total);
      var e := entries[|entries| - 1];
      if pr.failed then pr
      else match Slot(e.chunkIndex, total)
        case None => pr.(failed := true)
        case Some(s) => if s in pr.taken then pr else Progress(pr.inserted + [e], pr.taken + {s}, false)
  }

  /** The first entry of each index, in request order: the reference for
      what `insert_chunk` should see. */
  function Firsts(entries: seq<ManifestChunk>): (r: seq<ManifestChunk>)
    ensures forall i, j :: 0 <= i < j < |r| ==> r[i].chunkIndex != r[j].chunkIndex
    ensures forall k :: 0 <= k < |entries| ==> IndexSeen(r, entries[k].chunkIndex)
    ensures forall i :: 0 <= i < |r| ==> r[i] in entries
  {
    if entries == [] then []
    else
      var front := entries[..|entries| - 1];
      var last := entries[|entries| - 1];
      var r := Firsts(front);
      assert forall k :: 0 <= k < |front| ==> front[k] == entries[k];
      if IndexSeen(front, last.chunkIndex) then
        var k :| 0 <= k < |front| && front[k].chunkIndex == last.chunkIndex;
        assert IndexSeen(r, front[k].chunkIndex);
        r
      else
        assert forall i :: 0 <= i < |r| ==> r[i].chunkIndex != last.chunkIndex;
        var r' := r + [last];
        assert r'[|r|] == last;
        forall k | 0 <= k < |front| ensures IndexSeen(r', front[k].chunkIndex) {
          var i :| 0 <= i < |r| && r[i].chunkIndex == front[k].chunkIndex;
          assert r'[i] == r[i];
        }
        r'
  }

  /** With non-negative indices, the storing loop never fails and hands
      `insert_chunk` exactly the first entry of each index, in request
      order; the slots taken are the indices seen. */
  lemma {:induction false} StoreTakesFirsts(entries: seq<ManifestChunk>, total: nat)
    requires forall k :: 0 <= k < |entries| ==> 0 <= entries[k].chunkIndex < total
    ensures !Store(entries, total).failed
    ensures Store(entries, total).inserted == Firsts(entries)
    ensures forall s: nat :: s in Store(entries, total).taken <==> IndexSeen(entries, s)
  {
    if entries != [] {
      var front := entries[..|entries| - 1];
      var last := entries[|entries| - 1];
      assert forall k :: 0 <= k < |front| ==> front[k] == entries[k];
      StoreTakesFirsts(front, total);
      assert Slot(last.chunkIndex, total) == Some(last.chunkIndex);
      IndexSeenLast(entries);
    }
  }

  /** An index is seen in a list iff it is seen before the last entry or
      is the last entry's. */
  lemma IndexSeenLast(entries: seq<ManifestChunk>)
    requires entries != []
    ensures forall s :: IndexSeen(entries, s) <==>
              IndexSeen(entries[..|entries| - 1], s) || entries[|entries| - 1].chunkIndex == s
  {
    var front := entries[..|entries| - 1];
    forall s | IndexSeen(entries, s) && entries[|entries| - 1].chunkIndex != s
      ensures IndexSeen(front, s)
    {
      var k :| 0 <= k < |entries| && entries[k].chunkIndex == s;
      assert front[k] == entries[k];
    }
    forall s | IndexSeen(front, s)
      ensures IndexSeen(entries, s)
    {
      var k :| 0 <= k < |front| && front[k].chunkIndex == s;
      assert front[k] == entries[k];
    }
  }

  /** The request the client builds always has indices 0, 1, ..., so every
      entry of a well-formed manifest is stored once. */
  lemma UploadStoresFirstOfEachIndex(entries: seq<ManifestChunk>)
    requires forall k :: 0 <= k < |entries| ==> entries[k].chunkIndex >= 0
    ensures !Store(entries, Total(entries)).failed
    ensures Store(entries, Total(entries)).inserted == Firsts(entries)
  {
    TotalIsMaxPlusOne(entries);
    StoreTakesFirsts(entries, Total(entries));
  }

  /** A negative index shares the status slot of the index it counts back
      to: in `[2, -1]` the second entry is never stored. */
  lemma NegativeIndexAliases(a: ManifestChunk, b: ManifestChunk)
    requires a.chunkIndex == 2 && b.chunkIndex == -1
    ensures Total([a, b]) == 3
    ensures Store([a, b], 3) == Progress([a], {2}, false)
  {
    assert [a, b][..1] == [a];
    assert [a][..0] == [];
    assert Total([a]) == 3;
    assert Store([a], 3) == Progress([a], {2}, false);
  }

  /** A negative index further back than the status list is an
      `IndexError`: a manifest holding only index -1 fails with 500. */
  lemma NegativeIndexFails(a: ManifestChunk)
    requires a.chunkIndex == -1
    ensures Total([a]) == 0
    ensures Store([a], 0).failed
  {
    assert [a][..0] == [];
  }

  /** The grouping loop of `api_upload_file`: the running total and the
      peers of each index. */
  method GroupChunks(entries: seq<ManifestChunk>) returns (total: nat, groups: map<int, seq<Peer>>)
    ensures total == Total(entries)
    ensures forall index :: index in groups <==> IndexSeen(entries, index)
    ensures forall index :: index in groups ==> groups[index] == PeersOf(entries, index)
  {
    total := 0;
    groups := map[];
    for i := 0 to |entries|
      invariant total == Total(entries[..i])
      invariant forall index :: index in groups <==> IndexSeen(entries[..i], index)
      invariant forall index :: index in groups ==> groups[index] == PeersOf(entries[..i], index)
    {
      var chunk := entries[i];
      assert entries[..i + 1][..i] == entries[..i];
      assert entries[..i + 1][i] == chunk;
      if chunk.chunkIndex !in groups {
        PeersOfUnseen(entries[..i], chunk.chunkIndex);
      }
      if chunk.chunkIndex >= total {
        total := chunk.chunkIndex + 1;
      }
      if chunk.chunkIndex !in groups {
        groups := groups[chunk.chunkIndex := []];
      }
      groups := groups[chunk.chunkIndex := groups[chunk.chunkIndex] + chunk.chunkPeers];
      forall index ensures index in groups <==> IndexSeen(entries[..i + 1], index) {
        if IndexSeen(entries[..i + 1], index) {
          var k :| 0 <= k < i + 1 && entries[..i + 1][k].chunkIndex == index;
          if k < i {
            assert entries[..i][k].chunkIndex == index;
          }
        }
        if IndexSeen(entries[..i], index) {
          var k :| 0 <= k < i && entries[..i][k].chunkIndex == index;
          assert entries[..i + 1][k].chunkIndex == index;
        }
      }
    }
    assert entries[..|entries|] == entries;
  }

  /** The tracker's record that chunk `chunkId` is the row for `e` of file
      `fileId`: the row a later lookup of `e`'s key finds. */
  ghost predicate ChunkRecorded(chunks: seq<ChunkRow>, fileId: nat, e: ManifestChunk, chunkId: nat)
  {
    var found := FindChunk(chunks, fileId, e.chunkIndex, e.chunkHash);
    found.Some? && chunks[found.value].chunkId == chunkId
  }

  /** The tracker's record that `p` holds chunk `chunkId`. */
  ghost predicate PeerRecorded(peers: seq<PeerRow>, chunkId: nat, p: Peer)
  {
    FindPeer(peers, chunkId, p.ip, p.port).Some?
  }

  /** Records survive rows appended to the tables. */
  lemma ChunkExtends(chunks: seq<ChunkRow>, longer: seq<ChunkRow>, fileId: nat, e: ManifestChunk, chunkId: nat)
    requires chunks <= longer && ChunkRecorded(chunks, fileId, e, chunkId)
    ensures ChunkRecorded(longer, fileId, e, chunkId)
  {
    FindPrefix(chunks, longer, (r: ChunkRow) => SameChunk(r, fileId, e.chunkIndex, e.chunkHash));
  }

  lemma PeersExtend(peers: seq<PeerRow>, longer: seq<PeerRow>, chunkId: nat, group: seq<Peer>)
    requires peers <= longer
    requires forall p :: p in group ==> PeerRecorded(peers, chunkId, p)
    ensures forall p :: p in group ==> PeerRecorded(longer, chunkId, p)
  {
    forall p | p in group ensures PeerRecorded(longer, chunkId, p) {
      FindPrefix(peers, longer, (r: PeerRow) => SamePeer(r, chunkId, p.ip, p.port));
    }
  }

  /** The inner loop of the storing loop: `insert_peer` for every peer of
      the group. */
  method RecordHolders(db: Database, chunkId: nat, group: seq<Peer>)
    requires db.Valid()
    modifies db
    ensures db.Valid()
    ensures forall p :: p in group ==> PeerRecorded(db.peers, chunkId, p)
    ensures db.files == old(db.files) && db.chunks == old(db.chunks)
    ensures old(db.peers) <= db.peers
    ensures forall i :: |old(db.peers)| <= i < |db.peers| ==> db.peers[i].chunkId == chunkId && PeerOf(db.peers[i]) in group
  {
    for j := 0 to |group|
      invariant db.Valid()
      invariant forall p :: p in group[..j] ==> PeerRecorded(db.peers, chunkId, p)
      invariant db.files == old(db.files) && db.chunks == old(db.chunks)
      invariant old(db.peers) <= db.peers
      invariant forall i :: |old(db.peers)| <= i < |db.peers| ==> db.peers[i].chunkId == chunkId && PeerOf(db.peers[i]) in group
    {
      ghost var before := db.peers;
      db.InsertPeer(chunkId, group[j].ip, group[j].port);
      PeersExtend(before, db.peers, chunkId, group[..j]);
      assert group[..j + 1] == group[..j] + [group[j]];
      assert PeerOf(PeerRow(db.lastPeerId, chunkId, group[j].ip, group[j].port)) == group[j];
    }
    assert group[..|group|] == group;
  }

  /** One pass of the storing loop for an entry whose slot is free:
      `insert_chunk`, then `insert_peer` for every peer of its index. */
  method StoreEntry(db: Database, fileId: nat, e: ManifestChunk, group: seq<Peer>) returns (chunkId: nat)
    requires db.Valid()
    modifies db
    ensures db.Valid()
    ensures ChunkRecorded(db.chunks, fileId, e, chunkId)
    ensures forall p :: p in group ==> PeerRecorded(db.peers, chunkId, p)
    ensures db.files == old(db.files)
    ensures old(db.chunks) <= db.chunks && old(db.peers) <= db.peers
    ensures |db.chunks| <= |old(db.chunks)| + 1
    ensures forall i :: |old(db.chunks)| <= i < |db.chunks| ==>
              db.chunks[i] == ChunkRow(chunkId, fileId, e.chunkIndex, e.chunkHash, e.chunkSize)
    ensures forall i :: |old(db.peers)| <= i < |db.peers| ==> db.peers[i].chunkId == chunkId && PeerOf(db.peers[i]) in group
  {
    ghost var chunks0 := db.chunks;
    chunkId := db.InsertChunk(fileId, e.chunkIndex, e.chunkHash, e.chunkSize);
    if FindChunk(chunks0, fileId, e.chunkIndex, e.chunkHash).None? {
      FindAppended(chunks0, ChunkRow(chunkId, fileId, e.chunkIndex, e.chunkHash, e.chunkSize),
                   (r: ChunkRow) => SameChunk(r, fileId, e.chunkIndex, e.chunkHash));
    }
    RecordHolders(db, chunkId, group);
  }

  /** Once the storing loop has failed, later entries change nothing. */
  lemma {:induction false} StoreStopsAtFailure(entries: seq<ManifestChunk>, i: nat, total: nat)
    requires i <= |entries| && Store(entries[..i], total).failed
    ensures Store(entries, total) == Store(entries[..i], total)
    decreases |entries| - i
  {
    if i < |entries| {
      var front := entries[..|entries| - 1];
      assert front[..i] == entries[..i];
      StoreStopsAtFailure(front, i, total);
    } else {
      assert entries[..i] == entries;
    }
  }

  /** Every entry handed to `insert_chunk` has its row, under the id the
      loop got back, and every peer of its index is recorded for that id. */
  ghost predicate Stored(chunks: seq<ChunkRow>, peers: seq<PeerRow>, fileId: nat, entries: seq<ManifestChunk>,
                         inserted: seq<ManifestChunk>, ids: seq<nat>)
  {
    && |ids| == |inserted|
    && forall k :: 0 <= k < |inserted| ==>
         && ChunkRecorded(chunks, fileId, inserted[k], ids[k])
         && forall p :: p in PeersOf(entries, inserted[k].chunkIndex) ==> PeerRecorded(peers, ids[k], p)
  }

  lemma StoredExtends(chunks: seq<ChunkRow>, peers: seq<PeerRow>, longerChunks: seq<ChunkRow>, longerPeers: seq<PeerRow>,
                      fileId: nat, entries: seq<ManifestChunk>, inserted: seq<ManifestChunk>, ids: seq<nat>)
    requires chunks <= longerChunks && peers <= longerPeers
    requires Stored(chunks, peers, fileId, entries, inserted, ids)
    ensures Stored(longerChunks, longerPeers, fileId, entries, inserted, ids)
  {
    forall k | 0 <= k < |inserted|
      ensures ChunkRecorded(longerChunks, fileId, inserted[k], ids[k])
      ensures forall p :: p in PeersOf(entries, inserted[k].chunkIndex) ==> PeerRecorded(longerPeers, ids[k], p)
    {
      ChunkExtends(chunks, longerChunks, fileId, inserted[k], ids[k]);
      PeersExtend(peers, longerPeers, ids[k], PeersOf(entries, inserted[k].chunkIndex));
    }
  }

  /** The only rows the storing loop adds on top of `chunks0` and `peers0`:
      a chunk row of file `fileId` for an entry it inserted, under the id
      it got back, and peer rows for those ids naming peers of the entry's
      index. Earlier rows stay as they were. */
  ghost predicate OnlyStored(chunks0: seq<ChunkRow>, peers0: seq<PeerRow>, chunks: seq<ChunkRow>, peers: seq<PeerRow>,
                             fileId: nat, entries: seq<ManifestChunk>, inserted: seq<ManifestChunk>, ids: seq<nat>)
  {
    && |ids| == |inserted|
    && chunks0 <= chunks && peers0 <= peers
    && (forall i :: |chunks0| <= i < |chunks| ==>
          exists k :: 0 <= k < |inserted| &&
            chunks[i] == ChunkRow(ids[k], fileId, inserted[k].chunkIndex, inserted[k].chunkHash, inserted[k].chunkSize))
    && (forall i :: |peers0| <= i < |peers| ==>
          exists k :: 0 <= k < |inserted| && peers[i].chunkId == ids[k] && PeerOf(peers[i]) in PeersOf(entries, inserted[k].chunkIndex))
  }

  /** One more entry stored, with its chunk row and its peers' rows. */
  lemma OnlyStoredStep(chunks0: seq<ChunkRow>, peers0: seq<PeerRow>, chunks: seq<ChunkRow>, peers: seq<PeerRow>,
                       chunks': seq<ChunkRow>, peers': seq<PeerRow>, fileId: nat, entries: seq<ManifestChunk>,
                       inserted: seq<ManifestChunk>, ids: seq<nat>, e: ManifestChunk, id: nat)
    requires OnlyStored(chunks0, peers0, chunks, peers, fileId, entries, inserted, ids)
    requires chunks <= chunks' && peers <= peers'
    requires forall i :: |chunks| <= i < |chunks'| ==> chunks'[i] == ChunkRow(id, fileId, e.chunkIndex, e.chunkHash, e.chunkSize)
    requires forall i :: |peers| <= i < |peers'| ==> peers'[i].chunkId == id && PeerOf(peers'[i]) in PeersOf(entries, e.chunkIndex)
    ensures OnlyStored(chunks0, peers0, chunks', peers', fileId, entries, inserted + [e], ids + [id])
  {
    var ins, nums := inserted + [e], ids + [id];
    forall i | |chunks0| <= i < |chunks'|
      ensures exists k :: 0 <= k < |ins| &&
                chunks'[i] == ChunkRow(nums[k], fileId, ins[k].chunkIndex, ins[k].chunkHash, ins[k].chunkSize)
    {
      if i < |chunks| {
        var k :| 0 <= k < |inserted| &&
          chunks[i] == ChunkRow(ids[k], fileId, inserted[k].chunkIndex, inserted[k].chunkHash, inserted[k].chunkSize);
        assert ins[k] == inserted[k] && nums[k] == ids[k] && chunks'[i] == chunks[i];
      } else {
        assert ins[|inserted|] == e && nums[|inserted|] == id;
      }
    }
    forall i | |peers0| <= i < |peers'|
      ensures exists k :: 0 <= k < |ins| && peers'[i].chunkId == nums[k] && PeerOf(peers'[i]) in PeersOf(entries, ins[k].chunkIndex)
    {
      if i < |peers| {
        var k :| 0 <= k < |inserted| && peers[i].chunkId == ids[k] && PeerOf(peers[i]) in PeersOf(entries, inserted[k].chunkIndex);
        assert ins[k] == inserted[k] && nums[k] == ids[k] && peers'[i] == peers[i];
      } else {
        assert ins[|inserted|] == e && nums[|inserted|] == id;
      }
    }
  }

  /** The storing loop of `api_upload_file`: for each entry whose status
      slot is still `False`, insert the chunk and the peers of its index and
      set the slot; an index out of the status list's range raises
      `IndexError` and ends the loop. */
  method StoreChunks(db: Database, fileId: nat, entries: seq<ManifestChunk>, total: nat, groups: map<int, seq<Peer>>)
    returns (ok: bool, ghost inserted: seq<ManifestChunk>, ghost ids: seq<nat>)
    requires db.Valid()
    requires forall index :: index in groups <==> IndexSeen(entries, index)
    requires forall index :: index in groups ==> groups[index] == PeersOf(entries, index)
    modifies db
    ensures db.Valid() && db.files == old(db.files)
    ensures ok <==> !Store(entries, total).failed
    ensures inserted == Store(entries, total).inserted
    ensures Stored(db.chunks, db.peers, fileId, entries, inserted, ids)
    ensures OnlyStored(old(db.chunks), old(db.peers), db.chunks, db.peers, fileId, entries, inserted, ids)
  {
    var status := seq(total, _ => false);
    inserted, ids := [], [];
    for i := 0 to |entries|
      invariant db.Valid() && db.files == old(db.files)
      invariant OnlyStored(old(db.chunks), old(db.peers), db.chunks, db.peers, fileId, entries, inserted, ids)
      invariant !Store(entries[..i], total).failed
      invariant inserted == Store(entries[..i], total).inserted
      invariant |status| == total
      invariant forall s :: 0 <= s < total ==> (status[s] <==> s in Store(entries[..i], total).taken)
      invariant Stored(db.chunks, db.peers, fileId, entries, inserted, ids)
    {
      var chunk := entries[i];
      assert entries[..i + 1][..i] == entries[..i] && entries[..i + 1][i] == chunk;
      var slot := Slot(chunk.chunkIndex, total);
      if slot.None? {
        StoreStopsAtFailure(entries, i + 1, total);
        return false, inserted, ids;
      }
      if !status[slot.value] {
        assert IndexSeen(entries, chunk.chunkIndex);
        var group := if chunk.chunkIndex in groups then groups[chunk.chunkIndex] else [];
        ghost var chunks0, peers0 := db.chunks, db.peers;
        var chunkId := StoreEntry(db, fileId, chunk, group);
        StoredExtends(chunks0, peers0, db.chunks, db.peers, fileId, entries, inserted, ids);
        OnlyStoredStep(old(db.chunks), old(db.peers), chunks0, peers0, db.chunks, db.peers, fileId, entries,
                       inserted, ids, chunk, chunkId);
        inserted, ids := inserted + [chunk], ids + [chunkId];
        status := status[slot.value := true];
      }
    }
    assert entries[..|entries|] == entries;
    ok := true;
  }

  /** The file row's id is the one a later lookup of its columns finds. */
  ghost predicate FileRecorded(files: seq<FileRow>, m: Manifest, fileId: nat)
  {
    var found := FindFile(files, m.fileName, m.fileHash, m.fileSize, m.fileEnc);
    found.Some? && files[found.value].fileId == fileId
  }

  /** `POST /files/upload_file`: insert the file row; with no chunks, stop
      there; otherwise group the peers by index and store the first entry
      of each status slot. An `IndexError` surfaces as 500, after the rows
      stored before it. */
  method ApiUploadFile(db: Database, m: Manifest)
    returns (r: Result<UploadReply, int>, ghost fileId: nat, ghost inserted: seq<ManifestChunk>, ghost ids: seq<nat>)
    requires db.Valid()
    modifies db
    ensures db.Valid()
    ensures FileRecorded(db.files, m, fileId)
    ensures old(db.files) <= db.files && |db.files| <= |old(db.files)| + 1
    ensures forall i :: |old(db.files)| <= i < |db.files| ==>
              db.files[i] == FileRow(fileId, m.fileName, m.fileHash, m.fileSize, m.fileEnc)
    ensures m.fileChunks == [] ==>
              && r == Ok(UploadReply(fileId, m.fileName, m.fileHash, UPLOADED_WITHOUT_CHUNKS))
              && db.chunks == old(db.chunks) && db.peers == old(db.peers)
    ensures m.fileChunks != [] ==>
              && (r.Err? <==> Store(m.fileChunks, Total(m.fileChunks)).failed)
              && (r.Err? ==> r.error == HTTP_INTERNAL_ERROR)
              && (r.Ok? ==> r.value == UploadReply(fileId, m.fileName, m.fileHash, UPLOADED_WITH_CHUNKS))
              && inserted == Store(m.fileChunks, Total(m.fileChunks)).inserted
              && Stored(db.chunks, db.peers, fileId, m.fileChunks, inserted, ids)
              && OnlyStored(old(db.chunks), old(db.peers), db.chunks, db.peers, fileId, m.fileChunks, inserted, ids)
  {
    ghost var files0 := db.files;
    var id := db.InsertFile(m.fileName, m.fileHash, m.fileSize, m.fileEnc);
    fileId := id;
    if FindFile(files0, m.fileName, m.fileHash, m.fileSize, m.fileEnc).None? {
      FindAppended(files0, FileRow(id, m.fileName, m.fileHash, m.fileSize, m.fileEnc),
                   (row: FileRow) => SameFile(row, m.fileName, m.fileHash, m.fileSize, m.fileEnc));
    }
    if m.fileChunks == [] {
      return Ok(UploadReply(id, m.fileName, m.fileHash, UPLOADED_WITHOUT_CHUNKS)), fileId, [], [];
    }
    var total, groups := GroupChunks(m.fileChunks);
    var ok;
    ok, inserted, ids := StoreChunks(db, id, m.fileChunks, total, groups);
    if !ok {
      return Err(HTTP_INTERNAL_ERROR), fileId, inserted, ids;
    }
    r := Ok(UploadReply(id, m.fileName, m.fileHash, UPLOADED_WITH_CHUNKS));
  }

  // The download listing

  /** A chunk of `ResFileDto`: its row and the active peers holding it. */
  datatype ChunkListing = ChunkListing(chunkId: nat, chunkIndex: int, chunkHash: string, chunkSize: int,
                                       chunkPeers: seq<Peer>)

  /** `ResFileDto`. */
  datatype FileListing = FileListing(fileId: nat, fileName: string, fileHash: string, fileSize: int, fileEnc: bool,
                                     fileChunks: seq<ChunkListing>)

  function ListingOf(c: ChunkRow, peers: seq<PeerRow>, active: set<Peer>): ChunkListing
  {
    ChunkListing(c.chunkId, c.chunkIndex, c.chunkHash, c.chunkSize, GetPeersByChunk(peers, c.chunkId, active))
  }

  /** The loop of `api_download_file` over the file's chunks: each row with
      the active peers that hold it, in the order given. */
  method ListChunks(sorted: seq<ChunkRow>, peers: seq<PeerRow>, active: set<Peer>) returns (fileChunks: seq<ChunkListing>)
    ensures |fileChunks| == |sorted|
    ensures forall k :: 0 <= k < |sorted| ==> fileChunks[k] == ListingOf(sorted[k], peers, active)
  {
    fileChunks := [];
    for i := 0 to |sorted|
      invariant |fileChunks| == i
      invariant forall k :: 0 <= k < i ==> fileChunks[k] == ListingOf(sorted[k], peers, active)
    {
      var chunk := sorted[i];
      var chunkPeers := GetPeersByChunk(peers, chunk.chunkId, active);
      fileChunks := fileChunks + [ChunkListing(chunk.chunkId, chunk.chunkIndex, chunk.chunkHash, chunk.chunkSize, chunkPeers)];
    }
  }

  /** `GET /files/download_file/{file_id}`: 404 for an unknown file, 500
      for a file without chunks, else the file's row with its chunks in
      index order, each with the active peers recorded for it. */
  method ApiDownloadFile(db: Database, active: set<Peer>, fileId: int) returns (r: Result<FileListing, int>)
    ensures GetFileById(db.files, fileId).None? ==> r == Err(HTTP_NOT_FOUND)
    ensures GetFileById(db.files, fileId).Some? && GetChunksByFile(db.chunks, fileId).Err? ==>
              r == Err(HTTP_INTERNAL_ERROR)
    ensures r.Ok? <==> GetFileById(db.files, fileId).Some? && GetChunksByFile(db.chunks, fileId).Ok?
    ensures r.Ok? ==>
              var row := GetFileById(db.files, fileId).value;
              var sorted := GetChunksByFile(db.chunks, fileId).value;
              && r.value.fileId == row.fileId && r.value.fileName == row.fileName && r.value.fileHash == row.fileHash
              && r.value.fileSize == row.fileSize && r.value.fileEnc == row.fileEnc
              && |r.value.fileChunks| == |sorted|
              && forall i :: 0 <= i < |sorted| ==> r.value.fileChunks[i] == ListingOf(sorted[i], db.peers, active)
    ensures r.Ok? ==> forall i, j :: 0 <= i < j < |r.value.fileChunks| ==>
              r.value.fileChunks[i].chunkIndex <= r.value.fileChunks[j].chunkIndex
    ensures r.Ok? ==> forall i :: 0 <= i < |r.value.fileChunks| ==>
              forall p :: p in r.value.fileChunks[i].chunkPeers ==> p in active
  {
    var fileData := GetFileById(db.files, fileId);
    if fileData.None? {
      return Err(HTTP_NOT_FOUND);
    }
    var chunkList := GetChunksByFile(db.chunks, fileData.value.fileId);
    if chunkList.Err? {
      return Err(chunkList.error);
    }
    var sorted := chunkList.value;
    var fileChunks := ListChunks(sorted, db.peers, active);
    var row := fileData.value;
    r := Ok(FileListing(row.fileId, row.fileName, row.fileHash, row.fileSize, row.fileEnc, fileChunks));
  }
}
