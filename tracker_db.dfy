/** The tracker's database (`server_utils.py`): three tables of rows, `files`,
    `chunks` and `peers`, each with an AUTOINCREMENT key. The SQL queries
    become find-or-insert methods on a `Database` object and pure functions
    over its tables. */
module ServerUtils {
  import opened Common

  datatype FileRow = FileRow(fileId: nat, fileName: string, fileHash: string, fileSize: int, fileEnc: bool)

  datatype ChunkRow = ChunkRow(chunkId: nat, fileId: nat, chunkIndex: int, chunkHash: string, chunkSize: int)

  datatype PeerRow = PeerRow(peerId: nat, chunkId: nat, peerIp: string, peerPort: int)

  /** The `(peer_ip, peer_port)` pair of a peer row. */
  function PeerOf(row: PeerRow): Peer
  {
    Peer(row.peerIp, row.peerPort)
  }

  /** The first row that satisfies `p`, by position (rows are kept in
      insertion order, the order a table scan returns them in). */
  function Find<T>(rows: seq<T>, p: T -> bool): (r: Option<nat>)
    ensures r.Some? ==> r.value < |rows| && p(rows[r.value])
    ensures r.Some? ==> forall j :: 0 <= j < r.value ==> !p(rows[j])
    ensures r.None? <==> forall j :: 0 <= j < |rows| ==> !p(rows[j])
  {
    if rows == [] then None
    else if p(rows[0]) then Some(0)
    else match Find(rows[1..], p)
      case None => None
      case Some(k) => Some(k + 1)
  }

  /** A row found in a table is still the one found once rows are appended. */
  lemma {:induction false} FindExtends<T>(a: seq<T>, b: seq<T>, p: T -> bool)
    requires Find(a, p).Some?
    ensures Find(a + b, p) == Find(a, p)
  {
    if !p(a[0]) {
      assert (a + b)[1..] == a[1..] + b;
      FindExtends(a[1..], b, p);
    }
  }

  lemma FindPrefix<T>(a: seq<T>, b: seq<T>, p: T -> bool)
    requires a <= b && Find(a, p).Some?
    ensures Find(b, p) == Find(a, p)
  {
    assert b == a + b[|a|..];
    FindExtends(a, b[|a|..], p);
  }

  /** A lookup that failed finds a row appended after it. */
  lemma FindAppended<T>(a: seq<T>, x: T, p: T -> bool)
    requires Find(a, p).None? && p(x)
    ensures Find(a + [x], p) == Some(|a|)
  {
    assert (a + [x])[|a|] == x;
  }

  /** The duplicate test of `insert_file`: all four columns equal. */
  predicate SameFile(row: FileRow, name: string, hash: string, size: int, enc: bool)
  {
    row.fileName == name && row.fileHash == hash && row.fileSize == size && row.fileEnc == enc
  }

  /** The duplicate test of `insert_chunk`: file, index and hash, not size. */
  predicate SameChunk(row: ChunkRow, fileId: nat, index: int, hash: string)
  {
    row.fileId == fileId && row.chunkIndex == index && row.chunkHash == hash
  }

  /** The duplicate test of `insert_peer`. */
  predicate SamePeer(row: PeerRow, chunkId: nat, ip: string, port: int)
  {
    row.chunkId == chunkId && row.peerIp == ip && row.peerPort == port
  }

  function FindFile(files: seq<FileRow>, name: string, hash: string, size: int, enc: bool): Option<nat>
  {
    Find(files, (r: FileRow) => SameFile(r, name, hash, size, enc))
  }

  function FindChunk(chunks: seq<ChunkRow>, fileId: nat, index: int, hash: string): Option<nat>
  {
    Find(chunks, (r: ChunkRow) => SameChunk(r, fileId, index, hash))
  }

  function FindPeer(peers: seq<PeerRow>, chunkId: nat, ip: string, port: int): Option<nat>
  {
    Find(peers, (r: PeerRow) => SamePeer(r, chunkId, ip, port))
  }

  /** A table's keys as AUTOINCREMENT leaves them: positive, increasing in
      insertion order, and never above the last key issued. */
  ghost predicate KeysIssued(ids: seq<nat>, last: nat)
  {
    && (forall i :: 0 <= i < |ids| ==> 0 < ids[i] <= last)
    && (forall i, j :: 0 <= i < j < |ids| ==> ids[i] < ids[j])
  }

  function FileIds(files: seq<FileRow>): (ids: seq<nat>)
    ensures |ids| == |files| && forall i :: 0 <= i < |files| ==> ids[i] == files[i].fileId
  {
    seq(|files|, i requires 0 <= i < |files| => files[i].fileId)
  }

  function ChunkIds(chunks: seq<ChunkRow>): (ids: seq<nat>)
    ensures |ids| == |chunks| && forall i :: 0 <= i < |chunks| ==> ids[i] == chunks[i].chunkId
  {
    seq(|chunks|, i requires 0 <= i < |chunks| => chunks[i].chunkId)
  }

  function PeerIds(peers: seq<PeerRow>): (ids: seq<nat>)
    ensures |ids| == |peers| && forall i :: 0 <= i < |peers| ==> ids[i] == peers[i].peerId
  {
    seq(|peers|, i requires 0 <= i < |peers| => peers[i].peerId)
  }

  /** The three tables. Nothing outside the `insert_*` operations writes them. */
  class Database {
    var files: seq<FileRow>
    var chunks: seq<ChunkRow>
    var peers: seq<PeerRow>
    /** The last AUTOINCREMENT key issued per table (`sqlite_sequence`). */
    var lastFileId: nat
    var lastChunkId: nat
    var lastPeerId: nat

    /** Keys are issued as AUTOINCREMENT does, and the duplicate tests of the
        `insert_*` operations keep each table free of duplicates. */
    ghost predicate Valid()
      reads this
    {
      && KeysIssued(FileIds(files), lastFileId)
      && KeysIssued(ChunkIds(chunks), lastChunkId)
      && KeysIssued(PeerIds(peers), lastPeerId)
      && (forall i, j :: 0 <= i < j < |files| ==>
            !SameFile(files[j], files[i].fileName, files[i].fileHash, files[i].fileSize, files[i].fileEnc))
      && (forall i, j :: 0 <= i < j < |chunks| ==>
            !SameChunk(chunks[j], chunks[i].fileId, chunks[i].chunkIndex, chunks[i].chunkHash))
      && (forall i, j :: 0 <= i < j < |peers| ==>
            !SamePeer(peers[j], peers[i].chunkId, peers[i].peerIp, peers[i].peerPort))
    }

    /** `create_tables` on a fresh database file. */
    constructor ()
      ensures Valid()
      ensures files == [] && chunks == [] && peers == []
    {
      files, chunks, peers := [], [], [];
      lastFileId, lastChunkId, lastPeerId := 0, 0, 0;
    }

    /** `insert_file`: the id of an identical row, or a fresh row's new id. */
    method InsertFile(name: string, hash: string, size: int, enc: bool) returns (fileId: nat)
      requires Valid()
      modifies this
      ensures Valid()
      ensures match FindFile(old(files), name, hash, size, enc)
        case Some(k) => fileId == old(files)[k].fileId && files == old(files) && lastFileId == old(lastFileId)
        case None =>
          && fileId == old(lastFileId) + 1 && lastFileId == fileId
          && files == old(files) + [FileRow(fileId, name, hash, size, enc)]
          && forall r :: r in old(files) ==> r.fileId < fileId
      ensures chunks == old(chunks) && peers == old(peers)
      ensures lastChunkId == old(lastChunkId) && lastPeerId == old(lastPeerId)
    {
      var found := FindFile(files, name, hash, size, enc);
      if found.Some? {
        return files[found.value].fileId;
      }
      fileId := lastFileId + 1;
      assert FileIds(files + [FileRow(fileId, name, hash, size, enc)]) == FileIds(files) + [fileId];
      files := files + [FileRow(fileId, name, hash, size, enc)];
      lastFileId := fileId;
    }

    /** `insert_chunk`: deduplicated on `(file_id, chunk_index, chunk_hash)`;
        a second chunk differing only in size gets the first one's id. */
    method InsertChunk(fileId: nat, index: int, hash: string, size: int) returns (chunkId: nat)
      requires Valid()
      modifies this
      ensures Valid()
      ensures match FindChunk(old(chunks), fileId, index, hash)
        case Some(k) => chunkId == old(chunks)[k].chunkId && chunks == old(chunks) && lastChunkId == old(lastChunkId)
        case None =>
          && chunkId == old(lastChunkId) + 1 && lastChunkId == chunkId
          && chunks == old(chunks) + [ChunkRow(chunkId, fileId, index, hash, size)]
          && forall r :: r in old(chunks) ==> r.chunkId < chunkId
      ensures old(chunks) <= chunks
      ensures files == old(files) && peers == old(peers)
      ensures lastFileId == old(lastFileId) && lastPeerId == old(lastPeerId)
    {
      var found := FindChunk(chunks, fileId, index, hash);
      if found.Some? {
        return chunks[found.value].chunkId;
      }
      chunkId := lastChunkId + 1;
      assert ChunkIds(chunks + [ChunkRow(chunkId, fileId, index, hash, size)]) == ChunkIds(chunks) + [chunkId];
      chunks := chunks + [ChunkRow(chunkId, fileId, index, hash, size)];
      lastChunkId := chunkId;
    }

    /** `insert_peer`: records that a peer holds a chunk, once. */
    method InsertPeer(chunkId: nat, ip: string, port: int)
      requires Valid()
      modifies this
      ensures Valid()
      ensures FindPeer(old(peers), chunkId, ip, port).Some? ==> peers == old(peers) && lastPeerId == old(lastPeerId)
      ensures FindPeer(old(peers), chunkId, ip, port).None? ==>
                && lastPeerId == old(lastPeerId) + 1
                && peers == old(peers) + [PeerRow(lastPeerId, chunkId, ip, port)]
      ensures FindPeer(peers, chunkId, ip, port).Some?
      ensures old(peers) <= peers
      ensures files == old(files) && chunks == old(chunks)
      ensures lastFileId == old(lastFileId) && lastChunkId == old(lastChunkId)
    {
      var found := FindPeer(peers, chunkId, ip, port);
      if found.Some? {
        return;
      }
      var peerId := lastPeerId + 1;
      assert PeerIds(peers + [PeerRow(peerId, chunkId, ip, port)]) == PeerIds(peers) + [peerId];
      peers := peers + [PeerRow(peerId, chunkId, ip, port)];
      lastPeerId := peerId;
      assert SamePeer(peers[|peers| - 1], chunkId, ip, port);
    }
  }

  /** `get_file_by_id`: the row with that key, or `None`. */
  function GetFileById(files: seq<FileRow>, fileId: int): (r: Option<FileRow>)
    ensures r.None? <==> forall i :: 0 <= i < |files| ==> files[i].fileId != fileId
    ensures r.Some? ==> r.value in files && r.value.fileId == fileId
  {
    match Find(files, (row: FileRow) => row.fileId == fileId)
      case None => None
      case Some(k) => Some(files[k])
  }

  /** The rows of one file, in table order. */
  function ChunksOf(chunks: seq<ChunkRow>, fileId: int): (r: seq<ChunkRow>)
    ensures forall c :: c in r <==> c in chunks && c.fileId == fileId
  {
    if chunks == [] then []
    else (if chunks[0].fileId == fileId then [chunks[0]] else []) + ChunksOf(chunks[1..], fileId)
  }

  lemma {:induction false} ChunksOfCount(chunks: seq<ChunkRow>, fileId: int, c: ChunkRow)
    ensures multiset(ChunksOf(chunks, fileId))[c] == if c.fileId == fileId then multiset(chunks)[c] else 0
  {
    if chunks != [] {
      ChunksOfCount(chunks[1..], fileId, c);
      assert chunks == [chunks[0]] + chunks[1..];
    }
  }

  predicate SortedByIndex(s: seq<ChunkRow>)
  {
    forall i, j :: 0 <= i < j < |s| ==> s[i].chunkIndex <= s[j].chunkIndex
  }

  /** Places a row before the first row of a larger index. */
  function InsertByIndex(c: ChunkRow, s: seq<ChunkRow>): (t: seq<ChunkRow>)
    requires SortedByIndex(s)
    ensures SortedByIndex(t)
    ensures multiset(t) == multiset(s) + multiset{c}
    ensures t != [] && (t[0] == c || (s != [] && t[0] == s[0]))
  {
    if s == [] || c.chunkIndex <= s[0].chunkIndex then
      [c] + s
    else
      assert s == [s[0]] + s[1..];
      var r := InsertByIndex(c, s[1..]);
      assert s[0].chunkIndex <= r[0].chunkIndex;
      assert forall j :: 0 <= j < |r| ==> r[0].chunkIndex <= r[j].chunkIndex;
      [s[0]] + r
  }

  /** `ORDER BY chunk_index ASC`. */
  function SortByIndex(s: seq<ChunkRow>): (t: seq<ChunkRow>)
    ensures SortedByIndex(t)
    ensures multiset(t) == multiset(s)
  {
    if s == [] then []
    else
      assert s == [s[0]] + s[1..];
      InsertByIndex(s[0], SortByIndex(s[1..]))
  }

  /** `get_chunks_by_file`: the file's rows ordered by index. With none, the
      404 raised inside the `try` is caught by its `except Exception` and
      surfaces as a 500. */
  function GetChunksByFile(chunks: seq<ChunkRow>, fileId: int): (r: Result<seq<ChunkRow>, int>)
    ensures r.Err? <==> forall c :: c in chunks ==> c.fileId != fileId
    ensures r.Err? ==> r.error == 500
    ensures r.Ok? ==> SortedByIndex(r.value)
    ensures r.Ok? ==> forall c :: multiset(r.value)[c] == if c.fileId == fileId then multiset(chunks)[c] else 0
  {
    var rows := ChunksOf(chunks, fileId);
    if rows == [] then
      Err(500)
    else
      assert rows[0] in rows;
      var sorted := SortByIndex(rows);
      assert forall c :: multiset(sorted)[c] == if c.fileId == fileId then multiset(chunks)[c] else 0 by {
        forall c ensures multiset(sorted)[c] == if c.fileId == fileId then multiset(chunks)[c] else 0 {
          ChunksOfCount(chunks, fileId, c);
        }
      }
      Ok(sorted)
  }

  /** `get_peers_by_chunk`: the peers recorded for a chunk, in table order,
      keeping only those in the active set. */
  function GetPeersByChunk(peers: seq<PeerRow>, chunkId: int, active: set<Peer>): (r: seq<Peer>)
    ensures forall p :: p in r ==> p in active
    ensures |r| <= |peers|
  {
    if peers == [] then []
    else
      (if peers[0].chunkId == chunkId && PeerOf(peers[0]) in active then [PeerOf(peers[0])] else [])
      + GetPeersByChunk(peers[1..], chunkId, active)
  }

  /** A peer is listed iff it is active and some row records it for the chunk. */
  lemma {:induction false} GetPeersByChunkMembers(peers: seq<PeerRow>, chunkId: int, active: set<Peer>, p: Peer)
    ensures p in GetPeersByChunk(peers, chunkId, active) <==>
              p in active && exists k :: 0 <= k < |peers| && peers[k].chunkId == chunkId && PeerOf(peers[k]) == p
  {
    if peers != [] {
      GetPeersByChunkMembers(peers[1..], chunkId, active, p);
      if exists k :: 0 <= k < |peers| && peers[k].chunkId == chunkId && PeerOf(peers[k]) == p {
        var k :| 0 <= k < |peers| && peers[k].chunkId == chunkId && PeerOf(peers[k]) == p;
        if k > 0 {
          assert peers[1..][k - 1] == peers[k];
        }
      }
    }
  }

  /** The filter keeps table order: filtering a concatenation filters each
      part and keeps the parts in order. */
  lemma {:induction false} GetPeersByChunkAppend(a: seq<PeerRow>, b: seq<PeerRow>, chunkId: int, active: set<Peer>)
    ensures GetPeersByChunk(a + b, chunkId, active) == GetPeersByChunk(a, chunkId, active) + GetPeersByChunk(b, chunkId, active)
  {
    if a == [] {
      assert a + b == b;
    } else {
      assert (a + b)[1..] == a[1..] + b;
      GetPeersByChunkAppend(a[1..], b, chunkId, active);
    }
  }

  /** `get_all_peers` (`SELECT DISTINCT peer_ip, peer_port`): every pair
      recorded anywhere, each once, in order of first appearance. */
  function GetAllPeers(peers: seq<PeerRow>): (r: seq<Peer>)
    ensures forall i, j :: 0 <= i < j < |r| ==> r[i] != r[j]
    ensures forall p :: p in r <==> exists k :: 0 <= k < |peers| && PeerOf(peers[k]) == p
  {
    if peers == [] then []
    else
      var front := peers[..|peers| - 1];
      var earlier := GetAllPeers(front);
      var p := PeerOf(peers[|peers| - 1]);
      assert forall k :: 0 <= k < |front| ==> front[k] == peers[k];
      if p in earlier then earlier else earlier + [p]
  }
}
