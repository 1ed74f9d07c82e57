# P2P file sharing: client upload path and tracker, in Dafny

This project models the core of a small peer-to-peer file-sharing system.
The system has two parts: a Java client that is also a peer, and a Python
tracker.

- **The peer's listening side** (`P2PServer.PeerHandler`). Each connection
  carries one request: a 10-byte space-padded operation code (`ping`,
  `download`, `upload`), then a 64-byte hash field, then the payload. The
  uploads directory is a map from file name to contents.
- **The client's upload thread** (`P2PUploader`).
  - It reads the file in 1 MiB windows and hashes each one.
  - It offers each chunk to the peers in rotation from a random start. The
    first peer that accepts takes the chunk.
  - It records one descriptor per placed chunk.
- **The client's hash** (`HashUtils.computeHash`): SHA-256 rendered as
  lowercase hexadecimal. SHA-256 is a parameter, and only its 32-byte output
  length is assumed.
- **The client's upload entry point** (`FileService.uploadFile`): the guard on
  the tracker's peer list, the removal of the client's own address, and the
  encryption flag.
- **The tracker** (`Server/main.py`):
  - the set of active `(ip, port)` pairs, with add, remove and the heartbeat;
  - the storing of an upload manifest (one chunk row per distinct index, with
    the peers of every entry of that index);
  - the download listing of a file.
- **The tracker's tables** (`Server/server_utils.py`): three tables with
  AUTOINCREMENT keys, find-or-insert operations, and queries.

The model follows the source's form:

- The handler, the uploader, the tracker's peer set and the database are
  classes. Their methods update fields and are proved against specification
  functions: `Serve`, `Placed`, `Survivors`, `Store` and `Find`.
- The pure parts are functions with lemmas: trimming, parsing, hex encoding,
  chunking, grouping and the queries.

The two components are also modelled together. The client writes the hash
with `writeUTF`, so the frame it sends starts with the length prefix
`0x00 0x40`. The handler reads 64 bytes and trims them. As a result, it
files the chunk under `"@"` followed by the first 62 hash characters. It
then copies the connection into that file until the client closes it, but
the client first waits in `readUTF` for a reply. Neither side moves on: the
chunk's task never returns, `run` blocks in `future.get()`, and
`uploadFile` blocks in `join()`. `P2PServer.UploadFrameMisfiled`,
`P2PUploader.OwnHandlerHangsUpload` and `FileService.UploadFile` state this.
The model keeps this behaviour exactly as the code has it.

Assumptions (some are stricter than the code):

- `InputStream.read` fills the buffer whenever enough bytes remain
  (`Wire.ReadCount`).
- `new String(bytes)` is decoded one character per byte.
- Case folding is ASCII only. Under the one-character-per-byte decoding
  above, the header characters are all below U+0100, and ASCII folding
  agrees with Java's `equalsIgnoreCase` when it compares them with the
  protocol's ASCII words.
- Chunk tasks run one after another in index order. The thread pool only
  changes the order of the recorded descriptors, so the properties about
  them are stated as membership and uniqueness facts.

## Model

| member | source | states |
|---|---|---|
| Common.Decode | Client/src/main/java/p2pclient/net/P2PServer.java:75 | `new String(bytes)`: one character per byte, same length, each character's code is its byte |
| Common.Ascii | Client/src/main/java/p2pclient/net/P2PServer.java:78 | `getBytes()` of an ASCII string: one byte per character, each byte is the character's code |
| Wire.Padded | Client/src/main/java/p2pclient/net/P2PServer.java:78 | a protocol code is its word followed by spaces, exactly 10 bytes long |
| Wire.ReadCount | Client/src/main/java/p2pclient/net/P2PServer.java:70 | a read returns -1 exactly at end of stream, otherwise 1..capacity bytes, and fewer than capacity only when that is all that remains |
| Wire.TrimStart | Client/src/main/java/p2pclient/net/P2PServer.java:75 | the result is a suffix whose first character is above U+0020, and everything dropped is at or below U+0020 |
| Wire.TrimEnd | Client/src/main/java/p2pclient/net/P2PServer.java:75 | the result is a prefix whose last character is above U+0020, and everything dropped is at or below U+0020 |
| Wire.Trim | Client/src/main/java/p2pclient/net/P2PServer.java:75 | `String.trim`: the result is what is left of the input once the characters at or below U+0020 are dropped from both ends, so it is empty or has non-blank ends |
| Wire.TrimPadding | Client/src/main/java/p2pclient/net/P2PServer.java:75 | blanks added on either side of a string do not change its trim |
| Wire.ParseOpPadded | Client/src/main/java/p2pclient/net/P2PServer.java:75-92 | a header whose trimmed code equals `ping`, `download` or `upload` ignoring case parses as that operation, and any other code is unrecognised |
| Wire.PingHeaderParses | Server/main.py:81 | the `ping      ` header the heartbeat sends parses as Ping |
| Wire.DownloadHeaderParses | Client/src/main/java/p2pclient/net/P2PServer.java:84 | the `download  ` header parses as Download |
| Wire.UploadHeaderParses | Client/src/main/java/p2pclient/net/P2PUploader.java:95 | the `upload    ` header the client writes parses as Upload |
| Wire.HashField | Client/src/main/java/p2pclient/net/P2PServer.java:105-106 | the 64-byte hash buffer after one read: the first 64 bytes of the rest, or what was there followed by zeros |
| Wire.AfterHashField | Client/src/main/java/p2pclient/net/P2PServer.java:117-125 | the payload is what follows the 64 bytes of the hash field, and is empty when the field was short |
| Wire.HashKeyOfExactField | Client/src/main/java/p2pclient/net/P2PServer.java:105-124 | a 64-character ASCII hash with non-blank ends is read back as exactly that key, and the bytes after it are the payload |
| Wire.WriteUtf | Client/src/main/java/p2pclient/net/P2PUploader.java:96 | `writeUTF` fails iff the modified UTF-8 body exceeds 65535 bytes; otherwise it writes a big-endian length equal to the body's size, then exactly that body |
| Wire.UtfRoundTrip | Client/src/main/java/p2pclient/net/P2PUploader.java:96-100 | `readUTF` returns the UTF-16 code units `writeUTF` wrote, whatever follows them |
| Wire.WriteUtfShort | Client/src/main/java/p2pclient/net/P2PUploader.java:96 | a string of at most 10922 characters is always written, since each character takes at most six bytes |
| Wire.WriteUtfAscii | Client/src/main/java/p2pclient/net/P2PUploader.java:96 | a string of characters U+0001..U+007F is written as its two length bytes followed by its ASCII bytes |
| Wire.UploadFrame | Client/src/main/java/p2pclient/net/P2PUploader.java:95-97 | the client's frame exists iff `writeUTF` succeeds, and it then starts with the `upload    ` header |
| Wire.ClientAcceptsOk | Client/src/main/java/p2pclient/net/P2PUploader.java:100-101 | the client accepts the reply `00 02 'O' 'K'` and rejects an empty reply |
| P2PServer.CopyStream | Client/src/main/java/p2pclient/net/P2PServer.java:138-142 | the 4096-byte copy loop writes exactly the source's bytes, in order |
| P2PServer.PeerHandler.Handle | Client/src/main/java/p2pclient/net/P2PServer.java:64-102 | one connection: the reply and the new store are those of `Serve` on the old store, which leaves the store alone for an upload under a directory name or a name containing NUL |
| P2PServer.PeerHandler.HandleDownload | Client/src/main/java/p2pclient/net/P2PServer.java:104-115 | `error     ` when nothing follows the header, otherwise the lookup of the trimmed hash field |
| P2PServer.PeerHandler.HandleUpload | Client/src/main/java/p2pclient/net/P2PServer.java:117-126 | with a hash field whose trimmed key names a file (not empty, `.` or `..`, and without NUL), the store maps that key to everything after the field; otherwise nothing changes |
| P2PServer.PeerHandler.SendChunk | Client/src/main/java/p2pclient/net/P2PServer.java:128-145 | the stored bytes; `not_found` for an absent name or a name containing NUL; nothing for a directory name |
| P2PServer.PeerHandler.ReceiveChunk | Client/src/main/java/p2pclient/net/P2PServer.java:147-158 | a key naming a file is set to the whole input, over any earlier value; a directory name, or a name with NUL on which `FileOutputStream` fails, changes nothing; no other key changes |
| P2PServer.ShortHeaderIgnored | Client/src/main/java/p2pclient/net/P2PServer.java:69-73 | fewer than 10 header bytes: no reply, store unchanged |
| P2PServer.UnrecognisedIgnored | Client/src/main/java/p2pclient/net/P2PServer.java:75-92 | an unrecognised code: no reply, store unchanged |
| P2PServer.PingAnswered | Client/src/main/java/p2pclient/net/P2PServer.java:77-81 | `ping` followed by anything gets exactly the 10 bytes `pong      `, store unchanged |
| P2PServer.DownloadWithoutHash | Client/src/main/java/p2pclient/net/P2PServer.java:104-111 | a download with nothing after the header gets exactly `error     `, store unchanged |
| P2PServer.DownloadAnswered | Client/src/main/java/p2pclient/net/P2PServer.java:128-144 | a download of a present key without NUL returns its bytes verbatim, and of an absent key or one with NUL exactly the 9 bytes `not_found`; the store is unchanged |
| P2PServer.UploadStores | Client/src/main/java/p2pclient/net/P2PServer.java:117-158 | an upload under a name without NUL sets the key to every byte after the hash field, over any earlier value; every other key is unchanged, nothing is replied, the handler reads until the client closes, and the payload is never checked against the key |
| P2PServer.UploadThenDownload | Client/src/main/java/p2pclient/net/P2PServer.java:104-158 | what was uploaded under a key without NUL is what a later download of that key returns |
| P2PServer.UploadUnderInvalidName | Client/src/main/java/p2pclient/net/P2PServer.java:128-158 | an upload under a 64-character name containing NUL stores nothing and replies nothing, the handler does not wait for the client to close, and a later download of that name gets `not_found` |
| P2PServer.HexUploadFrame | Client/src/main/java/p2pclient/net/P2PUploader.java:95-97 | for a hex hash the frame is the header, the length prefix `00 40`, the 64 hash bytes, then the chunk |
| P2PServer.PrefixedKey | Client/src/main/java/p2pclient/net/P2PServer.java:124 | a field starting `00 40` trims to `"@"` followed by the rest: the NUL goes, the `@` stays |
| P2PServer.MisfiledKey | Client/src/main/java/p2pclient/net/P2PServer.java:118-124 | on the client's frame the handler derives the key `"@" + hash[..62]` and the payload `hash[62..] + chunk` |
| P2PServer.MisfiledServe | Client/src/main/java/p2pclient/net/P2PServer.java:117-158 | the handler stores the client's chunk under `"@" + hash[..62]` with the last two hash characters in front of it, and waits for the client to close |
| P2PServer.UploadFrameMisfiled | Client/src/main/java/p2pclient/net/P2PUploader.java:95-101 | the client's upload frame is never filed under its hash, and the handler keeps reading it until the client closes, which the client does only after a reply |
| HashUtils.HexDigit | Client/src/main/java/p2pclient/utils/HashUtils.java:36 | `%x` of a value below 16 is a lowercase hexadecimal digit |
| HashUtils.Hex | Client/src/main/java/p2pclient/utils/HashUtils.java:33-38 | two characters per digest byte, all in `[0-9a-f]` |
| HashUtils.HexAt | Client/src/main/java/p2pclient/utils/HashUtils.java:35-37 | characters 2i and 2i+1 are the high and the low nibble of byte i |
| HashUtils.DigitValue | Client/src/main/java/p2pclient/utils/HashUtils.java:36 | the value of a hex digit is below 16 and renders back to that digit |
| HashUtils.FromHex | Client/src/main/java/p2pclient/utils/HashUtils.java:35-37 | reading a rendering back gives one byte per two digits |
| HashUtils.HexRoundTrip | Client/src/main/java/p2pclient/utils/HashUtils.java:35-37 | reading the rendering back gives the digest |
| HashUtils.HexInjective | Client/src/main/java/p2pclient/utils/HashUtils.java:35-37 | distinct digests give distinct strings |
| HashUtils.EncodeHex | Client/src/main/java/p2pclient/utils/HashUtils.java:34-38 | the StringBuilder loop builds the rendering of the whole digest |
| HashUtils.ContentHash | Client/src/main/java/p2pclient/utils/HashUtils.java:19-38 | the hash string is 64 lowercase hex characters |
| HashUtils.ComputeHash | Client/src/main/java/p2pclient/utils/HashUtils.java:18-39 | a file and a byte array with the same content hash alike, any other input is `IllegalArgumentException`, and a result is 64 lowercase hex characters |
| P2PUploader.Chunks | Client/src/main/java/p2pclient/net/P2PUploader.java:41-45 | every chunk has 1..C bytes |
| P2PUploader.ChunkCount | Client/src/main/java/p2pclient/net/P2PUploader.java:37-53 | a file of N bytes gives ceil(N/C) chunks, and only the empty file gives none |
| P2PUploader.ChunkSizes | Client/src/main/java/p2pclient/net/P2PUploader.java:42-45 | every chunk but the last has exactly C bytes, and the last has 1..C |
| P2PUploader.ChunksConcat | Client/src/main/java/p2pclient/net/P2PUploader.java:42-45 | the chunks concatenated in index order are the file |
| P2PUploader.NextChunk | Client/src/main/java/p2pclient/net/P2PUploader.java:42-45 | one read at the current position yields the next chunk, and the rest of the file holds the chunks after it |
| P2PUploader.Position | Client/src/main/java/p2pclient/net/P2PUploader.java:78 | attempt i goes to peer `(start + i) mod K`, which is below K |
| P2PUploader.RotationIsPermutation | Client/src/main/java/p2pclient/net/P2PUploader.java:76-78 | the K attempts visit every peer exactly once |
| P2PUploader.FirstUnrefused | Client/src/main/java/p2pclient/net/P2PUploader.java:77-87 | the attempt found is not refused (the peer accepts or never answers) and every earlier one is refused, or every attempt is refused |
| P2PUploader.AttemptsEndAtFirstNonRefusal | Client/src/main/java/p2pclient/net/P2PUploader.java:75-88 | the peers tried are distinct; the rotation stops early iff one of them does not refuse, and that one is the last tried; otherwise every peer is tried |
| P2PUploader.Placement | Client/src/main/java/p2pclient/net/P2PUploader.java:46-51 | a placed chunk's descriptor is its index, the hash of exactly its bytes, its length, and no peers; with no peers nothing is placed |
| P2PUploader.FirstStuck | Client/src/main/java/p2pclient/net/P2PUploader.java:59-66 | the first task from a given one on that never returns, every task before it returning; past the end when none hangs |
| P2PUploader.PlacedSound | Client/src/main/java/p2pclient/net/P2PUploader.java:80-84 | every recorded descriptor belongs to a chunk some peer accepted, with its hash and size and no peer list |
| P2PUploader.PlacedComplete | Client/src/main/java/p2pclient/net/P2PUploader.java:59-88 | when no task hangs, every chunk is covered; a chunk before the first task that hangs has a descriptor iff some peer accepted it |
| P2PUploader.PlacedOnce | Client/src/main/java/p2pclient/net/P2PUploader.java:80-84 | no chunk index is recorded twice: a single placement, however many copies are configured |
| P2PUploader.NoPeersNoPlacement | Client/src/main/java/p2pclient/net/P2PUploader.java:48 | with no peers nothing is placed and no task hangs |
| P2PUploader.NothingPlacedWhenAllRefuse | Client/src/main/java/p2pclient/net/P2PUploader.java:87 | when every peer refuses, nothing is recorded and no task hangs |
| P2PUploader.HandlerNeverAnswers | Client/src/main/java/p2pclient/net/P2PUploader.java:90-101 | a peer running this client's handler never answers the upload of a chunk under its hash |
| P2PUploader.OwnHandlerHangsUpload | Client/src/main/java/p2pclient/net/P2PUploader.java:34-101 | against this client's own handler the upload hangs iff there is a peer and the file is not empty, and no descriptor is ever recorded |
| P2PUploader.Uploader.constructor | Client/src/main/java/p2pclient/net/P2PUploader.java:24-31 | the peers copied, 1 MiB chunks, nothing recorded, `file_chunks` unset |
| P2PUploader.Uploader.UploadChunkToPeers | Client/src/main/java/p2pclient/net/P2PUploader.java:75-101 | the rotation stops at the first peer that does not refuse and the result is that peer's answer (refused when all refuse); the positions tried are the rotation up to that peer; one descriptor is appended on acceptance, none otherwise |
| P2PUploader.Uploader.SubmitChunk | Client/src/main/java/p2pclient/net/P2PUploader.java:46-51 | the chunk's task appends its outcome's entry, and reports whether it never returns |
| P2PUploader.Uploader.ProcessChunk | Client/src/main/java/p2pclient/net/P2PUploader.java:42-52 | one loop pass advances by one chunk and one index, the recorded descriptors grow by that chunk's outcome, and a hanging task is the first one that hangs |
| P2PUploader.Uploader.ReadAndSubmit | Client/src/main/java/p2pclient/net/P2PUploader.java:37-66 | the reading loop, with each task run to its end before the next read, gets past all the waits iff there are peers (or the file is empty) and no task hangs; what is recorded is the descriptors of the tasks before the first that hangs |
| P2PUploader.Uploader.Run | Client/src/main/java/p2pclient/net/P2PUploader.java:34-73 | `run` completes iff there are peers (or the file is empty) and no task hangs; `file_chunks` is then set to exactly the placed descriptors, and otherwise stays unset |
| FileService.OnlyMe | Client/src/main/java/p2pclient/service/FileService.java:55 | true iff the list is exactly this client |
| FileService.Blocked | Client/src/main/java/p2pclient/service/FileService.java:60 | true iff the list is empty or exactly this client |
| FileService.WithoutSelf | Client/src/main/java/p2pclient/service/FileService.java:66 | the result never names this client and is no longer than the list |
| FileService.WithoutSelfCounts | Client/src/main/java/p2pclient/service/FileService.java:66 | every other peer is kept as often as it occurred, and this client's entries are all gone |
| FileService.WithoutSelfMembers | Client/src/main/java/p2pclient/service/FileService.java:66 | a peer survives iff it was listed and is not this client |
| FileService.WithoutSelfAppend | Client/src/main/java/p2pclient/service/FileService.java:66 | removal keeps the order of what remains: removing from a concatenation removes from each part |
| FileService.WithoutSelfUnchanged | Client/src/main/java/p2pclient/service/FileService.java:66 | a list that does not name this client is left as it is |
| FileService.WithoutSelfEmpty | Client/src/main/java/p2pclient/service/FileService.java:66 | removal empties the list iff every entry is this client |
| FileService.RepeatedSelfPassesGuard | Client/src/main/java/p2pclient/service/FileService.java:55-66 | a list of this client repeated twice or more passes the guard and is empty after removal |
| FileService.RemoveSelf | Client/src/main/java/p2pclient/service/FileService.java:66 | the in-place `removeIf` leaves exactly `WithoutSelf` of the list |
| FileService.IsBlank | Client/src/main/java/p2pclient/service/FileService.java:75 | `isBlank`: true iff every character is Java whitespace |
| FileService.FileEnc | Client/src/main/java/p2pclient/service/FileService.java:75 | true iff a password is given and has a non-whitespace character |
| FileService.UploadFile | Client/src/main/java/p2pclient/service/FileService.java:51-89 | never returns iff the guard passes and some chunk's task hangs on the remaining peers; otherwise false with nothing sent iff the list is empty or exactly this client, and true with the file's name, hash, size, encryption flag and the uploader's `file_chunks` |
| TrackerMain.StripStart | Server/main.py:82 | `lstrip`: drops exactly the leading whitespace |
| TrackerMain.StripEnd | Server/main.py:82 | `rstrip`: drops exactly the trailing whitespace |
| TrackerMain.Strip | Server/main.py:82 | `strip`: the result is what is left of the input once whitespace is dropped from both ends, so it is empty or has non-whitespace ends |
| TrackerMain.StripPadded | Server/main.py:82 | a word with non-whitespace ends followed by spaces strips to the word |
| TrackerMain.PongStripped | Server/main.py:81-84 | the peer's `pong      `, decoded and stripped, is the `pong` the heartbeat expects |
| TrackerMain.Survivors | Server/main.py:76-96 | a heartbeat round never adds peers |
| TrackerMain.ServingPeerSurvives | Server/main.py:80-84 | a peer whose own handler answers the heartbeat's ping is kept |
| TrackerMain.SilentPeerDropped | Server/main.py:84-91 | an unreachable peer, or one whose stripped reply is not `pong`, is dropped |
| TrackerMain.ActivePeers.AddActivePeer | Server/main.py:100-110 | returns true iff the pair was absent, and the set then holds it |
| TrackerMain.ActivePeers.RemoveActivePeer | Server/main.py:112-122 | returns true iff the pair was present, and the set then lacks it |
| TrackerMain.ActivePeers.ApiAddPeer | Server/main.py:158-164 | 200 for a new peer, 409 for a listed one |
| TrackerMain.ActivePeers.ApiRemovePeer | Server/main.py:181-187 | 200 for a listed peer, 404 otherwise |
| TrackerMain.ActivePeers.HeartCheck | Server/main.py:67-98 | the set becomes the peers whose stripped reply is `pong`; a reply that is not UTF-8 raises and leaves the set as it was |
| TrackerMain.TotalIsMaxPlusOne | Server/main.py:265-267 | `total_number_of_chunks` is one past the largest index, or 0 |
| TrackerMain.PeersOfMembers | Server/main.py:276-285 | a peer is grouped under an index iff some entry with that index lists it |
| TrackerMain.Slot | Server/main.py:292 | Python list indexing: in range iff `-total <= index < total`, and a non-negative index is its own slot |
| TrackerMain.Firsts | Server/main.py:288-304 | the first entry of each index in request order: distinct indices, every index covered, all taken from the request |
| TrackerMain.StoreTakesFirsts | Server/main.py:288-304 | with non-negative indices the storing loop never fails and hands `insert_chunk` exactly the first entry of each index |
| TrackerMain.UploadStoresFirstOfEachIndex | Server/main.py:261-304 | a manifest with non-negative indices, contiguous or not, stores each index once, with its first entry |
| TrackerMain.NegativeIndexAliases | Server/main.py:288-304 | index -1 after index 2 shares its slot and is never stored |
| TrackerMain.NegativeIndexFails | Server/main.py:288-292 | a manifest holding only index -1 raises `IndexError` |
| TrackerMain.StoreStopsAtFailure | Server/main.py:291-304 | once the storing loop has raised, later entries change nothing |
| TrackerMain.GroupChunks | Server/main.py:261-285 | the grouping loop computes the total and, for each index seen, the peers of all its entries in request order |
| TrackerMain.RecordHolders | Server/main.py:301-302 | every peer of the group is recorded for the chunk; only the peer table grows, and only by rows for that chunk naming peers of the group |
| TrackerMain.StoreEntry | Server/main.py:292-304 | the chunk row is findable under the returned id, and every peer of its index is recorded for it; at most one chunk row is appended, with this file and the entry's index, hash and size, and new peer rows are for that id and peers of the index |
| TrackerMain.StoreChunks | Server/main.py:288-304 | the loop succeeds iff no index is out of range; the entries stored are those of the reference loop, each with its row and its peers recorded; the file table is unchanged, and new chunk and peer rows belong to stored entries and the peers of their index |
| TrackerMain.ApiUploadFile | Server/main.py:229-321 | the file row is recorded, at most one file row (the manifest's) being appended; with no chunks the reply is "File uploaded without chunks" and nothing else changes; otherwise 500 iff an index is out of range, the first entry of each slot is stored with all its peers, and no other chunk or peer rows appear |
| TrackerMain.ListChunks | Server/main.py:362-371 | each chunk row with the active peers recorded for it, in the order given |
| TrackerMain.ApiDownloadFile | Server/main.py:328-390 | 404 for an unknown file, 500 for a file without chunks, otherwise the file's row with its chunks in index order, each listing only active peers |
| ServerUtils.Find | Server/server_utils.py:80-84 | the first row satisfying the test, or none iff no row does |
| ServerUtils.FindPrefix | Server/server_utils.py:80-89 | a row found stays the one found as the table grows |
| ServerUtils.Database.constructor | Server/server_utils.py:21-66 | empty tables that satisfy the key and uniqueness invariant |
| ServerUtils.Database.InsertFile | Server/server_utils.py:70-109 | the id of an identical row with the table unchanged, or one appended row whose fresh id exceeds every earlier id |
| ServerUtils.Database.InsertChunk | Server/server_utils.py:112-151 | deduplicated on file, index and hash (not size): the existing id, or one appended row with a fresh, larger id |
| ServerUtils.Database.InsertPeer | Server/server_utils.py:153-181 | no change when the triple is present, otherwise exactly one appended row; the triple is present afterwards, so a repeated call changes nothing |
| ServerUtils.GetFileById | Server/server_utils.py:184-205 | None iff no row has that id, and otherwise the row with that id |
| ServerUtils.ChunksOf | Server/server_utils.py:223-229 | exactly the rows of that file |
| ServerUtils.ChunksOfCount | Server/server_utils.py:223-229 | each row of the file is kept as often as it occurs, and no other row is kept |
| ServerUtils.InsertByIndex | Server/server_utils.py:227 | inserting into sorted rows keeps them sorted and adds exactly that row |
| ServerUtils.SortByIndex | Server/server_utils.py:227 | `ORDER BY chunk_index ASC`: sorted, and a permutation of the rows |
| ServerUtils.GetChunksByFile | Server/server_utils.py:215-252 | 500 iff the file has no chunk, and otherwise the file's rows, sorted by index, each as often as stored |
| ServerUtils.GetPeersByChunk | Server/server_utils.py:255-276 | only active peers, no more than there are rows |
| ServerUtils.GetPeersByChunkMembers | Server/server_utils.py:255-276 | a peer is listed iff it is active and some row records it for the chunk |
| ServerUtils.GetPeersByChunkAppend | Server/server_utils.py:273-276 | the filter keeps table order |
| ServerUtils.GetAllPeers | Server/server_utils.py:286-297 | every pair recorded anywhere, each exactly once |

## Left out

- Sockets, HTTP, JSON and SQL text. A connection is the byte sequence the
  peer sends before closing, an HTTP route is a method returning a status or
  a body, and a table is a sequence of rows.
- Reads: `InputStream.read` is taken to fill the buffer whenever enough bytes
  remain, and short reads are not modelled (`Wire.ReadCount`).
- Character sets. `new String(bytes)` is one character per byte. The
  platform charset gives the same result on the ASCII bytes the protocol
  uses. `equalsIgnoreCase` folds ASCII letters only.
- Non-ASCII headers. Under a UTF-8 default charset, Java decodes some
  multi-byte headers to words that fold to a protocol word: `70 C4 B1 6E 67`
  is "pıng", which equals "ping" ignoring case because `ı` upper-cases to
  `I`, and `C4 B0` (`İ`) does the same through `toLowerCase`. Java
  answers such headers; the model decodes them byte by byte, finds them
  unrecognised, and replies nothing.
- File names. `directories.get("uploads") + "/" + hash` is the map key.
  A download of a name containing NUL answers `not_found`, whatever the
  store holds, since `File.exists` is false for an invalid path.
  Empty, `.` and `..` keys denote directories: the handler opens them,
  fails, and stays silent. A key containing NUL is an invalid path:
  `FileOutputStream` throws, nothing is stored and nothing is replied.
  Keys containing `/` are not modelled.
- Concurrency:
  - the uploader's thread pool, `Future.get` and `Thread.join`;
  - the peer server's accept loop and worker threads;
  - the tracker's `peers_lock`, and the heartbeat race in which
    `heart_check` overwrites peers added while it runs.
  Chunk tasks run in index order, so the model's `file_chunks` is in index
  order; the code's order is unspecified. With a real pool, other tasks may
  go on placing chunks while one waits for ever; the model's
  `uploadedChunks` stops at the first such task. The difference is not
  observable, since `file_chunks` is then never set.
  The model runs each chunk's task to its end inside the reading loop,
  before the next read (`P2PUploader.Uploader.ReadAndSubmit`). In the code
  the loop only submits tasks and always reaches the end of the file; it
  is the later `future.get()` that blocks on a task that never returns.
- `P2PUploader.Uploader.Run`: the `IOException` branches (an unreadable file,
  a hash that fails) are not modelled; every read succeeds.
- SHA-256 is a parameter (`HashUtils.Hasher`), any total function with
  32-byte results. `NoSuchAlgorithmException` is not modelled.
- `new Random().nextInt(K)`: the start of each chunk's rotation is a
  parameter, taken modulo K.
- Peer answers: how a peer answers `uploadChunk` is a parameter with three
  values. It accepts (the reply reads "OK"), refuses (any other reply, or an
  `IOException`), or never answers. The code sets no socket timeout, so a
  peer that never answers blocks the task for ever.
  `P2PUploader.HandlerAnswer` is the special case of peers running this
  client's own handler.
- `FileService.uploadFile`: the HTTP calls around it (`getPeers`,
  `uploadFileMetadata`) are not modelled. The request it would post is
  returned instead.
- `Server/main.py` `heart_check`: the ping of each peer is a parameter
  giving the decoded reply, or a connection failure, or a reply that is not
  UTF-8. `recv(1024)` and UTF-8 decoding are folded into it. The 3-second
  timeout and the 60-second loop are not modelled.
- The tracker's manifest: `file_chunks` set to `None` and set to `[]` are
  the same empty sequence, since the route treats them alike. Pydantic
  validation of the request is not modelled.
- The `hasattr(app.state, "active_peers")` 500 checks are not modelled: the
  active set always exists.
- `ServerUtils.GetChunksByFile`: rows with equal `chunk_index` come out in
  an order SQLite leaves unspecified. The model fixes one; its contract
  does not depend on it.
- Database failures (`except Exception` → 500 in the `insert_*` and query
  functions) are not modelled, except the empty-result 500 of
  `get_chunks_by_file`.
- `server_init`, `get_all_files`, `create_tables` beyond an empty start,
  `api_get_peers` and `api_get_all_files` are not part of this model.
- Logging and `print`.
- Chunk download and reassembly: `P2PDownloader` is not part of this model.
