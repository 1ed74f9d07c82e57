/** The listening side of a peer (`P2PServer.PeerHandler`): one connection
    carries one request, the handler answers `ping`, serves a chunk for
    `download` and stores one for `upload`. The uploads directory is a map
    from file name to contents. */
module P2PServer {
  import opened Common
  import opened Wire
  import HashUtils

  /** The regular files of the uploads directory, by name. */
  type Store = map<string, seq<byte>>

  /** Names that denote a directory under the uploads directory (the
      directory itself or its parent): `File.exists()` holds for them, yet
      opening them as a file throws, and the handler gives up silently. */
  predicate NamesDirectory(key: string)
  {
    key == "" || key == "." || key == ".."
  }

  /** Names Java refuses as paths (`File.isInvalid`): one holding a NUL
      character. Opening or creating such a file throws, and `exists()` is
      false for it. */
  predicate InvalidPath(key: string)
  {
    '\0' in key
  }

  /** Names the upload branch can create a file under. */
  predicate Storable(key: string)
  {
    !NamesDirectory(key) && !InvalidPath(key)
  }

  /** What one connection produces: the bytes written back, and the store
      as the handler leaves it. */
  datatype Exchange = Exchange(reply: seq<byte>, store: Store)

  /** `sendChunk`: the stored bytes verbatim, or the `not_found` sentinel.
      A name containing NUL is an invalid path, which `File.exists` reports
      as absent whatever the store holds. */
  function Lookup(store: Store, key: string): (reply: seq<byte>)
  {
    if NamesDirectory(key) then []
    else if key in store && !InvalidPath(key) then store[key]
    else NOT_FOUND
  }

  /** One connection, start to finish, as a function of the store and of
      every byte the peer sends before closing its side. The upload branch
      writes each block to the file as it reads it, so the store it gives is
      also what the directory holds once all of `request` has arrived, even
      while the connection stays open (see `AwaitsClose`). */
  function Serve(store: Store, request: seq<byte>): Exchange
  {
    if |request| < HEADER_LENGTH then Exchange([], store)
    else Respond(store, ParseOp(request[..HEADER_LENGTH]), request[HEADER_LENGTH..])
  }

  /** The handler's branch for operation `op`, given the bytes after the
      header. */
  function Respond(store: Store, op: Op, rest: seq<byte>): Exchange
  {
    match op
    case Ping => Exchange(PONG, store)
    case Download =>
      if rest == [] then Exchange(ERROR_REPLY, store)
      else Exchange(Lookup(store, HashKey(rest)), store)
    case Upload =>
      if rest == [] || !Storable(HashKey(rest)) then Exchange([], store)
      else Exchange([], store[HashKey(rest) := AfterHashField(rest)])
    case Unrecognised => Exchange([], store)
  }

  /** Whether the handler, having read all of `request` from a peer that
      keeps its side of the connection open, still waits: an upload into a
      file it could create copies until end of stream, so it neither
      returns nor closes the socket until the peer closes. The other
      branches read a fixed number of bytes, answer, and close. */
  predicate AwaitsClose(request: seq<byte>)
  {
    && |request| > HEADER_LENGTH
    && ParseOp(request[..HEADER_LENGTH]) == Upload
    && Storable(HashKey(request[HEADER_LENGTH..]))
  }

  /** The copy loops of `sendChunk` and `receiveChunk`: 4096-byte reads until
      the source reports end of stream, each block written as read. */
  method CopyStream(source: seq<byte>) returns (sink: seq<byte>)
    ensures sink == source
  {
    sink := [];
    var pos := 0;
    var n := ReadCount(|source| - pos, BLOCK_SIZE);
    while n != -1
      invariant 0 <= pos <= |source|
      invariant sink == source[..pos]
      invariant n == ReadCount(|source| - pos, BLOCK_SIZE)
      decreases |source| - pos
    {
      sink := sink + source[pos..pos + n];
      pos := pos + n;
      n := ReadCount(|source| - pos, BLOCK_SIZE);
    }
    assert source[..pos] == source;
  }

  class PeerHandler {
    /** The uploads directory this peer serves from and stores into. */
    var store: Store

    constructor (initial: Store)
      ensures store == initial
    {
      store := initial;
    }

    /** `PeerHandler.run` for one accepted connection whose peer sends
        `request` and then closes its side. */
    method Handle(request: seq<byte>) returns (reply: seq<byte>)
      modifies this
      ensures reply == Serve(old(store), request).reply
      ensures store == Serve(old(store), request).store
    {
      reply := [];
      var bytesRead := ReadCount(|request|, HEADER_LENGTH);
      if bytesRead != HEADER_LENGTH {
        return;
      }
      var op := ParseOp(request[..HEADER_LENGTH]);
      var input := request[HEADER_LENGTH..];
      if op == Ping {
        reply := PONG;
        return;
      }
      if op == Download {
        reply := HandleDownload(input);
        return;
      }
      if op == Upload {
        HandleUpload(input);
        return;
      }
    }

    /** The hash buffer after one read: what was read, then zeros. */
    static method ReadHashField(input: seq<byte>) returns (bytesRead: int, field: seq<byte>, remaining: seq<byte>)
      ensures bytesRead <= 0 <==> input == []
      ensures input != [] ==> field == HashField(input) && remaining == AfterHashField(input)
    {
      bytesRead := ReadCount(|input|, HASH_FIELD_LENGTH);
      if bytesRead <= 0 {
        return bytesRead, seq(HASH_FIELD_LENGTH, _ => 0), input;
      }
      field := input[..bytesRead] + seq(HASH_FIELD_LENGTH - bytesRead, _ => 0);
      remaining := input[bytesRead..];
    }

    method HandleDownload(input: seq<byte>) returns (reply: seq<byte>)
      ensures reply == if input == [] then ERROR_REPLY else Lookup(store, HashKey(input))
    {
      var bytesRead, field, _ := ReadHashField(input);
      if bytesRead <= 0 {
        return ERROR_REPLY;
      }
      reply := SendChunk(Trim(Decode(field)));
    }

    method HandleUpload(input: seq<byte>)
      modifies this
      ensures store == if input == [] || !Storable(HashKey(input)) then old(store)
                       else old(store)[HashKey(input) := AfterHashField(input)]
    {
      var bytesRead, field, remaining := ReadHashField(input);
      if bytesRead <= 0 {
        return;
      }
      ReceiveChunk(Trim(Decode(field)), remaining);
    }

    method SendChunk(key: string) returns (reply: seq<byte>)
      ensures reply == Lookup(store, key)
    {
      if NamesDirectory(key) {
        // the name exists but cannot be opened as a file: nothing is sent
        return [];
      }
      if key !in store || InvalidPath(key) {
        return NOT_FOUND;
      }
      reply := CopyStream(store[key]);
    }

    method ReceiveChunk(key: string, input: seq<byte>)
      modifies this
      ensures store == if Storable(key) then old(store)[key := input] else old(store)
    {
      if NamesDirectory(key) || InvalidPath(key) {
        // opening the file for writing fails before anything is stored
        return;
      }
      var contents := CopyStream(input);
      store := store[key := contents];
    }
  }

  // -----------------------------------------------------------------------
  // Properties of one exchange

  /** A header shorter than 10 bytes gets no reply and changes nothing. */
  lemma ShortHeaderIgnored(store: Store, request: seq<byte>)
    requires |request| < HEADER_LENGTH
    ensures Serve(store, request) == Exchange([], store)
  {
  }

  /** Only `ping`, `download` and `upload` are answered or change the store. */
  lemma UnrecognisedIgnored(store: Store, request: seq<byte>)
    requires |request| >= HEADER_LENGTH && ParseOp(request[..HEADER_LENGTH]) == Unrecognised
    ensures Serve(store, request) == Exchange([], store)
  {
  }

  /** `ping      ` (anything may follow it) is answered with exactly the
      10 bytes `pong      `, and the store is untouched. */
  lemma PingAnswered(store: Store, more: seq<byte>)
    ensures Serve(store, PING_HEADER + more) == Exchange(PONG, store)
    ensures |PONG| == HEADER_LENGTH
  {
    PingHeaderParses();
    assert (PING_HEADER + more)[..HEADER_LENGTH] == PING_HEADER;
  }

  /** A download request for a 64-character key: the header parses as
      `download` and the hash field holds exactly the key. */
  lemma DownloadRequestParts(key: string)
    requires |key| == HASH_FIELD_LENGTH && IsAscii(key)
    requires !IsBlank(key[0]) && !IsBlank(key[|key| - 1])
    ensures |DOWNLOAD_HEADER + Ascii(key)| > HEADER_LENGTH
    ensures ParseOp((DOWNLOAD_HEADER + Ascii(key))[..HEADER_LENGTH]) == Download
    ensures (DOWNLOAD_HEADER + Ascii(key))[HEADER_LENGTH..] == Ascii(key) + []
    ensures HashKey(Ascii(key) + []) == key
  {
    var request := DOWNLOAD_HEADER + Ascii(key);
    assert request[..HEADER_LENGTH] == DOWNLOAD_HEADER;
    DownloadHeaderParses();
    assert request[HEADER_LENGTH..] == Ascii(key) + [];
    HashKeyOfExactField(key, []);
  }

  /** A download of a key the store holds returns its bytes verbatim; of a
      key it lacks, or of one containing NUL, exactly the nine bytes
      `not_found`. The store never changes. */
  lemma DownloadAnswered(store: Store, key: string)
    requires |key| == HASH_FIELD_LENGTH && IsAscii(key)
    requires !IsBlank(key[0]) && !IsBlank(key[|key| - 1])
    ensures key in store && '\0' !in key ==> Serve(store, DOWNLOAD_HEADER + Ascii(key)) == Exchange(store[key], store)
    ensures key !in store || '\0' in key ==> Serve(store, DOWNLOAD_HEADER + Ascii(key)) == Exchange(NOT_FOUND, store)
    ensures |NOT_FOUND| == 9
  {
    DownloadRequestParts(key);
    LongKeyNamesFile(key);
    assert Lookup(store, key) == if key in store && !InvalidPath(key) then store[key] else NOT_FOUND;
  }

  /** A download with no hash at all is answered `error     `, and the
      store is untouched. */
  lemma DownloadWithoutHash(store: Store)
    ensures Serve(store, DOWNLOAD_HEADER) == Exchange(ERROR_REPLY, store)
  {
    DownloadHeaderParses();
    assert DOWNLOAD_HEADER[..HEADER_LENGTH] == DOWNLOAD_HEADER;
  }

  /** The request a client sends to upload `payload` under `key`, with the
      key written as plain bytes. */
  function UploadRequest(key: string, payload: seq<byte>): seq<byte>
    requires IsAscii(key)
  {
    UPLOAD_HEADER + Ascii(key) + payload
  }

  lemma UploadRequestParts(key: string, payload: seq<byte>)
    requires |key| == HASH_FIELD_LENGTH && IsAscii(key)
    requires !IsBlank(key[0]) && !IsBlank(key[|key| - 1])
    ensures |UploadRequest(key, payload)| > HEADER_LENGTH
    ensures ParseOp(UploadRequest(key, payload)[..HEADER_LENGTH]) == Upload
    ensures HashKey(UploadRequest(key, payload)[HEADER_LENGTH..]) == key
    ensures AfterHashField(UploadRequest(key, payload)[HEADER_LENGTH..]) == payload
  {
    var tail := Ascii(key) + payload;
    assert UploadRequest(key, payload) == UPLOAD_HEADER + tail;
    UploadHeaderPrefix(tail);
    HashKeyOfExactField(key, payload);
  }

  lemma ServeUpload(store: Store, request: seq<byte>, key: string, payload: seq<byte>)
    requires |request| > HEADER_LENGTH && ParseOp(request[..HEADER_LENGTH]) == Upload
    requires HashKey(request[HEADER_LENGTH..]) == key && Storable(key)
    requires AfterHashField(request[HEADER_LENGTH..]) == payload
    ensures Serve(store, request) == Exchange([], store[key := payload])
  {
  }

  /** An upload under a name Java accepts stores every byte after the hash
      field under the key, over any earlier value, and leaves every other
      entry alone. Nothing ties the bytes to the key: no hash is
      recomputed, any payload is kept. */
  lemma UploadStores(store: Store, key: string, payload: seq<byte>)
    requires |key| == HASH_FIELD_LENGTH && IsAscii(key)
    requires !IsBlank(key[0]) && !IsBlank(key[|key| - 1])
    requires '\0' !in key
    ensures AwaitsClose(UploadRequest(key, payload))
    ensures Serve(store, UploadRequest(key, payload)) == Exchange([], store[key := payload])
  {
    var request := UploadRequest(key, payload);
    UploadRequestParts(key, payload);
    LongKeyNamesFile(key);
    ServeUpload(store, request, key, payload);
  }

  /** Only names of at most two characters denote a directory. */
  lemma LongKeyNamesFile(key: string)
    requires |key| > 2
    ensures !NamesDirectory(key)
  {
  }

  /** An upload under a name holding a NUL stores nothing: creating the
      file throws, and the handler closes the connection without a reply.
      A later download of that name finds nothing either. */
  lemma UploadUnderInvalidName(store: Store, key: string, payload: seq<byte>)
    requires |key| == HASH_FIELD_LENGTH && IsAscii(key)
    requires !IsBlank(key[0]) && !IsBlank(key[|key| - 1])
    requires '\0' in key
    ensures Serve(store, UploadRequest(key, payload)) == Exchange([], store)
    ensures !AwaitsClose(UploadRequest(key, payload))
    ensures Serve(store, DOWNLOAD_HEADER + Ascii(key)).reply == NOT_FOUND
  {
    UploadRequestParts(key, payload);
    DownloadAnswered(store, key);
  }

  /** Round trip through two connections: what was uploaded under a name
      Java accepts is what a later download of that name returns. */
  lemma UploadThenDownload(store: Store, key: string, payload: seq<byte>)
    requires |key| == HASH_FIELD_LENGTH && IsAscii(key)
    requires !IsBlank(key[0]) && !IsBlank(key[|key| - 1])
    requires '\0' !in key
    ensures var after := Serve(store, UploadRequest(key, payload)).store;
            Serve(after, DOWNLOAD_HEADER + Ascii(key)).reply == payload
  {
    UploadStores(store, key, payload);
    DownloadAnswered(store[key := payload], key);
  }

  // -----------------------------------------------------------------------
  // The client's upload frame meets this handler

  lemma HexIsPrintableAscii(h: string)
    requires HashUtils.IsLowerHex(h)
    ensures forall i :: 0 <= i < |h| ==> 0x20 < h[i] as int < 0x80
  {
    forall i | 0 <= i < |h| ensures 0x20 < h[i] as int < 0x80 {
      assert HashUtils.IsHexDigit(h[i]);
    }
  }

  /** The frame `uploadChunk` sends for a hex hash: header, length prefix
      0x00 0x40, the 64 hash bytes, the chunk. */
  lemma HexUploadFrame(h: string, data: seq<byte>)
    requires |h| == HashUtils.HEX_LENGTH && HashUtils.IsLowerHex(h)
    ensures IsAscii(h)
    ensures UploadFrame(h, data) == Some(UPLOAD_HEADER + ([0x00, 0x40] + Ascii(h)) + data)
  {
    HexIsPrintableAscii(h);
    WriteUtfAscii(h);
  }

  lemma UploadHeaderPrefix(tail: seq<byte>)
    ensures |UPLOAD_HEADER + tail| >= HEADER_LENGTH
    ensures ParseOp((UPLOAD_HEADER + tail)[..HEADER_LENGTH]) == Upload
    ensures (UPLOAD_HEADER + tail)[HEADER_LENGTH..] == tail
  {
    assert (UPLOAD_HEADER + tail)[..HEADER_LENGTH] == UPLOAD_HEADER;
    UploadHeaderParses();
  }

  /** A 64-byte field made of two bytes and 62 ASCII characters is read
      whole; what follows it is the payload. */
  lemma PrefixedField(k: string, tail: seq<byte>)
    requires |k| == 62 && IsAscii(k)
    ensures HashField([0x00, 0x40] + Ascii(k) + tail) == [0x00, 0x40] + Ascii(k)
    ensures AfterHashField([0x00, 0x40] + Ascii(k) + tail) == tail
  {
    var field := [0x00, 0x40] + Ascii(k);
    assert |field| == HASH_FIELD_LENGTH;
    assert (field + tail)[..HASH_FIELD_LENGTH] == field;
    assert (field + tail)[HASH_FIELD_LENGTH..] == tail;
  }

  /** The length prefix 0x00 0x40 decodes to a NUL, which trim drops, and
      an '@', which it keeps. */
  lemma PrefixedKey(k: string)
    requires IsAscii(k) && |k| > 0 && !IsBlank(k[|k| - 1])
    ensures Trim(Decode([0x00, 0x40] + Ascii(k))) == "@" + k
  {
    var d := Decode([0x00, 0x40] + Ascii(k));
    var t := "\0" + ("@" + k);
    forall i | 0 <= i < |d|
      ensures d[i] == t[i]
    {
      if i >= 2 {
        assert ([0x00, 0x40] + Ascii(k))[i] == k[i - 2] as int;
      }
    }
    assert d == t + "";
    TrimPadding("\0", "@" + k, "");
    TrimUnpadded("@" + k);
  }

  /** What the handler makes of the bytes after the header. */
  lemma MisfiledKey(h: string, data: seq<byte>)
    requires |h| == HashUtils.HEX_LENGTH && HashUtils.IsLowerHex(h) && IsAscii(h)
    ensures HashKey([0x00, 0x40] + Ascii(h) + data) == "@" + h[..62]
    ensures AfterHashField([0x00, 0x40] + Ascii(h) + data) == Ascii(h[62..]) + data
  {
    AsciiSlice(h, 0, 62);
    AsciiSlice(h, 62, 64);
    assert Ascii(h) == Ascii(h[..62]) + Ascii(h[62..]);
    assert [0x00, 0x40] + Ascii(h) + data == [0x00, 0x40] + Ascii(h[..62]) + (Ascii(h[62..]) + data);
    PrefixedField(h[..62], Ascii(h[62..]) + data);
    HexIsPrintableAscii(h);
    PrefixedKey(h[..62]);
  }

  /** The name the handler derives from a client frame is one it can
      create: long, and free of NUL characters. */
  lemma MisfiledNameStorable(h: string)
    requires |h| == HashUtils.HEX_LENGTH && HashUtils.IsLowerHex(h)
    ensures Storable("@" + h[..62])
  {
    var key := "@" + h[..62];
    LongKeyNamesFile(key);
    HexIsPrintableAscii(h);
    forall i | 0 <= i < |key|
      ensures key[i] != '\0'
    {
      if i > 0 {
        assert key[i] == h[i - 1];
      }
    }
  }

  /** An upload frame for hex hash `h`, as the handler serves it: the file
      it creates is named "@" and 62 hash characters, and it then waits for
      the client to close. */
  lemma MisfiledServe(store: Store, h: string, data: seq<byte>)
    requires |h| == HashUtils.HEX_LENGTH && HashUtils.IsLowerHex(h) && IsAscii(h)
    ensures Serve(store, UPLOAD_HEADER + ([0x00, 0x40] + Ascii(h)) + data)
         == Exchange([], store["@" + h[..62] := Ascii(h[62..]) + data])
    ensures AwaitsClose(UPLOAD_HEADER + ([0x00, 0x40] + Ascii(h)) + data)
  {
    var tail := [0x00, 0x40] + Ascii(h) + data;
    assert UPLOAD_HEADER + ([0x00, 0x40] + Ascii(h)) + data == UPLOAD_HEADER + tail;
    UploadHeaderPrefix(tail);
    MisfiledKey(h, data);
    var key := "@" + h[..62];
    MisfiledNameStorable(h);
    ServeUpload(store, UPLOAD_HEADER + tail, key, Ascii(h[62..]) + data);
  }

  /** The client writes the hash with `writeUTF`, so the 64-byte field the
      handler reads is the length prefix 0x00 0x40 and the first 62 hash
      characters. After trimming, the chunk is filed under "@" followed by
      those 62 characters, never under its hash, and the last two hash
      characters become the first two bytes of the stored contents. The
      handler then copies until end of stream, while the client, its frame
      flushed, waits in `readUTF` for an answer without closing: neither
      side ever moves on. */
  lemma UploadFrameMisfiled(store: Store, sha: HashUtils.Hasher, data: seq<byte>)
    ensures var h := HashUtils.ContentHash(sha, data);
            var frame := UploadFrame(h, data);
            && frame.Some?
            && IsAscii(h)
            && Serve(store, frame.value) == Exchange([], store["@" + h[..62] := Ascii(h[62..]) + data])
            && "@" + h[..62] != h
            && AwaitsClose(frame.value)
  {
    var h := HashUtils.ContentHash(sha, data);
    HexUploadFrame(h, data);
    MisfiledServe(store, h, data);
    assert |"@" + h[..62]| != |h|;
  }
}
