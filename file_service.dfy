/** The client's upload entry point (`FileService.uploadFile`): the guard on
    the tracker's peer list, the removal of the client's own address, the
    encryption flag, and the hand-over to the uploader thread. */
module FileService {
  import opened Common
  import HashUtils
  import P2PUploader

  /** `onlyMe`: the list is exactly one entry, and that entry is this client. */
  function OnlyMe(peers: seq<Peer>, me: Peer): (b: bool)
    ensures b <==> peers == [me]
  {
    |peers| == 1 && peers[0].ip == me.ip && peers[0].port == me.port
  }

  /** The guard of `uploadFile`: no peers at all, or only this client. */
  function Blocked(peers: seq<Peer>, me: Peer): (b: bool)
    ensures b <==> peers == [] || peers == [me]
  {
    |peers| == 0 || OnlyMe(peers, me)
  }

  /** The list left by `removeIf(peer -> peer is me)`. */
  function WithoutSelf(peers: seq<Peer>, me: Peer): (r: seq<Peer>)
    ensures |r| <= |peers|
    ensures me !in r
  {
    if peers == [] then []
    else if peers[0] == me then WithoutSelf(peers[1..], me)
    else [peers[0]] + WithoutSelf(peers[1..], me)
  }

  /** Removal works entry by entry: removing from a concatenation removes
      from each part and keeps the parts in order. */
  lemma {:induction false} WithoutSelfAppend(a: seq<Peer>, b: seq<Peer>, me: Peer)
    ensures WithoutSelf(a + b, me) == WithoutSelf(a, me) + WithoutSelf(b, me)
  {
    if a == [] {
      assert a + b == b;
    } else {
      assert (a + b)[1..] == a[1..] + b;
      WithoutSelfAppend(a[1..], b, me);
    }
  }

  /** Every other entry is kept as often as it occurred; this client's own
      entries are all gone. */
  lemma {:induction false} WithoutSelfCounts(peers: seq<Peer>, me: Peer, p: Peer)
    ensures multiset(WithoutSelf(peers, me))[p] == if p == me then 0 else multiset(peers)[p]
  {
    if peers != [] {
      WithoutSelfCounts(peers[1..], me, p);
      assert peers == [peers[0]] + peers[1..];
    }
  }

  /** A peer survives removal iff it was listed and is not this client. */
  lemma WithoutSelfMembers(peers: seq<Peer>, me: Peer, p: Peer)
    ensures p in WithoutSelf(peers, me) <==> p in peers && p != me
  {
    WithoutSelfCounts(peers, me, p);
  }

  /** A list that does not name this client is left as it is. */
  lemma {:induction false} WithoutSelfUnchanged(peers: seq<Peer>, me: Peer)
    requires me !in peers
    ensures WithoutSelf(peers, me) == peers
  {
    if peers != [] {
      WithoutSelfUnchanged(peers[1..], me);
    }
  }

  /** Removal empties the list iff every entry is this client. */
  lemma {:induction false} WithoutSelfEmpty(peers: seq<Peer>, me: Peer)
    ensures WithoutSelf(peers, me) == [] <==> forall i :: 0 <= i < |peers| ==> peers[i] == me
  {
    if peers != [] {
      WithoutSelfEmpty(peers[1..], me);
      assert forall i :: 1 <= i < |peers| ==> peers[i] == peers[1..][i - 1];
    }
  }

  /** The guard only looks at lists of length one: a list of this client
      repeated twice or more gets past it, and removal then leaves nothing. */
  lemma RepeatedSelfPassesGuard(peers: seq<Peer>, me: Peer)
    requires |peers| >= 2
    requires forall i :: 0 <= i < |peers| ==> peers[i] == me
    ensures !Blocked(peers, me)
    ensures WithoutSelf(peers, me) == []
  {
    WithoutSelfEmpty(peers, me);
  }

  /** `peers.removeIf(...)`: the list is compacted in one pass, keeping the
      entries that are not this client. */
  method RemoveSelf(peers: seq<Peer>, me: Peer) returns (kept: seq<Peer>)
    ensures kept == WithoutSelf(peers, me)
  {
    kept := [];
    var i := 0;
    while i < |peers|
      invariant 0 <= i <= |peers|
      invariant kept == WithoutSelf(peers[..i], me)
    {
      var peer := peers[i];
      assert peers[..i + 1] == peers[..i] + [peer];
      WithoutSelfAppend(peers[..i], [peer], me);
      if !(peer.ip == me.ip && peer.port == me.port) {
        kept := kept + [peer];
      }
      i := i + 1;
    }
    assert peers[..i] == peers;
  }

  /** `Character.isWhitespace`: the space separators other than the
      non-breaking ones, the line and paragraph separators, and the control
      characters tab, line feed, vertical tab, form feed, carriage return
      and U+001C..U+001F. */
  predicate JavaWhitespace(c: char)
  {
    || c == ' ' || c == '\U{1680}'
    || ('\U{2000}' <= c <= '\U{2006}') || ('\U{2008}' <= c <= '\U{200A}')
    || c == '\U{205F}' || c == '\U{3000}'
    || c == '\U{2028}' || c == '\U{2029}'
    || ('\t' <= c <= '\r') || ('\U{001C}' <= c <= '\U{001F}')
  }

  /** `String.isBlank`: empty, or whitespace only. */
  function IsBlank(s: string): (b: bool)
    ensures b <==> forall i :: 0 <= i < |s| ==> JavaWhitespace(s[i])
  {
    s == [] || (JavaWhitespace(s[0]) && IsBlank(s[1..]))
  }

  /** `fileEnc`: a password was given (`None` is Java's `null`) and it has a
      character that is not whitespace. */
  function FileEnc(password: Option<string>): (enc: bool)
    ensures enc <==> password.Some? && exists i :: 0 <= i < |password.value| && !JavaWhitespace(password.value[i])
  {
    password.Some? && !IsBlank(password.value)
  }

  /** The metadata object `ReqFileDto` sent to the tracker after the upload;
      `fileChunks` is unset (`None`) until the uploader thread finishes. */
  datatype FileRequest = FileRequest(fileName: string, fileHash: string, fileSize: nat, fileEnc: bool,
                                     fileChunks: Option<seq<P2PUploader.ChunkDescriptor>>)

  /** What `file_chunks` holds once the uploader thread has ended: the
      placed descriptors, or nothing when the thread died on its first chunk
      for want of a peer. */
  function UploadedChunks(file: seq<byte>, targets: seq<Peer>, env: P2PUploader.Environment)
    : Option<seq<P2PUploader.ChunkDescriptor>>
  {
    if targets != [] || file == [] then Some(P2PUploader.Placed(file, P2PUploader.CHUNK_SIZE, targets, env))
    else None
  }

  /** How a call of `uploadFile` ends: it returns its verdict and, past the
      guard, the metadata it posts; or it never returns, blocked in
      `uploader.join()` behind a chunk task that waits for ever. */
  datatype Completion = Returned(ok: bool, request: Option<FileRequest>) | NeverReturns

  /** `uploadFile`: check the peer list, drop this client from it, hash the
      file, run the uploader to completion and return the metadata it would
      post. `true` is returned past the guard whatever was placed. */
  method UploadFile(peers: seq<Peer>, me: Peer, fileName: string, file: seq<byte>, password: Option<string>,
                    env: P2PUploader.Environment)
    returns (c: Completion)
    ensures c == NeverReturns <==>
              peers != [] && peers != [me] && P2PUploader.Hangs(file, P2PUploader.CHUNK_SIZE, WithoutSelf(peers, me), env)
    ensures c.Returned? ==> (c.ok <==> peers != [] && peers != [me])
    ensures c.Returned? ==> (c.request.Some? <==> c.ok)
    ensures c.Returned? && c.ok ==>
              c.request.value == FileRequest(fileName, HashUtils.ContentHash(env.sha, file), |file|, FileEnc(password),
                                             UploadedChunks(file, WithoutSelf(peers, me), env))
  {
    var onlyMe := |peers| == 1 && peers[0].ip == me.ip && peers[0].port == me.port;
    if |peers| == 0 || onlyMe {
      return Returned(false, None);
    }
    var targets := RemoveSelf(peers, me);
    var fileHash := HashUtils.ComputeHash(env.sha, HashUtils.FileInput(file));
    var fileEnc := password.Some? && !IsBlank(password.value);
    var uploader := new P2PUploader.Uploader(targets);
    ghost var placed := P2PUploader.Placed(file, P2PUploader.CHUNK_SIZE, targets, env);
    var completed := uploader.Run(file, env);
    if targets == [] {
      P2PUploader.NoPeersNoPlacement(file, P2PUploader.CHUNK_SIZE, env);
    } else if !completed {
      // a chunk task never returns, and neither does `uploader.join()`
      return NeverReturns;
    }
    if completed {
      assert [] + placed == placed;
      assert uploader.fileChunks == Some(placed);
    }
    c := Returned(true, Some(FileRequest(fileName, fileHash.value, |file|, fileEnc, uploader.fileChunks)));
  }
}
