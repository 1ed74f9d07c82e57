/** The peer-to-peer wire format: a 10-byte space-padded operation code, a
    64-byte hash field for `upload` and `download`, then an unframed payload
    that ends with the connection. Also the pieces of `java.lang.String` and
    `java.io.DataOutputStream` / `DataInputStream` that the two ends of the
    protocol apply to it: `trim`, `equalsIgnoreCase`, `writeUTF`, `readUTF`. */
module Wire {
  import opened Common

  const HEADER_LENGTH: nat := 10
  const HASH_FIELD_LENGTH: nat := 64
  /** Size of the copy buffer used when streaming a chunk. */
  const BLOCK_SIZE: nat := 4096

  /** The codes of the protocol are words padded with spaces to the
      header length: `ping      `, `upload    `, `download  `, and the
      replies `pong      ` and `error     `. */
  const PING_HEADER: seq<byte> := Padded("ping", HEADER_LENGTH)
  const UPLOAD_HEADER: seq<byte> := Padded("upload", HEADER_LENGTH)
  const DOWNLOAD_HEADER: seq<byte> := Padded("download", HEADER_LENGTH)
  const PONG: seq<byte> := Padded("pong", HEADER_LENGTH)
  const ERROR_REPLY: seq<byte> := Padded("error", HEADER_LENGTH)
  /** The reply to a download of an unknown hash; it is not padded. */
  const NOT_FOUND: seq<byte> := Ascii("not_found")

  /** An ASCII word followed by spaces up to `width` bytes. */
  function Padded(word: string, width: nat): (bs: seq<byte>)
    requires IsAscii(word) && |word| <= width
    ensures |bs| == width
    ensures bs[..|word|] == Ascii(word)
    ensures forall k :: |word| <= k < width ==> bs[k] == 0x20
  {
    Ascii(word) + seq(width - |word|, _ => 0x20)
  }

  /** A padded word decodes to the word followed by spaces. */
  lemma DecodePadded(word: string, width: nat)
    requires IsAscii(word) && |word| <= width
    ensures Decode(Padded(word, width)) == word + seq(width - |word|, _ => ' ')
  {
    var d := Decode(Padded(word, width));
    var t := word + seq(width - |word|, _ => ' ');
    forall k | 0 <= k < width
      ensures d[k] == t[k]
    {
      if k < |word| {
        assert Padded(word, width)[..|word|][k] == word[k] as int;
      }
    }
  }

  /** How many bytes `InputStream.read(buf)` reports when `available` bytes
      remain and the buffer holds `capacity`: -1 at end of stream, otherwise
      as many as fit (reads are taken to fill the buffer when they can). */
  function ReadCount(available: nat, capacity: nat): (n: int)
    requires capacity > 0
    ensures n == -1 <==> available == 0
    ensures n != -1 ==> 1 <= n <= capacity && n <= available
    ensures n != -1 && n < capacity ==> n == available
  {
    if available == 0 then -1
    else if available < capacity then available
    else capacity
  }

  // ---------------------------------------------------------------------
  // String.trim and String.equalsIgnoreCase

  /** `trim` removes every leading and trailing character at or below U+0020,
      which includes the NUL bytes of a partly filled buffer. */
  predicate IsBlank(c: char)
  {
    c <= ' '
  }

  function TrimStart(s: string): (r: string)
    ensures |r| <= |s| && r == s[|s| - |r|..]
    ensures r == [] || !IsBlank(r[0])
    ensures forall k :: 0 <= k < |s| - |r| ==> IsBlank(s[k])
  {
    if s != [] && IsBlank(s[0]) then TrimStart(s[1..]) else s
  }

  function TrimEnd(s: string): (r: string)
    ensures |r| <= |s| && r == s[..|r|]
    ensures r == [] || !IsBlank(r[|r| - 1])
    ensures forall k :: |r| <= k < |s| ==> IsBlank(s[k])
  {
    if s != [] && IsBlank(s[|s| - 1]) then TrimEnd(s[..|s| - 1]) else s
  }

  /** `r` is the part of `s` starting at `a`, and everything before and
      after it is blank. */
  predicate TrimmedAt(s: string, a: int, r: string)
  {
    && 0 <= a <= |s| - |r| && r == s[a..a + |r|]
    && (forall k :: 0 <= k < a ==> IsBlank(s[k]))
    && (forall k :: a + |r| <= k < |s| ==> IsBlank(s[k]))
  }

  /** `String.trim`. */
  function Trim(s: string): (r: string)
    ensures |r| <= |s|
    ensures r == [] || (!IsBlank(r[0]) && !IsBlank(r[|r| - 1]))
    ensures exists a :: TrimmedAt(s, a, r)
  {
    var t := TrimStart(s);
    TrimmedAtComposed(s, t, TrimEnd(t));
    TrimEnd(t)
  }

  /** Dropping from the front and then from the back drops a prefix and a
      suffix of the original. */
  lemma TrimmedAtComposed(s: string, t: string, r: string)
    requires |t| <= |s| && t == s[|s| - |t|..]
    requires forall k :: 0 <= k < |s| - |t| ==> IsBlank(s[k])
    requires |r| <= |t| && r == t[..|r|]
    requires forall k :: |r| <= k < |t| ==> IsBlank(t[k])
    ensures TrimmedAt(s, |s| - |t|, r)
  {
    var a := |s| - |t|;
    forall k | a + |r| <= k < |s|
      ensures IsBlank(s[k])
    {
      assert s[k] == t[k - a];
    }
  }

  /** A string whose ends are not blank is its own trim. */
  lemma TrimUnpadded(s: string)
    requires s == [] || (!IsBlank(s[0]) && !IsBlank(s[|s| - 1]))
    ensures Trim(s) == s
  {
  }

  /** Blanks around a string do not change its trim. */
  lemma TrimPadding(lead: string, s: string, trail: string)
    requires forall k :: 0 <= k < |lead| ==> IsBlank(lead[k])
    requires forall k :: 0 <= k < |trail| ==> IsBlank(trail[k])
    ensures Trim(lead + s + trail) == Trim(s)
  {
    assert lead + s + trail == lead + (s + trail);
    TrimStartBlankPrefix(lead, s + trail);
    TrimStartAppend(s, trail);
    if TrimStart(s) == [] {
      TrimStartBlankPrefix(trail, []);
      assert trail + [] == trail;
    } else {
      TrimEndBlankSuffix(TrimStart(s), trail);
    }
  }

  lemma {:induction false} TrimStartBlankPrefix(lead: string, t: string)
    requires forall k :: 0 <= k < |lead| ==> IsBlank(lead[k])
    ensures TrimStart(lead + t) == TrimStart(t)
  {
    if lead != [] {
      assert (lead + t)[0] == lead[0];
      assert (lead + t)[1..] == lead[1..] + t;
      TrimStartBlankPrefix(lead[1..], t);
    } else {
      assert lead + t == t;
    }
  }

  lemma {:induction false} TrimEndBlankSuffix(t: string, trail: string)
    requires forall k :: 0 <= k < |trail| ==> IsBlank(trail[k])
    ensures TrimEnd(t + trail) == TrimEnd(t)
    decreases |trail|
  {
    if trail != [] {
      var u := t + trail;
      assert u[|u| - 1] == trail[|trail| - 1];
      assert u[..|u| - 1] == t + trail[..|trail| - 1];
      TrimEndBlankSuffix(t, trail[..|trail| - 1]);
    } else {
      assert t + trail == t;
    }
  }

  /** Leading blanks of a concatenation come from its first part, unless
      that part is all blank. */
  lemma {:induction false} TrimStartAppend(s: string, t: string)
    ensures TrimStart(s + t) == if TrimStart(s) == [] then TrimStart(t) else TrimStart(s) + t
  {
    if s != [] {
      assert (s + t)[0] == s[0];
      if IsBlank(s[0]) {
        assert (s + t)[1..] == s[1..] + t;
        TrimStartAppend(s[1..], t);
      }
    } else {
      assert s + t == t;
    }
  }

  function ToLowerAscii(c: char): char
  {
    if 'A' <= c <= 'Z' then (c as int + 32) as char else c
  }

  /** `equalsIgnoreCase`, with ASCII case folding. Every character compared
      here comes from one byte, and against the ASCII words of the protocol
      ASCII folding decides exactly what Java's folding decides. */
  predicate EqualsIgnoreCase(s: string, t: string)
  {
    |s| == |t| && forall i :: 0 <= i < |s| ==> ToLowerAscii(s[i]) == ToLowerAscii(t[i])
  }

  // ---------------------------------------------------------------------
  // Operation codes

  /** The closed set of operations a peer answers; any other code is
      `Unrecognised`. */
  datatype Op = Ping | Download | Upload | Unrecognised

  /** The operation named by a 10-byte header: decoded, trimmed, compared
      ignoring case with `ping`, `download`, `upload` in that order. */
  function ParseOp(header: seq<byte>): (op: Op)
    requires |header| == HEADER_LENGTH
  {
    var code := Trim(Decode(header));
    if EqualsIgnoreCase(code, "ping") then Ping
    else if EqualsIgnoreCase(code, "download") then Download
    else if EqualsIgnoreCase(code, "upload") then Upload
    else Unrecognised
  }

  /** A header is recognised whatever its padding and letter case: `word`
      surrounded by blanks, in any ASCII casing, names the same operation. */
  lemma ParseOpPadded(lead: string, code: string, trail: string, header: seq<byte>)
    requires |header| == HEADER_LENGTH && Decode(header) == lead + code + trail
    requires forall k :: 0 <= k < |lead| ==> IsBlank(lead[k])
    requires forall k :: 0 <= k < |trail| ==> IsBlank(trail[k])
    requires code != [] && !IsBlank(code[0]) && !IsBlank(code[|code| - 1])
    ensures EqualsIgnoreCase(code, "ping") ==> ParseOp(header) == Ping
    ensures EqualsIgnoreCase(code, "download") ==> ParseOp(header) == Download
    ensures EqualsIgnoreCase(code, "upload") ==> ParseOp(header) == Upload
    ensures (!EqualsIgnoreCase(code, "ping") && !EqualsIgnoreCase(code, "download") &&
             !EqualsIgnoreCase(code, "upload")) ==> ParseOp(header) == Unrecognised
  {
    TrimPadding(lead, code, trail);
    TrimUnpadded(code);
  }

  /** A word with non-blank ends, padded, trims back to the word. */
  lemma PaddedTrim(word: string, width: nat)
    requires IsAscii(word) && |word| <= width
    requires word != [] && !IsBlank(word[0]) && !IsBlank(word[|word| - 1])
    ensures Trim(Decode(Padded(word, width))) == word
  {
    var pad := seq(width - |word|, _ => ' ');
    DecodePadded(word, width);
    assert "" + word + pad == word + pad;
    TrimPadding("", word, pad);
    TrimUnpadded(word);
  }

  /** The headers the client and the tracker send are parsed as meant. */
  lemma PingHeaderParses()
    ensures ParseOp(PING_HEADER) == Ping
  {
    PaddedTrim("ping", HEADER_LENGTH);
  }

  lemma DownloadHeaderParses()
    ensures ParseOp(DOWNLOAD_HEADER) == Download
  {
    PaddedTrim("download", HEADER_LENGTH);
  }

  lemma UploadHeaderParses()
    ensures ParseOp(UPLOAD_HEADER) == Upload
  {
    PaddedTrim("upload", HEADER_LENGTH);
  }

  // ---------------------------------------------------------------------
  // The hash field

  /** The 64-byte hash buffer after one `read` from what follows the header:
      the bytes read, then the zeros the buffer was allocated with. */
  function HashField(rest: seq<byte>): (field: seq<byte>)
    ensures |field| == HASH_FIELD_LENGTH
    ensures |rest| >= HASH_FIELD_LENGTH ==> field == rest[..HASH_FIELD_LENGTH]
    ensures |rest| < HASH_FIELD_LENGTH ==> field[..|rest|] == rest
    ensures forall k :: |rest| <= k < HASH_FIELD_LENGTH ==> field[k] == 0
  {
    if |rest| >= HASH_FIELD_LENGTH then rest[..HASH_FIELD_LENGTH]
    else rest + seq(HASH_FIELD_LENGTH - |rest|, _ => 0)
  }

  /** The store key a peer derives from the hash field: decoded and trimmed. */
  function HashKey(rest: seq<byte>): string
  {
    Trim(Decode(HashField(rest)))
  }

  /** What is left on the connection after the hash field has been read. */
  function AfterHashField(rest: seq<byte>): (payload: seq<byte>)
    ensures |rest| >= HASH_FIELD_LENGTH ==> rest == rest[..HASH_FIELD_LENGTH] + payload
    ensures |rest| < HASH_FIELD_LENGTH ==> payload == []
  {
    if |rest| >= HASH_FIELD_LENGTH then rest[HASH_FIELD_LENGTH..] else []
  }

  /** A hash sent as exactly 64 non-blank-ended ASCII characters is the key
      the peer stores it under. */
  lemma HashKeyOfExactField(key: string, payload: seq<byte>)
    requires |key| == HASH_FIELD_LENGTH && IsAscii(key)
    requires !IsBlank(key[0]) && !IsBlank(key[|key| - 1])
    ensures HashKey(Ascii(key) + payload) == key
    ensures AfterHashField(Ascii(key) + payload) == payload
  {
    var rest := Ascii(key) + payload;
    assert rest[..HASH_FIELD_LENGTH] == Ascii(key);
    DecodeAscii(key);
    TrimUnpadded(key);
  }

  // ---------------------------------------------------------------------
  // DataOutputStream.writeUTF and DataInputStream.readUTF

  /** A Java string is a sequence of UTF-16 code units. */
  function Utf16(s: string): (us: seq<int>)
    ensures forall i :: 0 <= i < |us| ==> 0 <= us[i] < 0x1_0000
  {
    if s == [] then []
    else
      var c := s[0] as int;
      var head := if c < 0x1_0000 then [c]
                  else [0xD800 + (c - 0x1_0000) / 0x400, 0xDC00 + (c - 0x1_0000) % 0x400];
      head + Utf16(s[1..])
  }

  /** Modified UTF-8 of one code unit: NUL and U+0080..U+07FF take two
      bytes, U+0001..U+007F one, everything else three. */
  function UnitBytes(u: int): (bs: seq<byte>)
    requires 0 <= u < 0x1_0000
    ensures 1 <= |bs| <= 3
  {
    if 1 <= u < 0x80 then [u]
    else if u < 0x800 then [0xC0 + u / 0x40, 0x80 + u % 0x40]
    else [0xE0 + u / 0x1000, 0x80 + (u / 0x40) % 0x40, 0x80 + u % 0x40]
  }

  function ModifiedUtf8(us: seq<int>): seq<byte>
    requires forall i :: 0 <= i < |us| ==> 0 <= us[i] < 0x1_0000
  {
    if us == [] then [] else UnitBytes(us[0]) + ModifiedUtf8(us[1..])
  }

  /** `writeUTF`: a two-byte big-endian length, then the modified UTF-8
      bytes; `None` when they exceed 65535 bytes (UTFDataFormatException). */
  function WriteUtf(s: string): (r: Option<seq<byte>>)
    ensures r.None? <==> |ModifiedUtf8(Utf16(s))| > 0xFFFF
    ensures r.Some? ==> |r.value| >= 2 && r.value[0] as int * 0x100 + r.value[1] as int == |r.value| - 2
    ensures r.Some? ==> r.value[2..] == ModifiedUtf8(Utf16(s))
  {
    var body := ModifiedUtf8(Utf16(s));
    if |body| > 0xFFFF then None
    else Some([|body| / 0x100, |body| % 0x100] + body)
  }

  /** Each character takes at most two code units. */
  lemma {:induction false} Utf16Length(s: string)
    ensures |Utf16(s)| <= 2 * |s|
  {
    if s != [] {
      Utf16Length(s[1..]);
    }
  }

  /** Each code unit takes at most three bytes. */
  lemma {:induction false} ModifiedUtf8Length(us: seq<int>)
    requires forall i :: 0 <= i < |us| ==> 0 <= us[i] < 0x1_0000
    ensures |ModifiedUtf8(us)| <= 3 * |us|
  {
    if us != [] {
      ModifiedUtf8Length(us[1..]);
    }
  }

  /** `writeUTF` never refuses a string of at most 10922 characters: six
      bytes a character at most keep it within the 65535-byte limit. */
  lemma WriteUtfShort(s: string)
    requires |s| <= 0x2AAA
    ensures WriteUtf(s).Some?
  {
    Utf16Length(s);
    ModifiedUtf8Length(Utf16(s));
  }

  predicate IsContinuation(b: byte)
  {
    b / 0x40 == 2
  }

  /** Decodes a modified UTF-8 body as `readUTF` does; `None` for malformed
      input (UTFDataFormatException). Overlong forms are accepted, as Java
      accepts them. */
  function DecodeModifiedUtf8(bs: seq<byte>): Option<seq<int>>
    decreases |bs|
  {
    if bs == [] then Some([])
    else
      var c: int := bs[0];
      if c < 0x80 then
        match DecodeModifiedUtf8(bs[1..])
        case Some(rest) => Some([c] + rest)
        case None => None
      else if c / 0x10 == 0xC || c / 0x10 == 0xD then
        if |bs| < 2 || !IsContinuation(bs[1]) then None
        else
          match DecodeModifiedUtf8(bs[2..])
          case Some(rest) => Some([(c % 0x20) * 0x40 + bs[1] as int % 0x40] + rest)
          case None => None
      else if c / 0x10 == 0xE then
        if |bs| < 3 || !IsContinuation(bs[1]) || !IsContinuation(bs[2]) then None
        else
          match DecodeModifiedUtf8(bs[3..])
          case Some(rest) => Some([(c % 0x10) * 0x1000 + (bs[1] as int % 0x40) * 0x40 + bs[2] as int % 0x40] + rest)
          case None => None
      else None
  }

  /** `readUTF` on what a connection delivers: the length, then that many
      bytes decoded; `None` when the stream ends early (EOFException) or the
      bytes are malformed. Anything after the string is left unread. */
  function ReadUtf(input: seq<byte>): (r: Option<seq<int>>)
  {
    if |input| < 2 then None
    else
      var len: int := input[0] as int * 0x100 + input[1] as int;
      if |input| < 2 + len then None
      else DecodeModifiedUtf8(input[2..2 + len])
  }

  lemma UnitRoundTrip(u: int, rest: seq<byte>)
    requires 0 <= u < 0x1_0000
    ensures DecodeModifiedUtf8(UnitBytes(u) + rest)
         == match DecodeModifiedUtf8(rest) case Some(t) => Some([u] + t) case None => None
  {
    if 1 <= u < 0x80 {
      assert (UnitBytes(u) + rest)[1..] == rest;
    } else if u < 0x800 {
      TwoByteUnit(u, rest);
    } else {
      ThreeByteUnit(u, rest);
    }
  }

  lemma TwoByteUnit(u: int, rest: seq<byte>)
    requires (u == 0 || 0x80 <= u) && u < 0x800
    ensures DecodeModifiedUtf8(UnitBytes(u) + rest)
         == match DecodeModifiedUtf8(rest) case Some(t) => Some([u] + t) case None => None
  {
    var hi, lo := u / 0x40, u % 0x40;
    assert hi < 0x20 && hi * 0x40 + lo == u;
    var bs := UnitBytes(u) + rest;
    assert bs[0] == 0xC0 + hi && bs[1] == 0x80 + lo;
    assert (0xC0 + hi) / 0x10 == 0xC || (0xC0 + hi) / 0x10 == 0xD;
    assert (0xC0 + hi) % 0x20 == hi;
    assert bs[2..] == rest;
  }

  lemma ThreeByteUnit(u: int, rest: seq<byte>)
    requires 0x800 <= u < 0x1_0000
    ensures DecodeModifiedUtf8(UnitBytes(u) + rest)
         == match DecodeModifiedUtf8(rest) case Some(t) => Some([u] + t) case None => None
  {
    var top, mid, lo := u / 0x1000, (u / 0x40) % 0x40, u % 0x40;
    assert top < 0x10;
    assert top * 0x1000 + mid * 0x40 + lo == u by {
      assert u == (u / 0x40) * 0x40 + lo;
      assert u / 0x40 == (u / 0x1000) * 0x40 + mid;
    }
    var bs := UnitBytes(u) + rest;
    assert bs[0] == 0xE0 + top && bs[1] == 0x80 + mid && bs[2] == 0x80 + lo;
    assert (0xE0 + top) / 0x10 == 0xE && (0xE0 + top) % 0x10 == top;
    assert bs[3..] == rest;
  }

  lemma {:induction false} ModifiedUtf8RoundTrip(us: seq<int>)
    requires forall i :: 0 <= i < |us| ==> 0 <= us[i] < 0x1_0000
    ensures DecodeModifiedUtf8(ModifiedUtf8(us)) == Some(us)
  {
    if us != [] {
      ModifiedUtf8RoundTrip(us[1..]);
      UnitRoundTrip(us[0], ModifiedUtf8(us[1..]));
      assert [us[0]] + us[1..] == us;
    }
  }

  /** `readUTF` gives back the code units `writeUTF` wrote, whatever follows
      them on the connection. */
  lemma UtfRoundTrip(s: string, more: seq<byte>)
    requires WriteUtf(s).Some?
    ensures ReadUtf(WriteUtf(s).value + more) == Some(Utf16(s))
  {
    var body := ModifiedUtf8(Utf16(s));
    var input := WriteUtf(s).value + more;
    assert input[2..2 + |body|] == body;
    ModifiedUtf8RoundTrip(Utf16(s));
  }

  /** A string of characters U+0001..U+007F is written as its length and
      its ASCII bytes. */
  lemma {:induction false} WriteUtfAscii(s: string)
    requires forall i :: 0 <= i < |s| ==> 0 < s[i] as int < 0x80
    requires |s| <= 0xFFFF
    ensures IsAscii(s)
    ensures WriteUtf(s) == Some([|s| / 0x100, |s| % 0x100] + Ascii(s))
  {
    AsciiBody(s);
  }

  lemma {:induction false} AsciiBody(s: string)
    requires forall i :: 0 <= i < |s| ==> 0 < s[i] as int < 0x80
    ensures IsAscii(s) && ModifiedUtf8(Utf16(s)) == Ascii(s)
  {
    if s != [] {
      AsciiBody(s[1..]);
      assert Utf16(s) == [s[0] as int] + Utf16(s[1..]);
      assert ([s[0] as int] + Utf16(s[1..]))[1..] == Utf16(s[1..]);
      assert Ascii(s) == [s[0] as int] + Ascii(s[1..]);
    }
  }

  // ---------------------------------------------------------------------
  // The client's side of an upload

  /** The bytes `uploadChunk` writes: the `upload` header, the hash with
      `writeUTF`, then the chunk. `None` when `writeUTF` throws. */
  function UploadFrame(hash: string, data: seq<byte>): (frame: Option<seq<byte>>)
    ensures frame.Some? <==> WriteUtf(hash).Some?
    ensures frame.Some? ==> |frame.value| >= HEADER_LENGTH && frame.value[..HEADER_LENGTH] == UPLOAD_HEADER
  {
    match WriteUtf(hash)
    case Some(u) => Some(UPLOAD_HEADER + u + data)
    case None => None
  }

  /** The client's test of a peer's reply: `"OK".equals(dis.readUTF())`. */
  predicate ClientAccepts(reply: seq<byte>)
  {
    ReadUtf(reply) == Some([0x4F, 0x4B])
  }

  /** The reply that would satisfy the client, and an empty reply that
      cannot (`readUTF` hits end of stream). */
  lemma ClientAcceptsOk()
    ensures ClientAccepts([0x00, 0x02, 0x4F, 0x4B])
    ensures !ClientAccepts([])
  {
    var ok: seq<byte> := [0x00, 0x02, 0x4F, 0x4B];
    var body: seq<byte> := [0x4F, 0x4B];
    var k: seq<byte> := [0x4B];
    var none: seq<byte> := [];
    assert ok[2..4] == body;
    assert body[1..] == k && k[1..] == none;
    assert DecodeModifiedUtf8(none) == Some([]);
    assert DecodeModifiedUtf8(k) == Some([0x4B] + []);
    assert [0x4B] + [] == [0x4B];
    assert DecodeModifiedUtf8(body) == Some([0x4F] + [0x4B]);
    assert [0x4F] + [0x4B] == [0x4F, 0x4B];
  }
}
