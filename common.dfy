/** Shared vocabulary of the peer client and the tracker: bytes, the
    (ip, port) identity of a peer, and the failure-carrying wrappers. */
module Common {

  /** A byte as the wire and the file system see it: 0..255. Java's signed
      `byte` is read unsigned wherever the code formats or compares it. */
  type byte = x: int | 0 <= x < 256

  datatype Option<+T> = None | Some(value: T)

  datatype Result<+T, +E> = Ok(value: T) | Err(error: E)

  /** A peer is identified by its address and listening port, nothing else. */
  datatype Peer = Peer(ip: string, port: int)

  /** `new String(bytes)` with one character per byte (ISO-8859-1). */
  function Decode(bs: seq<byte>): (s: string)
    ensures |s| == |bs|
    ensures forall i :: 0 <= i < |bs| ==> s[i] as int == bs[i]
  {
    seq(|bs|, i requires 0 <= i < |bs| => bs[i] as char)
  }

  predicate IsAscii(s: string)
  {
    forall i :: 0 <= i < |s| ==> s[i] as int < 128
  }

  /** `String.getBytes()` / `DataOutputStream.writeBytes` of an ASCII string. */
  function Ascii(s: string): (bs: seq<byte>)
    requires IsAscii(s)
    ensures |bs| == |s|
    ensures forall i :: 0 <= i < |s| ==> bs[i] == s[i] as int
  {
    seq(|s|, i requires 0 <= i < |s| => s[i] as int)
  }

  /** Encoding an ASCII string and decoding it again gives it back. */
  lemma DecodeAscii(s: string)
    requires IsAscii(s)
    ensures Decode(Ascii(s)) == s
  {
    var d := Decode(Ascii(s));
    assert |d| == |s|;
    forall i | 0 <= i < |s| ensures d[i] == s[i] {
      assert d[i] as int == s[i] as int;
    }
  }

  lemma AsciiAppend(s: string, t: string)
    requires IsAscii(s) && IsAscii(t)
    ensures IsAscii(s + t) && Ascii(s + t) == Ascii(s) + Ascii(t)
  {
  }

  lemma AsciiSlice(s: string, i: nat, j: nat)
    requires IsAscii(s) && i <= j <= |s|
    ensures IsAscii(s[i..j]) && Ascii(s[i..j]) == Ascii(s)[i..j]
  {
  }

  lemma DecodeAppend(a: seq<byte>, b: seq<byte>)
    ensures Decode(a + b) == Decode(a) + Decode(b)
  {
  }
}
