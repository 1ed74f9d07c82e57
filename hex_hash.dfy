/** The client's content hash (`HashUtils.computeHash`): SHA-256 of a file or
    of a chunk's bytes, rendered as lowercase hexadecimal, two digits per
    digest byte. SHA-256 itself is a parameter: any total function that
    returns 32 bytes. */
module HashUtils {
  import opened Common

  /** Length of a SHA-256 digest in bytes. */
  const DIGEST_LENGTH: nat := 32

  /** Length of its hexadecimal rendering in characters. */
  const HEX_LENGTH: nat := 64

  /** A message digest as `MessageDigest.getInstance("SHA-256")` provides it:
      deterministic, total, always 32 bytes. Nothing else is assumed. */
  type Hasher = f: seq<byte> -> seq<byte> | forall s :: |f(s)| == DIGEST_LENGTH
    witness (s: seq<byte>) => seq<byte>(DIGEST_LENGTH, _ => 0)

  /** A lowercase hexadecimal digit: `0`..`9` or `a`..`f`. */
  predicate IsHexDigit(c: char)
  {
    '0' <= c <= '9' || 'a' <= c <= 'f'
  }

  predicate IsLowerHex(s: string)
  {
    forall i :: 0 <= i < |s| ==> IsHexDigit(s[i])
  }

  /** The digit `%x` prints for a value below 16. */
  function HexDigit(n: nat): (c: char)
    requires n < 16
    ensures IsHexDigit(c)
  {
    if n < 10 then ('0' as int + n) as char else ('a' as int + n - 10) as char
  }

  /** `String.format("%02x", b)`: a byte (unsigned) as two digits, high nibble first. */
  function ByteHex(b: byte): (s: string)
  {
    [HexDigit(b / 16), HexDigit(b % 16)]
  }

  /** The hexadecimal rendering of a digest. */
  function Hex(bs: seq<byte>): (s: string)
    ensures |s| == 2 * |bs|
    ensures IsLowerHex(s)
  {
    if bs == [] then "" else ByteHex(bs[0]) + Hex(bs[1..])
  }

  /** Character 2i and 2i+1 of the rendering are the high and the low
      nibble of byte i. */
  lemma {:induction false} HexAt(bs: seq<byte>, i: nat)
    requires i < |bs|
    ensures Hex(bs)[2 * i] == HexDigit(bs[i] / 16)
    ensures Hex(bs)[2 * i + 1] == HexDigit(bs[i] % 16)
  {
    if i > 0 {
      HexAt(bs[1..], i - 1);
      assert Hex(bs) == ByteHex(bs[0]) + Hex(bs[1..]);
    }
  }

  /** The value of a lowercase hexadecimal digit. */
  function DigitValue(c: char): (n: nat)
    requires IsHexDigit(c)
    ensures n < 16 && HexDigit(n) == c
  {
    if '0' <= c <= '9' then (c - '0') as nat else (c - 'a') as nat + 10
  }

  /** Reads a lowercase hexadecimal rendering back into bytes, two digits
      per byte (a trailing odd digit is dropped). */
  function FromHex(s: string): (bs: seq<byte>)
    requires IsLowerHex(s)
    ensures |bs| == |s| / 2
  {
    if |s| < 2 then []
    else [DigitValue(s[0]) * 16 + DigitValue(s[1])] + FromHex(s[2..])
  }

  lemma DigitValueOf(n: nat)
    requires n < 16
    ensures DigitValue(HexDigit(n)) == n
  {
  }

  /** Reading back the two digits of one byte gives that byte. */
  lemma FromHexByte(b: byte, t: string)
    requires IsLowerHex(t)
    ensures IsLowerHex(ByteHex(b) + t)
    ensures FromHex(ByteHex(b) + t) == [b] + FromHex(t)
  {
    var h := ByteHex(b) + t;
    DigitValueOf(b / 16);
    DigitValueOf(b % 16);
    assert h[2..] == t;
    var v := DigitValue(h[0]) * 16 + DigitValue(h[1]);
    assert v == b;
    assert FromHex(h) == [v] + FromHex(h[2..]);
  }

  /** Reading the rendering back gives the digest: nothing is lost. */
  lemma {:induction false} HexRoundTrip(bs: seq<byte>)
    ensures FromHex(Hex(bs)) == bs
  {
    if bs != [] {
      assert Hex(bs) == ByteHex(bs[0]) + Hex(bs[1..]);
      FromHexByte(bs[0], Hex(bs[1..]));
      HexRoundTrip(bs[1..]);
    }
  }

  /** Distinct digests give distinct strings. */
  lemma HexInjective(a: seq<byte>, b: seq<byte>)
    requires Hex(a) == Hex(b)
    ensures a == b
  {
    HexRoundTrip(a);
    HexRoundTrip(b);
  }

  /** The StringBuilder loop of `computeHash`. */
  method EncodeHex(digest: seq<byte>) returns (s: string)
    ensures s == Hex(digest)
  {
    s := "";
    assert digest[0..] == digest;
    for i := 0 to |digest|
      invariant s + Hex(digest[i..]) == Hex(digest)
    {
      assert digest[i..][1..] == digest[i + 1..];
      s := s + ByteHex(digest[i]);
    }
    assert digest[|digest|..] == [];
  }

  /** What `computeHash` accepts: a `File`, a `byte[]`, or any other object. */
  datatype HashInput = FileInput(contents: seq<byte>) | ByteArray(data: seq<byte>) | OtherObject

  /** `IllegalArgumentException` for an input of another type. */
  datatype HashError = IllegalArgument

  /** The hash string of a byte sequence, as the client stores and sends it. */
  function ContentHash(sha: Hasher, data: seq<byte>): (h: string)
    ensures |h| == HEX_LENGTH && IsLowerHex(h)
  {
    Hex(sha(data))
  }

  /** `computeHash`: a file is drained byte by byte through a digest stream,
      a byte array is fed in one update; both then go through the hex loop. */
  method ComputeHash(sha: Hasher, input: HashInput) returns (r: Result<string, HashError>)
    ensures input.OtherObject? <==> r == Err(IllegalArgument)
    ensures input.FileInput? ==> r == Ok(ContentHash(sha, input.contents))
    ensures input.ByteArray? ==> r == Ok(ContentHash(sha, input.data))
    ensures r.Ok? ==> |r.value| == HEX_LENGTH && IsLowerHex(r.value)
  {
    var fed: seq<byte>;
    match input {
      case FileInput(contents) =>
        fed := [];
        var pos := 0;
        var next: int := if pos < |contents| then contents[pos] else -1;
        while next != -1
          invariant 0 <= pos <= |contents|
          invariant fed == contents[..pos]
          invariant next == if pos < |contents| then contents[pos] else -1
          decreases |contents| - pos
        {
          fed := fed + [next as byte];
          pos := pos + 1;
          next := if pos < |contents| then contents[pos] else -1;
        }
        assert contents[..pos] == contents;
      case ByteArray(data) =>
        fed := data;
      case OtherObject =>
        return Err(IllegalArgument);
    }
    var s := EncodeHex(sha(fed));
    r := Ok(s);
  }
}
