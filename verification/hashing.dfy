/** Content fingerprints as the upload path computes them: a streaming SHA-256
    object fed with the uploaded chunks, and the lowercase hexadecimal
    rendering of its 32-byte digest.  The SHA-256 compression function itself
    is not modelled: it is a parameter of type HashFunction, so nothing below
    depends on what it computes beyond "32 bytes, a function of the input". */
module Hashing {
  import opened Wrappers

  newtype byte = x: int | 0 <= x < 256

  /** A SHA-256 digest: exactly 32 bytes. */
  type Digest = d: seq<byte> | |d| == 32 witness seq(32, _ => 0)

  /** The SHA-256 function, left uninterpreted. */
  type HashFunction = seq<byte> -> Digest

  /** The bytes of an upload, read chunk after chunk. */
  function Concat(chunks: seq<seq<byte>>): seq<byte>
  {
    if chunks == [] then [] else chunks[0] + Concat(chunks[1..])
  }

  lemma {:induction false} ConcatSnoc(chunks: seq<seq<byte>>, c: seq<byte>)
    ensures Concat(chunks + [c]) == Concat(chunks) + c
  {
    if chunks == [] {
      assert chunks + [c] == [c];
      assert Concat([c]) == c + Concat([]);
    } else {
      assert (chunks + [c])[0] == chunks[0];
      assert (chunks + [c])[1..] == chunks[1..] + [c];
      ConcatSnoc(chunks[1..], c);
    }
  }

  /** A `hashlib.sha256()` object.  Its internal state is abstracted as the
      bytes it has consumed so far. */
  class Sha256 {
    const hash: HashFunction
    var consumed: seq<byte>

    constructor (hash: HashFunction)
      ensures this.hash == hash && consumed == []
    {
      this.hash := hash;
      consumed := [];
    }

    /** `update(chunk)` */
    method Update(chunk: seq<byte>)
      modifies this
      ensures consumed == old(consumed) + chunk
    {
      consumed := consumed + chunk;
    }

    /** `hexdigest()` */
    method HexDigest() returns (s: string)
      ensures s == ContentHash(hash, consumed)
      ensures |s| == 64 && IsLowerHex(s)
    {
      s := Hex(hash(consumed));
    }
  }

  /** The loop of the upload path: one hasher fed every chunk in order.
      Whatever the chunking, the result is the content hash of the
      concatenated bytes. */
  method HashChunks(hash: HashFunction, chunks: seq<seq<byte>>) returns (hex: string)
    ensures hex == ContentHash(hash, Concat(chunks))
  {
    var hasher := new Sha256(hash);
    var i := 0;
    while i < |chunks|
      invariant 0 <= i <= |chunks|
      invariant hasher.hash == hash
      invariant hasher.consumed == Concat(chunks[..i])
    {
      ConcatSnoc(chunks[..i], chunks[i]);
      assert chunks[..i + 1] == chunks[..i] + [chunks[i]];
      hasher.Update(chunks[i]);
      i := i + 1;
    }
    assert chunks[..i] == chunks;
    hex := hasher.HexDigest();
  }

  /** The stored `content_hash` of some bytes: 64 lowercase hex digits. */
  function ContentHash(hash: HashFunction, data: seq<byte>): (h: string)
    ensures |h| == 64 && IsLowerHex(h)
    ensures ParseHex(h) == Some(hash(data))
  {
    ParseHexInvertsHex(hash(data));
    Hex(hash(data))
  }

  predicate IsLowerHexDigit(c: char)
  {
    '0' <= c <= '9' || 'a' <= c <= 'f'
  }

  predicate IsLowerHex(s: string)
  {
    forall i :: 0 <= i < |s| ==> IsLowerHexDigit(s[i])
  }

  /** The value of a lowercase hex digit. */
  function DigitValue(c: char): (n: int)
    requires IsLowerHexDigit(c)
    ensures 0 <= n < 16
  {
    if c <= '9' then c as int - '0' as int else c as int - 'a' as int + 10
  }

  /** The lowercase hex digit of a value below 16. */
  function HexDigit(n: int): (c: char)
    requires 0 <= n < 16
    ensures IsLowerHexDigit(c) && DigitValue(c) == n
  {
    if n < 10 then ('0' as int + n) as char else ('a' as int + n - 10) as char
  }

  /** `hexdigest()` rendering: two lowercase digits per byte, high nibble first. */
  function Hex(d: seq<byte>): (s: string)
    ensures |s| == 2 * |d|
    ensures IsLowerHex(s)
  {
    if d == [] then ""
    else
      var rest := Hex(d[1..]);
      var s := [HexDigit(d[0] as int / 16), HexDigit(d[0] as int % 16)] + rest;
      assert forall i :: 2 <= i < |s| ==> s[i] == rest[i - 2];
      s
  }

  /** The inverse of Hex: lowercase hex text back to bytes, None when the
      text is not an even number of lowercase hex digits. */
  function ParseHex(s: string): (r: Option<seq<byte>>)
    ensures r.Some? ==> 2 * |r.value| == |s|
  {
    if s == [] then Some([])
    else if |s| < 2 || !IsLowerHexDigit(s[0]) || !IsLowerHexDigit(s[1]) then None
    else
      match ParseHex(s[2..])
      case None => None
      case Some(rest) => Some([(16 * DigitValue(s[0]) + DigitValue(s[1])) as byte] + rest)
  }

  lemma {:induction false} ParseHexInvertsHex(d: seq<byte>)
    ensures ParseHex(Hex(d)) == Some(d)
  {
    if d != [] {
      var s := Hex(d);
      assert s[2..] == Hex(d[1..]);
      ParseHexInvertsHex(d[1..]);
      assert DigitValue(s[0]) == d[0] as int / 16;
      assert DigitValue(s[1]) == d[0] as int % 16;
      assert [d[0]] + d[1..] == d;
    }
  }

  /** Distinct digests never render to the same text. */
  lemma HexInjective(a: seq<byte>, b: seq<byte>)
    requires Hex(a) == Hex(b)
    ensures a == b
  {
    ParseHexInvertsHex(a);
    ParseHexInvertsHex(b);
  }

  /** Equal content hashes mean equal digests: the stored text identifies
      the digest. */
  lemma ContentHashDeterminesDigest(hash: HashFunction, d1: seq<byte>, d2: seq<byte>)
    requires ContentHash(hash, d1) == ContentHash(hash, d2)
    ensures hash(d1) == hash(d2)
  {
    HexInjective(hash(d1), hash(d2));
  }
}
