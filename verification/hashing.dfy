/** Password hashing: the lower-case hexadecimal rendering of a SHA-256
    digest of the password's UTF-8 bytes. The digest and the encoding are
    collaborators the model does not define; only the rendering loop is. */
module Hashing {
  import opened Wrappers

  type byte = x: int | 0 <= x < 256

  /** A SHA-256 digest: always 32 bytes. */
  type Digest32 = b: seq<byte> | |b| == 32 witness seq(32, _ => 0)

  /** The two library functions the hash is built from, given as values:
      `Encoding.UTF8.GetBytes` and `SHA256.ComputeHash`. */
  datatype Crypto = Crypto(utf8: string -> seq<byte>, sha256: seq<byte> -> Digest32)

  predicate IsLowerHexChar(c: char) {
    ('0' <= c <= '9') || ('a' <= c <= 'f')
  }

  predicate IsLowerHex(s: string) {
    forall i :: 0 <= i < |s| ==> IsLowerHexChar(s[i])
  }

  /** One hexadecimal digit, lower case. */
  function HexDigit(n: int): (c: char)
    requires 0 <= n < 16
    ensures IsLowerHexChar(c)
  {
    if n < 10 then (48 + n) as char else (87 + n) as char
  }

  /** The value of a lower-case hexadecimal digit, or `None` for any other
      character; the inverse of `HexDigit`. */
  function DigitValue(c: char): (r: Option<int>)
    ensures r.Some? <==> IsLowerHexChar(c)
    ensures r.Some? ==> 0 <= r.value < 16 && HexDigit(r.value) == c
  {
    if '0' <= c <= '9' then Some(c as int - 48)
    else if 'a' <= c <= 'f' then Some(c as int - 87)
    else None
  }

  lemma DigitValueOfHexDigit(n: int)
    requires 0 <= n < 16
    ensures DigitValue(HexDigit(n)) == Some(n)
  {
  }

  /** `b.ToString("x2")`: two lower-case digits, high nibble first. */
  function ByteHex(b: byte): (s: string)
    ensures |s| == 2 && IsLowerHex(s)
  {
    [HexDigit(b / 16), HexDigit(b % 16)]
  }

  /** The concatenation of `ByteHex` over the bytes, in order. */
  function Hex(bs: seq<byte>): (s: string)
    ensures |s| == 2 * |bs|
    ensures IsLowerHex(s)
  {
    if |bs| == 0 then [] else ByteHex(bs[0]) + Hex(bs[1..])
  }

  /** Reads back a string of lower-case hex digit pairs; `None` when the
      length is odd or some character is not a lower-case hex digit. */
  function Unhex(s: string): (r: Option<seq<byte>>)
    ensures r.Some? ==> 2 * |r.value| == |s|
  {
    if |s| == 0 then Some([])
    else if |s| == 1 then None
    else
      match (DigitValue(s[0]), DigitValue(s[1]), Unhex(s[2..]))
      case (Some(hi), Some(lo), Some(rest)) => Some([16 * hi + lo] + rest)
      case _ => None
  }

  /** Rendering then reading back gives the bytes again. */
  lemma {:induction false} UnhexHex(bs: seq<byte>)
    ensures Unhex(Hex(bs)) == Some(bs)
  {
    if |bs| > 0 {
      var s := Hex(bs);
      var b := bs[0];
      assert s[..2] == ByteHex(b) && s[2..] == Hex(bs[1..]);
      DigitValueOfHexDigit(b / 16);
      DigitValueOfHexDigit(b % 16);
      UnhexHex(bs[1..]);
      assert [16 * (b / 16) + b % 16] + bs[1..] == bs;
    }
  }

  /** Reading back succeeds only on rendered strings: every string `Unhex`
      accepts is the rendering of what it returns. */
  lemma {:induction false} HexUnhex(s: string, bs: seq<byte>)
    requires Unhex(s) == Some(bs)
    ensures Hex(bs) == s
  {
    if |s| > 0 {
      var hi := DigitValue(s[0]).value;
      var lo := DigitValue(s[1]).value;
      var rest := Unhex(s[2..]).value;
      assert bs == [16 * hi + lo] + rest;
      HexUnhex(s[2..], rest);
      assert (16 * hi + lo) / 16 == hi && (16 * hi + lo) % 16 == lo;
      assert ByteHex(bs[0]) == s[..2];
      assert bs[1..] == rest;
      assert s == s[..2] + s[2..];
    }
  }

  /** Different byte sequences render to different strings. */
  lemma HexInjective(a: seq<byte>, b: seq<byte>)
    ensures Hex(a) == Hex(b) <==> a == b
  {
    if Hex(a) == Hex(b) {
      UnhexHex(a);
      UnhexHex(b);
    }
  }

  /** Rendering distributes over concatenation, one byte at a time. */
  lemma {:induction false} HexAppend(a: seq<byte>, b: byte)
    ensures Hex(a + [b]) == Hex(a) + ByteHex(b)
  {
    if |a| > 0 {
      assert (a + [b])[1..] == a[1..] + [b];
      HexAppend(a[1..], b);
    } else {
      assert a + [b] == [b];
    }
  }

  /** The `foreach` loop of `ComputeSha256Hash` appending `b.ToString("x2")`
      to a `StringBuilder`. */
  method RenderHex(bytes: seq<byte>) returns (s: string)
    ensures s == Hex(bytes)
  {
    s := [];
    for i := 0 to |bytes|
      invariant s == Hex(bytes[..i])
    {
      HexAppend(bytes[..i], bytes[i]);
      assert bytes[..i + 1] == bytes[..i] + [bytes[i]];
      s := s + ByteHex(bytes[i]);
    }
    assert bytes[..|bytes|] == bytes;
  }

  /** `ComputeSha256Hash`: the hex rendering of SHA-256 over UTF-8. */
  function PasswordHash(c: Crypto, plainText: string): (h: string)
    ensures |h| == 64
    ensures IsLowerHex(h)
  {
    Hex(c.sha256(c.utf8(plainText)))
  }

  /** Comparing stored hex digests is comparing the digests themselves, so
      the string equality the login filter uses loses nothing. */
  lemma PasswordHashMatchesDigest(c: Crypto, p: string, q: string)
    ensures PasswordHash(c, p) == PasswordHash(c, q) <==> c.sha256(c.utf8(p)) == c.sha256(c.utf8(q))
  {
    HexInjective(c.sha256(c.utf8(p)), c.sha256(c.utf8(q)));
  }
}
