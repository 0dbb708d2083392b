/**
 The text form of the ROM's SHA-1 digest built by `getHash` in src/file.c:
 each of the 20 digest bytes printed with `"%02x"` into a 41-byte buffer.
 The digest itself is an input; computing it is left to OpenSSL.
 */
module Hex {
  import opened Ints
  import opened Wrappers

  /** `SHA1_BLOCK_SIZE`: bytes in a SHA-1 digest. */
  const DigestBytes: nat := 20
  /** `SHA1_HASH_SIZE`: 40 hex digits and the terminating NUL. */
  const HashSize: nat := 41

  const Nul: char := 0 as char

  /** The characters `%x` prints: `0`-`9` and lowercase `a`-`f`. */
  predicate IsHexDigit(c: char) {
    '0' <= c <= '9' || 'a' <= c <= 'f'
  }

  /** The lowercase hexadecimal digit of a nibble. */
  function HexDigit(n: int): (c: char)
    requires 0 <= n < 16
    ensures IsHexDigit(c)
    ensures n < 10 ==> c as int - '0' as int == n
    ensures 10 <= n ==> c as int - 'a' as int == n - 10
  {
    if n < 10 then ('0' as int + n) as char else ('a' as int + n - 10) as char
  }

  /** The nibble a lowercase hexadecimal digit stands for; anything else has none. */
  function DigitValue(c: char): (r: Option<int>)
    ensures r.Some? <==> IsHexDigit(c)
    ensures r.Some? ==> 0 <= r.value < 16 && HexDigit(r.value) == c
  {
    if '0' <= c <= '9' then Some(c as int - '0' as int)
    else if 'a' <= c <= 'f' then Some(c as int - 'a' as int + 10)
    else None
  }

  lemma NibbleSplit(b: u8)
    ensures 0 <= b / 16 < 16 && 0 <= b % 16 < 16
    ensures b / 16 * 16 + b % 16 == b
  {
  }

  /** Each nibble's digit reads back as that nibble. */
  lemma DigitRoundTrip(n: int)
    requires 0 <= n < 16
    ensures DigitValue(HexDigit(n)) == Some(n)
  {
  }

  /** Two digits per byte, high nibble first. */
  function Encode(bytes: seq<u8>): (s: string)
    ensures |s| == 2 * |bytes|
    decreases |bytes|
  {
    if bytes == [] then []
    else [HexDigit(bytes[0] / 16), HexDigit(bytes[0] % 16)] + Encode(bytes[1..])
  }

  /** Reads pairs of lowercase hexadecimal digits back into bytes. */
  function Decode(s: string): (r: Option<seq<u8>>)
    decreases |s|
  {
    if s == [] then Some([])
    else if |s| == 1 then None
    else
      var hi, lo, rest := DigitValue(s[0]), DigitValue(s[1]), Decode(s[2..]);
      if hi.Some? && lo.Some? && rest.Some? then Some([hi.value * 16 + lo.value] + rest.value)
      else None
  }

  /** Byte `i` sits at characters `2i` (high nibble) and `2i + 1` (low nibble). */
  lemma {:induction false} EncodeAt(bytes: seq<u8>, i: nat)
    requires i < |bytes|
    ensures Encode(bytes)[2 * i] == HexDigit(bytes[i] / 16)
    ensures Encode(bytes)[2 * i + 1] == HexDigit(bytes[i] % 16)
    decreases i
  {
    if i > 0 {
      EncodeAt(bytes[1..], i - 1);
    }
  }

  /** Decoding the hex text recovers the bytes. */
  lemma {:induction false} DecodeEncode(bytes: seq<u8>)
    ensures Decode(Encode(bytes)) == Some(bytes)
    decreases |bytes|
  {
    if bytes != [] {
      var b := bytes[0];
      var hi, lo := b / 16, b % 16;
      NibbleSplit(b);
      var tail := Encode(bytes[1..]);
      var s := [HexDigit(hi), HexDigit(lo)] + tail;
      assert Encode(bytes) == s;
      assert s[2..] == tail;
      DecodeEncode(bytes[1..]);
      DigitRoundTrip(hi);
      DigitRoundTrip(lo);
      assert Decode(s) == Some([hi * 16 + lo] + bytes[1..]);
      assert [b] + bytes[1..] == bytes;
    }
  }

  /** Text that decodes is exactly the encoding of what it decodes to: lowercase digits only. */
  lemma {:induction false} EncodeDecode(s: string)
    requires Decode(s).Some?
    ensures Encode(Decode(s).value) == s
    decreases |s|
  {
    if s != [] {
      EncodeDecode(s[2..]);
      var hi := DigitValue(s[0]).value;
      var lo := DigitValue(s[1]).value;
      var b: u8 := hi * 16 + lo;
      assert b / 16 == hi && b % 16 == lo;
      var bytes := Decode(s).value;
      assert bytes[0] == b && bytes[1..] == Decode(s[2..]).value;
      assert s == [s[0], s[1]] + s[2..];
    }
  }

  /**
   The conversion loop of `getHash`: at each step `sprintf` writes two digits
   at `2i` and `2i + 1` and its terminating NUL at `2i + 2`; afterwards the
   last byte of the buffer is set to NUL. `buffer` is the freshly allocated,
   uninitialised string.
   */
  method HashString(digest: seq<u8>, buffer: string) returns (s: string)
    requires |digest| == DigestBytes && |buffer| == HashSize
    ensures |s| == HashSize
    ensures s[HashSize - 1] == Nul
    ensures s[..HashSize - 1] == Encode(digest)
    ensures forall i :: 0 <= i < DigestBytes ==>
      s[2 * i] == HexDigit(digest[i] / 16) && s[2 * i + 1] == HexDigit(digest[i] % 16)
  {
    s := buffer;
    var i := 0;
    while i < DigestBytes
      invariant 0 <= i <= DigestBytes
      invariant |s| == HashSize
      invariant s[..2 * i] == Encode(digest[..i])
    {
      var b := digest[i];
      var next := s[2 * i := HexDigit(b / 16)][2 * i + 1 := HexDigit(b % 16)][2 * i + 2 := Nul];
      PrintStep(digest, i, s, next);
      s := next;
      i := i + 1;
    }
    var last := s[HashSize - 1 := Nul];
    assert last[..HashSize - 1] == s[..HashSize - 1];
    assert digest[..DigestBytes] == digest;
    s := last;
    EncodeAtAll(digest, s[..HashSize - 1]);
  }

  /** One `sprintf` call extends the printed prefix by the encoding of one more byte. */
  lemma PrintStep(digest: seq<u8>, i: nat, s: string, next: string)
    requires i < |digest| && 2 * i + 2 < |s|
    requires s[..2 * i] == Encode(digest[..i])
    requires next == s[2 * i := HexDigit(digest[i] / 16)][2 * i + 1 := HexDigit(digest[i] % 16)][2 * i + 2 := Nul]
    ensures |next| == |s|
    ensures next[..2 * (i + 1)] == Encode(digest[..i + 1])
  {
    var b := digest[i];
    EncodeAppend(digest[..i], b);
    assert digest[..i + 1] == digest[..i] + [b];
    assert next[..2 * (i + 1)] == s[..2 * i] + [HexDigit(b / 16), HexDigit(b % 16)];
  }

  lemma EncodeAtAll(bytes: seq<u8>, text: string)
    requires text == Encode(bytes)
    ensures forall i :: 0 <= i < |bytes| ==>
      text[2 * i] == HexDigit(bytes[i] / 16) && text[2 * i + 1] == HexDigit(bytes[i] % 16)
  {
    forall i | 0 <= i < |bytes|
      ensures text[2 * i] == HexDigit(bytes[i] / 16) && text[2 * i + 1] == HexDigit(bytes[i] % 16)
    {
      EncodeAt(bytes, i);
    }
  }

  lemma {:induction false} EncodeAppend(bytes: seq<u8>, b: u8)
    ensures Encode(bytes + [b]) == Encode(bytes) + [HexDigit(b / 16), HexDigit(b % 16)]
    decreases |bytes|
  {
    if bytes == [] {
      assert ([] + [b])[1..] == [];
    } else {
      assert (bytes + [b])[1..] == bytes[1..] + [b];
      EncodeAppend(bytes[1..], b);
    }
  }

  /**
   `getHash` from the digest on: `None` (the C NULL) when the SHA-1 context
   could not be set up or the string could not be allocated, otherwise the
   NUL-terminated hex text, which decodes back to the digest.
   */
  method GetHash(digest: seq<u8>, contextOk: bool, allocOk: bool, buffer: string) returns (r: Option<string>)
    requires |digest| == DigestBytes && |buffer| == HashSize
    ensures r.Some? <==> contextOk && allocOk
    ensures r.Some? ==> |r.value| == HashSize && r.value[HashSize - 1] == Nul
    ensures r.Some? ==> Decode(r.value[..HashSize - 1]) == Some(digest)
  {
    if !contextOk || !allocOk {
      return None;
    }
    var s := HashString(digest, buffer);
    DecodeEncode(digest);
    return Some(s);
  }
}
