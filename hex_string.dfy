/**
 * getHexString: the text form of an MD5 digest stored in the ledger's file_hash column,
 * two lowercase, zero-padded hexadecimal digits per byte.
 */
module HexString {

  /** A Java byte: a signed 8-bit value, as MessageDigest.digest() returns them. */
  newtype JavaByte = b: int | -128 <= b < 128

  /** 0xFF & b: the byte read as an unsigned value. */
  function Unsigned(b: JavaByte): (n: nat)
    ensures n < 256 && b as int == (if n >= 128 then n - 256 else n)
  {
    if b < 0 then b as int + 256 else b as int
  }

  /** The high and the low four bits of the unsigned byte. */
  function High(b: JavaByte): (d: nat)
    ensures d < 16
  {
    Unsigned(b) / 16
  }

  function Low(b: JavaByte): (d: nat)
    ensures d < 16 && High(b) * 16 + d == Unsigned(b)
  {
    Unsigned(b) % 16
  }

  predicate IsLowerHex(c: char) { '0' <= c <= '9' || 'a' <= c <= 'f' }

  predicate IsLowerHexText(s: string) { forall i :: 0 <= i < |s| ==> IsLowerHex(s[i]) }

  /** The value of one lowercase hexadecimal digit. */
  function HexValue(c: char): (d: nat)
    requires IsLowerHex(c)
    ensures d < 16
  {
    if c <= '9' then c as int - '0' as int else c as int - 'a' as int + 10
  }

  /** Character.forDigit(d, 16), the digit Integer.toHexString writes: '0'..'9', then 'a'..'f'. */
  function HexDigit(d: nat): (c: char)
    requires d < 16
    ensures IsLowerHex(c) && HexValue(c) == d
  {
    if d < 10 then ('0' as int + d) as char else ('a' as int + d - 10) as char
  }

  lemma HexDigitOfValue(c: char)
    requires IsLowerHex(c)
    ensures HexDigit(HexValue(c)) == c
  {
  }

  /** Integer.toHexString(n) for n >= 0: lowercase hexadecimal digits without leading zeros. */
  function ToHexString(n: nat): (r: string)
    ensures r != [] && (n >= 16 ==> r[0] != '0')
  {
    if n < 16 then [HexDigit(n)] else ToHexString(n / 16) + [HexDigit(n % 16)]
  }

  /** The two digits getHexString writes for one byte: the high and the low digit of the unsigned byte. */
  function ByteHex(b: JavaByte): string
  {
    [HexDigit(High(b)), HexDigit(Low(b))]
  }

  /**
   * toHexString(0xFF & b), with a '0' put in front when it is a single digit, is the byte's two
   * digits: the padding never leaves one digit, and no byte needs a third.
   */
  lemma PaddedHexString(b: JavaByte)
    ensures var hex := ToHexString(Unsigned(b));
      (if |hex| == 1 then "0" + hex else hex) == ByteHex(b)
  {
    var n := Unsigned(b);
    var hex := ToHexString(n);
    if n < 16 {
      assert High(b) == 0 && Low(b) == n;
    } else {
      assert n / 16 < 16;
      assert ToHexString(n / 16) == [HexDigit(n / 16)];
    }
  }

  /** The text getHexString builds: each byte's two digits, in byte order. */
  function Hex(bytes: seq<JavaByte>): (r: string)
    ensures |r| == 2 * |bytes| && IsLowerHexText(r)
  {
    if bytes == [] then [] else Hex(bytes[..|bytes| - 1]) + ByteHex(bytes[|bytes| - 1])
  }

  /** Byte i of the digest is spelled by characters 2i and 2i + 1 of its text, high digit first. */
  lemma {:induction false} HexAt(bytes: seq<JavaByte>, i: nat)
    requires i < |bytes|
    ensures Hex(bytes)[2 * i] == HexDigit(High(bytes[i]))
    ensures Hex(bytes)[2 * i + 1] == HexDigit(Low(bytes[i]))
  {
    var init := bytes[..|bytes| - 1];
    if i < |init| {
      HexAt(init, i);
      assert Hex(bytes) == Hex(init) + ByteHex(bytes[|bytes| - 1]);
    }
  }

  /** Reads lowercase hexadecimal text back into Java bytes, two characters per byte. */
  function DecodeHex(s: string): (bytes: seq<JavaByte>)
    requires |s| % 2 == 0 && IsLowerHexText(s)
    ensures |bytes| == |s| / 2
  {
    if s == [] then []
    else
      DecodeHex(s[..|s| - 2]) + [ByteOf(s[|s| - 2], s[|s| - 1])]
  }

  /** The Java byte spelled by a high and a low hexadecimal digit. */
  function ByteOf(hi: char, lo: char): JavaByte
    requires IsLowerHex(hi) && IsLowerHex(lo)
  {
    var n := HexValue(hi) * 16 + HexValue(lo);
    (if n >= 128 then n - 256 else n) as JavaByte
  }

  lemma ByteOfByteHex(b: JavaByte)
    ensures ByteOf(HexDigit(High(b)), HexDigit(Low(b))) == b
  {
  }

  /** A two-digit number in base 16 gives back its digits. */
  lemma DivMod16(a: nat, d: nat)
    requires d < 16
    ensures (a * 16 + d) / 16 == a && (a * 16 + d) % 16 == d
  {
  }

  /** The byte two digits spell is written back as those two digits. */
  lemma ByteHexOfByteOf(hi: char, lo: char)
    requires IsLowerHex(hi) && IsLowerHex(lo)
    ensures ByteHex(ByteOf(hi, lo)) == [hi, lo]
  {
    var b := ByteOf(hi, lo);
    assert Unsigned(b) == HexValue(hi) * 16 + HexValue(lo);
    DivMod16(HexValue(hi), HexValue(lo));
    HexDigitOfValue(hi);
    HexDigitOfValue(lo);
  }

  lemma DecodeHexAppend(s: string, hi: char, lo: char)
    requires |s| % 2 == 0 && IsLowerHexText(s) && IsLowerHex(hi) && IsLowerHex(lo)
    ensures IsLowerHexText(s + [hi, lo])
    ensures DecodeHex(s + [hi, lo]) == DecodeHex(s) + [ByteOf(hi, lo)]
  {
    var t := s + [hi, lo];
    assert t[..|t| - 2] == s;
  }

  /** Decoding the digest text gives back the digest: no two byte strings share a hash text. */
  lemma {:induction false} DecodeHexOfHex(bytes: seq<JavaByte>)
    ensures DecodeHex(Hex(bytes)) == bytes
  {
    if bytes != [] {
      var init, last := bytes[..|bytes| - 1], bytes[|bytes| - 1];
      var h := Hex(init);
      DecodeHexOfHex(init);
      DecodeHexAppend(h, HexDigit(High(last)), HexDigit(Low(last)));
      ByteOfByteHex(last);
      assert bytes == init + [last];
    }
  }

  /** Every lowercase hexadecimal text of even length is the hash text of exactly the bytes it decodes to. */
  lemma {:induction false} HexOfDecodeHex(s: string)
    requires |s| % 2 == 0 && IsLowerHexText(s)
    ensures Hex(DecodeHex(s)) == s
  {
    if s != [] {
      var init, hi, lo := s[..|s| - 2], s[|s| - 2], s[|s| - 1];
      HexOfDecodeHex(init);
      var bytes := DecodeHex(s);
      assert bytes == DecodeHex(init) + [ByteOf(hi, lo)];
      assert bytes[..|bytes| - 1] == DecodeHex(init);
      ByteHexOfByteOf(hi, lo);
      assert s == init + [hi, lo];
    }
  }

  /**
   * getHexString: for each byte, toHexString(0xFF & b), preceded by '0' when it is one digit long.
   * The result is the lowercase hexadecimal text of the bytes, two digits per byte, and decodes
   * back to them.
   */
  method GetHexString(md5HashBytes: seq<JavaByte>) returns (hexString: string)
    ensures hexString == Hex(md5HashBytes)
    ensures |hexString| == 2 * |md5HashBytes| && IsLowerHexText(hexString)
    ensures DecodeHex(hexString) == md5HashBytes
  {
    hexString := "";
    for i := 0 to |md5HashBytes|
      invariant hexString == Hex(md5HashBytes[..i])
    {
      var hex := ToHexString(Unsigned(md5HashBytes[i]));
      PaddedHexString(md5HashBytes[i]);
      if |hex| == 1 {
        hexString := hexString + "0";
      }
      hexString := hexString + hex;
      assert md5HashBytes[..i + 1][..i] == md5HashBytes[..i];
    }
    assert md5HashBytes[..|md5HashBytes|] == md5HashBytes;
    DecodeHexOfHex(md5HashBytes);
  }
}
