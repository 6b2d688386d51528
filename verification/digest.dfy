/**
 * The content digest token of bin.go's `checksum`: SHA-256 of a payload,
 * rendered as `sha256:` followed by the lowercase hexadecimal digest.
 * The hash itself is a parameter; only its rendering is modelled.
 */
module Digest {
  import opened Base
  import Strings

  /** A SHA-256 digest: exactly 32 bytes. */
  type Digest = d: seq<uint8> | |d| == 32 witness seq(32, _ => 0)

  /** The hash function `crypto/sha256` provides, left uninterpreted. */
  type HashFunction = seq<uint8> -> Digest

  /** The algorithm tag that prefixes every token. */
  const Algorithm: string := "sha256"

  /** What every token starts with: the tag and one `:`. */
  const Prefix: string := Algorithm + ":"

  const PrefixLength: nat := |Prefix|

  /** Length of a rendered token: the prefix and two hex digits per digest byte. */
  const TokenLength: nat := PrefixLength + 64

  predicate IsLowerHexDigit(c: char) {
    '0' <= c <= '9' || 'a' <= c <= 'f'
  }

  predicate IsLowerHex(s: string) {
    forall i :: 0 <= i < |s| ==> IsLowerHexDigit(s[i])
  }

  /** The lowercase hexadecimal digit for a nibble. */
  function HexDigit(n: nat): (c: char)
    requires n < 16
    ensures IsLowerHexDigit(c)
  {
    if n < 10 then ('0' as int + n) as char else ('a' as int + n - 10) as char
  }

  /** The nibble a lowercase hexadecimal digit stands for. */
  function HexValue(c: char): (r: Option<nat>)
    ensures r.Some? <==> IsLowerHexDigit(c)
    ensures r.Some? ==> r.value < 16 && HexDigit(r.value) == c
  {
    if '0' <= c <= '9' then Some(c as int - '0' as int)
    else if 'a' <= c <= 'f' then Some(c as int - 'a' as int + 10)
    else None
  }

  /** Go's `%x` verb on a byte slice: two lowercase digits per byte, high nibble first. */
  function Hex(bs: seq<uint8>): (s: string)
    ensures |s| == 2 * |bs|
    ensures IsLowerHex(s)
  {
    if |bs| == 0 then ""
    else [HexDigit(bs[0] as nat / 16), HexDigit(bs[0] as nat % 16)] + Hex(bs[1..])
  }

  /** Reads back a string of lowercase hexadecimal digit pairs. */
  function ParseHex(s: string): (r: Option<seq<uint8>>)
    ensures r.Some? ==> 2 * |r.value| == |s|
    decreases |s|
  {
    if |s| == 0 then Some([])
    else if |s| == 1 then None
    else
      match (HexValue(s[0]), HexValue(s[1]), ParseHex(s[2..]))
      case (Some(hi), Some(lo), Some(rest)) => Some([(hi * 16 + lo) as uint8] + rest)
      case _ => None
  }

  /** Rendering bytes in hex loses nothing. */
  lemma {:induction false} ParseHexOfHex(bs: seq<uint8>)
    ensures ParseHex(Hex(bs)) == Some(bs)
  {
    if |bs| > 0 {
      var b, rest := bs[0], bs[1..];
      assert bs == [b] + rest;
      HexCons(b, rest);
      var s := Hex(bs);
      var hi, lo := b as nat / 16, b as nat % 16;
      assert s[2..] == Hex(rest);
      ParseHexOfHex(rest);
      HexValueOfDigit(hi);
      HexValueOfDigit(lo);
      ByteNibbles(b);
      assert ParseHex(s) == Some([(hi * 16 + lo) as uint8] + rest);
    }
  }

  /** Whatever `ParseHex` accepts is the hex rendering of what it returns. */
  lemma {:induction false} HexOfParseHex(s: string)
    requires ParseHex(s).Some?
    ensures Hex(ParseHex(s).value) == s
    decreases |s|
  {
    if |s| > 0 {
      var hi := HexValue(s[0]).value;
      var lo := HexValue(s[1]).value;
      var rest := ParseHex(s[2..]).value;
      var b := (hi * 16 + lo) as uint8;
      assert ParseHex(s).value == [b] + rest;
      HexOfParseHex(s[2..]);
      NibbleSplit(b, hi, lo);
      HexCons(b, rest);
      assert s == [s[0], s[1]] + s[2..];
    }
  }

  /** A byte built from two nibbles gives them back as quotient and remainder by 16. */
  lemma NibbleSplit(b: uint8, hi: nat, lo: nat)
    requires hi < 16 && lo < 16 && b as nat == hi * 16 + lo
    ensures b as nat / 16 == hi && b as nat % 16 == lo
  {
  }

  /** A nibble's digit reads back as the nibble. */
  lemma HexValueOfDigit(n: nat)
    requires n < 16
    ensures HexValue(HexDigit(n)) == Some(n)
  {
  }

  /** A byte is its high nibble times 16 plus its low nibble. */
  lemma ByteNibbles(b: uint8)
    ensures b as nat / 16 < 16 && (b as nat / 16) * 16 + b as nat % 16 == b as nat
  {
  }

  /** The hex rendering of a byte followed by more bytes. */
  lemma HexCons(b: uint8, rest: seq<uint8>)
    ensures Hex([b] + rest) == [HexDigit(b as nat / 16), HexDigit(b as nat % 16)] + Hex(rest)
  {
    assert ([b] + rest)[1..] == rest;
  }

  /** The token `sha256:<hex>` for a digest. */
  function Render(d: Digest): (s: string)
    ensures |s| == TokenLength
    ensures s[..PrefixLength] == Prefix
    ensures IsLowerHex(s[PrefixLength..])
  {
    Prefix + Hex(d)
  }

  /** Reads a token back into its digest; any other string is refused. */
  function ParseToken(s: string): (r: Option<Digest>)
    ensures r.Some? ==> |s| == TokenLength && s[..PrefixLength] == Prefix
  {
    if |s| == TokenLength && s[..PrefixLength] == Prefix then
      match ParseHex(s[PrefixLength..])
      case Some(bs) => Some(bs)
      case None => None
    else None
  }

  /** `ParseToken` inverts `Render`. */
  lemma ParseRender(d: Digest)
    ensures ParseToken(Render(d)) == Some(d)
  {
    var s := Render(d);
    assert s[PrefixLength..] == Hex(d);
    ParseHexOfHex(d);
  }

  /** `Render` inverts `ParseToken` on the strings it accepts. */
  lemma RenderParse(s: string)
    requires ParseToken(s).Some?
    ensures Render(ParseToken(s).value) == s
  {
    HexOfParseHex(s[PrefixLength..]);
    assert s == s[..PrefixLength] + s[PrefixLength..];
  }

  /** Distinct digests render to distinct tokens. */
  lemma RenderInjective(d1: Digest, d2: Digest)
    requires Render(d1) == Render(d2)
    ensures d1 == d2
  {
    ParseRender(d1);
    ParseRender(d2);
  }

  /** bin.go's `checksum`: the token of the SHA-256 digest of `b`. */
  function Checksum(hash: HashFunction, b: seq<uint8>): (s: string)
    ensures |s| == TokenLength
    ensures s[..PrefixLength] == Prefix
    ensures IsLowerHex(s[PrefixLength..]) && ParseHex(s[PrefixLength..]) == Some(hash(b))
    ensures Strings.Count(s, ':') == 1
    ensures '\n' !in s
    ensures Strings.IsAscii(s)
  {
    TokenParses(hash(b));
    TokenDelimiters(hash(b));
    TokenAscii(hash(b));
    Render(hash(b))
  }

  /** Hexadecimal digits are neither `:` nor newlines, and are ASCII. */
  lemma HexHasNoDelimiter(hex: string)
    requires IsLowerHex(hex)
    ensures ':' !in hex && '\n' !in hex && Strings.IsAscii(hex)
  {
    forall i | 0 <= i < |hex|
      ensures hex[i] != ':' && hex[i] != '\n' && hex[i] as int < 128
    {
      assert IsLowerHexDigit(hex[i]);
    }
  }

  /** The hex part of a token reads back as the digest. */
  lemma TokenParses(d: Digest)
    ensures Render(d)[..PrefixLength] == Prefix && ParseHex(Render(d)[PrefixLength..]) == Some(d)
  {
    assert Render(d)[PrefixLength..] == Hex(d);
    ParseHexOfHex(d);
  }

  /** A token holds exactly one `:` and no newline. */
  lemma TokenDelimiters(d: Digest)
    ensures Strings.Count(Render(d), ':') == 1 && '\n' !in Render(d)
  {
    TokenColon(d);
    TokenNoNewline(d);
  }

  lemma TokenColon(d: Digest)
    ensures Strings.Count(Render(d), ':') == 1
  {
    var hex := Hex(d);
    HexHasNoDelimiter(hex);
    Strings.CountAppend(Prefix, hex, ':');
    PrefixCount();
  }

  lemma TokenNoNewline(d: Digest)
    ensures '\n' !in Render(d)
  {
    var hex := Hex(d);
    HexHasNoDelimiter(hex);
    PrefixFacts();
  }

  /** A token is ASCII text. */
  lemma TokenAscii(d: Digest)
    ensures Strings.IsAscii(Render(d))
  {
    var hex := Hex(d);
    HexHasNoDelimiter(hex);
    PrefixFacts();
    Strings.AsciiAppend(Prefix, hex);
  }

  /** The token prefix holds no newline and only ASCII characters; the tag holds no `:`. */
  lemma PrefixFacts()
    ensures ':' !in Algorithm
    ensures '\n' !in Prefix
    ensures Strings.IsAscii(Prefix)
  {
  }

  /** Local helper for `TokenColon`: the token prefix holds exactly one `:`, the one after the tag. */
  lemma PrefixCount()
    ensures Strings.Count(Prefix, ':') == 1
  {
    PrefixFacts();
    Strings.CountAppend(Algorithm, ":", ':');
    assert Strings.Count(":", ':') == 1;
  }
}
