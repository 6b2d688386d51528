/**
 * Digest-qualified entry names. Packaging stores the binary under the name
 * `checksum(b) + ":" + path` (bin.go:193); installing recovers a file name as
 * piece 2 of a split on `:` (bin.go:119), discarding the two digest pieces.
 */
module Names {
  import opened Base
  import Strings
  import Digest

  const Delimiter: char := ':'

  /** The entry name packaging gives the binary at `path` with content `content`. */
  function QualifiedName(hash: Digest.HashFunction, content: seq<uint8>, path: string): (n: string)
    ensures |n| == Digest.TokenLength + 1 + |path|
    ensures n[..Digest.TokenLength] == Digest.Checksum(hash, content)
    ensures Strings.Count(n, Delimiter) == 2 + Strings.Count(path, Delimiter)
  {
    var token := Digest.Checksum(hash, content);
    Strings.CountAppend(token + [Delimiter], path, Delimiter);
    Strings.CountAppend(token, [Delimiter], Delimiter);
    token + [Delimiter] + path
  }

  /**
   * `strings.Split(name, ":")[2]`. Go panics when there are fewer than three
   * pieces; that case is `None` here.
   */
  function OriginalName(name: string): (r: Option<string>)
    ensures r.Some? <==> Strings.Count(name, Delimiter) >= 2
    ensures r.Some? ==> Delimiter !in r.value
  {
    var parts := Strings.Split(name, Delimiter);
    if |parts| < 3 then None else Some(parts[2])
  }

  /**
   * For any name, piece 2 is what follows the second `:`, up to the third
   * `:` if there is one; nothing ties it to the digest pieces before it.
   */
  lemma OriginalNameOfPieces(a: string, b: string, m: string, t: string)
    requires Delimiter !in a && Delimiter !in b && Delimiter !in m
    ensures OriginalName(a + [Delimiter] + b + [Delimiter] + m) == Some(m)
    ensures OriginalName(a + [Delimiter] + b + [Delimiter] + m + [Delimiter] + t) == Some(m)
  {
    LastPieceTwo(a, b, m);
    InnerPieceTwo(a, b, m, t);
  }

  lemma LastPieceTwo(a: string, b: string, m: string)
    requires Delimiter !in a && Delimiter !in b && Delimiter !in m
    ensures OriginalName(a + [Delimiter] + b + [Delimiter] + m) == Some(m)
  {
    PieceTwo(a, b, m);
    Strings.SplitWithoutSeparator(m, Delimiter);
    var parts := Strings.Split(a + [Delimiter] + b + [Delimiter] + m, Delimiter);
    assert parts == [a, b] + [m];
    assert parts[2] == m;
  }

  lemma InnerPieceTwo(a: string, b: string, m: string, t: string)
    requires Delimiter !in a && Delimiter !in b && Delimiter !in m
    ensures OriginalName(a + [Delimiter] + b + [Delimiter] + m + [Delimiter] + t) == Some(m)
  {
    var name := a + [Delimiter] + b + [Delimiter] + m + [Delimiter] + t;
    assert name == a + [Delimiter] + b + [Delimiter] + (m + [Delimiter] + t);
    PieceTwo(a, b, m + [Delimiter] + t);
    Strings.SplitCons(m, t, Delimiter);
    var parts := Strings.Split(name, Delimiter);
    assert parts == [a, b] + ([m] + Strings.Split(t, Delimiter));
    assert parts[2] == m;
  }

  /** Local helper for `OriginalNameOfPieces`: the pieces after two `:`-free heads. */
  lemma PieceTwo(a: string, b: string, rest: string)
    requires Delimiter !in a && Delimiter !in b
    ensures Strings.Split(a + [Delimiter] + b + [Delimiter] + rest, Delimiter)
         == [a, b] + Strings.Split(rest, Delimiter)
  {
    assert a + [Delimiter] + b + [Delimiter] + rest == a + [Delimiter] + (b + [Delimiter] + rest);
    Strings.SplitCons(a, b + [Delimiter] + rest, Delimiter);
    Strings.SplitCons(b, rest, Delimiter);
    PrependTwo(a, b, Strings.Split(rest, Delimiter));
  }

  /** A qualified name splits into the algorithm tag, the hex digest and the pieces of the path. */
  lemma SplitQualifiedName(hash: Digest.HashFunction, content: seq<uint8>, path: string)
    ensures Strings.Split(QualifiedName(hash, content, path), Delimiter)
         == [Digest.Algorithm, Digest.Hex(hash(content))] + Strings.Split(path, Delimiter)
  {
    var hex := Digest.Hex(hash(content));
    Digest.HexHasNoDelimiter(hex);
    Digest.PrefixFacts();
    QualifiedNameLayout(hash, content, path);
    Strings.SplitCons(Digest.Algorithm, hex + [Delimiter] + path, Delimiter);
    Strings.SplitCons(hex, path, Delimiter);
    PrependTwo(Digest.Algorithm, hex, Strings.Split(path, Delimiter));
  }

  /** Local helper for `SplitQualifiedName`: regrouping two leading pieces. */
  lemma PrependTwo(a: string, b: string, rest: seq<string>)
    ensures [a] + ([b] + rest) == [a, b] + rest
  {
  }

  lemma QualifiedNameLayout(hash: Digest.HashFunction, content: seq<uint8>, path: string)
    ensures QualifiedName(hash, content, path)
         == Digest.Algorithm + [Delimiter] + (Digest.Hex(hash(content)) + [Delimiter] + path)
  {
    var hex := Digest.Hex(hash(content));
    assert Digest.Prefix == Digest.Algorithm + [Delimiter];
    assert Digest.Checksum(hash, content) == Digest.Prefix + hex;
    assert Digest.Prefix + hex + [Delimiter] + path == Digest.Algorithm + [Delimiter] + (hex + [Delimiter] + path);
  }

  /** When the path holds no `:`, installing recovers exactly the path packaging stored. */
  lemma RecoverPath(hash: Digest.HashFunction, content: seq<uint8>, path: string)
    requires Delimiter !in path
    ensures OriginalName(QualifiedName(hash, content, path)) == Some(path)
  {
    SplitQualifiedName(hash, content, path);
    Strings.SplitWithoutSeparator(path, Delimiter);
  }

  /**
   * When the path holds a `:`, installing recovers only the part of the path
   * before its first `:`, which is strictly shorter than the path.
   */
  lemma RecoverTruncatedPath(hash: Digest.HashFunction, content: seq<uint8>, path: string)
    requires Delimiter in path
    ensures OriginalName(QualifiedName(hash, content, path)).Some?
    ensures var head := OriginalName(QualifiedName(hash, content, path)).value;
            Delimiter !in head && |head| < |path| && path == head + [Delimiter] + path[|head| + 1..]
  {
    SplitQualifiedName(hash, content, path);
    var parts := Strings.Split(path, Delimiter);
    assert |parts| >= 2;
    assert Strings.Join(parts, Delimiter) == parts[0] + [Delimiter] + Strings.Join(parts[1..], Delimiter);
  }
}
