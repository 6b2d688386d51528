/**
 * bin.go's `validateCommand`: the binary is accepted when its checksum equals
 * the checksum file's text with every leading and trailing newline removed
 * (bin.go:294).
 */
module Validate {
  import opened Base
  import Strings
  import Digest
  import opened Host

  const InvalidChecksum: string := "invalid checksum for binary"
  const MissingBinary: string := "missing path to binary as first argument"
  const MissingChecksum: string := "missing path to checksum as second argument"

  /**
   * The comparison at bin.go:294, on the bytes of the binary and of the
   * checksum file: accepted exactly when the trimmed text reads back as the
   * digest of the binary.
   */
  function ChecksumAccepts(hash: Digest.HashFunction, content: seq<uint8>, checksumFile: seq<uint8>): (accepted: bool)
    ensures accepted <==> Digest.ParseToken(Strings.Trim(Strings.FromBytes(checksumFile), '\n')) == Some(hash(content))
  {
    var text := Strings.Trim(Strings.FromBytes(checksumFile), '\n');
    assert Digest.ParseToken(text) == Some(hash(content)) <==> Digest.Checksum(hash, content) == text by {
      Digest.ParseRender(hash(content));
      if Digest.ParseToken(text) == Some(hash(content)) {
        Digest.RenderParse(text);
      }
    }
    Digest.Checksum(hash, content) == text
  }

  /**
   * The checksum is accepted exactly when the file holds the token surrounded
   * by any number of newlines on either side.
   */
  lemma AcceptsIffPadded(hash: Digest.HashFunction, content: seq<uint8>, checksumFile: seq<uint8>)
    ensures ChecksumAccepts(hash, content, checksumFile)
        <==> exists a: nat, b: nat :: Strings.FromBytes(checksumFile)
                                      == Strings.Repeat('\n', a) + Digest.Checksum(hash, content) + Strings.Repeat('\n', b)
  {
    if ChecksumAccepts(hash, content, checksumFile) {
      AcceptedIsPadded(hash, content, checksumFile);
    }
    PaddedIsAccepted(hash, content, checksumFile);
  }

  lemma AcceptedIsPadded(hash: Digest.HashFunction, content: seq<uint8>, checksumFile: seq<uint8>)
    requires ChecksumAccepts(hash, content, checksumFile)
    ensures exists a: nat, b: nat :: Strings.FromBytes(checksumFile)
                                     == Strings.Repeat('\n', a) + Digest.Checksum(hash, content) + Strings.Repeat('\n', b)
  {
    var text := Strings.FromBytes(checksumFile);
    var t := Strings.Trim(text, '\n');
    var a :| Strings.PaddedAt(text, '\n', a, t);
    Strings.PaddedSplit(text, '\n', a, t);
    assert text == Strings.Repeat('\n', a) + Digest.Checksum(hash, content) + Strings.Repeat('\n', |text| - |t| - a);
  }

  lemma PaddedIsAccepted(hash: Digest.HashFunction, content: seq<uint8>, checksumFile: seq<uint8>)
    ensures (exists a: nat, b: nat :: Strings.FromBytes(checksumFile)
                                      == Strings.Repeat('\n', a) + Digest.Checksum(hash, content) + Strings.Repeat('\n', b))
            ==> ChecksumAccepts(hash, content, checksumFile)
  {
    var text := Strings.FromBytes(checksumFile);
    var token := Digest.Checksum(hash, content);
    forall a: nat, b: nat | text == Strings.Repeat('\n', a) + token + Strings.Repeat('\n', b)
      ensures ChecksumAccepts(hash, content, checksumFile)
    {
      Strings.TrimPadded(token, '\n', a, b);
    }
  }

  /** The checksum file packaging writes: the token and one newline (bin.go:233). */
  function ChecksumFile(hash: Digest.HashFunction, pkg: seq<uint8>): (f: seq<uint8>)
    ensures |f| == Digest.TokenLength + 1
    ensures Strings.FromBytes(f) == Digest.Checksum(hash, pkg) + "\n"
  {
    var text := Digest.Checksum(hash, pkg) + "\n";
    Strings.FromToBytes(text);
    Strings.ToBytes(text)
  }

  /** The checksum file written for a package accepts that package. */
  lemma ChecksumFileAccepted(hash: Digest.HashFunction, pkg: seq<uint8>)
    ensures ChecksumAccepts(hash, pkg, ChecksumFile(hash, pkg))
  {
    var token := Digest.Checksum(hash, pkg);
    assert token + "\n" == Strings.Repeat('\n', 0) + token + Strings.Repeat('\n', 1);
    AcceptsIffPadded(hash, pkg, ChecksumFile(hash, pkg));
  }

  /** The checksum file written for a package refuses any content whose digest differs. */
  lemma ChecksumFileRejectsOther(hash: Digest.HashFunction, pkg: seq<uint8>, other: seq<uint8>)
    requires hash(other) != hash(pkg)
    ensures !ChecksumAccepts(hash, other, ChecksumFile(hash, pkg))
  {
    ChecksumFileAccepted(hash, pkg);
    if Digest.Checksum(hash, other) == Digest.Checksum(hash, pkg) {
      Digest.RenderInjective(hash(other), hash(pkg));
    }
  }

  /**
   * `validateCommand(args)`: reads the binary named by `args[0]`, then the
   * checksum file named by `args[1]`, and compares.
   */
  function ValidateCommand(args: seq<string>, hash: Digest.HashFunction, read: string -> ReadResult): (o: Outcome)
    ensures o.Done? || o.Failed?
    ensures o.Done? <==> |args| >= 2 && read(args[0]).Contents? && read(args[1]).Contents?
                         && ChecksumAccepts(hash, read(args[0]).bytes, read(args[1]).bytes)
    ensures (&& |args| >= 2 && read(args[0]).Contents? && read(args[1]).Contents?
             && !ChecksumAccepts(hash, read(args[0]).bytes, read(args[1]).bytes))
            ==> o == Failed(InvalidChecksum)
    ensures |args| == 0 ==> o == Failed(MissingBinary)
    ensures |args| == 1 ==> o == Failed(MissingChecksum)
    ensures |args| >= 2 && !read(args[0]).Contents? ==> o == Failed(read(args[0]).reason)
    ensures |args| >= 2 && read(args[0]).Contents? && !read(args[1]).Contents? ==> o == Failed(read(args[1]).reason)
  {
    if |args| < 1 then Failed(MissingBinary)
    else if |args| < 2 then Failed(MissingChecksum)
    else
      match read(args[0])
      case OpenFailed(e) => Failed(e)
      case ReadFailed(e) => Failed(e)
      case Contents(binary) =>
        match read(args[1])
        case OpenFailed(e) => Failed(e)
        case ReadFailed(e) => Failed(e)
        case Contents(checksumFile) =>
          if Digest.Checksum(hash, binary) != Strings.Trim(Strings.FromBytes(checksumFile), '\n') then
            Failed(InvalidChecksum)
          else Done
  }
}
