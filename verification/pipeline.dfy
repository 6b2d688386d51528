/**
 * Properties of the commands taken together: what `package` writes is what
 * `validate` accepts and what `install` unpacks, and an altered package is
 * refused before anything is written.
 */
module Pipeline {
  import opened Base
  import Strings
  import Digest
  import Names
  import Paths
  import Validate
  import opened Archive
  import opened Host
  import Install
  import Package

  /** The host's files after `run`: each file it wrote reads back as written. */
  ghost predicate Persisted(run: Run, read: string -> ReadResult) {
    forall w :: w in run.writes ==> read(w.path) == Contents(w.content)
  }

  /**
   * Packaging `path` and then validating `path.package` against
   * `path.checksum` succeeds: the checksum file holds the digest of the
   * package bytes, not of the binary inside.
   */
  lemma PackagedPairValidates(hash: Digest.HashFunction, pre: Env, read: string -> ReadResult, path: string)
    requires Package.PackageCommand([path], hash, pre).outcome.Done?
    requires Persisted(Package.PackageCommand([path], hash, pre), read)
    ensures Validate.ValidateCommand([Paths.PackageFileName(path), Paths.ChecksumFileName(path)], hash, read) == Done
  {
    var ws := Package.PackageCommand([path], hash, pre).writes;
    assert ws[0] in ws && ws[1] in ws;
    Validate.ChecksumFileAccepted(hash, ws[0].content);
  }

  /**
   * Packaging a binary and installing it, by its path or by its `.package`
   * name, writes exactly the binary's bytes with its permission bits to
   * `.bin/<path>`, provided the path holds no `:` and no `.package`, the
   * archive reader reads back what the writer wrote, and the host accepts
   * the write.
   */
  lemma PackageThenInstall(hash: Digest.HashFunction, pre: Env, post: Env, stem: string, arg: string,
                           content: seq<uint8>, mode: FileMode)
    requires pre.read(stem) == Contents(content) && pre.stat(stem) == Ok(mode)
    requires Package.PackageCommand([stem], hash, pre).outcome.Done?
    requires Persisted(Package.PackageCommand([stem], hash, pre), post.read)
    requires RoundTrips(pre.encode, post.decode)
    requires !Strings.Contains(stem, Paths.PackageSuffix)
    requires Names.Delimiter !in stem
    requires arg == stem || arg == Paths.PackageFileName(stem)
    requires post.writeError(FileWrite(Install.ExtractDir + stem, content, mode)).None?
    ensures Install.InstallCommand([arg], hash, post) == Run([FileWrite(Install.ExtractDir + stem, content, mode)], Done)
  {
    var ws := Package.PackageCommand([stem], hash, pre).writes;
    var entry := Package.PackageEntry(hash, stem, content, mode);
    var paths := Paths.DerivePaths(arg);
    InstallFindsPackagedFiles(hash, pre, post.read, stem, arg);
    PackagedArchiveDecodes(hash, pre, post.decode, stem, content, mode);
    var w := FileWrite(Install.ExtractDir + stem, content, mode);
    PackagedEntryTarget(hash, stem, content, mode);
    ExtractSingle(entry, w, post.writeError);
  }

  /**
   * After packaging `stem`, installing it by either name reads the package
   * packaging wrote and validates it.
   */
  lemma InstallFindsPackagedFiles(hash: Digest.HashFunction, pre: Env, read: string -> ReadResult, stem: string, arg: string)
    requires Package.PackageCommand([stem], hash, pre).outcome.Done?
    requires Persisted(Package.PackageCommand([stem], hash, pre), read)
    requires !Strings.Contains(stem, Paths.PackageSuffix)
    requires arg == stem || arg == Paths.PackageFileName(stem)
    ensures var paths := Paths.DerivePaths(arg);
            && Validate.ValidateCommand([paths.package, paths.checksum], hash, read) == Done
            && read(paths.package) == Contents(Package.PackageCommand([stem], hash, pre).writes[0].content)
  {
    var ws := Package.PackageCommand([stem], hash, pre).writes;
    assert ws[0] in ws;
    Paths.DeriveAgreesWithPackaging(stem);
    PackagedPairValidates(hash, pre, read, stem);
  }

  /** A reader that inverts the writer reads the package back as the one entry packaging stored. */
  lemma PackagedArchiveDecodes(hash: Digest.HashFunction, pre: Env, decode: Decoder, stem: string,
                               content: seq<uint8>, mode: FileMode)
    requires pre.read(stem) == Contents(content) && pre.stat(stem) == Ok(mode)
    requires Package.PackageCommand([stem], hash, pre).outcome.Done?
    requires RoundTrips(pre.encode, decode)
    ensures decode(Package.PackageCommand([stem], hash, pre).writes[0].content)
            == Ok(Stream([Package.PackageEntry(hash, stem, content, mode)], None))
  {
  }

  /** The entry packaging makes for `path` is installed to `.bin/<path>` with the same bytes and mode. */
  lemma PackagedEntryTarget(hash: Digest.HashFunction, path: string, content: seq<uint8>, mode: FileMode)
    requires Names.Delimiter !in path
    ensures Install.EntryWrite(Package.PackageEntry(hash, path, content, mode))
            == Some(FileWrite(Install.ExtractDir + path, content, mode))
  {
  }

  /** A one-entry archive whose entry can be written installs that one file and succeeds. */
  lemma ExtractSingle(e: Entry, w: FileWrite, writeError: FileWrite -> Option<string>)
    requires Install.EntryWrite(e) == Some(w)
    requires writeError(w).None?
    ensures Install.ExtractAll([e], None, Install.EntryWrite, writeError) == Run([w], Done)
  {
    var r := Install.ExtractAll([e], None, Install.EntryWrite, writeError);
    assert |r.writes| == 1;
  }

  /**
   * A package whose bytes no longer hash to the digest in its checksum file
   * is refused with "invalid checksum for binary" and nothing is written.
   */
  lemma TamperedPackageRejected(hash: Digest.HashFunction, pre: Env, post: Env, stem: string, arg: string,
                                tampered: seq<uint8>)
    requires Package.PackageCommand([stem], hash, pre).outcome.Done?
    requires var ws := Package.PackageCommand([stem], hash, pre).writes;
             && post.read(Paths.ChecksumFileName(stem)) == Contents(ws[1].content)
             && post.read(Paths.PackageFileName(stem)) == Contents(tampered)
             && hash(tampered) != hash(ws[0].content)
    requires !Strings.Contains(stem, Paths.PackageSuffix)
    requires arg == stem || arg == Paths.PackageFileName(stem)
    ensures Install.InstallCommand([arg], hash, post) == Run([], Failed(Validate.InvalidChecksum))
  {
    var ws := Package.PackageCommand([stem], hash, pre).writes;
    Paths.DeriveAgreesWithPackaging(stem);
    Validate.ChecksumFileRejectsOther(hash, ws[0].content, tampered);
  }

  /**
   * Installation does not check an entry's content against the digest in its
   * name: an entry named for other content is written all the same.
   */
  lemma EmbeddedDigestNotChecked(hash: Digest.HashFunction, named: seq<uint8>, content: seq<uint8>,
                                 path: string, mode: int, writeError: FileWrite -> Option<string>)
    requires Names.Delimiter !in path
    requires writeError(FileWrite(Install.ExtractDir + path, content, ToFileMode(mode))).None?
    ensures var e := Entry(Header(Names.QualifiedName(hash, named, path), mode, |content|), content);
            Install.ExtractAll([e], None, Install.EntryWrite, writeError)
            == Run([FileWrite(Install.ExtractDir + path, content, ToFileMode(mode))], Done)
  {
    var e := Entry(Header(Names.QualifiedName(hash, named, path), mode, |content|), content);
    Names.RecoverPath(hash, named, path);
    ExtractSingle(e, FileWrite(Install.ExtractDir + path, content, ToFileMode(mode)), writeError);
  }
}
