/**
 * bin.go's `packageCommand`: read the binary at `path`, store it as the one
 * entry of a gzip-compressed tar archive under its digest-qualified name,
 * write the archive to `path.package` and the archive's own checksum to
 * `path.checksum`.
 */
module Package {
  import opened Base
  import Digest
  import Names
  import Paths
  import Validate
  import opened Archive
  import opened Host

  const MissingBinary: string := "missing path to folder or binary as first argument"

  /** The permission `os.Create` asks for, 0666. */
  const CreatePerm: FileMode := 0x1b6

  /** The single archive entry for the binary at `path` (bin.go:192-196). */
  function PackageEntry(hash: Digest.HashFunction, path: string, content: seq<uint8>, mode: FileMode): (e: Entry)
    ensures e.header == Header(Names.QualifiedName(hash, content, path), mode, |content|)
    ensures e.content == content
    ensures e.header.size == |content|
    ensures ToFileMode(e.header.mode) == mode
    ensures |e.header.name| > Digest.TokenLength && e.header.name[..Digest.TokenLength] == Digest.Checksum(hash, content)
    ensures Names.Delimiter !in path ==> Names.OriginalName(e.header.name) == Some(path)
  {
    var name := Names.QualifiedName(hash, content, path);
    assert Names.Delimiter !in path ==> Names.OriginalName(name) == Some(path) by {
      if Names.Delimiter !in path {
        Names.RecoverPath(hash, content, path);
      }
    }
    Entry(Header(name, mode, |content|), content)
  }

  /**
   * How packaging `path` ends, step by step (bin.go:173-235): each step that
   * fails ends the command with its own reason and keeps the writes made so
   * far; when every step succeeds, both files are written and the command
   * succeeds. The read fails at `os.Open` before `os.Stat` runs, and at
   * `io.ReadAll` after it.
   */
  predicate StepsOutcome(path: string, hash: Digest.HashFunction, env: Env, r: Run) {
    var binary := env.read(path);
    var mode := env.stat(path);
    && (binary.OpenFailed? ==> r == Run([], Failed(binary.reason)))
    && (!binary.OpenFailed? && mode.Err? ==> r == Run([], Failed(mode.error)))
    && (binary.ReadFailed? && mode.Ok? ==> r == Run([], Failed(binary.reason)))
    && (binary.Contents? && mode.Ok? ==>
          var encoded := env.encode([PackageEntry(hash, path, binary.bytes, mode.value)]);
          && (encoded.Err? ==> r == Run([], Failed(encoded.error)))
          && (encoded.Ok? ==>
                var packageFile := FileWrite(Paths.PackageFileName(path), encoded.value, CreatePerm);
                var checksumFile := FileWrite(Paths.ChecksumFileName(path), Validate.ChecksumFile(hash, encoded.value), CreatePerm);
                && (env.writeError(packageFile).Some? ==> r == Run([], Failed(env.writeError(packageFile).value)))
                && (env.writeError(packageFile).None? && env.writeError(checksumFile).Some? ==>
                      r == Run([packageFile], Failed(env.writeError(checksumFile).value)))
                && (env.writeError(packageFile).None? && env.writeError(checksumFile).None? ==>
                      r == Run([packageFile, checksumFile], Done))))
  }

  /** `packageCommand(args)`. */
  function PackageCommand(args: seq<string>, hash: Digest.HashFunction, env: Env): (r: Run)
    ensures !r.outcome.Panicked?
    ensures |r.writes| <= 2
    ensures |r.writes| > 0 ==> |args| > 0 && r.writes[0].path == Paths.PackageFileName(args[0])
    ensures |r.writes| > 0 ==>
              && env.read(args[0]).Contents? && env.stat(args[0]).Ok?
              && env.encode([PackageEntry(hash, args[0], env.read(args[0]).bytes, env.stat(args[0]).value)])
                 == Ok(r.writes[0].content)
    ensures |r.writes| == 2 ==>
              r.writes[1] == FileWrite(Paths.ChecksumFileName(args[0]),
                                       Validate.ChecksumFile(hash, r.writes[0].content), CreatePerm)
    ensures r.outcome.Done? <==> |r.writes| == 2
    ensures |r.writes| > 0 ==> r.writes[0].perm == CreatePerm
    ensures |args| == 0 ==> r == Run([], Failed(MissingBinary))
    ensures |args| > 0 ==> StepsOutcome(args[0], hash, env, r)
  {
    if |args| < 1 then Run([], Failed(MissingBinary))
    else
      var path := args[0];
      var binary := env.read(path);
      if binary.OpenFailed? then Run([], Failed(binary.reason))
      else
        match env.stat(path)
        case Err(e) => Run([], Failed(e))
        case Ok(mode) =>
          if binary.ReadFailed? then Run([], Failed(binary.reason))
          else
            match env.encode([PackageEntry(hash, path, binary.bytes, mode)])
            case Err(e) => Run([], Failed(e))
            case Ok(pkg) =>
              var packageFile := FileWrite(Paths.PackageFileName(path), pkg, CreatePerm);
              if env.writeError(packageFile).Some? then Run([], Failed(env.writeError(packageFile).value))
              else
                var checksumFile := FileWrite(Paths.ChecksumFileName(path), Validate.ChecksumFile(hash, pkg), CreatePerm);
                if env.writeError(checksumFile).Some? then Run([packageFile], Failed(env.writeError(checksumFile).value))
                else Run([packageFile, checksumFile], Done)
  }
}
