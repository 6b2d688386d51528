/**
 * bin.go's `installCommand`: validate the package against its checksum file,
 * then write every entry of the package to `.bin/<name>`, where `<name>` is
 * piece 2 of the entry name split on `:`. Validation comes first and a failed
 * validation writes nothing; the first failure while extracting stops the
 * loop and leaves the files already written in place.
 */
module Install {
  import opened Base
  import Strings
  import Digest
  import Names
  import Paths
  import Validate
  import opened Archive
  import opened Host

  const ExtractDir: string := ".bin/"
  const MissingPackage: string := "missing path to package as first argument"

  /**
   * The file an entry is written to (bin.go:119-121), or `None` when its name
   * has fewer than three `:`-separated pieces and indexing panics.
   */
  function EntryWrite(e: Entry): (w: Option<FileWrite>)
    ensures w.Some? <==> Strings.Count(e.header.name, Names.Delimiter) >= 2
    ensures w.Some? ==> && w.value.content == e.content
                        && w.value.perm == ToFileMode(e.header.mode)
                        && |w.value.path| >= |ExtractDir| && w.value.path[..|ExtractDir|] == ExtractDir
                        && Names.Delimiter !in w.value.path[|ExtractDir|..]
  {
    match Names.OriginalName(e.header.name)
    case None => None
    case Some(name) => Some(FileWrite(ExtractDir + name, e.content, ToFileMode(e.header.mode)))
  }

  /** How a read that ran to its end finishes: `io.EOF` is success, any other error is reported. */
  function StopOutcome(stop: Option<string>): Outcome {
    match stop
    case None => Done
    case Some(e) => Failed(e)
  }

  /**
   * The entry could not be written: its name has no target (`target` gives
   * `None`, a panic), or the host refused the write with that reason.
   */
  predicate FailsAt(e: Entry, target: Entry -> Option<FileWrite>, writeError: FileWrite -> Option<string>, o: Outcome) {
    match target(e)
    case None => o == Panicked
    case Some(w) => writeError(w).Some? && o == Failed(writeError(w).value)
  }

  /**
   * The extraction loop of bin.go:104-124 over the entries a reader yields.
   * `target` says where an entry goes; the tool uses `EntryWrite`.
   */
  function ExtractAll(entries: seq<Entry>, stop: Option<string>, target: Entry -> Option<FileWrite>,
                      writeError: FileWrite -> Option<string>): (r: Run)
    ensures |r.writes| <= |entries|
    ensures forall k :: 0 <= k < |r.writes| ==> target(entries[k]) == Some(r.writes[k])
    ensures forall k :: 0 <= k < |r.writes| ==> writeError(r.writes[k]).None?
    ensures |r.writes| == |entries| ==> r.outcome == StopOutcome(stop)
    ensures |r.writes| < |entries| ==> FailsAt(entries[|r.writes|], target, writeError, r.outcome)
    decreases |entries|
  {
    if |entries| == 0 then Run([], StopOutcome(stop))
    else
      match target(entries[0])
      case None => Run([], Panicked)
      case Some(w) =>
        match writeError(w)
        case Some(e) => Run([], Failed(e))
        case None =>
          var rest := ExtractAll(entries[1..], stop, target, writeError);
          Run([w] + rest.writes, rest.outcome)
  }

  /**
   * Installation once the package has been validated and read (bin.go:84-124):
   * nothing is opened or written unless validation succeeded. When the gzip
   * header is refused, `installCommand` returns its error, and the `Close`
   * deferred at bin.go:96 then runs on the nil `*gzip.Reader` it got back,
   * which is a nil-pointer panic.
   */
  function Install(validation: Outcome, reader: Result<Stream>, writeError: FileWrite -> Option<string>): (r: Run)
    ensures !validation.Done? ==> r == Run([], validation)
    ensures validation.Done? && reader.Err? ==> r == Run([], Panicked)
    ensures |r.writes| > 0 ==> validation.Done? && reader.Ok?
    ensures reader.Ok? ==>
              var entries := reader.value.entries;
              && |r.writes| <= |entries|
              && (forall k :: 0 <= k < |r.writes| ==> EntryWrite(entries[k]) == Some(r.writes[k]))
              && (forall k :: 0 <= k < |r.writes| ==> writeError(r.writes[k]).None?)
    ensures validation.Done? && reader.Ok? ==>
              var entries := reader.value.entries;
              && (|r.writes| < |entries| ==> FailsAt(entries[|r.writes|], EntryWrite, writeError, r.outcome))
              && (|r.writes| == |entries| ==> r.outcome == StopOutcome(reader.value.stop))
    ensures validation.Done? && r.outcome.Done? ==>
              reader.Ok? && |r.writes| == |reader.value.entries| && reader.value.stop.None?
  {
    if !validation.Done? then Run([], validation)
    else
      match reader
      case Err(_) => Run([], Panicked)
      case Ok(stream) => ExtractAll(stream.entries, stream.stop, EntryWrite, writeError)
  }

  /** `installCommand(args)`. */
  function InstallCommand(args: seq<string>, hash: Digest.HashFunction, env: Env): (r: Run)
    ensures |args| == 0 ==> r == Run([], Failed(MissingPackage))
    ensures |args| > 0 ==>
              var paths := Paths.DerivePaths(args[0]);
              var validation := Validate.ValidateCommand([paths.package, paths.checksum], hash, env.read);
              && (!validation.Done? ==> r == Run([], validation))
              && (validation.Done? ==> r == Install(validation, env.decode(env.read(paths.package).bytes), env.writeError))
  {
    if |args| < 1 then Run([], Failed(MissingPackage))
    else
      var paths := Paths.DerivePaths(args[0]);
      var validation := Validate.ValidateCommand([paths.package, paths.checksum], hash, env.read);
      if !validation.Done? then Run([], validation)
      else
        match env.read(paths.package)
        case OpenFailed(e) => Run([], Failed(e))
        case ReadFailed(e) => Run([], Failed(e))
        case Contents(pkg) => Install(validation, env.decode(pkg), env.writeError)
  }

  /**
   * Every file installation writes is named `.bin/` followed by piece 2 of
   * the entry's name, and carries the entry's payload and mode.
   */
  lemma ExtractsIntoExtractDir(stream: Stream, writeError: FileWrite -> Option<string>)
    ensures var r := ExtractAll(stream.entries, stream.stop, EntryWrite, writeError);
            forall k :: 0 <= k < |r.writes| ==>
              var name := Names.OriginalName(stream.entries[k].header.name);
              && name.Some?
              && r.writes[k].path == ExtractDir + name.value
              && r.writes[k].content == stream.entries[k].content
              && r.writes[k].perm == ToFileMode(stream.entries[k].header.mode)
  {
    var r := ExtractAll(stream.entries, stream.stop, EntryWrite, writeError);
    forall k | 0 <= k < |r.writes|
      ensures Names.OriginalName(stream.entries[k].header.name).Some?
      ensures r.writes[k].path == ExtractDir + Names.OriginalName(stream.entries[k].header.name).value
      ensures r.writes[k].content == stream.entries[k].content
      ensures r.writes[k].perm == ToFileMode(stream.entries[k].header.mode)
    {
      assert EntryWrite(stream.entries[k]) == Some(r.writes[k]);
    }
  }

  /**
   * The recovered name is not checked further: a well-formed entry whose
   * path is `../x` is written to `.bin/../x`, outside the directory.
   */
  lemma ParentPathLeavesExtractDir(hash: Digest.HashFunction, named: seq<uint8>, mode: int, content: seq<uint8>)
    ensures EntryWrite(Entry(Header(Names.QualifiedName(hash, named, "../x"), mode, |content|), content))
            == Some(FileWrite(ExtractDir + "../x", content, ToFileMode(mode)))
  {
    assert Names.Delimiter !in "../x";
    Names.RecoverPath(hash, named, "../x");
  }
}
