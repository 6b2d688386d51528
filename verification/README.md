# bin: content-addressed packaging of a single binary, in Dafny

`bin` is a small command-line tool. `bin package <path>` stores the binary at
`path` as the only entry of a gzip-compressed tar archive. The entry is named
`sha256:<hex digest of the binary>:<path>`. The tool writes the archive to
`<path>.package`. It writes the checksum of the archive itself, followed by a
newline, to `<path>.checksum`. `bin validate <file> <checksum file>` accepts
the file when its checksum equals the checksum file's text with the
surrounding newlines removed. `bin install <path or path.package>` derives the
package and checksum file names from its argument and validates the package
against its checksum file first. Then it writes every archive
entry to `.bin/<name>`, where `<name>` is piece 2 of the entry name split
on `:`.

This project models the pure decision and string logic around the library
calls, as functions over `seq<char>` and byte sequences:

- `Digest`: the rendering of a SHA-256 digest as `sha256:` plus 64 lowercase
  hex digits. The hash is a parameter, and only its rendering is modelled.
- `Names`: composing the qualified entry name and recovering piece 2 of it.
- `Paths`: deriving the package and checksum file names from the install
  argument, and the names packaging writes.
- `Validate`: the checksum comparison and `validateCommand`.
- `Install`: the fail-closed, ordered extraction loop and `installCommand`.
- `Package`: the archive entry packaging builds and `packageCommand`.
- `Pipeline`: properties of the commands taken together. Packaging followed
  by installing reproduces the binary when its path holds neither `:` nor
  `.package`. A tampered package is refused before
  anything is written. Installation does not check the digest embedded in an
  entry's name.
- `Strings`: the parts of Go's `strings` package the tool uses, each with its
  own specification. These are `Contains`, `Index`, `Replace` with a count of
  one, `Split` on `:` and `Trim` on `\n`.

`packageCommand` and `installCommand` are functions from their arguments,
the hash function and an `Env` to a `Run`. The `Env` supplies the file reads,
`stat`, the archive writer and reader, and the write failures. The `Run` is
the ordered list of files the command wrote and how the command ended:
normally, with an error reason, or with a Go panic. Writes made before a
failure stay in the list. `validateCommand` writes nothing, so it takes only
the file reads and returns just how it ended.

Some behaviours of bin.go are worth stating plainly:

- Validation trims every leading and trailing newline from the checksum
  file's text before comparing it (bin.go:294).
- Installation accepts any entry name with at least three `:`-separated
  pieces. A name with fewer pieces makes the index at bin.go:119 panic.
- The extraction path is `.bin/` followed by piece 2 of the entry name
  (bin.go:119-121). Nothing confines it to `.bin/`: a stored path `../x`
  is written to `.bin/../x`.
- A path that itself contains `:` is installed under only the part before
  its first `:`.
- A path that already contains `.package`, such as `a.package.bin`, is not
  found again by installing. Installing `a.package.bin` takes that file, the
  binary itself, as the package and looks for `a.bin.checksum`. Installing
  `a.package.bin.package` looks for `a.bin.package.checksum`. Packaging wrote
  `a.package.bin.checksum` (bin.go:74-80).
- A package that passes validation but whose gzip header is refused makes
  installation panic: `gzip.NewReader` returns a nil reader with its error,
  and the `Close` deferred at bin.go:96 runs on that nil reader when the
  error is returned (bin.go:95-100).

## Model

| member | source | states |
|---|---|---|
| Strings.FirstIndex | bin.go:79 | the index found is an occurrence of the pattern, no earlier position is one, and there is none exactly when the string does not contain the pattern |
| Strings.ReplaceFirst | bin.go:79 | a string without the pattern is unchanged; otherwise the length changes by the replacement's length minus the pattern's |
| Strings.ReplaceFirstAt | bin.go:79 | replacing once cuts the string at the earliest occurrence of the pattern and nowhere else |
| Strings.Split | bin.go:119 | the pieces number one more than the separators, no piece holds the separator, and joining the pieces with it gives back the string |
| Strings.SplitJoin | bin.go:119 | splitting undoes joining whenever no piece holds the separator |
| Strings.SplitCons | bin.go:119 | a separator-free head followed by the separator comes off as the first piece |
| Strings.TrimLeft | bin.go:294 | the result is a suffix, everything cut is the trimmed character, and the result does not start with it |
| Strings.TrimRight | bin.go:294 | the result is a prefix, everything cut is the trimmed character, and the result does not end with it |
| Strings.Trim | bin.go:294 | the result neither starts nor ends with the character, and it sits inside the input with only that character before and after it |
| Strings.TrimPadded | bin.go:294 | trimming a core padded with any number of the character on each side returns exactly the core, so every surrounding newline is removed |
| Strings.FromToBytes | bin.go:233 | ASCII text written as bytes reads back as the same text |
| Digest.Hex | bin.go:64 | `%x` gives two lowercase hex digits per byte |
| Digest.HexValue | bin.go:64 | a character has a nibble value exactly when it is a lowercase hex digit, and that digit renders the value |
| Digest.ParseHexOfHex | bin.go:64 | the hex rendering of bytes reads back as the same bytes |
| Digest.HexOfParseHex | bin.go:64 | any string that reads as hex is the rendering of the bytes it reads as |
| Digest.Render | bin.go:64 | a token is 71 characters: `sha256:` followed by lowercase hex |
| Digest.ParseRender | bin.go:64 | reading a token back gives the digest it was rendered from |
| Digest.RenderParse | bin.go:64 | every string that reads as a token is the rendering of the digest it reads as |
| Digest.RenderInjective | bin.go:64 | distinct digests give distinct tokens |
| Digest.TokenDelimiters | bin.go:64 | a token holds exactly one `:` and no newline |
| Digest.Checksum | bin.go:61-65 | `sha256:` then 64 lowercase hex digits that read back as the digest of the input; exactly one `:`, no newline, ASCII only |
| Names.QualifiedName | bin.go:193 | the entry name starts with the binary's checksum token and holds two more `:` than the path |
| Names.OriginalName | bin.go:119 | piece 2 exists exactly when the name has at least two `:`, and it holds no `:` |
| Names.OriginalNameOfPieces | bin.go:119 | for any name `a:b:m` or `a:b:m:t` with `a`, `b`, `m` free of `:`, piece 2 is `m`, whatever `a` and `b` are |
| Names.SplitQualifiedName | bin.go:193 | a qualified name splits into `sha256`, the hex digest, then the pieces of the path |
| Names.RecoverPath | bin.go:119 | for a path without `:`, piece 2 of the qualified name is exactly the path |
| Names.RecoverTruncatedPath | bin.go:119 | for a path with `:`, piece 2 is the part of the path before its first `:`, strictly shorter than the path |
| Paths.DerivePaths | bin.go:74-80 | the package path contains `.package` and is the argument when that already contains it; the checksum path ends in `.checksum` |
| Paths.DeriveFromPackageName | bin.go:77-80 | for an argument containing `.package`, the checksum path is the argument with its first `.package` removed, plus `.checksum` |
| Paths.FirstOccurrenceAtEnd | bin.go:79 | in a stem free of `.package` followed by `.package` and anything else, the first occurrence is the one right after the stem |
| Paths.DeriveAgreesWithPackaging | bin.go:74-80 | a stem and its `.package` name lead to the same two files, which are the two files packaging the stem writes |
| Paths.StemHoldingPackageSuffix | bin.go:74-80 | for a path `x.package<y>` whose first `.package` follows `x`, installing by the path reads the path itself as the package and `x<y>.checksum` as the checksum, neither of them a file packaging wrote |
| Paths.PackageNameHoldingPackageSuffix | bin.go:74-80 | installing such a path by its `.package` name looks for the checksum in `x<y>.package.checksum` |
| Archive.ToFileMode | bin.go:121 | converting the header mode to a file mode keeps the value when it fits in 32 bits, and otherwise keeps it modulo 2^32 |
| Validate.ChecksumAccepts | bin.go:294 | the checksum file is accepted exactly when its text, with the surrounding newlines trimmed, reads back as the token of the binary's digest |
| Validate.AcceptsIffPadded | bin.go:294-296 | a checksum file is accepted exactly when it holds the token with any number of newlines on either side |
| Validate.ChecksumFile | bin.go:233 | the checksum file is 72 bytes, the token of the package followed by one newline |
| Validate.ChecksumFileAccepted | bin.go:233 | the checksum file written for a package accepts that package |
| Validate.ChecksumFileRejectsOther | bin.go:294-296 | that checksum file refuses content whose digest differs |
| Validate.ValidateCommand | bin.go:261-299 | never panics; a missing first or second argument fails with its own message; a failed open or read of the binary, then of the checksum file, fails with that error's reason; succeeds exactly when both files are read and the checksum is accepted; a readable mismatch fails with "invalid checksum for binary" |
| Install.EntryWrite | bin.go:119-121 | an entry has a target exactly when its name holds at least two `:`; the target is under `.bin/` with no `:` after it, and carries the entry's payload and its mode as a file mode |
| Install.ExtractAll | bin.go:104-124 | writes go, in archive order, to each entry's target; all of them succeeded; the run ends with the reader's end state if every entry was written, and otherwise with the failure of the first entry not written |
| Install.Install | bin.go:84-124 | a failed validation writes nothing and passes the failure on; a refused gzip header panics with nothing written; otherwise every write succeeded and went, in entry order, to that entry's target, and the run ends with the reader's end state once every entry was written, or else with the failure of the first entry not written; success means every entry was written and the reader reached a clean end |
| Install.InstallCommand | bin.go:67-127 | a missing argument or a failed validation writes nothing; otherwise installation reads the entries of the very bytes that were validated |
| Install.ExtractsIntoExtractDir | bin.go:119-121 | every extracted file is named `.bin/` plus piece 2 of its entry's name, which exists, and carries the entry's payload and mode |
| Install.ParentPathLeavesExtractDir | bin.go:119-121 | an entry whose stored path is `../x` is written to `.bin/../x`: the recovered name is not confined to the directory |
| Package.PackageEntry | bin.go:192-196 | the header is the qualified name of the path, the stat mode and the binary's length, and the entry carries the binary's bytes; the name starts with the binary's checksum, and for a path without `:` installing recovers the path from the name |
| Package.PackageCommand | bin.go:164-238 | a missing argument fails with its message; otherwise each step ends the command with its own reason when it fails, in the order open, stat, read, encode, write the package, write the checksum, keeping the writes made so far; when every step succeeds both files are written with permission 0666, the package holding the writer's encoding of the entry and the checksum file the package's checksum, and the command succeeds; it never panics |
| Pipeline.PackagedPairValidates | bin.go:233 | after packaging, the package validates against the checksum file written with it |
| Pipeline.InstallFindsPackagedFiles | bin.go:74-86 | installing by the stem or by the `.package` name reads the package packaging wrote and validates it |
| Pipeline.PackagedArchiveDecodes | bin.go:192-212 | a reader that inverts the writer reads the package back as the one entry packaging stored |
| Pipeline.PackagedEntryTarget | bin.go:119-121 | the packaged entry is installed to `.bin/<path>` with the binary's bytes and mode |
| Pipeline.ExtractSingle | bin.go:104-124 | a one-entry archive whose entry can be written installs exactly that file and succeeds |
| Pipeline.PackageThenInstall | bin.go:84-124 | packaging then installing, by either name, writes exactly the binary's bytes and mode to `.bin/<path>` and succeeds, for paths without `:` or `.package` |
| Pipeline.TamperedPackageRejected | bin.go:84-86 | a package whose digest no longer matches its checksum file is refused with "invalid checksum for binary" and nothing is written |
| Pipeline.EmbeddedDigestNotChecked | bin.go:119 | an entry whose name carries the digest of other content is still extracted: the embedded digest is discarded |

## Left out

- SHA-256 itself (FIPS 180-4) is the `crypto/sha256` library. It is the uninterpreted parameter `HashFunction`, a map to 32-byte digests. No collision resistance is assumed; `ChecksumFileRejectsOther` takes the digest difference as a hypothesis.
- The gzip (RFC 1952) and tar byte formats, from `compress/gzip` and `archive/tar`, are left out. The writer and the reader are the parameters `Encoder` and `Decoder`. The reader either refuses the gzip header or yields the entries in order, then a clean end or the error that stopped it, such as a truncated frame or a failed payload read. The end-to-end lemmas assume `RoundTrips`, meaning the reader inverts the writer.
- File I/O is a set of parameters. `os.Open` plus `io.ReadAll` is one read, and which of the two failed is kept. `os.Create` plus the write, and `os.WriteFile`, is one write that succeeds or fails with a reason. A file partly written before a failure is not recorded.
- Reads are pure, so install's second open of the package (bin.go:88) sees the bytes it validated. A file changed between the two reads is not modelled.
- The `defer Close` calls are not modelled as steps (bin.go:88-100, bin.go:173-174, bin.go:214-227). Their one visible effect, the panic of the deferred `Close` on the nil gzip reader, is modelled as the `Panicked` outcome of `Install.Install`. Every other deferred `Close`, including one on a nil `*os.File` after a failed open, only returns an error that the code ignores.
- `os.WriteFile` applies its permission only when it creates the file, and only through the process umask. A `FileWrite` records the permission asked for.
- `main`'s dispatch and usage text, `checksumCommand` and `inspectCommand` are command-line glue around the modelled functions (bin.go:25-59, bin.go:129-162, bin.go:240-259). `cmderr` is modelled by its reason alone, because every error the core returns has code 1.
- Per-entry digest re-verification is not done by the code, so the model does not do it either. `EmbeddedDigestNotChecked` states the gap.
