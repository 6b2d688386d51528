/**
 * What the commands ask of the operating system and of the libraries whose
 * internals are not modelled, and what they report back. Packaging and
 * installing are functions of an `Env`, and their effects are the ordered
 * list of files they wrote; validation writes nothing and needs only `read`.
 */
module Host {
  import opened Base
  import opened Archive

  /** `os.Open` followed by `io.ReadAll`: the file's bytes, or which of the two failed and why. */
  datatype ReadResult = Contents(bytes: seq<uint8>) | OpenFailed(reason: string) | ReadFailed(reason: string)

  /** One completed `os.Create` + write or `os.WriteFile`, with the permission bits requested. */
  datatype FileWrite = FileWrite(path: string, content: seq<uint8>, perm: FileMode)

  /**
   * How a command ends: normally, with a `cmderr` reason (exit code 1), or
   * with a Go runtime panic.
   */
  datatype Outcome = Done | Failed(reason: string) | Panicked

  /** The files a command wrote, in order, and how it ended. Writes made before a failure remain. */
  datatype Run = Run(writes: seq<FileWrite>, outcome: Outcome)

  datatype Env = Env(
    read: string -> ReadResult,
    stat: string -> Result<FileMode>,
    encode: Encoder,
    decode: Decoder,
    writeError: FileWrite -> Option<string>)
}
