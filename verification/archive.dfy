/**
 * The package container, abstractly: a sequence of tar entries (header and
 * payload) behind a gzip stream. The byte formats are not modelled; the
 * writer and the reader are a pair of functions the host supplies.
 */
module Archive {
  import opened Base

  /** Go's `fs.FileMode`, a 32-bit unsigned value. */
  type FileMode = m: int | 0 <= m < 0x1_0000_0000

  /** The fields of `tar.Header` the tool sets and reads; `mode` and `size` are `int64` in Go. */
  datatype Header = Header(name: string, mode: int, size: int)

  datatype Entry = Entry(header: Header, content: seq<uint8>)

  /**
   * What a forward-only reader of an opened package yields: the entries in
   * archive order, then either `io.EOF` (`stop == None`) or the error that
   * ended the read (a truncated tar frame, a corrupt gzip body, a failed
   * payload read).
   */
  datatype Stream = Stream(entries: seq<Entry>, stop: Option<string>)

  /** The gzip-compressed tar writer over an in-memory buffer. */
  type Encoder = seq<Entry> -> Result<seq<uint8>>

  /**
   * The gzip and tar readers over a package's bytes: `Err` when
   * `gzip.NewReader` refuses the gzip header, otherwise what the tar reader
   * yields.
   */
  type Decoder = seq<uint8> -> Result<Stream>

  /** Reading back what the writer produced yields the same entries and a clean end. */
  ghost predicate RoundTrips(encode: Encoder, decode: Decoder) {
    forall entries, bytes :: encode(entries) == Ok(bytes) ==> decode(bytes) == Ok(Stream(entries, None))
  }

  /**
   * `fs.FileMode(header.Mode)` (bin.go:121): converting an `int64` to a
   * `uint32` keeps the low 32 bits, two's complement for negative values.
   */
  function ToFileMode(m: int): (r: FileMode)
    ensures 0 <= m < 0x1_0000_0000 ==> r == m
    ensures (m - r) % 0x1_0000_0000 == 0
  {
    m % 0x1_0000_0000
  }
}
