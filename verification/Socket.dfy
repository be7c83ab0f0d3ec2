/** What the operating system reports about a socket. */
module Socket {
  import opened Bytes

  /** The outcome of asking for the state of a connection attempt. */
  datatype Connecting = InProgress | Refused | Established

  /** The outcome of read. */
  datatype Input = NoInput | InputError | EndOfInput | Data(data: bytes)

  /** The outcome of write, which may take a part of what it is given. */
  datatype Output = NoOutput | OutputError | Wrote(n: nat)

  /** How many bytes of a buffer are taken. */
  function Taken(buffer: bytes, output: Output): (n: nat)
    ensures n <= |buffer|
  {
    match output
    case Wrote(n) => if n < |buffer| then n else |buffer|
    case _ => 0
  }

  /** What is left of the buffer then. */
  function Left(buffer: bytes, output: Output): (rest: bytes)
    ensures !output.Wrote? ==> rest == buffer
  {
    buffer[Taken(buffer, output)..]
  }
}
