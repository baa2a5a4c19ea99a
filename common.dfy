/** Values shared by every module: optional values, the exceptions the
  * replication scripts raise, and a result type that carries one. */
module Common {
  datatype Option<T> = None | Some(value: T)

  /** The exception classes raised by the scripts (and the Python built-in
    * errors some of their code paths end in). */
  datatype ExcKind =
    | PlainException  // Python's base `Exception`, raised directly
    | ReplicationException
    | RepP4Exception
    | P4Exception
    | RepSvnException
    | SvnToP4Exception
    | P4ToSvnException
    | P4TransferException
    | P4RBGError
    | SvnPythonException
    | TypeError
    | ValueError
    | IndexError
    | KeyError
    | NameError
    | AttributeError
    | UnboundLocalError
    | NotImplementedError
    | OSError
    | LoopsForever  // not an exception: a loop of the source that would never end

  datatype Exc = Exc(kind: ExcKind, msg: string)

  datatype Result<T> = Ok(value: T) | Err(exc: Exc)

  /** One command sent to a version-control server: the command name and
    * its arguments, as the scripts pass them to the client library. */
  datatype Cmd = Cmd(name: string, args: seq<string>)

  function Raise<T>(kind: ExcKind, msg: string): Result<T> { Err(Exc(kind, msg)) }
}
