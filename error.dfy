/** Protocol errors, wire error codes and their errno mapping
    (crates/teleport-core/src/error.rs). Messages carried by errors are kept
    as strings; errno values are those of Linux. */
module Errors {
  import Wrappers

  datatype ProtocolError =
    | InvalidMessage(tag: nat)
    | PathTraversal(msg: string)
    | Serialization(msg: string)
    | Deserialization(msg: string)
    | ChecksumMismatch
    | MessageTooLarge(size: nat, max: nat)
    | VersionMismatch(expected: nat, actual: nat)
    | InvalidChunkId
    | Timeout

  /** Wire error codes; `Code` gives each its fixed `u16` discriminant. */
  datatype ErrorCode =
    | Ok | Unknown | ProtocolErr | NotImplemented | TimeoutCode
    | FileNotFound | NotADirectory | NotAFile | PermissionDenied | PathTraversalCode
    | NameTooLong | AlreadyExists | NotEmpty
    | IoError | ChecksumMismatchCode | ChunkOutOfRange
    | LockNotHeld | LockExpired | LockConflict
    | SessionExpired | RateLimited | HostShuttingDown | AuthFailed

  /** The `#[repr(u16)]` discriminant sent on the wire. */
  function Code(e: ErrorCode): nat {
    match e
    case Ok => 0
    case Unknown => 1
    case ProtocolErr => 2
    case NotImplemented => 3
    case TimeoutCode => 4
    case FileNotFound => 100
    case NotADirectory => 101
    case NotAFile => 102
    case PermissionDenied => 103
    case PathTraversalCode => 104
    case NameTooLong => 105
    case AlreadyExists => 106
    case NotEmpty => 107
    case IoError => 200
    case ChecksumMismatchCode => 201
    case ChunkOutOfRange => 202
    case LockNotHeld => 300
    case LockExpired => 301
    case LockConflict => 302
    case SessionExpired => 400
    case RateLimited => 401
    case HostShuttingDown => 402
    case AuthFailed => 403
  }

  /** Decoding a wire discriminant. */
  function FromCode(n: nat): (e: Wrappers.Option<ErrorCode>)
  {
    match n
    case 0 => Wrappers.Some(Ok)
    case 1 => Wrappers.Some(Unknown)
    case 2 => Wrappers.Some(ProtocolErr)
    case 3 => Wrappers.Some(NotImplemented)
    case 4 => Wrappers.Some(TimeoutCode)
    case 100 => Wrappers.Some(FileNotFound)
    case 101 => Wrappers.Some(NotADirectory)
    case 102 => Wrappers.Some(NotAFile)
    case 103 => Wrappers.Some(PermissionDenied)
    case 104 => Wrappers.Some(PathTraversalCode)
    case 105 => Wrappers.Some(NameTooLong)
    case 106 => Wrappers.Some(AlreadyExists)
    case 107 => Wrappers.Some(NotEmpty)
    case 200 => Wrappers.Some(IoError)
    case 201 => Wrappers.Some(ChecksumMismatchCode)
    case 202 => Wrappers.Some(ChunkOutOfRange)
    case 300 => Wrappers.Some(LockNotHeld)
    case 301 => Wrappers.Some(LockExpired)
    case 302 => Wrappers.Some(LockConflict)
    case 400 => Wrappers.Some(SessionExpired)
    case 401 => Wrappers.Some(RateLimited)
    case 402 => Wrappers.Some(HostShuttingDown)
    case 403 => Wrappers.Some(AuthFailed)
    case _ => Wrappers.None
  }

  /** The discriminants are distinct: the wire code identifies the error. */
  lemma CodeRoundTrip(e: ErrorCode)
    ensures FromCode(Code(e)) == Wrappers.Some(e)
    ensures Code(e) < 0x1_0000
  {
  }

  /** The hundreds digit names the family: general, file, I/O, lock, connection. */
  lemma CodeFamilies(e: ErrorCode)
    ensures Code(e) < 100 <==> e in {Ok, Unknown, ProtocolErr, NotImplemented, TimeoutCode}
    ensures 100 <= Code(e) < 200 <==> e in {FileNotFound, NotADirectory, NotAFile,
      PermissionDenied, PathTraversalCode, NameTooLong, AlreadyExists, NotEmpty}
    ensures 200 <= Code(e) < 300 <==> e in {IoError, ChecksumMismatchCode, ChunkOutOfRange}
    ensures 300 <= Code(e) < 400 <==> e in {LockNotHeld, LockExpired, LockConflict}
    ensures 400 <= Code(e) <==> e in {SessionExpired, RateLimited, HostShuttingDown, AuthFailed}
  {
  }

  /** `From<&ProtocolError> for ErrorCode`. */
  function ToErrorCode(e: ProtocolError): (c: ErrorCode)
    ensures e.PathTraversal? <==> c == PathTraversalCode
    ensures e.ChecksumMismatch? <==> c == ChecksumMismatchCode
    ensures e.InvalidChunkId? <==> c == ChunkOutOfRange
    ensures e.Timeout? <==> c == TimeoutCode
    ensures c == ProtocolErr <==>
      !(e.PathTraversal? || e.ChecksumMismatch? || e.InvalidChunkId? || e.Timeout?)
  {
    match e
    case InvalidMessage(_) => ProtocolErr
    case PathTraversal(_) => PathTraversalCode
    case Serialization(_) => ProtocolErr
    case Deserialization(_) => ProtocolErr
    case ChecksumMismatch => ChecksumMismatchCode
    case MessageTooLarge(_, _) => ProtocolErr
    case VersionMismatch(_, _) => ProtocolErr
    case InvalidChunkId => ChunkOutOfRange
    case Timeout => TimeoutCode
  }

  const ENOENT: int := 2
  const EIO: int := 5
  const EAGAIN: int := 11
  const EACCES: int := 13
  const EEXIST: int := 17
  const ENOTDIR: int := 20
  const EISDIR: int := 21
  const EINVAL: int := 22
  const ENAMETOOLONG: int := 36
  const ENOLCK: int := 37
  const ENOTEMPTY: int := 39
  const EROFS: int := 30
  const ETIMEDOUT: int := 110

  /** `ErrorCode::to_errno`. */
  function ToErrno(c: ErrorCode): (n: int)
    ensures n == 0 <==> c == Ok
    ensures n == EACCES <==> c in {PermissionDenied, PathTraversalCode}
    ensures n == EAGAIN <==> c in {LockConflict, RateLimited}
    ensures n == ENOLCK <==> c in {LockNotHeld, LockExpired}
    ensures n == EIO <== c in {Unknown, ProtocolErr, NotImplemented, SessionExpired,
                               HostShuttingDown, AuthFailed, IoError, ChecksumMismatchCode}
  {
    match c
    case Ok => 0
    case FileNotFound => ENOENT
    case NotADirectory => ENOTDIR
    case NotAFile => EISDIR
    case PermissionDenied => EACCES
    case PathTraversalCode => EACCES
    case NameTooLong => ENAMETOOLONG
    case AlreadyExists => EEXIST
    case NotEmpty => ENOTEMPTY
    case IoError => EIO
    case ChecksumMismatchCode => EIO
    case ChunkOutOfRange => EINVAL
    case LockNotHeld => ENOLCK
    case LockExpired => ENOLCK
    case LockConflict => EAGAIN
    case TimeoutCode => ETIMEDOUT
    case RateLimited => EAGAIN
    case _ => EIO
  }

  /** A protocol error always reaches the kernel as a non-zero errno. */
  lemma ProtocolErrorsAreErrors(e: ProtocolError)
    ensures ToErrno(ToErrorCode(e)) != 0
    ensures e.PathTraversal? ==> ToErrno(ToErrorCode(e)) == EACCES
  {
  }
}
