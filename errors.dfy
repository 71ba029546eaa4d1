/**
 * The error surface of the adapters: the native errors of an SFTP session, the
 * status code of a WebDAV error, and the single PersistenceError kind every
 * adapter operation raises to its callers.
 */
module Errors {

  /** The errno values the modelled SFTP server reports through IOError. */
  datatype Errno = ENOENT | EEXIST | ENOTDIR | EISDIR | ENOTEMPTY | EACCES | EINVAL | EPERM | ENOSPC | EIO

  /** What a paramiko session raises: IOError (with an errno), EOFError or SSHException. */
  datatype SftpError = IOError(errno: Errno) | EOFError | SSHException

  /** The status code carried by a WebDAV library error. */
  type StatusCode = nat

  /** WebDAV status code for a missing resource (CODE_NOT_FOUND). */
  const CodeNotFound: StatusCode := 404

  /**
   * The one failure kind callers see. Native errors are wrapped exactly once,
   * at the operation that issued the native call; the message text is not modelled.
   */
  datatype PersistenceError =
    | SftpCallFailed(cause: SftpError)
    | WebdavCallFailed(code: StatusCode)
    | NotImplemented
    | TooDeeplyNested
    | EmptyResourceName
}
