/** Types and constants shared by both sides of the protocol: bytes, the message, TLV
    and error codes of the wire format, and the chunk size. */
module Protocol {

  newtype byte = b: int | 0 <= b < 256

  type Bytes = seq<byte>

  /** A relative path, as the bytes of its generic string form. */
  type Path = Bytes

  /** The string form of an MD5 digest: 32 hexadecimal digits, so never empty and NUL free. */
  type Digest = d: Bytes | |d| == 32 && 0 !in d witness seq(32, _ => 48)

  /** The file digest, MD5 of the relative path followed by the content; left uninterpreted. */
  type Hash = (Path, Bytes) -> Digest

  datatype Option<+T> = None | Some(value: T)

  // Size limit of one message, on both sides.
  const CHUNK_SIZE: nat := 65536

  // Message types.
  const NONE: byte := 0
  const CREATE: byte := 1
  const UPDATE: byte := 2
  const ERASE: byte := 3
  const LIST: byte := 4
  const AUTH: byte := 5
  const RETRIEVE: byte := 6
  const KEEP_ALIVE: byte := 7

  // TLV types.
  const USRN: byte := 0
  const PSWD: byte := 1
  const ITEM: byte := 2
  const END: byte := 3
  const OK: byte := 4
  const ERROR: byte := 5
  const CONTENT: byte := 6

  // Error codes.
  const ERR_NONE: nat := 0
  const ERR_NO_CONTENT: nat := 1
  const ERR_MSG_TYPE_REJECTED: nat := 2
  const ERR_CREATE_NO_ITEM: nat := 101
  const ERR_CREATE_NO_CONTENT: nat := 102
  const ERR_CREATE_ALREADY_EXIST: nat := 103
  const ERR_CREATE_NO_MATCH: nat := 105
  const ERR_UPDATE_NO_ITEM: nat := 201
  const ERR_UPDATE_NO_CONTENT: nat := 202
  const ERR_UPDATE_NOT_EXIST: nat := 203
  const ERR_UPDATE_ALREADY_UPDATED: nat := 204
  const ERR_UPDATE_NO_MATCH: nat := 206
  const ERR_ERASE_NO_ITEM: nat := 301
  const ERR_ERASE_NO_MATCH: nat := 302
  const ERR_LIST_FAILED: nat := 401
  const ERR_AUTH_NO_USRN: nat := 501
  const ERR_AUTH_NO_PSWD: nat := 502
  const ERR_AUTH_FAILED: nat := 503
  const ERR_RETRIEVE_FAILED: nat := 601

  // The digest string of an entry whose content is still being uploaded.
  const TEMP: Bytes := [84, 69, 77, 80]

  // What an update appends to a path to name its working copy.
  const TEMP_SUFFIX: Bytes := [46, 116, 101, 109, 112]
}
