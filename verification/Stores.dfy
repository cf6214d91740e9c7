/** What a datanode keeps: for every path it holds, a version and the bytes. */
module Stores {
  import opened Bytes

  type Path = ByteString

  type Name = ByteString

  const SLASH: byte := 47

  datatype Copy = Copy(version: int, data: ByteString)

  type Store = map<Path, Copy>
}
