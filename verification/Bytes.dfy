/** Raw bytes: md5 keys, payload files and cursor payloads. */
module Bytes {

  type Byte = x: int | 0 <= x < 256

  /** A record key; the source stores 16 raw bytes. */
  type Md5 = seq<Byte>
}
