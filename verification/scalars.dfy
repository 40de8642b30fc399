/** Fixed-width integers and opaque identifiers used by the API's records. */
module Scalars {

  newtype u8 = x: int | 0 <= x < 0x100

  newtype u32 = x: int | 0 <= x < 0x1_0000_0000

  newtype u64 = x: int | 0 <= x < 0x1_0000_0000_0000_0000

  /** A UUID, as its 128-bit value. */
  newtype Uuid = x: int | 0 <= x < 0x1_0000_0000_0000_0000_0000_0000_0000_0000

  /** A UTC instant (`DateTime<Utc>`), as a count of seconds on a linear clock. */
  type Timestamp = int
}
