/** Machine integers shared by the models. */
module Bytes {
  newtype byte = x: int | 0 <= x < 0x100
  newtype uint16 = x: int | 0 <= x < 0x1_0000
}
