/** Small types shared by the machine models. */
module Basics {
  datatype Option<+T> = None | Some(value: T)

  /** The four condition flags. */
  datatype Flags = Flags(n: bool, z: bool, c: bool, v: bool)

  /** A key of a register file. */
  datatype Reg = R(n: bv32)
}
