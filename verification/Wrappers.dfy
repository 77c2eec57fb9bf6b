// Small result types shared by all modules.
module Wrappers {

  datatype Option<+T> = None | Some(value: T)

  // The outcome of reading a value from a byte buffer: the value and the
  // address after it, or Fault where the C++ code would move its cursor out of
  // the buffer (it checks no bounds) or would ask Lua for a negative length.
  datatype Read<+T> = Got(value: T, next: nat) | Fault
}
