/** What the models share: an optional value, the C type uint8_t, and a count of one fact. */
module Common {

  datatype Option<+T> = None | Some(value: T)

  type Byte = b: nat | b < 0x100

  function One(b: bool): nat {
    if b then 1 else 0
  }
}
