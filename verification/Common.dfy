/** Names shared by the modules. */
module Common {

  datatype Option<T> = None | Some(value: T)

  type Bytes = seq<bv8>

  /** nal_unit_type: six bits of the first header byte of an HEVC NAL unit. */
  function NalType(b: bv8): bv8 { (b >> 1) & 0x3F }
}
