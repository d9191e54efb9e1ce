/** Types shared by the UMEM allocator, the descriptor rings and the device:
    fixed-width integers, the `io::Result` error kinds that the code raises,
    and the kernel's packet descriptor `xdp_desc`. */
module XdpCommon {

  datatype Option<+T> = None | Some(value: T)

  /** The `io::ErrorKind`s the modelled code produces. */
  datatype ErrorKind = InvalidInput | WouldBlock | Other

  datatype Result<+T> = Ok(value: T) | Err(error: ErrorKind)

  type u16 = x: int | 0 <= x < 0x1_0000
  type u32 = x: int | 0 <= x < 0x1_0000_0000
  type u64 = x: int | 0 <= x < 0x1_0000_0000_0000_0000

  const U16_MAX: u16 := 0xFFFF

  /** `libc::xdp_desc`: a byte address inside the UMEM area, a length and option bits. */
  datatype XdpDesc = XdpDesc(addr: u64, len: u32, options: u32)

  /** `vec![0; len]` */
  function Zeros(len: nat): (z: seq<bv8>)
    ensures |z| == len && forall i :: 0 <= i < len ==> z[i] == 0
  {
    seq(len, _ => 0)
  }
}
