/** Types shared by the models: bytes, kernel error numbers and results. */
module Base {

  type Byte = x: int | 0 <= x < 256

  datatype Errno = Inval | NoEnt | NoMem | NoSpace | NoSys | Io | Busy | Pipe | Perm | Range

  datatype Option<+T> = None | Some(value: T)

  datatype Result<+T> = Ok(value: T) | Err(error: Errno)

  /** The little-endian 32-bit word stored at the start of `b`. */
  function Le32(b: seq<Byte>): (w: int)
    requires |b| == 4
    ensures 0 <= w < 0x1_0000_0000
  {
    b[0] as int + 256 * (b[1] as int) + 65536 * (b[2] as int) + 16777216 * (b[3] as int)
  }

  /** The four little-endian bytes of a 32-bit word. */
  function ToLe32(w: int): (b: seq<Byte>)
    requires 0 <= w < 0x1_0000_0000
    ensures |b| == 4
  {
    [w % 256, (w / 256) % 256, (w / 65536) % 256, w / 16777216]
  }

  lemma Le32RoundTrip(w: int)
    requires 0 <= w < 0x1_0000_0000
    ensures Le32(ToLe32(w)) == w
  {
    assert w / 256 == (w / 65536) * 256 + (w / 256) % 256;
    assert w / 65536 == (w / 16777216) * 256 + (w / 65536) % 256;
  }
}
