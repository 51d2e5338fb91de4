/** Values shared by every component: bytes, little-endian words, errors and results. */
module UsbBase {

  type byte = x: int | 0 <= x < 0x100
  type u16 = x: int | 0 <= x < 0x1_0000

  datatype Option<+T> = None | Some(value: T)

  /** The error type of the library. Message texts are kept only as short labels. */
  datatype UsbError =
    | Io(code: int)
    | InvalidDescriptor
    | DeviceNotFound
    | PermissionDenied
    | Timeout
    | Stall
    | InvalidHandle
    | Unsupported
    | Other(what: string)

  datatype Result<+T> = Ok(value: T) | Err(error: UsbError) {
    predicate IsFailure() {
      Err?
    }

    function PropagateFailure<U>(): Result<U>
      requires Err?
    {
      Err(error)
    }

    function Extract(): T
      requires Ok?
    {
      value
    }
  }

  function Le16(lo: byte, hi: byte): u16 {
    lo + 0x100 * hi
  }

  function Lo(w: u16): byte {
    w % 0x100
  }

  function Hi(w: u16): byte {
    w / 0x100
  }

  function Min(a: int, b: int): int {
    if a <= b then a else b
  }

  function Zeros(n: nat): (z: seq<byte>)
    ensures |z| == n
    ensures forall i :: 0 <= i < n ==> z[i] == 0
  {
    seq(n, _ => 0)
  }

  lemma ConcatAssociative<T>(a: seq<T>, b: seq<T>, c: seq<T>)
    ensures (a + b) + c == a + (b + c)
  {
  }

  lemma SliceOfSlice<T>(s: seq<T>, a: nat, b: nat, n: nat)
    requires a + n <= b <= |s|
    ensures s[a..b][..n] == s[a..a + n] && s[a..b][n..] == s[a + n..b]
  {
  }
}
