/** Bytes, IP addresses and the sequence helpers shared by the other modules. */
module Net {
  newtype byte = x: int | 0 <= x < 0x100

  datatype Option<+T> = None | Some(value: T)

  datatype RawIpAddr = V4(octets: seq<byte>) | V6(octets: seq<byte>)

  /** An address in network byte order: four octets or sixteen. */
  type IpAddr = a: RawIpAddr | |a.octets| == (if a.V4? then 4 else 16)
    witness V4([0, 0, 0, 0])

  type Port = p: nat | p < 0x1_0000

  datatype SocketAddr = SocketAddr(ip: IpAddr, port: Port)

  const UNSPECIFIED: IpAddr := V4([0, 0, 0, 0])

  /** Taking from and dropping within the first of two sequences. */
  lemma TakeDrop<T>(x: seq<T>, y: seq<T>, n: nat)
    requires n <= |x|
    ensures (x + y)[..n] == x[..n] && (x + y)[n..] == x[n..] + y
  {
  }

  function Max(a: int, b: int): int { if a < b then b else a }

  function Min(a: int, b: int): int { if a < b then a else b }
}
