/** Addresses and the fixed network parameters the application uses. */
module NetConfig {
  import opened Encodings

  /** An IP address as its bytes: 4 for IPv4, 16 for IPv6. */
  type IPAddress = a: seq<byte> | |a| == 4 || |a| == 16 witness [0, 0, 0, 0]

  /** An IPv4 address. */
  type IPv4 = a: seq<byte> | |a| == 4 witness [0, 0, 0, 0]

  datatype IPEndPoint = IPEndPoint(address: IPAddress, port: int)

  /** The port on which every instance listens. */
  const Port := 9583

  /** Size in bytes of the length prefix that precedes every message. */
  const RequestHeaderSize := 4

  /** The endpoint of the instance on this machine. */
  const Loopback := IPEndPoint([127, 0, 0, 1], Port)
}
