/** Values shared by the models: bytes, addresses, and the option type. */
module Net {

  type Byte = b: int | 0 <= b < 256

  /** An IPv4 address as its four octets in wire order. */
  datatype Ip = Ip(a: Byte, b: Byte, c: Byte, d: Byte)

  const NO_IP: Ip := Ip(0, 0, 0, 0)

  /** The value `ntohl` gives: the order people count addresses in. */
  function HostOrder(ip: Ip): int {
    ip.a * 0x100_0000 + ip.b * 0x1_0000 + ip.c * 0x100 + ip.d
  }

  /** The `uint32_t` a little-endian processor stores: the last octet weighs most. */
  function WireOrder(ip: Ip): int {
    ip.d * 0x100_0000 + ip.c * 0x1_0000 + ip.b * 0x100 + ip.a
  }

  /** `htonl(ntohl(ip) + 1)`, wrapping at the top. */
  function Next(ip: Ip): (r: Ip)
    ensures HostOrder(r) == if ip == Ip(255, 255, 255, 255) then 0 else HostOrder(ip) + 1
  {
    if ip.d < 255 then ip.(d := ip.d + 1)
    else if ip.c < 255 then Ip(ip.a, ip.b, ip.c + 1, 0)
    else if ip.b < 255 then Ip(ip.a, ip.b + 1, 0, 0)
    else if ip.a < 255 then Ip(ip.a + 1, 0, 0, 0)
    else NO_IP
  }

  /** Six hardware-address octets, in wire order. */
  datatype Mac = Mac(b0: Byte, b1: Byte, b2: Byte, b3: Byte, b4: Byte, b5: Byte)

  datatype Option<+T> = None | Some(value: T)
}
