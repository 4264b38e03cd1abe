/** Socket addresses, as `std::net::SocketAddr` holds them: the client
    chooses its local address from the server's, and the video server
    replies to the address each datagram came from. */
module Net {

  datatype IpAddr = V4(octets: seq<bv8>) | V6(segments: seq<bv16>)

  datatype SocketAddr = SocketAddr(ip: IpAddr, port: nat)

  /** `0.0.0.0` or `::`. */
  predicate Unspecified(ip: IpAddr)
  {
    match ip
    case V4(octets) => octets == [0, 0, 0, 0]
    case V6(segments) => segments == [0, 0, 0, 0, 0, 0, 0, 0]
  }
}
