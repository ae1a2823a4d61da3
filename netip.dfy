/**
 * IP addresses as the responder sees them after parsing: a value tagged with
 * its family. The textual parser itself belongs to the Go standard library
 * (net/netip.ParseAddr) and is not modelled; it enters the model as a
 * parameter of type Parser.
 */
module Netip {
  import opened Wrappers

  newtype byte = x: int | 0 <= x < 256

  /** A parsed address: four octets for IPv4, sixteen octets and an optional zone for IPv6. */
  datatype Addr = V4(octets: seq<byte>) | V6(octets: seq<byte>, zone: string) {
    predicate WellFormed() {
      if V4? then |octets| == 4 else |octets| == 16
    }

    predicate Is4() { V4? }

    predicate Is6() { V6? }

    /** The address bytes without the zone, 4 or 16 of them. */
    function AsSlice(): seq<byte> { octets }
  }

  type IP = a: Addr | a.WellFormed() witness V4([0, 0, 0, 0])

  /** A strict address-literal parser: Some(address) on success, None on error. */
  type Parser = string -> Option<IP>
}
