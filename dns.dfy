/**
 * The part of the DNS message library the responder relies on: constants,
 * questions, A/AAAA resource records, messages, and the two reply helpers.
 * Messages are values; wire format is not modelled.
 */
module Dns {
  import opened Netip

  newtype uint16 = x: int | 0 <= x < 0x1_0000

  const TypeA: uint16 := 1        // RFC 1035 section 3.2.2
  const TypeAAAA: uint16 := 28    // RFC 3596 section 2.1
  const ClassINET: uint16 := 1    // RFC 1035 section 3.2.4
  const ClassCHAOS: uint16 := 3   // RFC 1035 section 3.2.4

  const OpcodeQuery: int := 0
  const RcodeSuccess: int := 0    // RFC 1035 section 4.1.1
  const RcodeNameError: int := 3
  const RcodeRefused: int := 5

  datatype Question = Question(name: string, qtype: uint16, qclass: uint16)

  datatype RRHeader = RRHeader(name: string, rrtype: uint16, rrclass: uint16, ttl: nat)

  /** An A record (RFC 1035 section 3.4.1) or an AAAA record (RFC 3596 section 2.2). */
  datatype RR = A(hdr: RRHeader, a: seq<byte>) | AAAA(hdr: RRHeader, aaaa: seq<byte>)

  datatype Msg = Msg(
    id: uint16,
    response: bool,
    opcode: int,
    authoritative: bool,
    recursionDesired: bool,
    checkingDisabled: bool,
    rcode: int,
    question: seq<Question>,
    answer: seq<RR>)

  /** The zero value of a message, as `new(dns.Msg)` yields. */
  const EmptyMsg := Msg(0, false, 0, false, false, false, RcodeSuccess, [], [])

  /**
   * Msg.SetReply of the DNS library: echo the request's id, opcode and first
   * question, set the response bit and a success rcode, copy the RD and CD
   * bits of a standard query. Answer and authoritative bit are left alone.
   */
  function SetReply(m: Msg, request: Msg): Msg {
    var rd := if request.opcode == OpcodeQuery then request.recursionDesired else m.recursionDesired;
    var cd := if request.opcode == OpcodeQuery then request.checkingDisabled else m.checkingDisabled;
    m.(id := request.id, response := true, opcode := request.opcode,
       recursionDesired := rd, checkingDisabled := cd, rcode := RcodeSuccess,
       question := if |request.question| > 0 then [request.question[0]] else m.question)
  }

  /** Msg.SetRcode of the DNS library: SetReply, then overwrite the rcode. */
  function SetRcode(m: Msg, request: Msg, rcode: int): Msg {
    SetReply(m, request).(rcode := rcode)
  }
}
