/**
 * The query handler of d2ip.go: validate the query, trim the registered
 * suffix, decode and parse the address, and answer with one A or AAAA
 * record, or reject with a DNS status code. Two counters record every query
 * and every rejection.
 */
module Responder {
  import opened Wrappers
  import opened Netip
  import opened Dns
  import opened Trimmer
  import opened Hyphen

  /** The TTL of every answer record: one day, 3600 * 24 seconds. */
  const AnswerTtl: nat := 3600 * 24

  /** The shape check of resp: exactly one question, of class INET. */
  predicate ValidQuery(q: Msg) {
    |q.question| == 1 && q.question[0].qclass == ClassINET
  }

  /** reject: a fresh reply to q carrying `rcode` and no records. */
  function Reject(q: Msg, rcode: int): (r: Msg)
    ensures r.rcode == rcode && r.answer == [] && !r.authoritative
    ensures r.response && r.id == q.id && r.opcode == q.opcode
    ensures |q.question| > 0 ==> r.question == [q.question[0]]
  {
    SetRcode(EmptyMsg, q, rcode)
  }

  function ARecord(name: string, addr: IP): RR {
    A(RRHeader(name, TypeA, ClassINET, AnswerTtl), addr.AsSlice())
  }

  function AaaaRecord(name: string, addr: IP): RR {
    AAAA(RRHeader(name, TypeAAAA, ClassINET, AnswerTtl), addr.AsSlice())
  }

  /**
   * The success reply: authoritative, and one record when the query type and
   * the address family agree, none otherwise.
   */
  function BuildAnswer(q: Msg, question: Question, addr: IP): Msg {
    var r := SetReply(EmptyMsg, q).(authoritative := true);
    if question.qtype == TypeA && addr.Is4() then r.(answer := r.answer + [ARecord(question.name, addr)])
    else if question.qtype == TypeAAAA && addr.Is6() then r.(answer := r.answer + [AaaaRecord(question.name, addr)])
    else r
  }

  /** Everything resp does after the shape check, for the query's question. */
  function Answer(q: Msg, question: Question, domains: set<string>, parse: Parser): Msg {
    var t := Trim(question.name, domains);
    if !t.ok then Reject(q, RcodeRefused)
    else match parse(DecodePayload(t.payload))
      case None => Reject(q, RcodeNameError)
      case Some(addr) => BuildAnswer(q, question, addr)
  }

  /** The reply resp gives to q. */
  function Reply(q: Msg, domains: set<string>, parse: Parser): Msg {
    if !ValidQuery(q) then Reject(q, RcodeRefused) else Answer(q, q.question[0], domains, parse)
  }

  /**
   * The steps of resp after the shape check: trim, decode, parse, build.
   * `failed` reports a rejection, which is when the rcode is not success.
   */
  method Serve(q: Msg, question: Question, domains: set<string>, parse: Parser) returns (r: Msg, failed: bool)
    ensures r == Answer(q, question, domains, parse)
    ensures failed <==> r.rcode != RcodeSuccess
  {
    // The in-place rendering of Answer and BuildAnswer, step by step as resp runs them.
    var s, suffixOk := TrimFqdn(question.name, domains);
    if !suffixOk {
      return Reject(q, RcodeRefused), true;
    }
    if '-' in s {
      s := ReplaceAll(s, '-', ':');
    }
    var addr := parse(s);
    if addr.None? {
      return Reject(q, RcodeNameError), true;
    }
    r := SetReply(EmptyMsg, q);
    r := r.(authoritative := true);
    if question.qtype == TypeA {
      if addr.value.Is4() {
        r := r.(answer := r.answer + [ARecord(question.name, addr.value)]);
      }
    } else if question.qtype == TypeAAAA {
      if addr.value.Is6() {
        r := r.(answer := r.answer + [AaaaRecord(question.name, addr.value)]);
      }
    }
    failed := false;
  }

  /** The d2ip handler: its suffix set, its address parser and its two counters. */
  class D2ip {
    const domains: set<string>
    const parseAddr: Parser
    var queryCounter: nat
    var errCounter: nat

    constructor (domains: set<string>, parseAddr: Parser)
      ensures this.domains == domains && this.parseAddr == parseAddr
      ensures queryCounter == 0 && errCounter == 0
    {
      this.domains := domains;
      this.parseAddr := parseAddr;
      queryCounter := 0;
      errCounter := 0;
    }

    /**
     * resp: count the query, answer it, and count it once more as an error
     * when the reply is a rejection.
     */
    method Resp(q: Msg) returns (r: Msg)
      modifies this`queryCounter, this`errCounter
      ensures r == Reply(q, domains, parseAddr)
      ensures queryCounter == old(queryCounter) + 1
      ensures errCounter == old(errCounter) + (if r.rcode == RcodeSuccess then 0 else 1)
    {
      queryCounter := queryCounter + 1;
      if |q.question| != 1 || q.question[0].qclass != ClassINET {
        errCounter := errCounter + 1;
        return Reject(q, RcodeRefused);
      }
      var failed;
      r, failed := Serve(q, q.question[0], domains, parseAddr);
      if failed {
        errCounter := errCounter + 1;
      }
    }
  }

  /**
   * A query that does not have exactly one question of class INET is refused
   * with no records, whatever the suffix set and parser: trimFqdn is never
   * consulted.
   */
  lemma MalformedQueryRefused(q: Msg, d1: set<string>, p1: Parser, d2: set<string>, p2: Parser)
    requires !ValidQuery(q)
    ensures Reply(q, d1, p1) == Reply(q, d2, p2)
    ensures Reply(q, d1, p1).rcode == RcodeRefused && Reply(q, d1, p1).answer == []
  {
  }

  /** A question of class CHAOS is refused and counted as an error, whatever the suffix set. */
  lemma ChaosQueryRefused(q: Msg, domains: set<string>, parse: Parser)
    requires |q.question| == 1 && q.question[0].qclass == ClassCHAOS
    ensures Reply(q, domains, parse) == Reject(q, RcodeRefused)
    ensures Reply(q, domains, parse).rcode != RcodeSuccess && Reply(q, domains, parse).answer == []
  {
  }

  /** A well-shaped query under no registered suffix is refused, whatever the parser. */
  lemma UnknownSuffixRefused(q: Msg, domains: set<string>, p1: Parser, p2: Parser)
    requires ValidQuery(q) && !Trim(q.question[0].name, domains).ok
    ensures Reply(q, domains, p1) == Reply(q, domains, p2)
    ensures Reply(q, domains, p1).rcode == RcodeRefused && Reply(q, domains, p1).answer == []
  {
  }

  /** A payload that does not parse as an address gets Name Error and no records. */
  lemma BadAddressNameError(q: Msg, domains: set<string>, parse: Parser)
    requires ValidQuery(q) && Trim(q.question[0].name, domains).ok
    requires parse(DecodePayload(Trim(q.question[0].name, domains).payload)).None?
    ensures Reply(q, domains, parse).rcode == RcodeNameError && Reply(q, domains, parse).answer == []
  {
  }

  /**
   * An apex query (the name is a registered suffix) has the empty payload,
   * which a strict parser rejects: Name Error.
   */
  lemma ApexQueryNameError(q: Msg, domains: set<string>, parse: Parser)
    requires ValidQuery(q) && q.question[0].name in domains
    requires parse("").None?
    ensures Reply(q, domains, parse).rcode == RcodeNameError
  {
  }

  /**
   * A query that decodes to `addr` is answered with success and authority:
   * one A record iff the type is A and the address is IPv4, one AAAA record
   * iff the type is AAAA and the address is IPv6, no record otherwise.
   */
  lemma DecodedQueryAnswered(q: Msg, domains: set<string>, parse: Parser, addr: IP)
    requires ValidQuery(q) && Trim(q.question[0].name, domains).ok
    requires parse(DecodePayload(Trim(q.question[0].name, domains).payload)) == Some(addr)
    ensures Reply(q, domains, parse).rcode == RcodeSuccess && Reply(q, domains, parse).authoritative
    ensures q.question[0].qtype == TypeA && addr.Is4() ==>
      Reply(q, domains, parse).answer == [A(RRHeader(q.question[0].name, TypeA, ClassINET, 86400), addr.octets)]
    ensures q.question[0].qtype == TypeAAAA && addr.Is6() ==>
      Reply(q, domains, parse).answer == [AAAA(RRHeader(q.question[0].name, TypeAAAA, ClassINET, 86400), addr.octets)]
    ensures !(q.question[0].qtype == TypeA && addr.Is4()) && !(q.question[0].qtype == TypeAAAA && addr.Is6()) ==>
      Reply(q, domains, parse).answer == []
  {
  }

  /**
   * Every reply, whatever the query: the rcode is success, Name Error or
   * Refused; a rejection carries no record and no authority; a success is
   * authoritative and carries at most one record, owned by the query name,
   * of class INET, TTL 86400, whose type is the query type, with 4 address
   * bytes for A and 16 for AAAA.
   */
  lemma ReplyShape(q: Msg, domains: set<string>, parse: Parser)
    ensures var r := Reply(q, domains, parse);
      && r.rcode in {RcodeSuccess, RcodeNameError, RcodeRefused}
      && r.response && r.id == q.id
      && (r.rcode != RcodeSuccess ==> r.answer == [] && !r.authoritative)
      && (r.rcode == RcodeSuccess ==> ValidQuery(q) && r.authoritative && |r.answer| <= 1)
      && (forall rr :: rr in r.answer ==>
            && rr.hdr.name == q.question[0].name
            && rr.hdr.rrclass == ClassINET && rr.hdr.ttl == 86400
            && rr.hdr.rrtype == q.question[0].qtype
            && (rr.A? ==> |rr.a| == 4)
            && (rr.AAAA? ==> |rr.aaaa| == 16))
  {
  }

  /**
   * Round trip for IPv4: a type A query for an address literal joined to a
   * registered suffix that no longer registered key ends with is answered
   * with exactly that address.
   */
  lemma RoundTripV4(q: Msg, literal: string, suffix: string, domains: set<string>, parse: Parser, addr: IP)
    requires suffix in domains && suffix != "" && forall d :: d in domains && |d| > |suffix| ==> d[|d| - |suffix|..] != suffix
    requires '\\' !in literal && '-' !in literal
    requires q.question == [Question(literal + "." + suffix, TypeA, ClassINET)]
    requires parse(literal) == Some(addr) && addr.Is4()
    ensures Reply(q, domains, parse).rcode == RcodeSuccess
    ensures Reply(q, domains, parse).answer == [A(RRHeader(literal + "." + suffix, TypeA, ClassINET, 86400), addr.octets)]
  {
    TrimRoundTrip(literal, suffix, domains);
  }

  /**
   * Round trip for IPv6: a type AAAA query for a hyphen-encoded address
   * literal joined to a registered suffix that no longer registered key ends
   * with is answered with exactly that address.
   */
  lemma RoundTripV6(q: Msg, literal: string, suffix: string, domains: set<string>, parse: Parser, addr: IP)
    requires suffix in domains && suffix != "" && forall d :: d in domains && |d| > |suffix| ==> d[|d| - |suffix|..] != suffix
    requires '\\' !in literal && '-' !in literal
    requires q.question == [Question(Hyphenate(literal) + "." + suffix, TypeAAAA, ClassINET)]
    requires parse(literal) == Some(addr) && addr.Is6()
    ensures Reply(q, domains, parse).rcode == RcodeSuccess
    ensures Reply(q, domains, parse).answer == [AAAA(RRHeader(q.question[0].name, TypeAAAA, ClassINET, 86400), addr.octets)]
  {
    HyphenateKeepsBackslashes(literal);
    TrimRoundTrip(Hyphenate(literal), suffix, domains);
    HyphenRoundTrip(literal);
  }
}
