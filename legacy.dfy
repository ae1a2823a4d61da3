/**
 * The older copy of the handler kept in main.go. It differs from d2ip.go in
 * its shape check only: it compares the question's type, not its class,
 * with ClassINET. Both constants are 1, so the copy accepts exactly the
 * single-question queries of type A, of any class. The suffix walk, the
 * decoding and reject are the same functions as in d2ip.go.
 */
module LegacyMain {
  import opened Wrappers
  import opened Netip
  import opened Dns
  import opened Trimmer
  import opened Hyphen
  import opened Responder

  /** The shape check at main.go:129 as written: Qtype compared with ClassINET. */
  predicate ValidLegacyQuery(q: Msg) {
    |q.question| == 1 && q.question[0].qtype == ClassINET
  }

  /** The reply the main.go copy of resp gives to q. */
  function LegacyReply(q: Msg, domains: set<string>, parse: Parser): Msg {
    if !ValidLegacyQuery(q) then Reject(q, RcodeRefused) else Answer(q, q.question[0], domains, parse)
  }

  /** The d2ip handler as declared in main.go. */
  class LegacyD2ip {
    const domains: set<string>
    const parseAddr: Parser
    var queryCounter: nat
    var errCounter: nat

    constructor (domains: set<string>, parseAddr: Parser)
      ensures this.domains == domains && this.parseAddr == parseAddr
      ensures queryCounter == 0 && errCounter == 0
    {
      this.domains := domains;
      this.parseAddr := parseAddr;
      queryCounter := 0;
      errCounter := 0;
    }

    /** resp of main.go: the same counting rule as d2ip.go, the type-based shape check. */
    method Resp(q: Msg) returns (r: Msg)
      modifies this`queryCounter, this`errCounter
      ensures r == LegacyReply(q, domains, parseAddr)
      ensures queryCounter == old(queryCounter) + 1
      ensures errCounter == old(errCounter) + (if r.rcode == RcodeSuccess then 0 else 1)
    {
      queryCounter := queryCounter + 1;
      if |q.question| != 1 || q.question[0].qtype != ClassINET {
        errCounter := errCounter + 1;
        return Reject(q, RcodeRefused);
      }
      var failed;
      r, failed := Serve(q, q.question[0], domains, parseAddr);
      if failed {
        errCounter := errCounter + 1;
      }
    }
  }

  /** The legacy check accepts a single question exactly when its type is A; the class is never read. */
  lemma LegacyAcceptsOnlyTypeA(q: Msg)
    ensures ValidLegacyQuery(q) <==> |q.question| == 1 && q.question[0].qtype == TypeA
  {
  }

  /**
   * Consequently every AAAA query is refused by the main.go copy, and no
   * reply of it ever carries an AAAA record.
   */
  lemma LegacyNeverAnswersAaaa(q: Msg, domains: set<string>, parse: Parser)
    ensures |q.question| == 1 && q.question[0].qtype == TypeAAAA ==>
      LegacyReply(q, domains, parse).rcode == RcodeRefused && LegacyReply(q, domains, parse).answer == []
    ensures forall rr :: rr in LegacyReply(q, domains, parse).answer ==> rr.A?
  {
  }

  /** On a single type A question of class INET the two copies give the same reply. */
  lemma LegacyAgreesOnInternetA(q: Msg, domains: set<string>, parse: Parser)
    requires |q.question| == 1 && q.question[0].qtype == TypeA && q.question[0].qclass == ClassINET
    ensures LegacyReply(q, domains, parse) == Reply(q, domains, parse)
  {
  }

  /**
   * On a single type A question of another class, d2ip.go refuses while the
   * main.go copy goes on to trim and answer.
   */
  lemma LegacyIgnoresClass(q: Msg, domains: set<string>, parse: Parser)
    requires |q.question| == 1 && q.question[0].qtype == TypeA && q.question[0].qclass != ClassINET
    ensures Reply(q, domains, parse) == Reject(q, RcodeRefused)
    ensures LegacyReply(q, domains, parse) == Answer(q, q.question[0], domains, parse)
  {
  }

  /** The address 2000::1 as sixteen bytes. */
  const Addr2000_1: IP := V6([0x20, 0, 0, 0, 0, 0, 0, 0, 0, 0, 0, 0, 0, 0, 0, 1], "")

  /** An AAAA/IN query for the hyphen-encoded name of 2000::1 under "example.". */
  const ExampleQuery := Msg(7, false, OpcodeQuery, false, true, false, RcodeSuccess,
                            [Question("2000--1.example.", TypeAAAA, ClassINET)], [])

  /** A parser that reads exactly "2000::1". */
  const ExampleParser: Parser := s => if s == "2000::1" then Some(Addr2000_1) else None

  /** d2ip.go answers ExampleQuery with one AAAA record for 2000::1. */
  lemma ExampleQueryAnswered()
    ensures Reply(ExampleQuery, {"example."}, ExampleParser).rcode == RcodeSuccess
    ensures Reply(ExampleQuery, {"example."}, ExampleParser).answer
            == [AAAA(RRHeader("2000--1.example.", TypeAAAA, ClassINET, 86400), Addr2000_1.octets)]
  {
    var name := ExampleQuery.question[0].name;
    assert Trim(name, {"example."}) == Trimmed("2000--1", true) by {
      assert "2000--1" + "." + "example." == name;
      TrimRoundTripSingle("2000--1", "example.");
    }
    assert ExampleParser(DecodePayload("2000--1")) == Some(Addr2000_1) by {
      DecodeExample();
    }
    DecodedQueryAnswered(ExampleQuery, {"example."}, ExampleParser, Addr2000_1);
  }

  /**
   * A concrete input that separates the copies: ExampleQuery with suffix set
   * {"example."} and ExampleParser. d2ip.go answers it with one AAAA record;
   * main.go refuses it.
   */
  lemma AaaaQueryRefusedCounterexample()
    ensures Reply(ExampleQuery, {"example."}, ExampleParser).rcode == RcodeSuccess
    ensures |Reply(ExampleQuery, {"example."}, ExampleParser).answer| == 1
    ensures LegacyReply(ExampleQuery, {"example."}, ExampleParser).rcode == RcodeRefused
    ensures LegacyReply(ExampleQuery, {"example."}, ExampleParser).answer == []
  {
    ExampleQueryAnswered();
  }
}
