# d2ip responder — a Dafny model

d2ip is an authoritative DNS responder that answers from the query name
alone. A client asks for `<encoded-ip>.<suffix>.`, where the suffix is one
of the domains given with `-d`. The responder strips the suffix, turns every
`-` of the payload into `:` (so that IPv6 literals fit in DNS labels), parses
the result as an IP address, and answers with one A record (RFC 1035 section
3.4.1) or one AAAA record (RFC 3596 section 2.2) with TTL 86400, or rejects
the query with Refused (5) or Name Error (3) (RFC 1035 section 4.1.1). Two
counters record every query and every rejection.

The model covers the query handler of `d2ip.go` (`resp`, `trimFqdn`,
`reject`), the construction of the suffix set in `main.go`, and the older
copy of the handler that `main.go` also carries.

Files and modules:

- `wrappers.dfy` — `Wrappers.Option`.
- `netip.dfy` — `Netip`: parsed addresses tagged IPv4/IPv6; the address
  parser is the type `Parser = string -> Option<IP>`.
- `dns.dfy` — `Dns`: type, class and rcode constants, questions, A/AAAA
  records, messages as values, and the library's `SetReply`/`SetRcode`.
- `names.dfy` — `Names`: escaped dots, label starts, `dns.NextLabel`,
  `dns.IsFqdn`, `dns.Fqdn`.
- `trim.dfy` — `Trimmer`: `trimFqdn` as a loop (`TrimFqdn`), specified by
  the first registered label start (`FirstMatchFrom`, `Trim`).
- `hyphen.dfy` — `Hyphen`: the hyphen-to-colon decoding and its inverse.
- `responder.dfy` — `Responder`: the handler of `d2ip.go`, as the class
  `D2ip` with the two counters, and the reply as a function (`Reply`).
- `suffixes.dfy` — `Suffixes`: splitting `-d` on `,` and qualifying every
  piece.
- `legacy.dfy` — `LegacyMain`: the handler copy in `main.go`, whose shape
  check differs.

How the pieces fit. `D2ip.Resp` counts the query and checks the shape. It
then calls `Serve`, which runs `TrimFqdn`, decodes, parses and builds the
reply. `Resp` counts a rejection when `Serve` reports one. `Resp` is proved
to return `Reply(q, domains, parseAddr)`. The properties of the handler are
lemmas about `Reply`. `TrimFqdn` is proved to return `Trim(fqdn, domains)`,
and the suffix-walk properties are lemmas about `Trim`. The `trimFqdn` and
`reject` functions of `main.go` (main.go:196-214) are textually the same as
those of `d2ip.go`, so the model has each of them once, and the `main.go`
handler uses them.

On these points the model follows the code:

- Suffix lookup is an exact string comparison (d2ip.go:116). There is no
  case folding, so `Example.` does not match a registered `example.`.
- The walk never looks up the remainder that is only the final root dot. The
  separator at the last position starts no label. The remainder `.` is
  looked up only for the name `.` itself, or for a name ending in `..`
  (`Trimmer.RootAloneNeverLookedUp`).
- The counters are Prometheus counters, not 64-bit integers.
- The round trip "payload + suffix trims back to the payload" does not hold
  for every registered suffix. It fails when a longer registered key ends
  with the suffix and covers the end of the payload. With
  `{4.example., example.}`, `1.2.3.4.example.` trims to `1.2.3`
  (`Trimmer.TrimNestedSuffixesShortensPayload`). The round-trip lemmas
  therefore assume that no longer registered key ends with the suffix.

## Model

| member | source | states |
|---|---|---|
| `Names.NextLabel` | d2ip.go:114 | when not at the end, the next visited offset is just past the first unescaped dot at or after the current offset (never the last character); at the end no unescaped dot remains before the last character |
| `Names.Fqdn` | main.go:40 | the result ends in `.`, starts with the input, and is at most one character longer |
| `Names.FqdnKeepsQualified` | main.go:40 | an entry that is already fully qualified is registered unchanged |
| `Names.FqdnIdempotentUnlessEscaped` | main.go:40 | qualifying twice equals qualifying once, unless the input ends in an odd run of backslashes; in that case the appended dot is escaped and the result is not fully qualified |
| `Trimmer.FirstMatchFrom` | d2ip.go:114-123 | the offset found is a label start whose remainder is registered, and no label start before it has a registered remainder; `None` means no label start has one |
| `Trimmer.TrimFqdn` | d2ip.go:112-124 | the NextLabel-driven loop with its early return gives exactly `Trim`: the payload before the first registered label start, or `("", false)` |
| `Trimmer.TrimOkIff` | d2ip.go:114-123 | success iff some visited remainder is registered; on failure the payload is empty |
| `Trimmer.TrimSplitsName` | d2ip.go:115-120 | on success there is a registered offset with no registered offset before it (the longest registered suffix wins); at offset 0 the payload is empty, otherwise name = payload + "." + suffix |
| `Trimmer.ApexTrimsToEmpty` | d2ip.go:117-120 | a name that is itself registered trims to the empty payload |
| `Trimmer.RootAloneNeverLookedUp` | d2ip.go:114 | registering `.` changes nothing for a name other than `.` whose last label is not empty |
| `Trimmer.TrimRoundTrip` | d2ip.go:112-121 | a backslash-free payload joined to a registered suffix trims back to that payload, provided no longer registered key ends with that suffix |
| `Trimmer.TrimRoundTripSingle` | d2ip.go:112-121 | with a single registered suffix, every backslash-free payload joined to it trims back to itself |
| `Trimmer.TrimTwoSuffixes` | d2ip.go:114-121 | with `{a.com., bb.org.}` registered, `1.2.3.4.a.com.` trims to `("1.2.3.4", true)`: the shorter of two unrelated suffixes round-trips too |
| `Trimmer.TrimNestedSuffixesShortensPayload` | d2ip.go:114-121 | with `{4.example., example.}` registered, `1.2.3.4.example.` trims to `("1.2.3", true)`: the longer key wins |
| `Trimmer.TrimNoSuffix` | d2ip.go:123 | a name that ends in no registered suffix gives `("", false)` |
| `Trimmer.TrimTestCasesMatch` | d2ip_test.go:39-41 | `1.2.3.4.5.6.` with `{4.5.6.}` gives `("1.2.3", true)`; `2000--1.4.5.6.` gives `("2000--1", true)` |
| `Trimmer.TrimTestCasesNoMatch` | d2ip_test.go:40-42 | both names with `{789.}` give `("", false)` |
| `Hyphen.ReplaceAllAt` | d2ip.go:61 | the replace keeps the length and changes exactly the occurrences of the pattern character |
| `Hyphen.DecodePayloadAt` | d2ip.go:60-61 | decoding keeps the length and every other character, leaves no `-`, and puts `:` wherever `-` was |
| `Hyphen.GuardIsRedundant` | d2ip.go:60-62 | the `ContainsRune` guard makes no difference compared with an unconditional replace |
| `Hyphen.DecodeExample` | d2ip.go:60-61 | `2000--1` decodes to `2000::1` |
| `Hyphen.HyphenRoundTrip` | d2ip.go:60-61 | decoding undoes the client's colon-to-hyphen encoding of a literal without `-` |
| `Hyphen.DecodeRoundTrip` | d2ip.go:60-61 | the encoding undoes decoding of a payload without `:` |
| `Responder.Reject` | d2ip.go:126-130 | a reply to the query, echoing its id, opcode and first question, with the given rcode, no records and no authority |
| `Responder.Serve` | d2ip.go:51-109 | after the shape check the steps give `Answer`; the failure flag is raised exactly when the reply's rcode is not success |
| `Responder.D2ip.constructor` | main.go:43-53 | a handler over the given suffix set, with both counters at zero |
| `Responder.D2ip.Resp` | d2ip.go:41-110 | the reply is `Reply`; `queryCounter` rises by exactly 1; `errCounter` rises by 1 exactly when the reply is a rejection |
| `Responder.MalformedQueryRefused` | d2ip.go:44-49 | without exactly one question of class INET the reply is Refused with no records, and it does not depend on the suffix set or the parser |
| `Responder.ChaosQueryRefused` | d2ip.go:45-48 | a single question of class CHAOS gets the Refused reply with no records, whatever the suffix set and parser |
| `Responder.UnknownSuffixRefused` | d2ip.go:53-58 | a well-shaped query under no registered suffix is Refused with no records, whatever the parser |
| `Responder.BadAddressNameError` | d2ip.go:63-68 | a payload that does not parse gets Name Error with no records |
| `Responder.ApexQueryNameError` | d2ip.go:63-67 | an apex query has the empty payload, which a strict parser rejects, so the reply is Name Error |
| `Responder.DecodedQueryAnswered` | d2ip.go:78-109 | a decoded query gets an authoritative success reply: one A record (name, INET, 86400, the 4 bytes) iff the type is A and the address is IPv4, one AAAA record iff the type is AAAA and the address is IPv6, otherwise no record |
| `Responder.ReplyShape` | d2ip.go:41-110 | every reply has rcode success, Name Error or Refused; rejections carry no record and no authority; a success answers a valid query, is authoritative, and has at most one record of the query's name and type, class INET, TTL 86400, 4 or 16 bytes |
| `Responder.RoundTripV4` | d2ip.go:53-94 | a type A query for an IPv4 literal under a registered suffix that no longer registered key ends with is answered with exactly that address |
| `Responder.RoundTripV6` | d2ip.go:53-107 | a type AAAA query for a hyphen-encoded IPv6 literal under a registered suffix that no longer registered key ends with is answered with exactly that address |
| `Suffixes.Split` | main.go:39 | there is always at least one piece, and no piece contains the separator |
| `Suffixes.JoinSplit` | main.go:39 | joining the pieces with the separator gives back the `-d` value |
| `Suffixes.SplitJoin` | main.go:39 | splitting a join of separator-free pieces gives back the pieces |
| `Suffixes.BuildSuffixes` | main.go:32-42 | an empty `-d` stops before any set is built; otherwise the loop builds exactly the set of qualified pieces |
| `Suffixes.SuffixSetKeys` | main.go:38-42 | the set is not empty; every key ends in `.`; the keys are exactly the qualified pieces; a piece that is already fully qualified is a key as it is |
| `Suffixes.SuffixSetSingle` | main.go:38-42 | a `-d` value without a comma registers exactly its qualified form |
| `Suffixes.SuffixSetTestCases` | d2ip_test.go:46-50 | `4.5.6` registers `{4.5.6.}` and `789` registers `{789.}` |
| `Suffixes.TrailingCommaRegistersRoot` | main.go:39-41 | a trailing comma adds an empty piece, which registers the root name `.` |
| `LegacyMain.LegacyD2ip.Resp` | main.go:125-194 | the reply is `LegacyReply`; the same counter rule: +1 query per call, +1 error per rejection |
| `LegacyMain.LegacyAcceptsOnlyTypeA` | main.go:129-133 | the main.go check accepts a single question exactly when its type is A, whatever its class |
| `LegacyMain.LegacyNeverAnswersAaaa` | main.go:129-191 | in the main.go copy every AAAA query is Refused, and no reply carries an AAAA record |
| `LegacyMain.LegacyAgreesOnInternetA` | main.go:129-194 | on a single type A question of class INET both copies give the same reply |
| `LegacyMain.LegacyIgnoresClass` | main.go:129 | on a single type A question of another class, d2ip.go refuses while main.go goes on to answer |
| `LegacyMain.ExampleQueryAnswered` | d2ip.go:45-107 | the AAAA/IN query for `2000--1.example.` under `{example.}` gets from d2ip.go a success reply with exactly the AAAA record of 2000::1 |
| `LegacyMain.AaaaQueryRefusedCounterexample` | main.go:129 | that same query gets one AAAA record from d2ip.go and Refused with no records from main.go |

## Findings

| source | as written | input that shows it | evidently intended | confidence | as-written member | corrected member |
|---|---|---|---|---|---|---|
| main.go:129 | the shape check compares `Qtype` with `dns.ClassINET`. Both are 1, so only type A queries pass, and the class is never checked | a single AAAA/IN question `2000--1.example.` with suffix set `{example.}` is Refused, although the decoded address is IPv6 | compare `Qclass` with `dns.ClassINET`, as d2ip.go:45 does | high; not executed | `LegacyMain.AaaaQueryRefusedCounterexample` | `Responder.RoundTripV6` |

The corrected check is `Responder.ValidQuery`, which the rest of the model
uses. `LegacyMain.ValidLegacyQuery` keeps the check as written.

## Left out

- Process bootstrap in `main()`: flag parsing, UDP and TCP listeners, the
  server goroutines, and waiting for a signal. These are I/O and
  concurrency. An empty `-d` is modelled as `BuildSuffixes` returning
  `ok == false`, in place of the fatal log.
- The Prometheus registry and the metrics endpoint. The counters are plain
  `nat` fields updated one call at a time. Atomic increments from
  concurrent callers, and the float64 representation of Prometheus
  counters, are not modelled.
- Logging with zap, and the client address that is used only for logs.
- `ServeDNS`, `WriteMsg` and the DNS wire format.
- `netip.ParseAddr` is not part of this model. It is a parameter of type
  `string -> Option<IP>`, which yields an IPv4 address (4 bytes) or an IPv6
  address (16 bytes and a zone). Zone syntax and the literal grammar are
  left to it. Lemmas that need a strict parser take `parse("") == None` as
  a hypothesis.
- `dns.NextLabel`, `dns.IsFqdn`, `dns.Fqdn`, `Msg.SetReply` and
  `Msg.SetRcode` belong to the DNS library, which is not part of this model.
  Each is given as a small function following the library's documented
  behaviour. A dot after an odd run of backslashes is escaped.
- The reply message is built as a value. In Go it is a freshly allocated
  `*dns.Msg` that is mutated (`Authoritative = true`, append to `Answer`)
  and returned. Nothing else can refer to it, so no aliasing is lost.
- `main.go` and `d2ip.go` both declare the type `d2ip` in the same package.
  The model keeps them apart as `Responder.D2ip` and `LegacyMain.LegacyD2ip`.
- Resource-record fields computed at serialisation time, such as the
  RDLENGTH, are not modelled.
