/**
 * The payload escaping of IPv6 literals: a colon may not appear in a DNS
 * label, so clients write '-' for ':' (RFC 4291 section 2.2 text form with
 * hyphens), and the responder turns every '-' back into ':'.
 */
module Hyphen {

  /** strings.ReplaceAll for a single-character pattern and replacement. */
  function ReplaceAll(s: string, from: char, to: char): string {
    if s == [] then [] else [if s[0] == from then to else s[0]] + ReplaceAll(s[1..], from, to)
  }

  /** The decoding step of resp: replace hyphens only when the payload contains one. */
  function DecodePayload(s: string): string {
    if '-' in s then ReplaceAll(s, '-', ':') else s
  }

  /** The client-side encoding: every ':' of an address literal written as '-'. */
  function Hyphenate(s: string): string {
    ReplaceAll(s, ':', '-')
  }

  /** ReplaceAll keeps the length and changes exactly the occurrences of `from`. */
  lemma {:induction false} ReplaceAllAt(s: string, from: char, to: char)
    ensures |ReplaceAll(s, from, to)| == |s|
    ensures forall i :: 0 <= i < |s| ==>
      ReplaceAll(s, from, to)[i] == (if s[i] == from then to else s[i])
  {
    if s != [] {
      ReplaceAllAt(s[1..], from, to);
    }
  }

  /** After decoding no '-' is left, and a ':' stands wherever a '-' stood. */
  lemma DecodePayloadAt(s: string)
    ensures |DecodePayload(s)| == |s|
    ensures '-' !in DecodePayload(s)
    ensures forall i :: 0 <= i < |s| ==>
      DecodePayload(s)[i] == (if s[i] == '-' then ':' else s[i])
  {
    ReplaceAllAt(s, '-', ':');
  }

  /** The ContainsRune guard makes no difference: decoding is an unconditional replace. */
  lemma GuardIsRedundant(s: string)
    ensures DecodePayload(s) == ReplaceAll(s, '-', ':')
  {
  }

  /** The IPv6 payload of Test_trimFqdn: "2000--1" decodes to "2000::1". */
  lemma DecodeExample()
    ensures DecodePayload("2000--1") == "2000::1"
  {
  }

  /** Decoding undoes the hyphen encoding of any literal without a '-' of its own. */
  lemma HyphenRoundTrip(s: string)
    requires '-' !in s
    ensures DecodePayload(Hyphenate(s)) == s
  {
    ReplaceAllAt(s, ':', '-');
    ReplaceAllAt(Hyphenate(s), '-', ':');
    GuardIsRedundant(Hyphenate(s));
  }

  /** And encoding undoes decoding of any payload without a ':' of its own. */
  lemma DecodeRoundTrip(s: string)
    requires ':' !in s
    ensures Hyphenate(DecodePayload(s)) == s
  {
    DecodePayloadAt(s);
    ReplaceAllAt(DecodePayload(s), ':', '-');
  }

  /** The encoding introduces no backslash, so it never escapes a separator. */
  lemma HyphenateKeepsBackslashes(s: string)
    ensures ('\\' in Hyphenate(s)) == ('\\' in s)
  {
    ReplaceAllAt(s, ':', '-');
  }
}
