/**
 * trimFqdn: strip a registered suffix from a fully-qualified query name.
 * The walk visits the label starts of the name in ascending order and stops
 * at the first one whose remainder is a key of the suffix set; the lookup is
 * an exact string comparison.
 */
module Trimmer {
  import opened Wrappers
  import opened Names

  /** The result pair of trimFqdn: the left-hand payload and whether a suffix matched. */
  datatype Trimmed = Trimmed(payload: string, ok: bool)

  /** The walk visits `off` and finds its remainder registered. */
  predicate Registered(fqdn: string, domains: set<string>, off: nat) {
    IsLabelStart(fqdn, off) && fqdn[off..] in domains
  }

  /** The smallest offset at or after `from` whose remainder is registered. */
  function FirstMatchFrom(fqdn: string, domains: set<string>, from: nat): (r: Option<nat>)
    ensures r.Some? ==> from <= r.value && Registered(fqdn, domains, r.value)
    ensures forall o: nat :: from <= o && (r.None? || o < r.value) ==> !Registered(fqdn, domains, o)
    decreases |fqdn| + 1 - from
  {
    if from > |fqdn| then None
    else if Registered(fqdn, domains, from) then Some(from)
    else FirstMatchFrom(fqdn, domains, from + 1)
  }

  /** What trimFqdn returns, stated by the first registered label start. */
  function Trim(fqdn: string, domains: set<string>): Trimmed {
    match FirstMatchFrom(fqdn, domains, 0)
    case None => Trimmed("", false)
    case Some(off) => if off > 0 then Trimmed(fqdn[..off - 1], true) else Trimmed("", true)
  }

  /**
   * The label walk of trimFqdn: test the remainder at each offset the walk
   * reaches, advancing with NextLabel until it reports the end.
   */
  method TrimFqdn(fqdn: string, domains: set<string>) returns (payload: string, ok: bool)
    ensures Trimmed(payload, ok) == Trim(fqdn, domains)
  {
    var off: nat, end := 0, false;
    while !end
      invariant !end ==> IsLabelStart(fqdn, off)
      invariant forall o: nat :: (end || o < off) ==> !Registered(fqdn, domains, o)
      decreases if end then 0 else |fqdn| + 1 - off
    {
      if fqdn[off..] in domains {
        FirstMatchIsMinimal(fqdn, domains, off);
        if off > 0 {
          return fqdn[..off - 1], true;
        }
        return "", true;
      }
      var next := NextLabel(fqdn, off);
      forall o | off <= o && (next.1 || o < next.0)
        ensures !Registered(fqdn, domains, o)
      {
        if o > off && o < |fqdn| {
          assert !UnescapedDot(fqdn, o - 1);
        }
      }
      off, end := next.0, next.1;
    }
    return "", false;
  }

  /** A registered offset with no registered offset before it is the one Trim picks. */
  lemma FirstMatchIsMinimal(fqdn: string, domains: set<string>, off: nat)
    requires Registered(fqdn, domains, off)
    requires forall o: nat :: o < off ==> !Registered(fqdn, domains, o)
    ensures FirstMatchFrom(fqdn, domains, 0) == Some(off)
  {
  }

  /** trimFqdn succeeds exactly when some visited remainder is registered; on failure the payload is empty. */
  lemma TrimOkIff(fqdn: string, domains: set<string>)
    ensures Trim(fqdn, domains).ok <==> exists o: nat :: Registered(fqdn, domains, o)
    ensures !Trim(fqdn, domains).ok ==> Trim(fqdn, domains).payload == ""
  {
  }

  /**
   * On success the name is the payload, a separator and a registered suffix,
   * and no earlier label start has a registered remainder: the longest
   * registered suffix wins. At offset 0 the payload is empty.
   */
  lemma TrimSplitsName(fqdn: string, domains: set<string>)
    requires Trim(fqdn, domains).ok
    ensures exists off: nat ::
      && Registered(fqdn, domains, off)
      && (forall o: nat :: o < off ==> !Registered(fqdn, domains, o))
      && (off == 0 ==> Trim(fqdn, domains).payload == "")
      && (off > 0 ==> fqdn == Trim(fqdn, domains).payload + "." + fqdn[off..])
  {
  }

  /** A query for a registered suffix itself (the apex) trims to the empty payload. */
  lemma ApexTrimsToEmpty(fqdn: string, domains: set<string>)
    requires fqdn in domains
    ensures Trim(fqdn, domains) == Trimmed("", true)
  {
  }

  /**
   * The remainder "." consisting of the root label alone is never visited in
   * a name whose last label is not empty, other than the name "." itself:
   * registering "." changes nothing for such names.
   */
  lemma RootAloneNeverLookedUp(fqdn: string, domains: set<string>)
    requires fqdn != "."
    requires |fqdn| < 2 || fqdn[|fqdn| - 2] != '.'
    ensures Trim(fqdn, domains + {"."}) == Trim(fqdn, domains)
  {
    forall o: nat ensures Registered(fqdn, domains + {"."}, o) == Registered(fqdn, domains, o) {
    }
    SameRegisteredSameMatch(fqdn, domains + {"."}, domains);
  }

  lemma SameRegisteredSameMatch(fqdn: string, d1: set<string>, d2: set<string>)
    requires forall o: nat :: Registered(fqdn, d1, o) == Registered(fqdn, d2, o)
    ensures FirstMatchFrom(fqdn, d1, 0) == FirstMatchFrom(fqdn, d2, 0)
  {
  }

  /**
   * Round trip: a payload joined by a separator to a registered suffix that
   * no longer registered key ends with trims back to that payload.
   */
  lemma TrimRoundTrip(payload: string, suffix: string, domains: set<string>)
    requires suffix in domains && suffix != ""
    requires forall d :: d in domains && |d| > |suffix| ==> d[|d| - |suffix|..] != suffix
    requires '\\' !in payload
    ensures Trim(payload + "." + suffix, domains) == Trimmed(payload, true)
  {
    var fqdn := payload + "." + suffix;
    var off := |payload| + 1;
    assert fqdn[off..] == suffix;
    assert fqdn[..off - 1] == payload;
    assert Backslashes(fqdn, |payload|) == 0 by {
      if |payload| > 0 {
        assert fqdn[|payload| - 1] == payload[|payload| - 1];
      }
    }
    assert Registered(fqdn, domains, off);
    forall o: nat | o < off ensures !Registered(fqdn, domains, o) {
      assert |fqdn[o..]| > |suffix|;
      assert fqdn[o..][|fqdn[o..]| - |suffix|..] == suffix;
    }
    FirstMatchIsMinimal(fqdn, domains, off);
  }

  /** With a single registered suffix, every backslash-free payload round-trips. */
  lemma TrimRoundTripSingle(payload: string, suffix: string)
    requires suffix != "" && '\\' !in payload
    ensures Trim(payload + "." + suffix, {suffix}) == Trimmed(payload, true)
  {
    TrimRoundTrip(payload, suffix, {suffix});
  }

  /** A name that ends in none of the registered suffixes is not matched. */
  lemma TrimNoSuffix(fqdn: string, domains: set<string>)
    requires forall d :: d in domains ==> |d| > |fqdn| || fqdn[|fqdn| - |d|..] != d
    ensures Trim(fqdn, domains) == Trimmed("", false)
  {
  }

  /** The matching cases of Test_trimFqdn, with the suffix set it builds from "4.5.6". */
  lemma TrimTestCasesMatch()
    ensures Trim("1.2.3.4.5.6.", {"4.5.6."}) == Trimmed("1.2.3", true)
    ensures Trim("2000--1.4.5.6.", {"4.5.6."}) == Trimmed("2000--1", true)
  {
    assert "1.2.3" + "." + "4.5.6." == "1.2.3.4.5.6.";
    TrimRoundTripSingle("1.2.3", "4.5.6.");
    assert "2000--1" + "." + "4.5.6." == "2000--1.4.5.6.";
    TrimRoundTripSingle("2000--1", "4.5.6.");
  }

  /** The failing cases of Test_trimFqdn, with the suffix set it builds from "789". */
  lemma TrimTestCasesNoMatch()
    ensures Trim("1.2.3.4.5.6.", {"789."}) == Trimmed("", false)
    ensures Trim("2000--1.4.5.6.", {"789."}) == Trimmed("", false)
  {
  }

  /** With two unrelated suffixes registered, the shorter one round-trips too. */
  lemma TrimTwoSuffixes()
    ensures Trim("1.2.3.4.a.com.", {"a.com.", "bb.org."}) == Trimmed("1.2.3.4", true)
  {
    assert "1.2.3.4" + "." + "a.com." == "1.2.3.4.a.com.";
    TrimRoundTrip("1.2.3.4", "a.com.", {"a.com.", "bb.org."});
  }

  /**
   * The round trip needs its hypothesis: when a longer registered key ends
   * with the suffix and covers part of the payload, that key wins and the
   * payload comes back short.
   */
  lemma TrimNestedSuffixesShortensPayload()
    ensures Trim("1.2.3.4.example.", {"4.example.", "example."}) == Trimmed("1.2.3", true)
  {
    assert "1.2.3" + "." + "4.example." == "1.2.3.4.example.";
    TrimRoundTrip("1.2.3", "4.example.", {"4.example.", "example."});
  }
}
