/**
 * Domain-name text as the DNS library reads it: escaped dots, label
 * boundaries (dns.NextLabel) and fully-qualified names (dns.IsFqdn, dns.Fqdn).
 * A '.' preceded by an odd run of backslashes is escaped and separates nothing.
 */
module Names {

  /** The length of the run of backslashes immediately before position i. */
  function Backslashes(s: string, i: nat): (n: nat)
    requires i <= |s|
    ensures n <= i
    ensures forall k :: i - n <= k < i ==> s[k] == '\\'
    ensures n < i ==> s[i - n - 1] != '\\'
    decreases i
  {
    if i == 0 || s[i - 1] != '\\' then 0 else Backslashes(s, i - 1) + 1
  }

  /** s[i] is a label separator: a dot that is not escaped. */
  predicate UnescapedDot(s: string, i: nat)
    requires i < |s|
  {
    s[i] == '.' && Backslashes(s, i) % 2 == 0
  }

  /**
   * The offsets the label walk visits: 0, and i + 1 for every separator at
   * i < |s| - 1. The final dot (the root label) starts no label of its own.
   */
  predicate IsLabelStart(s: string, off: nat) {
    off == 0 || (off < |s| && UnescapedDot(s, off - 1))
  }

  /**
   * dns.NextLabel(s, offset): the offset just past the first separator at or
   * after `offset` that is not the last character, with end == false; or
   * end == true when there is none.
   */
  function NextLabel(s: string, offset: nat): (r: (nat, bool))
    ensures !r.1 ==> offset < r.0 < |s| && UnescapedDot(s, r.0 - 1)
    ensures forall i :: offset <= i < (if r.1 then |s| - 1 else r.0 - 1) ==> !UnescapedDot(s, i)
  {
    if s == "" then (0, true) else NextLabelFrom(s, offset)
  }

  function NextLabelFrom(s: string, i: nat): (r: (nat, bool))
    requires |s| > 0
    ensures !r.1 ==> i < r.0 < |s| && UnescapedDot(s, r.0 - 1)
    ensures forall k :: i <= k < (if r.1 then |s| - 1 else r.0 - 1) ==> !UnescapedDot(s, k)
    decreases |s| - i
  {
    if i >= |s| - 1 then (i + 1, true)
    else if UnescapedDot(s, i) then (i + 1, false)
    else NextLabelFrom(s, i + 1)
  }

  /** dns.IsFqdn: the name ends in a dot that is not escaped. */
  predicate IsFqdn(s: string) {
    |s| > 0 && UnescapedDot(s, |s| - 1)
  }

  /** dns.Fqdn: a fully-qualified name is kept, anything else gets a trailing dot. */
  function Fqdn(s: string): (r: string)
    ensures |r| > 0 && r[|r| - 1] == '.'
    ensures |s| <= |r| <= |s| + 1 && r[..|s|] == s
  {
    if IsFqdn(s) then s else s + "."
  }

  /** An entry that is already fully qualified is kept as it is. */
  lemma FqdnKeepsQualified(s: string)
    requires IsFqdn(s)
    ensures Fqdn(s) == s
  {
  }

  /**
   * Fqdn is idempotent except on a name ending in an odd run of backslashes,
   * whose appended dot is itself escaped: Fqdn("a\\") == "a\\." is not
   * fully qualified, so Fqdn adds another dot.
   */
  lemma {:induction false} FqdnIdempotentUnlessEscaped(s: string)
    ensures (|s| == 0 || Backslashes(s, |s|) % 2 == 0) ==> IsFqdn(Fqdn(s)) && Fqdn(Fqdn(s)) == Fqdn(s)
    ensures !IsFqdn(s) && |s| > 0 && Backslashes(s, |s|) % 2 == 1 ==> !IsFqdn(Fqdn(s))
  {
  }
}
