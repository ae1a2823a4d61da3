/**
 * The suffix set of main.go: the -d flag split on ',' and every entry made
 * fully qualified with dns.Fqdn, collected in a set (duplicates collapse).
 */
module Suffixes {
  import opened Names

  /** strings.Split for a one-character separator: the pieces between separators. */
  function Split(s: string, sep: char): (parts: seq<string>)
    ensures |parts| >= 1
    ensures forall p :: p in parts ==> sep !in p
  {
    if s == [] then [""]
    else
      var rest := Split(s[1..], sep);
      if s[0] == sep then [""] + rest
      else [[s[0]] + rest[0]] + rest[1..]
  }

  /** strings.Join, the inverse of Split. */
  function Join(parts: seq<string>, sep: char): string
    requires |parts| >= 1
  {
    if |parts| == 1 then parts[0] else parts[0] + [sep] + Join(parts[1..], sep)
  }

  /** Joining the pieces back with the separator gives the flag value again. */
  lemma {:induction false} JoinSplit(s: string, sep: char)
    ensures Join(Split(s, sep), sep) == s
  {
    if s != [] {
      var rest := Split(s[1..], sep);
      JoinSplit(s[1..], sep);
      if s[0] != sep && |rest| > 1 {
        assert Join(Split(s, sep), sep) == [s[0]] + (rest[0] + [sep] + Join(rest[1..], sep));
      }
    }
  }

  /** Splitting a join of separator-free pieces gives the pieces back. */
  lemma {:induction false} SplitJoin(parts: seq<string>, sep: char)
    requires |parts| >= 1 && forall p :: p in parts ==> sep !in p
    ensures Split(Join(parts, sep), sep) == parts
  {
    if |parts| == 1 {
      SplitNoSeparator(parts[0], sep);
    } else {
      SplitJoin(parts[1..], sep);
      SplitAtSeparator(parts[0], Join(parts[1..], sep), sep);
      assert parts == [parts[0]] + parts[1..];
    }
  }

  lemma {:induction false} SplitNoSeparator(s: string, sep: char)
    requires sep !in s
    ensures Split(s, sep) == [s]
  {
    if s != [] {
      SplitNoSeparator(s[1..], sep);
      assert [s[0]] + s[1..] == s;
    }
  }

  lemma {:induction false} SplitAtSeparator(x: string, y: string, sep: char)
    requires sep !in x
    ensures Split(x + [sep] + y, sep) == [x] + Split(y, sep)
  {
    if x != [] {
      assert (x + [sep] + y)[1..] == x[1..] + [sep] + y;
      SplitAtSeparator(x[1..], y, sep);
      assert [x[0]] + x[1..] == x;
    } else {
      assert (x + [sep] + y)[1..] == y;
    }
  }

  /** The suffix set built from the value of -d. */
  function SuffixSet(d: string): set<string> {
    set p | p in Split(d, ',') :: Fqdn(p)
  }

  /**
   * main.go's construction: an empty -d stops the program before any set is
   * built (ok == false); otherwise the loop inserts Fqdn of every piece.
   */
  method BuildSuffixes(d: string) returns (suffixes: set<string>, ok: bool)
    ensures ok <==> |d| > 0
    ensures ok ==> suffixes == SuffixSet(d)
  {
    if |d| == 0 {
      return {}, false;
    }
    var parts := Split(d, ',');
    suffixes := {};
    for i := 0 to |parts|
      invariant suffixes == set j | 0 <= j < i :: Fqdn(parts[j])
    {
      suffixes := suffixes + {Fqdn(parts[i])};
    }
    ok := true;
  }

  /**
   * The keys of the suffix set are exactly the qualified pieces of -d; there
   * is at least one, every one ends in '.', and a piece that is already fully
   * qualified is registered as it is.
   */
  lemma SuffixSetKeys(d: string)
    ensures |SuffixSet(d)| > 0
    ensures forall k :: k in SuffixSet(d) ==> |k| > 0 && k[|k| - 1] == '.'
    ensures forall k :: k in SuffixSet(d) <==> exists p :: p in Split(d, ',') && k == Fqdn(p)
    ensures forall p :: p in Split(d, ',') && IsFqdn(p) ==> p in SuffixSet(d)
  {
    var p0 := Split(d, ',')[0];
    assert Fqdn(p0) in SuffixSet(d);
  }

  /** A -d value without a comma registers one suffix, its qualified form. */
  lemma SuffixSetSingle(d: string)
    requires ',' !in d
    ensures SuffixSet(d) == {Fqdn(d)}
  {
    SplitNoSeparator(d, ',');
  }

  /** The suffix sets that Test_trimFqdn builds from "4.5.6" and "789". */
  lemma SuffixSetTestCases()
    ensures SuffixSet("4.5.6") == {"4.5.6."}
    ensures SuffixSet("789") == {"789."}
  {
    SuffixSetSingle("4.5.6");
    assert Fqdn("4.5.6") == "4.5.6." by { assert !IsFqdn("4.5.6"); }
    SuffixSetSingle("789");
    assert Fqdn("789") == "789." by { assert !IsFqdn("789"); }
  }

  /** A trailing comma adds an empty piece, which registers the root name ".". */
  lemma TrailingCommaRegistersRoot(d: string)
    requires ',' !in d
    ensures SuffixSet(d + ",") == {Fqdn(d), "."}
  {
    SplitAtSeparator(d, "", ',');
    assert d + [','] + "" == d + ",";
    assert Fqdn("") == ".";
    assert Split(d + ",", ',') == [d, ""];
  }
}
