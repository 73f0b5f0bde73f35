/**
 Runs of a no-data value at the ends of a line of pixels.  These are the
 reference quantities the edge-mask scan is specified against: the scan
 from the start of a row or column walks over exactly the leading run, and
 the scan from its end over exactly the trailing run.
 */
module Runs {

  /** Length of the longest prefix of `s` whose pixels all equal `d`. */
  function LeadRun<T(==)>(s: seq<T>, d: T): (n: nat)
    ensures n <= |s|
    ensures forall k :: 0 <= k < n ==> s[k] == d
    ensures n < |s| ==> s[n] != d
    decreases |s|
  {
    if |s| == 0 || s[0] != d then 0
    else 1 + LeadRun(s[1..], d)
  }

  /** Length of the longest suffix of `s` whose pixels all equal `d`. */
  function TrailRun<T(==)>(s: seq<T>, d: T): (n: nat)
    ensures n <= |s|
    ensures forall k :: |s| - n <= k < |s| ==> s[k] == d
    ensures n < |s| ==> s[|s| - 1 - n] != d
    decreases |s|
  {
    if |s| == 0 || s[|s| - 1] != d then 0
    else 1 + TrailRun(s[..|s| - 1], d)
  }

  /** The two runs are the unique lengths with the properties the scans stop on. */
  lemma LeadRunUnique<T>(s: seq<T>, d: T, n: nat)
    requires n <= |s|
    requires forall k :: 0 <= k < n ==> s[k] == d
    requires n == |s| || s[n] != d
    ensures LeadRun(s, d) == n
  {
  }

  lemma TrailRunUnique<T>(s: seq<T>, d: T, n: nat)
    requires n <= |s|
    requires forall k :: |s| - n <= k < |s| ==> s[k] == d
    requires n == |s| || s[|s| - 1 - n] != d
    ensures TrailRun(s, d) == n
  {
  }

  /** A line made entirely of the no-data value is one run from either end. */
  lemma BlankLineRuns<T>(s: seq<T>, d: T)
    requires forall k :: 0 <= k < |s| ==> s[k] == d
    ensures LeadRun(s, d) == |s| && TrailRun(s, d) == |s|
  {
  }

  /**
   A line whose no-data pixels are exactly `w` at each end, around a
   non-empty stretch of data, has runs of length `w` from both ends.
   */
  lemma FramedLineRuns<T>(s: seq<T>, d: T, w: nat)
    requires 2 * w < |s|
    requires forall k :: 0 <= k < |s| ==> (s[k] == d <==> k < w || |s| - w <= k)
    ensures LeadRun(s, d) == w && TrailRun(s, d) == w
  {
    LeadRunUnique(s, d, w);
    TrailRunUnique(s, d, w);
  }
}
