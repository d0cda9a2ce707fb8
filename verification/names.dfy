/**
 * The candidate names `suggestAlternatives` builds from a taken username:
 * a numeric suffix `username + i` for i in 1..5, and the underscore-to-dot
 * rewrite `username.replace("_", ".")`.
 */
module Names {

  /** Java's decimal rendering of a single-digit `int`. */
  function Digit(i: int): (c: char)
    requires 0 <= i <= 9
    ensures '0' <= c <= '9'
    ensures c as int - '0' as int == i
  {
    (i + '0' as int) as char
  }

  /** `username + i` for a one-digit `i`. */
  function WithSuffix(u: string, i: int): (r: string)
    requires 0 <= i <= 9
    ensures |r| == |u| + 1
    ensures r[..|u|] == u
    ensures r[|u|] == Digit(i)
  {
    u + [Digit(i)]
  }

  /** `username.replace("_", ".")`: every underscore becomes a dot, every other character is kept. */
  function Dotted(u: string): (r: string)
    ensures |r| == |u|
    ensures forall i :: 0 <= i < |u| ==> r[i] == (if u[i] == '_' then '.' else u[i])
    ensures '_' !in r
    decreases |u|
  {
    if u == [] then []
    else [if u[0] == '_' then '.' else u[0]] + Dotted(u[1..])
  }

  /** The numeric-suffix candidates, in the order the loop tries them: `u + 1` up to `u + 5`. */
  function SuffixCandidates(u: string): (r: seq<string>)
    ensures |r| == 5
    ensures forall k :: 0 <= k < 5 ==> r[k] == WithSuffix(u, k + 1)
  {
    [WithSuffix(u, 1), WithSuffix(u, 2), WithSuffix(u, 3), WithSuffix(u, 4), WithSuffix(u, 5)]
  }

  /** The suffix candidates spelled out: the digits 1 to 5 appended as text. */
  lemma SuffixCandidatesSpelled(u: string)
    ensures SuffixCandidates(u) == [u + "1", u + "2", u + "3", u + "4", u + "5"]
  {
    assert Digit(1) == '1' && Digit(2) == '2' && Digit(3) == '3' && Digit(4) == '4' && Digit(5) == '5';
  }

  /** Every candidate tried once the original is taken, in order; the dot form only when `u` has an underscore. */
  function Candidates(u: string): (r: seq<string>)
    ensures |r| == if '_' in u then 6 else 5
    ensures r[..5] == SuffixCandidates(u)
    ensures '_' in u ==> r[5] == Dotted(u)
  {
    SuffixCandidates(u) + (if '_' in u then [Dotted(u)] else [])
  }

  /** No name occurs twice in `s`. */
  predicate Distinct(s: seq<string>)
  {
    forall i, j :: 0 <= i < j < |s| ==> s[i] != s[j]
  }

  /**
   * The original name and its candidates are pairwise different: the suffixes
   * differ in their last digit and are one longer than `u`, and the dot form
   * has the length of `u` but no underscore.
   */
  lemma CandidatesDistinct(u: string)
    ensures Distinct([u] + Candidates(u))
  {
    var s := [u] + Candidates(u);
    forall i, j | 0 <= i < j < |s|
      ensures s[i] != s[j]
    {
      if 1 <= i && j <= 5 {
        assert s[i][|u|] == Digit(i) && s[j][|u|] == Digit(j);
      } else if i == 0 && j <= 5 {
        assert |s[i]| != |s[j]|;
      } else if i == 0 {
        assert u != Dotted(u) by {
          var k :| 0 <= k < |u| && u[k] == '_';
          assert Dotted(u)[k] != u[k];
        }
      } else {
        assert |s[i]| != |s[j]|;
      }
    }
  }
}
