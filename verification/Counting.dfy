/** More items than kinds: two items of one kind. */
module Counting {
  function Members(s: seq<int>): (m: set<int>)
    ensures forall k :: k in m <==> k in s
  {
    if s == [] then {}
    else
      assert s == [s[0]] + s[1..];
      {s[0]} + Members(s[1..])
  }

  function Below(n: nat): (m: set<int>)
    ensures forall k :: k in m <==> 0 <= k < n
    ensures |m| == n
  {
    if n == 0 then {} else Below(n - 1) + {n - 1}
  }

  ghost predicate Distinct(s: seq<int>) {
    forall i, j :: 0 <= i < j < |s| ==> s[i] != s[j]
  }

  lemma {:induction false} MembersOfDistinct(s: seq<int>)
    requires Distinct(s)
    ensures |Members(s)| == |s|
  {
    if s != [] {
      MembersOfDistinct(s[1..]);
      assert s[0] !in s[1..];
    }
  }

  lemma DistinctFits(s: seq<int>, n: nat)
    requires Distinct(s) && forall i :: 0 <= i < |s| ==> 0 <= s[i] < n
    ensures |s| <= n
  {
    MembersOfDistinct(s);
    assert Members(s) <= Below(n);
    assert Below(n) == Members(s) + (Below(n) - Members(s));
  }

  lemma Pigeonhole(s: seq<int>, n: nat)
    requires |s| > n && forall i :: 0 <= i < |s| ==> 0 <= s[i] < n
    ensures exists i, j :: 0 <= i < j < |s| && s[i] == s[j]
  {
    if Distinct(s) {
      DistinctFits(s, n);
    }
  }
}
