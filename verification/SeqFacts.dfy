/** Facts about concatenations and slices that the models share. */
module SeqFacts {

  lemma {:induction false} Regroup<T>(p: seq<T>, q: seq<T>, t: seq<T>)
    ensures (p + q) + t == p + (q + t)
  {
  }

  lemma {:induction false} Empty<T>(t: seq<T>)
    ensures [] + t == t && t + [] == t
  {
  }

  lemma {:induction false} Slices<T>(s: seq<T>, i: nat, j: nat, k: nat)
    requires i <= j <= k <= |s|
    ensures s[i..j] + s[j..k] == s[i..k]
  {
  }

  ghost predicate Distinct<T>(s: seq<T>) {
    forall i, j :: 0 <= i < j < |s| ==> s[i] != s[j]
  }

  function Repeated<T>(x: T, n: nat): (r: seq<T>)
    ensures |r| == n && forall i :: 0 <= i < n ==> r[i] == x
  {
    seq(n, _ => x)
  }
}
