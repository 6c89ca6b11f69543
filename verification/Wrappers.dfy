/** Types and facts that several modules share. */
module Wrappers {

  datatype Option<T> = None | Some(value: T)

  /** No element twice. */
  ghost predicate Apart<T>(s: seq<T>)
  {
    forall i, j :: 0 <= i < j < |s| ==> s[i] != s[j]
  }

  lemma Same<T>(s: seq<T>, i: nat, j: nat)
    requires Apart(s) && i < |s| && j < |s|
    ensures s[i] == s[j] <==> i == j
  {
  }

  /** All but element k. */
  function Less<T>(s: seq<T>, k: nat): (r: seq<T>)
    requires k < |s|
    ensures |r| == |s| - 1
  {
    s[..k] + s[k + 1..]
  }

  lemma ApartLess<T>(s: seq<T>, k: nat)
    requires Apart(s) && k < |s|
    ensures Apart(Less(s, k)) && s[k] !in Less(s, k)
  {
  }
}
