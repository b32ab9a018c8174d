// Small helpers that several models share.

module Helpers {

  function Min(m: nat, n: nat): nat {
    if m < n then m else n
  }

  lemma Associative<T>(s: seq<T>, t: seq<T>, u: seq<T>)
    ensures s + t + u == s + (t + u)
  {
  }
}
