/** Sequences with the same elements in a different order. */
module Permutations {

  lemma {:induction false} RemoveOne<T>(s: seq<T>, a: nat)
    requires a < |s|
    ensures multiset(s[..a] + s[a + 1..]) == multiset(s) - multiset{s[a]}
  {
    assert s == s[..a] + [s[a]] + s[a + 1..];
  }

  /** Two positions of a list are two positions of every permutation of it. */
  lemma {:induction false} PermutedPositions<T>(s: seq<T>, t: seq<T>, a: nat, b: nat) returns (c: nat, d: nat)
    requires multiset(s) == multiset(t) && a < b < |s|
    ensures c < |t| && d < |t| && c != d && t[c] == s[a] && t[d] == s[b]
  {
    RemoveOne(s, a);
    assert s[b] == (s[..a] + s[a + 1..])[b - 1];
    assert s[a] in multiset(t);
    c :| 0 <= c < |t| && t[c] == s[a];
    RemoveOne(t, c);
    var others := t[..c] + t[c + 1..];
    assert multiset(others) == multiset(s[..a] + s[a + 1..]);
    assert s[b] in multiset(others);
    var e :| 0 <= e < |others| && others[e] == s[b];
    d := if e < c then e else e + 1;
  }
}
