/** What several components say of lists, and do to them. */
module Sequences {

  /** No two entries are the same. */
  ghost predicate Distinct<T(!new)>(s: seq<T>) {
    forall i, j :: 0 <= i < j < |s| ==> s[i] != s[j]
  }

  function Elements<T>(s: seq<T>): set<T> {
    set x | x in s
  }

  lemma InLonger<T>(s: seq<T>, x: T)
    requires s != []
    ensures x in s <==> x in s[..|s| - 1] || x == s[|s| - 1]
  {
    assert s == s[..|s| - 1] + [s[|s| - 1]];
  }

  lemma ElementsAppend<T>(s: seq<T>, x: T)
    ensures Elements(s + [x]) == Elements(s) + {x}
  {
  }

  /** Where in a list there is something with this property. */
  ghost function Places<T>(s: seq<T>, p: T -> bool): set<nat> {
    set i: nat | i < |s| && p(s[i])
  }

  lemma PlacesNext<T>(s: seq<T>, p: T -> bool)
    requires s != []
    ensures var n := |s| - 1;
            |Places(s, p)| == |Places(s[..n], p)| + if p(s[n]) then 1 else 0
  {
    var n := |s| - 1;
    var before := Places(s[..n], p);
    assert Places(s, p) == if p(s[n]) then before + {n} else before;
  }

  /** Go's append(s[:i], s[i+1:]...): the list without its i-th entry. */
  function RemoveAt<T>(s: seq<T>, i: nat): (rest: seq<T>)
    requires i < |s|
    ensures |rest| == |s| - 1
    ensures forall k :: 0 <= k < |rest| ==> rest[k] == s[if k < i then k else k + 1]
  {
    s[..i] + s[i + 1..]
  }
}
