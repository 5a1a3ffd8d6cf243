/** Integer sequences used as lists: positions, insertion and removal. */
module Sequences {

  ghost predicate NoDup(s: seq<int>) {
    forall j, k :: 0 <= j < k < |s| ==> s[j] != s[k]
  }

  function RemoveAt(s: seq<int>, k: nat): seq<int>
    requires k < |s|
  {
    s[..k] + s[k + 1..]
  }

  function InsertAt(s: seq<int>, k: nat, x: int): seq<int>
    requires k <= |s|
  {
    s[..k] + [x] + s[k..]
  }

  function IndexOf(s: seq<int>, x: int): (k: nat)
    requires x in s
    ensures k < |s| && s[k] == x
  {
    if s[0] == x then 0 else 1 + IndexOf(s[1..], x)
  }

  lemma RemoveAtFacts(s: seq<int>, k: nat)
    requires k < |s| && NoDup(s)
    ensures NoDup(RemoveAt(s, k))
    ensures forall x {:trigger x in RemoveAt(s, k)} :: x in RemoveAt(s, k) <==> x in s && x != s[k]
  {
    var r := RemoveAt(s, k);
    forall x | x in s && x != s[k] ensures x in r {
      var j :| 0 <= j < |s| && s[j] == x;
      assert r[if j < k then j else j - 1] == x;
    }
  }

  lemma InsertAtFacts(s: seq<int>, k: nat, x: int)
    requires k <= |s| && NoDup(s) && x !in s
    ensures NoDup(InsertAt(s, k, x))
    ensures forall y {:trigger y in InsertAt(s, k, x)} :: y in InsertAt(s, k, x) <==> y in s || y == x
  {
    var r := InsertAt(s, k, x);
    assert r[k] == x;
    forall y | y in s ensures y in r {
      var j :| 0 <= j < |s| && s[j] == y;
      assert r[if j < k then j else j + 1] == y;
    }
  }

  /** list_delete: removes the first occurrence. */
  function Without(s: seq<int>, x: int): seq<int> {
    if x in s then RemoveAt(s, IndexOf(s, x)) else s
  }

  lemma WithoutFacts(s: seq<int>, x: int)
    requires NoDup(s)
    ensures NoDup(Without(s, x))
    ensures forall y {:trigger y in Without(s, x)} :: y in Without(s, x) <==> y in s && y != x
  {
    if x in s { RemoveAtFacts(s, IndexOf(s, x)); }
  }

  /** The list without its last (oldest) element. */
  function DropLast(s: seq<int>): seq<int> {
    if s == [] then [] else s[..|s| - 1]
  }

  /** Deleting the last element of a list without repetitions. */
  lemma LastOut(s: seq<int>, x: int)
    requires s != [] && NoDup(s) && x == s[|s| - 1]
    ensures Without(s, x) == s[..|s| - 1]
  {
    assert x in s;
    assert IndexOf(s, x) == |s| - 1;
  }
}
