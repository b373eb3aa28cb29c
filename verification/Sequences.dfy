/**
  Lists of node numbers as sequences, with 0 for "no node".
 */
module Sequences {

  function At(list: seq<nat>, i: int): nat {
    if 0 <= i < |list| then list[i] else 0
  }

  ghost predicate Distinct(list: seq<nat>) {
    forall i, j :: 0 <= i < j < |list| ==> list[i] != list[j]
  }

  function Inserted(list: seq<nat>, i: nat, x: nat): seq<nat>
    requires i <= |list|
  {
    list[..i] + [x] + list[i..]
  }

  lemma {:induction false} InsertedAt(list: seq<nat>, i: nat, x: nat, j: int)
    requires i <= |list|
    ensures At(Inserted(list, i, x), j) == if j == i then x else At(list, if j < i then j else j - 1)
  {
  }

  lemma {:induction false} InsertedHas(list: seq<nat>, i: nat, x: nat, h: nat)
    requires i <= |list|
    ensures h in Inserted(list, i, x) <==> h in list || h == x
  {
    var long := Inserted(list, i, x);
    if h in list {
      var k :| 0 <= k < |list| && list[k] == h;
      assert long[if k < i then k else k + 1] == h;
    }
    assert long[i] == x;
  }

  lemma {:induction false} InsertedDistinct(list: seq<nat>, i: nat, x: nat)
    requires i <= |list| && Distinct(list) && x !in list
    ensures Distinct(Inserted(list, i, x))
  {
  }

  function Without(list: seq<nat>, i: nat): seq<nat>
    requires i < |list|
  {
    list[..i] + list[i + 1..]
  }

  lemma {:induction false} WithoutAt(list: seq<nat>, i: nat, j: int)
    requires i < |list|
    ensures At(Without(list, i), j) == At(list, if j < i then j else j + 1)
  {
  }

  lemma {:induction false} WithoutHas(list: seq<nat>, i: nat, h: nat)
    requires i < |list| && Distinct(list)
    ensures h in Without(list, i) <==> h in list && h != list[i]
  {
    var short := Without(list, i);
    if h in list && h != list[i] {
      var k :| 0 <= k < |list| && list[k] == h;
      assert short[if k < i then k else k - 1] == h;
    }
    if h in short {
      var j :| 0 <= j < |short| && short[j] == h;
      assert list[if j < i then j else j + 1] == h;
    }
  }

  lemma {:induction false} WithoutDistinct(list: seq<nat>, i: nat)
    requires i < |list| && Distinct(list)
    ensures Distinct(Without(list, i))
  {
  }
}
