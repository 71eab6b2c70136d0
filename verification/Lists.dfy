/** Sequences that stand for lists: insertion, removal and repetition. */
module Lists {

  function Insert<T>(list: seq<T>, p: nat, x: T): (r: seq<T>)
    requires p <= |list|
    ensures |r| == |list| + 1
  {
    list[..p] + [x] + list[p..]
  }

  function Remove<T>(list: seq<T>, i: nat): (r: seq<T>)
    requires i < |list|
    ensures |r| == |list| - 1
  {
    list[..i] + list[i + 1..]
  }

  /** No element occurs twice. */
  ghost predicate Distinct<T>(list: seq<T>) {
    forall i, j :: 0 <= i < j < |list| ==> list[i] != list[j]
  }

  lemma InsertMembers<T>(list: seq<T>, i: nat, x: T)
    requires i <= |list|
    ensures forall y :: y in Insert(list, i, x) <==> y in list || y == x
  {
    assert list == list[..i] + list[i..];
  }

  lemma InsertedAt<T>(list: seq<T>, i: nat, x: T)
    requires i <= |list|
    ensures Insert(list, i, x)[i] == x && Remove(Insert(list, i, x), i) == list
  {
  }

  /** What a list was before one element of it came in. */
  lemma CameIn<T>(list: seq<T>, i: nat, before: seq<T>)
    requires i < |list| && Remove(list, i) == before
    ensures list == Insert(before, i, list[i])
    ensures forall y :: y in list <==> y in before || y == list[i]
  {
    assert list == Insert(before, i, list[i]);
    InsertMembers(before, i, list[i]);
  }

  /** The list without the members of `gone`; the others keep their order. */
  function Without<T(==)>(list: seq<T>, gone: set<T>): (r: seq<T>) {
    if list == [] then [] else (if list[0] in gone then [] else [list[0]]) + Without(list[1..], gone)
  }

  lemma {:induction false} WithoutMembers<T>(list: seq<T>, gone: set<T>)
    ensures forall x :: x in Without(list, gone) <==> x in list && x !in gone
  {
    if list != [] {
      WithoutMembers(list[1..], gone);
      assert list == [list[0]] + list[1..];
    }
  }

  lemma {:induction false} WithoutAbsent<T>(list: seq<T>, gone: set<T>)
    requires forall x :: x in list ==> x !in gone
    ensures Without(list, gone) == list
  {
    if list != [] {
      WithoutAbsent(list[1..], gone);
    }
  }

  lemma {:induction false} WithoutTwice<T>(list: seq<T>, a: set<T>, b: set<T>)
    ensures Without(Without(list, a), b) == Without(list, a + b)
  {
    if list != [] {
      WithoutTwice(list[1..], a, b);
      var rest := Without(list[1..], a);
      assert ([list[0]] + rest)[1..] == rest && [] + rest == rest;
    }
  }
}
