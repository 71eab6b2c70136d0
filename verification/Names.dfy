/**
 Object names and the order `strcmp` puts them in.  The HAL keeps its pin, signal and
 function lists sorted by name.
 */
module Names {
  import opened Lists

  /** Names longer than this are refused. */
  const HAL_NAME_LEN := 47

  /** `strcmp(a, b) < 0`: at the first difference `a` has the smaller character or has ended. */
  predicate Less(a: string, b: string) {
    if b == "" then false
    else if a == "" then true
    else a[0] < b[0] || (a[0] == b[0] && Less(a[1..], b[1..]))
  }

  /** The names agree before place `k`, where `a` has ended or has the smaller character. */
  predicate SmallerAt(a: string, b: string, k: int) {
    0 <= k <= |a| && k < |b| && a[..k] == b[..k] && (k == |a| || a[k] < b[k])
  }

  lemma SmallerAtShift(a: string, b: string, k: int)
    requires a != "" && b != "" && a[0] == b[0] && k > 0
    ensures SmallerAt(a, b, k) <==> SmallerAt(a[1..], b[1..], k - 1)
  {
    if k <= |a| && k <= |b| {
      PrefixShift(a, k);
      PrefixShift(b, k);
      assert a[..k] == b[..k] <==> a[1..][..k - 1] == b[1..][..k - 1];
      assert k < |a| ==> a[k] == a[1..][k - 1];
      assert k < |b| ==> b[k] == b[1..][k - 1];
    }
  }

  lemma PrefixShift(a: string, k: nat)
    requires 0 < k <= |a|
    ensures a[..k] == [a[0]] + a[1..][..k - 1] && a[1..][..k - 1] == a[..k][1..]
  {
  }

  lemma {:induction false} LessIff(a: string, b: string)
    ensures Less(a, b) <==> exists k :: SmallerAt(a, b, k)
  {
    if a != "" && b != "" && a[0] == b[0] {
      LessIff(a[1..], b[1..]);
      if k :| SmallerAt(a[1..], b[1..], k) {
        SmallerAtShift(a, b, k + 1);
        assert SmallerAt(a, b, k + 1);
      }
      forall k | SmallerAt(a, b, k)
        ensures SmallerAt(a[1..], b[1..], k - 1)
      {
        SmallerAtShift(a, b, k);
      }
    } else {
      assert b != "" && (a == "" || a[0] < b[0]) ==> SmallerAt(a, b, 0);
      assert forall k :: SmallerAt(a, b, k) && k > 0 ==> a[..k][0] == b[..k][0];
    }
  }

  lemma {:induction false} LessIrreflexive(a: string)
    ensures !Less(a, a)
  {
    if a != "" {
      LessIrreflexive(a[1..]);
    }
  }

  /** `strcmp` tells any two different names apart. */
  lemma {:induction false} LessTotal(a: string, b: string)
    ensures Less(a, b) || a == b || Less(b, a)
  {
    if a != "" && b != "" {
      LessTotal(a[1..], b[1..]);
      assert a == [a[0]] + a[1..];
      assert b == [b[0]] + b[1..];
    }
  }

  lemma {:induction false} LessTransitive(a: string, b: string, c: string)
    requires Less(a, b) && Less(b, c)
    ensures Less(a, c)
  {
    if a != "" && a[0] == b[0] == c[0] {
      LessTransitive(a[1..], b[1..], c[1..]);
    }
  }

  /** `strcmp(a, b) <= 0`. */
  predicate AtMost(a: string, b: string) { !Less(b, a) }

  lemma AtMostTransitive(a: string, b: string, c: string)
    requires AtMost(a, b) && AtMost(b, c)
    ensures AtMost(a, c)
  {
    if Less(c, a) {
      LessTotal(a, b);
      if Less(a, b) {
        LessTransitive(c, a, b);
      }
    }
  }

  lemma LessAtMost(a: string, b: string)
    requires Less(a, b)
    ensures AtMost(a, b)
  {
    if Less(b, a) {
      LessTransitive(a, b, a);
      LessIrreflexive(a);
    }
  }

  /** Sorted by name; equal names may stand next to each other. */
  ghost predicate Sorted(names: seq<string>) {
    forall i, j :: 0 <= i < j < |names| ==> AtMost(names[i], names[j])
  }

  /** Where every insertion loop of the library stops: before the first greater name. */
  function Place(names: seq<string>, name: string): (p: nat)
    ensures p <= |names|
    ensures forall i :: 0 <= i < p ==> AtMost(names[i], name)
    ensures p < |names| ==> Less(name, names[p])
  {
    if names == [] || Less(name, names[0]) then 0 else 1 + Place(names[1..], name)
  }

  /** Inserting at the place keeps a list sorted. */
  lemma InsertKeepsSorted(names: seq<string>, name: string)
    requires Sorted(names)
    ensures Sorted(Insert(names, Place(names, name), name))
  {
    var p := Place(names, name);
    forall i | p <= i < |names|
      ensures AtMost(name, names[i])
    {
      LessAtMost(name, names[p]);
      if p < i {
        AtMostTransitive(name, names[p], names[i]);
      }
    }
  }

  /** In a sorted list a name that occurs is found before the insertion place. */
  lemma OccursBeforePlace(names: seq<string>, name: string, i: nat)
    requires Sorted(names) && i < |names| && names[i] == name
    ensures i < Place(names, name)
  {
    LessIrreflexive(name);
  }

  /** Everything from the insertion place on is greater. */
  lemma BeyondPlace(names: seq<string>, name: string, k: nat)
    requires Sorted(names) && Place(names, name) <= k < |names|
    ensures Less(name, names[k])
  {
    var at := Place(names, name);
    if at < k && AtMost(names[k], name) {
      AtMostTransitive(names[at], names[k], name);
    }
  }

  /** What stands behind a name that is at its insertion place is greater. */
  lemma BehindPlace(names: seq<string>, i: nat, k: nat)
    requires Sorted(names) && i < k < |names| && Place(Remove(names, i), names[i]) == i
    ensures Less(names[i], names[k])
  {
    var rest := Remove(names, i);
    assert rest[k - 1] == names[k];
    assert Sorted(rest) by {
      assert forall j :: 0 <= j < |rest| ==> rest[j] == names[if j < i then j else j + 1];
    }
    BeyondPlace(rest, names[i], k - 1);
  }

  /** A loop that passes over names that are not greater and stops at a greater one finds the place. */
  lemma PlaceIs(names: seq<string>, name: string, p: nat)
    requires p <= |names|
    requires forall i :: 0 <= i < p ==> AtMost(names[i], name)
    requires p < |names| ==> Less(name, names[p])
    ensures Place(names, name) == p
  {
    assert p < Place(names, name) ==> AtMost(names[p], name);
  }
}
