/**
 Names in the order std::string compares them, and the sorted vectors the registries keep by
 std::lower_bound.
 */
module Names {

  predicate Less(a: string, b: string) {
    b != "" && (a == "" || a[0] < b[0] || (a[0] == b[0] && Less(a[1..], b[1..])))
  }

  lemma {:induction false} LessIrreflexive(a: string)
    ensures !Less(a, a)
  {
    if a == "" {
    } else {
      LessIrreflexive(a[1..]);
    }
  }

  lemma {:induction false} LessTransitive(a: string, b: string, c: string)
    requires Less(a, b) && Less(b, c)
    ensures Less(a, c)
  {
    if a != "" && a[0] == b[0] == c[0] { LessTransitive(a[1..], b[1..], c[1..]); }
  }

  lemma {:induction false} LessTotal(a: string, b: string)
    ensures a == b || Less(a, b) || Less(b, a)
  {
    if a != "" && b != "" && a[0] == b[0] {
      LessTotal(a[1..], b[1..]);
      assert a == [a[0]] + a[1..] && b == [b[0]] + b[1..];
    }
  }

  /** A name comes before its continuations; otherwise the first differing character decides. */
  lemma {:induction false} LessExact(common: string, a: char, x: string, b: char, y: string)
    ensures Less(common, common + [a] + x) && !Less(common + [a] + x, common)
    ensures a != b ==> (Less(common + [a] + x, common + [b] + y) <==> a < b)
  {
    var u, v := common + [a] + x, common + [b] + y;
    if common == "" {
    } else {
      LessExact(common[1..], a, x, b, y);
      assert u[1..] == common[1..] + [a] + x && v[1..] == common[1..] + [b] + y;
    }
  }

  predicate Sorted(names: seq<string>) {
    forall i, j :: 0 <= i < j < |names| ==> Less(names[i], names[j])
  }

  /** std::lower_bound: the first position whose name does not precede the target. */
  function LowerBound(names: seq<string>, target: string): (i: nat)
    ensures i <= |names|
    ensures forall k :: 0 <= k < i ==> Less(names[k], target)
    ensures i < |names| ==> !Less(names[i], target)
  {
    if names == [] || !Less(names[0], target) then 0
    else
      var rest := LowerBound(names[1..], target);
      assert forall k :: 0 <= k < rest + 1 ==> names[k] == if k == 0 then names[0] else names[1..][k - 1];
      rest + 1
  }

  /** The test every lookup makes after the search. */
  predicate Found(names: seq<string>, target: string) {
    var i := LowerBound(names, target);
    i < |names| && names[i] == target
  }

  function Inserted(names: seq<string>, target: string): seq<string> {
    var i := LowerBound(names, target);
    names[..i] + [target] + names[i..]
  }

  function Erased(names: seq<string>, target: string): seq<string> {
    var i := LowerBound(names, target);
    if i < |names| && names[i] == target then names[..i] + names[i + 1..] else names
  }

  /** In a sorted vector the lookup finds a name exactly when it is there. */
  lemma FoundIff(names: seq<string>, target: string)
    requires Sorted(names)
    ensures Found(names, target) <==> target in names
  {
    hide Less;
    if target in names {
      var k :| 0 <= k < |names| && names[k] == target;
      var i := LowerBound(names, target);
      LessIrreflexive(target);
    }
  }

  lemma InsertSorted(names: seq<string>, target: string)
    requires Sorted(names) && target !in names
    ensures Sorted(Inserted(names, target))
    ensures forall x :: x in Inserted(names, target) <==> x in names || x == target
  {
    hide Less;
    var n := LowerBound(names, target);
    var s := Inserted(names, target);
    forall k | n <= k < |names| ensures Less(target, names[k]) {
      LessTotal(names[n], target);
      if k > n { LessTransitive(target, names[n], names[k]); }
    }
    forall i, j | 0 <= i < j < |s| ensures Less(s[i], s[j]) {
      assert s[i] == if i < n then names[i] else if i == n then target else names[i - 1];
      assert s[j] == if j < n then names[j] else if j == n then target else names[j - 1];
    }
    assert names == names[..n] + names[n..];
  }

  lemma EraseSorted(names: seq<string>, target: string)
    requires Sorted(names)
    ensures Sorted(Erased(names, target))
    ensures forall x :: x in Erased(names, target) <==> x in names && x != target
  {
    hide Less;
    FoundIff(names, target);
    var n := LowerBound(names, target);
    if Found(names, target) {
      assert names == names[..n] + [target] + names[n + 1..];
      forall k | 0 <= k < |names| && k != n ensures names[k] != target { LessIrreflexive(target); }
    }
  }
}
