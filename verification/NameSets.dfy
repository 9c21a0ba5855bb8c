/** A counting argument both hydrations rely on: distinct names drawn from a set
    of the same size are all of it.
 */
module NameSets {
  import opened AuthTypes

  ghost predicate Distinct(names: seq<Name>) {
    forall i, j :: 0 <= i < j < |names| ==> names[i] != names[j]
  }

  ghost function SetOf(names: seq<Name>): set<Name> {
    if names == [] then {} else SetOf(names[..|names| - 1]) + {names[|names| - 1]}
  }

  lemma {:induction false} SetOfMember(names: seq<Name>, u: Name)
    ensures u in SetOf(names) <==> exists i :: 0 <= i < |names| && names[i] == u
  {
    if names != [] {
      var init, last := names[..|names| - 1], names[|names| - 1];
      SetOfMember(init, u);
      if u in SetOf(init) {
        var i :| 0 <= i < |init| && init[i] == u;
        assert names[i] == u;
      } else if i :| 0 <= i < |names| && names[i] == u {
        assert i < |init| ==> init[i] == u;
      }
    }
  }

  lemma {:induction false} SetOfCount(names: seq<Name>)
    requires Distinct(names)
    ensures |SetOf(names)| == |names|
  {
    if names != [] {
      var init, last := names[..|names| - 1], names[|names| - 1];
      SetOfCount(init);
      SetOfMember(init, last);
    }
  }

  lemma {:induction false} SubsetSize(a: set<Name>, b: set<Name>)
    requires a <= b
    ensures |a| <= |b|
  {
    if a != {} {
      var x :| x in a;
      SubsetSize(a - {x}, b - {x});
    }
  }

  /** Distinct names can be drawn from a set up to its size. */
  lemma {:induction false} DrawNames(all: set<Name>, n: nat) returns (names: seq<Name>)
    requires n <= |all|
    ensures |names| == n && Distinct(names) && forall i :: 0 <= i < n ==> names[i] in all
    decreases n
  {
    if n == 0 {
      names := [];
    } else {
      var x :| x in all;
      var rest := DrawNames(all - {x}, n - 1);
      names := rest + [x];
    }
  }

  lemma DistinctNamesCover(names: seq<Name>, all: set<Name>, u: Name)
    requires Distinct(names) && |names| == |all|
    requires forall i :: 0 <= i < |names| ==> names[i] in all
    requires u in all
    ensures exists i :: 0 <= i < |names| && names[i] == u
  {
    SetOfCount(names);
    SetOfMember(names, u);
    if u !in SetOf(names) {
      forall x | x in SetOf(names) ensures x in all - {u} { SetOfMember(names, x); }
      SubsetSize(SetOf(names), all - {u});
    }
  }
}
