/** Sorted listings without duplicates. */
module Listing {

  /** Rust's order on strings: byte by byte in UTF-8, which is the order of the
      code points. */
  predicate Less(a: string, b: string) {
    if b == [] then false
    else if a == [] then true
    else a[0] < b[0] || (a[0] == b[0] && Less(a[1..], b[1..]))
  }

  lemma {:induction false} LessIrreflexive(a: string)
    ensures !Less(a, a)
  {
    if a != [] {
      LessIrreflexive(a[1..]);
    }
  }

  lemma {:induction false} LessTransitive(a: string, b: string, c: string)
    requires Less(a, b) && Less(b, c)
    ensures Less(a, c)
  {
    if a != [] && a[0] == b[0] == c[0] {
      LessTransitive(a[1..], b[1..], c[1..]);
    }
  }

  lemma {:induction false} LessTotal(a: string, b: string)
    ensures a == b || Less(a, b) || Less(b, a)
  {
    if a != [] && b != [] && a[0] == b[0] {
      LessTotal(a[1..], b[1..]);
      assert a == [a[0]] + a[1..] && b == [b[0]] + b[1..];
    }
  }

  /** `a` and `b` agree up to `k`, where `a` ends or has the lower character. */
  predicate LowerAt(a: string, b: string, k: nat) {
    && k <= |a| && k < |b|
    && a[..k] == b[..k]
    && (k < |a| ==> a[k] < b[k])
  }

  /** The order is decided by the first difference. */
  lemma {:induction false} LessAtFirstDifference(a: string, b: string)
    ensures Less(a, b) <==> exists k: nat :: LowerAt(a, b, k)
  {
    if a != [] && b != [] && a[0] == b[0] {
      LessAtFirstDifference(a[1..], b[1..]);
      assert a == [a[0]] + a[1..] && b == [b[0]] + b[1..];
      if k: nat :| LowerAt(a[1..], b[1..], k) {
        assert a[..k + 1] == [a[0]] + a[1..][..k] && b[..k + 1] == [b[0]] + b[1..][..k];
        assert LowerAt(a, b, k + 1);
      }
      if k: nat :| LowerAt(a, b, k) {
        AgreeAtFirst(a, b, k);
        assert a[1..][..k - 1] == a[..k][1..] && b[1..][..k - 1] == b[..k][1..];
        assert LowerAt(a[1..], b[1..], k - 1);
      }
    } else if b != [] && (a == [] || a[0] < b[0]) {
      assert LowerAt(a, b, 0);
    } else if k: nat :| LowerAt(a, b, k) {
      AgreeAtFirst(a, b, k);
    }
  }

  lemma AgreeAtFirst(a: string, b: string, k: nat)
    requires LowerAt(a, b, k)
    ensures b != [] && (k > 0 ==> a != [] && a[0] == b[0])
  {
    if k > 0 {
      assert a[0] == a[..k][0] && b[0] == b[..k][0];
    }
  }

  /** `names` is `all`, each once, in ascending order. */
  ghost predicate Lists(names: seq<string>, all: set<string>) {
    && (forall x :: x in names <==> x in all)
    && (forall i, j :: 0 <= i < j < |names| ==> Less(names[i], names[j]))
  }

  /** There is only one such listing. */
  lemma {:induction false} ListsUnique(names: seq<string>, other: seq<string>, all: set<string>)
    requires Lists(names, all) && Lists(other, all)
    ensures names == other
  {
    if names == [] && other == [] {
    } else if names == [] {
      FirstIsFirst(other, names, all);
    } else {
      assert names[0] in all;
      FirstIsFirst(names, other, all);
      var rest := all - {names[0]};
      TailLists(names, all);
      TailLists(other, all);
      ListsUnique(names[1..], other[1..], rest);
      assert names == [names[0]] + names[1..] && other == [other[0]] + other[1..];
    }
  }

  lemma FirstIsFirst(names: seq<string>, other: seq<string>, all: set<string>)
    requires Lists(names, all) && Lists(other, all) && names != []
    ensures other != [] && names[0] == other[0]
  {
    assert names[0] in other;
    assert other[0] in names;
    var i :| 0 <= i < |other| && other[i] == names[0];
    var j :| 0 <= j < |names| && names[j] == other[0];
    if i > 0 && j > 0 {
      LessTransitive(names[0], other[0], names[0]);
      LessIrreflexive(names[0]);
    }
  }

  lemma TailLists(names: seq<string>, all: set<string>)
    requires Lists(names, all) && names != []
    ensures Lists(names[1..], all - {names[0]})
  {
    forall x ensures x in names[1..] <==> x in all && x != names[0] {
      if x in names[1..] {
        var i :| 0 <= i < |names| - 1 && names[1..][i] == x;
        assert names[i + 1] == x;
        LessIrreflexive(x);
        assert Less(names[0], names[i + 1]);
      }
      if x in all && x != names[0] {
        assert x in names;
        var i :| 0 <= i < |names| && names[i] == x;
        assert names[1..][i - 1] == x;
      }
    }
  }

  /** Where `x` goes in an ascending sequence. */
  function Insert(x: string, sorted: seq<string>): seq<string> {
    if sorted == [] || Less(x, sorted[0]) then [x] + sorted
    else [sorted[0]] + Insert(x, sorted[1..])
  }

  /** `sort`, as a library call. */
  function Sort(names: seq<string>): seq<string> {
    if names == [] then [] else Insert(names[|names| - 1], Sort(names[..|names| - 1]))
  }

  lemma {:induction false} InsertLists(x: string, sorted: seq<string>, all: set<string>)
    requires Lists(sorted, all) && x !in all
    ensures Lists(Insert(x, sorted), all + {x})
  {
    if sorted == [] || Less(x, sorted[0]) {
      forall j | 0 <= j < |sorted| ensures Less(x, sorted[j]) {
        if j > 0 {
          LessTransitive(x, sorted[0], sorted[j]);
        }
      }
    } else {
      assert sorted[0] in all;
      LessTotal(x, sorted[0]);
      TailLists(sorted, all);
      InsertLists(x, sorted[1..], all - {sorted[0]});
      var rest := Insert(x, sorted[1..]);
      forall j | 0 <= j < |rest| ensures Less(sorted[0], rest[j]) {
        assert rest[j] in rest;
        if rest[j] != x {
          assert rest[j] in sorted[1..];
          var i :| 0 <= i < |sorted| - 1 && sorted[1..][i] == rest[j];
          assert Less(sorted[0], sorted[i + 1]);
        }
      }
      assert (all - {sorted[0]}) + {x} == (all + {x}) - {sorted[0]};
    }
  }

  predicate Distinct(names: seq<string>) {
    forall i, j :: 0 <= i < j < |names| ==> names[i] != names[j]
  }

  /** Sorting names without duplicates lists them. */
  lemma {:induction false} SortLists(names: seq<string>)
    requires Distinct(names)
    ensures Lists(Sort(names), set x | x in names)
  {
    if names != [] {
      var before, last := names[..|names| - 1], names[|names| - 1];
      SortLists(before);
      assert last !in before;
      InsertLists(last, Sort(before), set x | x in before);
      assert (set x | x in names) == (set x | x in before) + {last};
    }
  }

  lemma {:induction false} ListingExists(all: set<string>) returns (names: seq<string>)
    ensures Lists(names, all)
  {
    if all == {} {
      names := [];
    } else {
      var x :| x in all;
      var rest := ListingExists(all - {x});
      InsertLists(x, rest, all - {x});
      names := Insert(x, rest);
      assert all - {x} + {x} == all;
    }
  }

  /** The listing of a set of names. */
  ghost function Listed(all: set<string>): (names: seq<string>)
    ensures Lists(names, all)
  {
    assert exists names :: Lists(names, all) by {
      var names := ListingExists(all);
    }
    var names :| Lists(names, all);
    names
  }

  lemma ListedIs(names: seq<string>, all: set<string>)
    requires Lists(names, all)
    ensures names == Listed(all)
  {
    ListsUnique(names, Listed(all), all);
  }
}
