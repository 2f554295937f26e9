/** The order a language is rendered in: shorter strings first, strings of
    equal length by `<`; and the in-place sort that puts a vector of
    strings into that order. */
module ShortLex {
  import opened Strings

  /** The render comparator: true when `a` must come before `b`, that is
      when it is shorter, or as long and lexicographically smaller. */
  function Before(a: String, b: String): (r: bool)
    ensures r <==> |a.content| < |b.content| || (|a.content| == |b.content| && Precedes(a.content, b.content))
    ensures r ==> a.content != b.content
  {
    Length(a) < Length(b) || (Length(a) == Length(b) && Less(a, b))
  }

  /** The comparator is a strict weak order, and total on strings with
      different contents. */
  lemma BeforeIsStrictWeakOrder(a: String, b: String, c: String)
    ensures !Before(a, a)
    ensures Before(a, b) ==> !Before(b, a)
    ensures Before(a, b) && Before(b, c) ==> Before(a, c)
    ensures !Before(b, a) && !Before(c, b) ==> !Before(c, a)
    ensures a.content != b.content ==> Before(a, b) || Before(b, a)
  {
    LessIsStrictTotalOrder(a, b, c);
    LessIsStrictTotalOrder(c, b, a);
    LessIsStrictTotalOrder(c, a, b);
    LessIsStrictTotalOrder(b, c, a);
  }

  /** No later element must come before an earlier one: what std::sort
      promises for a strict weak order. */
  predicate Sorted(s: seq<String>)
  {
    forall i, j :: 0 <= i < j < |s| ==> !Before(s[j], s[i])
  }

  /** Every element comes before every later one. */
  predicate StrictlySorted(s: seq<String>)
  {
    forall i, j :: 0 <= i < j < |s| ==> Before(s[i], s[j])
  }

  predicate Distinct(s: seq<String>)
  {
    forall i, j :: 0 <= i < j < |s| ==> s[i] != s[j]
  }

  /** Sorts the vector in place (insertion sort standing in for std::sort):
      the result is sorted and a permutation of the input. */
  method Sort(a: array<String>)
    modifies a
    ensures Sorted(a[..])
    ensures multiset(a[..]) == old(multiset(a[..]))
  {
    for i := 0 to a.Length
      invariant forall p, q :: 0 <= p < q < i ==> !Before(a[q], a[p])
      invariant multiset(a[..]) == old(multiset(a[..]))
    {
      Insert(a, i);
    }
    assert forall p, q :: 0 <= p < q < a.Length ==> a[..][p] == a[p] && a[..][q] == a[q];
  }

  /** One round of insertion sort: moves a[i] left past every element it
      must come before, so that a[..i + 1] is sorted. */
  method Insert(a: array<String>, i: int)
    requires 0 <= i < a.Length
    requires forall p, q :: 0 <= p < q < i ==> !Before(a[q], a[p])
    modifies a
    ensures forall p, q :: 0 <= p < q <= i ==> !Before(a[q], a[p])
    ensures multiset(a[..]) == old(multiset(a[..]))
  {
    var j := i;
    while j > 0 && Before(a[j], a[j - 1])
      invariant 0 <= j <= i
      invariant forall p, q :: 0 <= p < q <= i && p != j && q != j ==> !Before(a[q], a[p])
      invariant forall q :: j < q <= i ==> Before(a[j], a[q])
      invariant multiset(a[..]) == old(multiset(a[..]))
    {
      Swap(a, j - 1, j);
      j := j - 1;
    }
    forall p, q | 0 <= p < q <= i
      ensures !Before(a[q], a[p])
    {
      if q == j && p < j - 1 {
        BeforeIsStrictWeakOrder(a[p], a[j - 1], a[j]);
      } else if p == j {
        BeforeIsStrictWeakOrder(a[p], a[q], a[q]);
      }
    }
  }

  method Swap(a: array<String>, i: int, j: int)
    requires 0 <= i < j < a.Length
    modifies a
    ensures a[i] == old(a[j]) && a[j] == old(a[i])
    ensures forall k :: 0 <= k < a.Length && k != i && k != j ==> a[k] == old(a[k])
    ensures multiset(a[..]) == old(multiset(a[..]))
  {
    a[i], a[j] := a[j], a[i];
  }

  /** A sorted sequence without repeated contents is strictly sorted. */
  lemma SortedDistinctContents(s: seq<String>)
    requires Sorted(s)
    requires forall i, j :: 0 <= i < j < |s| ==> s[i].content != s[j].content
    ensures StrictlySorted(s)
  {
    forall i, j | 0 <= i < j < |s| ensures Before(s[i], s[j]) {
      BeforeIsStrictWeakOrder(s[i], s[j], s[j]);
    }
  }

  lemma {:induction false} DistinctMultiplicity(s: seq<String>, x: String)
    requires Distinct(s)
    ensures multiset(s)[x] <= 1
  {
    if s != [] {
      var init := s[..|s| - 1];
      var last := s[|s| - 1];
      assert s == init + [last];
      assert Distinct(init) by {
        forall i, j | 0 <= i < j < |init| ensures init[i] != init[j] {
          assert init[i] == s[i] && init[j] == s[j];
        }
      }
      DistinctMultiplicity(init, x);
      if x == last {
        assert x !in init by {
          forall i | 0 <= i < |init| ensures init[i] != x {
            assert init[i] == s[i];
          }
        }
      }
    }
  }

  lemma DuplicateMultiplicity(s: seq<String>, i: int, j: int)
    requires 0 <= i < j < |s| && s[i] == s[j]
    ensures multiset(s)[s[i]] >= 2
  {
    assert s == s[..j] + s[j..];
    assert s[i] in s[..j];
    assert s[j..][0] == s[j];
  }

  /** A permutation of a sequence without repetitions has none either. */
  lemma PermutationDistinct(s: seq<String>, t: seq<String>)
    requires multiset(s) == multiset(t)
    requires Distinct(t)
    ensures Distinct(s)
  {
    forall i, j | 0 <= i < j < |s| ensures s[i] != s[j] {
      if s[i] == s[j] {
        DuplicateMultiplicity(s, i, j);
        DistinctMultiplicity(t, s[i]);
        assert false;
      }
    }
  }

  /** Two strictly sorted sequences with the same members are equal: the
      rendered order is determined by the membership alone. */
  lemma {:induction false} ListingUnique(s: seq<String>, t: seq<String>)
    requires StrictlySorted(s) && StrictlySorted(t)
    requires forall x :: x in s <==> x in t
    ensures s == t
    decreases |s|
  {
    if s != [] { assert s[0] in t; }
    if t != [] { assert t[0] in s; }
    if s != [] {
      if s[0] != t[0] {
        var k :| 0 <= k < |s| && s[k] == t[0];
        var l :| 0 <= l < |t| && t[l] == s[0];
        assert Before(s[0], t[0]) && Before(t[0], s[0]);
        BeforeIsStrictWeakOrder(s[0], t[0], t[0]);
        assert false;
      }
      forall x ensures x in s[1..] <==> x in t[1..] {
        BeforeIsStrictWeakOrder(s[0], s[0], s[0]);
        if x in s[1..] {
          var k :| 0 <= k < |s[1..]| && s[1..][k] == x;
          assert Before(s[0], s[k + 1]) && s[k + 1] == x && x in s && x in t;
          var m :| 0 <= m < |t| && t[m] == x;
          assert m != 0;
          assert t[1..][m - 1] == x;
        }
        if x in t[1..] {
          var k :| 0 <= k < |t[1..]| && t[1..][k] == x;
          assert Before(t[0], t[k + 1]) && t[k + 1] == x && x in t && x in s;
          var m :| 0 <= m < |s| && s[m] == x;
          assert m != 0;
          assert s[1..][m - 1] == x;
        }
      }
      ListingUnique(s[1..], t[1..]);
      assert s == [s[0]] + s[1..] && t == [t[0]] + t[1..];
    }
  }

  /** No two members share a content: the shape of a language's set. */
  ghost predicate ContentsDistinct(members: set<String>)
  {
    forall x, y :: x in members && y in members && x.content == y.content ==> x == y
  }

  /** The member that comes before all others. */
  ghost function First(members: set<String>): (m: String)
    requires members != {} && ContentsDistinct(members)
    ensures m in members
    ensures forall x :: x in members && x != m ==> Before(m, x)
  {
    var x :| x in members;
    assert forall z :: z in members ==> z == x || z in members - {x};
    if members - {x} == {} then x
    else
      var y := First(members - {x});
      BeforeIsStrictWeakOrder(x, y, y);
      assert forall z :: z in members - {x} && z != y ==> Before(y, z);
      if Before(x, y) then
        assert forall z :: z in members - {x} && z != y ==> Before(x, z) by {
          forall z | z in members - {x} && z != y ensures Before(x, z) {
            BeforeIsStrictWeakOrder(x, y, z);
          }
        }
        x
      else
        y
  }

  /** The members in render order: shortest first, then by `<`. */
  ghost function Listing(members: set<String>): seq<String>
    requires ContentsDistinct(members)
    decreases members
  {
    if members == {} then []
    else [First(members)] + Listing(members - {First(members)})
  }

  /** The render order lists every member exactly once and is strictly
      sorted by the comparator. */
  lemma {:induction false} ListingSound(members: set<String>)
    requires ContentsDistinct(members)
    ensures forall x :: x in Listing(members) <==> x in members
    ensures StrictlySorted(Listing(members))
    decreases members
  {
    if members != {} {
      var m := First(members);
      var rest := Listing(members - {m});
      ListingSound(members - {m});
      var r := [m] + rest;
      assert Listing(members) == r;
      forall i, j | 0 <= i < j < |r| ensures Before(r[i], r[j]) {
        assert r[j] == rest[j - 1] && rest[j - 1] in members - {m};
        if i > 0 { assert r[i] == rest[i - 1]; }
      }
    }
  }
}
