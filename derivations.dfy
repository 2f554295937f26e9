/** The languages a string derives: all its prefixes and all its suffixes.
    They are string operations that build a language, so they come after
    both types. */
module Derivations {
  import Strings
  import Languages

  /** The contents of the prefixes of x, the empty one and x included. */
  function PrefixContents(x: string): set<string>
  {
    set i | 0 <= i <= |x| :: x[..i]
  }

  /** The last i symbols of x. */
  function Suffix(x: string, i: nat): (r: string)
    requires i <= |x|
    ensures |r| == i
    ensures forall k :: 0 <= k < i ==> r[k] == x[|x| - i + k]
  {
    x[|x| - i..]
  }

  /** The contents of the suffixes of x, the empty one and x included. */
  function SuffixContents(x: string): set<string>
  {
    set i | 0 <= i <= |x| :: Suffix(x, i)
  }

  /** The language of the prefixes: the empty string, then one prefix per
      length from 1 to the length of s, each over the alphabet of s. */
  method Prefixes(s: Strings.String) returns (lang: Languages.Language)
    ensures fresh(lang)
    ensures lang.strings.Keys == PrefixContents(s.content)
    ensures forall k :: k in lang.strings ==> lang.strings[k] == s.alphabet
  {
    lang := new Languages.Language();
    lang.AddString(Strings.String("", s.alphabet));
    assert s.content[..0] == "";
    for i := 1 to |s.content| + 1
      invariant lang.strings.Keys == set j | 0 <= j < i :: s.content[..j]
      invariant forall k :: k in lang.strings ==> lang.strings[k] == s.alphabet
    {
      lang.AddString(Strings.String(s.content[..i], s.alphabet));
      assert (set j | 0 <= j < i + 1 :: s.content[..j])
          == (set j | 0 <= j < i :: s.content[..j]) + {s.content[..i]};
    }
  }

  /** The language of the suffixes: the empty string, then one suffix per
      length from 1 to the length of s, each over the alphabet of s. */
  method Suffixes(s: Strings.String) returns (lang: Languages.Language)
    ensures fresh(lang)
    ensures lang.strings.Keys == SuffixContents(s.content)
    ensures forall k :: k in lang.strings ==> lang.strings[k] == s.alphabet
  {
    var n := |s.content|;
    lang := new Languages.Language();
    lang.AddString(Strings.String("", s.alphabet));
    assert Suffix(s.content, 0) == "";
    for i := 1 to n + 1
      invariant lang.strings.Keys == set j | 0 <= j < i :: Suffix(s.content, j)
      invariant forall k :: k in lang.strings ==> lang.strings[k] == s.alphabet
    {
      lang.AddString(Strings.String(s.content[n - i..], s.alphabet));
      assert (set j | 0 <= j < i + 1 :: Suffix(s.content, j))
          == (set j | 0 <= j < i :: Suffix(s.content, j)) + {Suffix(s.content, i)};
    }
  }

  /** A string of length n has n + 1 distinct prefixes, among them the
      empty string and the whole string. */
  lemma {:induction false} PrefixCount(x: string)
    ensures "" in PrefixContents(x) && x in PrefixContents(x)
    ensures |PrefixContents(x)| == |x| + 1
    decreases |x|
  {
    assert x[..0] == "" && x[..|x|] == x;
    if x == [] {
      assert PrefixContents(x) == {""};
    } else {
      var init := x[..|x| - 1];
      PrefixCount(init);
      assert PrefixContents(x) == PrefixContents(init) + {x} by {
        forall i | 0 <= i <= |init| ensures x[..i] == init[..i] { }
        forall p | p in PrefixContents(x) ensures p in PrefixContents(init) + {x} {
          var i :| 0 <= i <= |x| && p == x[..i];
          if i < |x| { assert p == init[..i]; }
        }
      }
      assert forall p :: p in PrefixContents(init) ==> |p| < |x|;
    }
  }

  /** A string of length n has n + 1 distinct suffixes, among them the
      empty string and the whole string. */
  lemma {:induction false} SuffixCount(x: string)
    ensures "" in SuffixContents(x) && x in SuffixContents(x)
    ensures |SuffixContents(x)| == |x| + 1
    decreases |x|
  {
    assert Suffix(x, 0) == "" && Suffix(x, |x|) == x;
    if x == [] {
      assert SuffixContents(x) == {""};
    } else {
      SuffixCount(x[1..]);
      SuffixStep(x);
    }
  }

  /** The suffixes of x are those of its tail, and x itself, which is
      longer than all of those. */
  lemma SuffixStep(x: string)
    requires x != []
    ensures SuffixContents(x) == SuffixContents(x[1..]) + {x}
    ensures x !in SuffixContents(x[1..])
  {
    var tail := x[1..];
    assert Suffix(x, |x|) == x;
    forall i | 0 <= i <= |tail| ensures Suffix(x, i) == Suffix(tail, i) { }
    forall p | p in SuffixContents(x) ensures p in SuffixContents(tail) + {x} {
      var i :| 0 <= i <= |x| && p == Suffix(x, i);
      if i < |x| { assert p == Suffix(tail, i); }
    }
    assert forall p :: p in SuffixContents(tail) ==> |p| < |x|;
  }

  /** The suffixes of x are the reversals of the prefixes of its reversal. */
  lemma SuffixesArePrefixesOfReversal(x: string)
    ensures SuffixContents(x) == set p | p in PrefixContents(Strings.Reversed(x)) :: Strings.Reversed(p)
  {
    var rx := Strings.Reversed(x);
    forall i | 0 <= i <= |x|
      ensures Strings.Reversed(rx[..i]) == Suffix(x, i)
    {
      var r := Strings.Reversed(rx[..i]);
      assert forall k :: 0 <= k < i ==> r[k] == Suffix(x, i)[k];
    }
    forall p | p in SuffixContents(x)
      ensures p in set q | q in PrefixContents(rx) :: Strings.Reversed(q)
    {
      var i :| 0 <= i <= |x| && p == Suffix(x, i);
      assert rx[..i] in PrefixContents(rx);
    }
    forall p | p in set q | q in PrefixContents(rx) :: Strings.Reversed(q)
      ensures p in SuffixContents(x)
    {
      var q :| q in PrefixContents(rx) && p == Strings.Reversed(q);
      var i :| 0 <= i <= |rx| && q == rx[..i];
      assert p == Suffix(x, i);
    }
  }
}
