/** Worked examples: what a caller can conclude from the contracts alone. */
module Scenarios {
  import Alphabets
  import Strings
  import Text
  import ShortLex
  import Languages
  import Derivations

  /** "ab" over {a, b}: length 2, reversal "ba", valid; "xy" over {a, b} is
      not valid. */
  method StringExamples()
  {
    var ab := Alphabets.Alphabet({'a', 'b'});
    var s := Strings.String("ab", ab);
    assert Strings.Length(s) == 2;
    assert Strings.Reverse(s).content == "ba";
    var valid := Strings.IsValid(s);
    assert valid;

    var xy := Strings.String("xy", ab);
    valid := Strings.IsValid(xy);
    assert !Alphabets.Contains(ab, xy.content[0]);
    assert !valid;
  }

  /** The prefixes of "ab" render as {&, a, ab}. */
  method PrefixExample()
  {
    var ab := Alphabets.Alphabet({'a', 'b'});
    var s := Strings.String("ab", ab);
    var prefixes := Derivations.Prefixes(s);
    var text := prefixes.Render();
    PrefixLanguage(prefixes, ab);
    PrefixListing(ab);
    assert text == "{&, a, ab}";
  }

  lemma PrefixLanguage(lang: Languages.Language, ab: Alphabets.Alphabet)
    requires lang.strings.Keys == Derivations.PrefixContents("ab")
    requires forall k :: k in lang.strings ==> lang.strings[k] == ab
    ensures lang.GetStrings() == PrefixMembers(ab)
  {
    assert Derivations.PrefixContents("ab") == {"", "a", "ab"} by {
      assert "ab"[..0] == "" && "ab"[..1] == "a" && "ab"[..2] == "ab";
    }
  }

  function PrefixMembers(ab: Alphabets.Alphabet): set<Strings.String>
  {
    {Strings.String("", ab), Strings.String("a", ab), Strings.String("ab", ab)}
  }

  function PrefixOrder(ab: Alphabets.Alphabet): seq<Strings.String>
  {
    [Strings.String("", ab), Strings.String("a", ab), Strings.String("ab", ab)]
  }

  lemma PrefixOrderSorted(ab: Alphabets.Alphabet)
    ensures ShortLex.StrictlySorted(PrefixOrder(ab))
    ensures forall x :: x in PrefixOrder(ab) <==> x in PrefixMembers(ab)
  {
    assert Strings.LexLess("a", "b");
  }

  lemma PrefixListing(ab: Alphabets.Alphabet)
    ensures ShortLex.ContentsDistinct(PrefixMembers(ab))
    ensures Text.Braced(Languages.RenderAll(ShortLex.Listing(PrefixMembers(ab)))) == "{&, a, ab}"
  {
    var members := PrefixMembers(ab);
    ShortLex.ListingSound(members);
    PrefixOrderSorted(ab);
    ShortLex.ListingUnique(ShortLex.Listing(members), PrefixOrder(ab));
    PrefixText(ab);
  }

  lemma PrefixText(ab: Alphabets.Alphabet)
    ensures Text.Braced(Languages.RenderAll(PrefixOrder(ab))) == "{&, a, ab}"
  {
    assert Languages.RenderAll(PrefixOrder(ab)) == ["&", "a", "ab"];
    assert ["&", "a", "ab"][..2] == ["&", "a"] && ["&", "a"][..1] == ["&"];
  }

  /** The empty string is empty, and its suffixes render as {&}. */
  method EmptyExample()
  {
    var empty := Strings.String("", Alphabets.Alphabet({'a'}));
    assert Strings.IsEmpty(empty);
    var suffixes := Derivations.Suffixes(empty);
    var text := suffixes.Render();
    ghost var members := suffixes.GetStrings();
    ShortLex.ListingSound(members);
    ghost var order := ShortLex.Listing(members);
    assert Derivations.SuffixContents("") == {""} by {
      assert Derivations.Suffix("", 0) == "";
    }
    forall x ensures x in order <==> x in [empty] {
      assert x in members <==> x in [empty];
    }
    ShortLex.ListingUnique(order, [empty]);
    assert Languages.RenderAll([empty]) == ["&"];
    assert text == "{&}";
  }
}
