/** A language: a finite set of strings. Strings are told apart by content
    only, so the set is kept as a map from content to the alphabet of the
    member that was inserted with that content. */
module Languages {
  import Alphabets
  import Strings
  import Text
  import ShortLex

  /** The i-th token a count-then-tokens read yields: past the end of the
      input the fresh string stays empty. */
  function TokenAt(tokens: seq<string>, i: nat): string
  {
    if i < |tokens| then tokens[i] else ""
  }

  /** The contents the first `i` reads yield. */
  function TokensRead(tokens: seq<string>, i: nat): (r: set<string>)
    ensures forall k :: k in r <==> exists j :: 0 <= j < i && TokenAt(tokens, j) == k
  {
    set j | 0 <= j < i :: TokenAt(tokens, j)
  }

  /** The renderings of a listing of strings, one per member. */
  function RenderAll(order: seq<Strings.String>): (r: seq<string>)
    ensures |r| == |order|
    ensures forall i :: 0 <= i < |order| ==> r[i] == Strings.Render(order[i])
  {
    seq(|order|, i requires 0 <= i < |order| => Strings.Render(order[i]))
  }

  /** The loop of the language's render: the renderings of the sorted
      vector between braces, with ", " before every one but the first. */
  method WriteListing(a: array<Strings.String>) returns (text: string)
    ensures text == Text.Braced(RenderAll(a[..]))
  {
    text := "{";
    var first := true;
    for i := 0 to a.Length
      invariant first <==> i == 0
      invariant text == "{" + Text.Join(RenderAll(a[..i]))
    {
      ghost var joined := Text.Join(RenderAll(a[..i]));
      var r := Strings.Render(a[i]);
      assert a[..i + 1] == a[..i] + [a[i]];
      assert RenderAll(a[..i + 1]) == RenderAll(a[..i]) + [r];
      Text.JoinSnoc(RenderAll(a[..i]), r);
      if !first {
        Text.Associative("{", joined, ", ");
        text := text + ", ";
      }
      Text.Associative("{", if first then "" else joined + ", ", r);
      text := text + r;
      first := false;
    }
    assert a[..a.Length] == a[..];
    text := text + "}";
  }

  class Language {
    /** Content of each member, mapped to that member's alphabet. */
    var strings: map<string, Alphabets.Alphabet>

    /** The empty language. */
    constructor ()
      ensures strings == map[]
    {
      strings := map[];
    }

    /** Inserts a string, unless a member with the same content is already
        there; that member, alphabet included, is then kept as it is. */
    method AddString(s: Strings.String)
      modifies this
      ensures s.content in strings
      ensures strings == if s.content in old(strings) then old(strings)
                         else old(strings)[s.content := s.alphabet]
    {
      if s.content !in strings {
        strings := strings[s.content := s.alphabet];
      }
    }

    /** The members. No two of them have the same content. */
    function GetStrings(): (r: set<Strings.String>)
      reads this
      ensures forall x :: x in r <==> x.content in strings && strings[x.content] == x.alphabet
      ensures ShortLex.ContentsDistinct(r)
    {
      set k | k in strings :: Strings.String(k, strings[k])
    }

    /** Renders the language: the members are copied into a vector, sorted
        shortest first and, within a length, by `<`, and written between
        braces with ", " between them. */
    method Render() returns (text: string)
      ensures text == Text.Braced(RenderAll(ShortLex.Listing(GetStrings())))
    {
      var items := Members();
      var a := new Strings.String[|items|](i requires 0 <= i < |items| => items[i]);
      assert a[..] == items;
      ShortLex.Sort(a);
      ShortLex.PermutationDistinct(a[..], items);
      ghost var order := a[..];
      forall x ensures x in order <==> x in GetStrings() {
        assert x in order <==> x in multiset(order);
        assert x in items <==> x in multiset(items);
      }
      forall i, j | 0 <= i < j < |order| ensures order[i].content != order[j].content {
        assert order[i] in multiset(items) && order[j] in multiset(items);
        assert order[i] in items && order[j] in items;
        assert order[i] in GetStrings() && order[j] in GetStrings();
        assert order[i] != order[j];
      }
      ShortLex.SortedDistinctContents(order);
      ShortLex.ListingSound(GetStrings());
      ShortLex.ListingUnique(order, ShortLex.Listing(GetStrings()));
      text := WriteListing(a);
    }

    /** The members in the order the set hands them out, each once. */
    method Members() returns (items: seq<Strings.String>)
      ensures forall x :: x in items <==> x in GetStrings()
      ensures ShortLex.Distinct(items)
    {
      items := [];
      var rest := strings.Keys;
      while rest != {}
        invariant rest <= strings.Keys
        invariant forall x :: x in items <==> x in GetStrings() && x.content !in rest
        invariant ShortLex.Distinct(items)
        decreases rest
      {
        var k :| k in rest;
        items := items + [Strings.String(k, strings[k])];
        rest := rest - {k};
      }
    }

    /** Reads a count n and then n tokens, adding each as a string with the
        empty alphabet. The language is not cleared first, and n <= 0 adds
        nothing. */
    method Parse(n: int, tokens: seq<string>)
      modifies this
      ensures strings.Keys == old(strings).Keys + TokensRead(tokens, if n < 0 then 0 else n)
      ensures forall k :: k in old(strings) ==> strings[k] == old(strings)[k]
      ensures forall k :: k in strings && k !in old(strings) ==> strings[k] == Strings.Default().alphabet
    {
      var i := 0;
      while i < n
        invariant 0 <= i && (i <= n || i == 0)
        invariant strings.Keys == old(strings).Keys + TokensRead(tokens, i)
        invariant forall k :: k in old(strings) ==> strings[k] == old(strings)[k]
        invariant forall k :: k in strings && k !in old(strings) ==> strings[k] == Strings.Default().alphabet
      {
        var s := Strings.Parse(Strings.Default(), TokenAt(tokens, i));
        AddString(s);
        assert TokensRead(tokens, i + 1) == TokensRead(tokens, i) + {TokenAt(tokens, i)};
        i := i + 1;
      }
    }
  }
}
