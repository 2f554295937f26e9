/** An alphabet: a finite set of symbols (characters). */
module Alphabets {
  import Text

  datatype Alphabet = Alphabet(symbols: set<char>)

  /** The symbol set; it rebuilds exactly the alphabet it came from. */
  function GetSymbols(a: Alphabet): (r: set<char>)
    ensures Alphabet(r) == a
  {
    a.symbols
  }

  /** Membership query. */
  predicate Contains(a: Alphabet, c: char)
    ensures Contains(a, c) <==> c in GetSymbols(a)
  {
    c in a.symbols
  }

  /** The alphabet an unset Alphabet holds: it contains no symbol and is
      rendered as an empty pair of braces. */
  function Empty(): (r: Alphabet)
    ensures forall c :: !Contains(r, c)
    ensures AlphabetText(r) == "{}"
  {
    Alphabet({})
  }

  // ---------------------------------------------------------------------
  // Character classes (ASCII versions of isalnum, ispunct, isspace)

  predicate IsAlnum(c: char)
  {
    ('a' <= c <= 'z') || ('A' <= c <= 'Z') || ('0' <= c <= '9')
  }

  predicate IsPunct(c: char)
  {
    ('!' <= c <= '/') || (':' <= c <= '@') || ('[' <= c <= '`') || ('{' <= c <= '~')
  }

  predicate IsSpace(c: char)
  {
    c == ' ' || ('\t' <= c <= '\r')
  }

  /** The parser's filter: alphanumerics, and punctuation other than the
      braces, the comma and the blank. */
  predicate Kept(c: char)
    ensures Kept(c) ==> c != '{' && c != '}' && c != ',' && !IsSpace(c)
    ensures IsAlnum(c) ==> Kept(c)
  {
    IsAlnum(c) || (IsPunct(c) && c != '{' && c != '}' && c != ',' && c != ' ')
  }

  /** The symbols a line yields when parsed. */
  function ParsedSymbols(line: string): (r: set<char>)
    ensures forall c :: c in r <==> c in line && Kept(c)
  {
    set i | 0 <= i < |line| && Kept(line[i]) :: line[i]
  }

  /** Parses one line into an alphabet. The previous symbols are cleared
      first, so the result depends on the line alone. */
  method Parse(previous: Alphabet, line: string) returns (a: Alphabet)
    ensures a.symbols == ParsedSymbols(line)
  {
    var symbols: set<char> := {};
    for i := 0 to |line|
      invariant forall c :: c in symbols <==> c in line[..i] && Kept(c)
    {
      assert line[..i + 1] == line[..i] + [line[i]];
      if Kept(line[i]) {
        symbols := symbols + {line[i]};
      }
    }
    assert line[..|line|] == line;
    a := Alphabet(symbols);
  }

  // ---------------------------------------------------------------------
  // Rendering: "{" + the symbols in ascending order, ", "-separated + "}"

  ghost function MinOf(s: set<char>): (m: char)
    requires s != {}
    ensures m in s && forall c :: c in s ==> m <= c
  {
    var x :| x in s;
    assert forall c :: c in s ==> c == x || c in s - {x};
    if s - {x} == {} then x
    else
      var y := MinOf(s - {x});
      if x <= y then x else y
  }

  /** The symbols of a set in the order a sorted set iterates them:
      the least one first. */
  ghost function Ascending(s: set<char>): (r: seq<char>)
    ensures |r| == |s|
    decreases s
  {
    if s == {} then [] else [MinOf(s)] + Ascending(s - {MinOf(s)})
  }

  /** Ascending lists each symbol of the set once, in strictly increasing
      order. */
  lemma {:induction false} AscendingLists(s: set<char>)
    ensures forall c :: c in Ascending(s) <==> c in s
    ensures forall i, j :: 0 <= i < j < |Ascending(s)| ==> Ascending(s)[i] < Ascending(s)[j]
    decreases s
  {
    if s != {} {
      var m := MinOf(s);
      var t := Ascending(s - {m});
      AscendingLists(s - {m});
      var r := [m] + t;
      assert Ascending(s) == r;
      forall i, j | 0 <= i < j < |r| ensures r[i] < r[j] {
        assert r[j] == t[j - 1] && t[j - 1] in s - {m};
        if i > 0 { assert r[i] == t[i - 1]; }
      }
    }
  }

  /** Each symbol as a one-character string. */
  function Singletons(cs: seq<char>): (r: seq<string>)
    ensures |r| == |cs|
    ensures forall i :: 0 <= i < |cs| ==> r[i] == [cs[i]]
  {
    seq(|cs|, i requires 0 <= i < |cs| => [cs[i]])
  }

  /** The rendering: the symbols in ascending order between braces,
      separated by ", ". */
  ghost function AlphabetText(a: Alphabet): string
  {
    Text.Braced(Singletons(Ascending(a.symbols)))
  }

  /** Renders an alphabet: the loop visits the symbols in ascending order
      and writes ", " before every symbol but the first. */
  method Render(a: Alphabet) returns (text: string)
    ensures text == AlphabetText(a)
  {
    text := "{";
    var first := true;
    var rest := a.symbols;
    ghost var done: seq<char> := [];
    while rest != {}
      invariant done + Ascending(rest) == Ascending(a.symbols)
      invariant first <==> done == []
      invariant text == "{" + Text.Join(Singletons(done))
      decreases rest
    {
      var c := Least(rest);
      AscendingStep(rest, c);
      Text.Associative(done, [c], Ascending(rest - {c}));
      SingletonsSnoc(done, c);
      ghost var joined := Text.Join(Singletons(done));
      if !first {
        assert ("{" + joined) + ", " == "{" + (joined + ", ");
        text := text + ", ";
      }
      assert text + [c] == "{" + Text.Join(Singletons(done + [c]));
      text := text + [c];
      first := false;
      done := done + [c];
      rest := rest - {c};
    }
    assert Ascending(rest) == [];
    assert done == done + Ascending(rest);
    text := text + "}";
  }

  /** The least symbol of a non-empty set, as the render loop finds it. */
  method Least(s: set<char>) returns (c: char)
    requires s != {}
    ensures c in s && forall x :: x in s ==> c <= x
  {
    ghost var m := MinOf(s);
    c :| c in s && forall x :: x in s ==> c <= x;
  }

  lemma AscendingStep(s: set<char>, c: char)
    requires c in s && forall x :: x in s ==> c <= x
    ensures Ascending(s) == [c] + Ascending(s - {c})
  {
  }

  lemma SingletonsSnoc(cs: seq<char>, c: char)
    ensures Text.Join(Singletons(cs + [c]))
         == if cs == [] then [c] else Text.Join(Singletons(cs)) + ", " + [c]
  {
    assert Singletons(cs + [c]) == Singletons(cs) + [[c]];
    Text.JoinSnoc(Singletons(cs), [c]);
  }

  lemma {:induction false} JoinSingletonsLength(cs: seq<char>)
    ensures |Text.Join(Singletons(cs))| == if cs == [] then 0 else 3 * |cs| - 2
    decreases |cs|
  {
    if cs != [] {
      var init := cs[..|cs| - 1];
      assert cs == init + [cs[|cs| - 1]];
      assert Singletons(cs) == Singletons(init) + [[cs[|cs| - 1]]];
      Text.JoinSnoc(Singletons(init), [cs[|cs| - 1]]);
      JoinSingletonsLength(init);
    }
  }

  lemma {:induction false} JoinSingletonsChars(cs: seq<char>)
    ensures forall c :: c in Text.Join(Singletons(cs)) ==> c in cs || c == ',' || c == ' '
    ensures forall c :: c in cs ==> c in Text.Join(Singletons(cs))
    decreases |cs|
  {
    if cs != [] {
      var init := cs[..|cs| - 1];
      var last := cs[|cs| - 1];
      assert cs == init + [last];
      assert Singletons(cs) == Singletons(init) + [[last]];
      Text.JoinSnoc(Singletons(init), [last]);
      JoinSingletonsChars(init);
      var j := Text.Join(Singletons(init));
      if init == [] {
        assert Text.Join(Singletons(cs)) == [last];
      } else {
        assert Text.Join(Singletons(cs)) == j + ", " + [last];
        forall c | c in Text.Join(Singletons(cs)) ensures c in cs || c == ',' || c == ' ' {
          assert c in j || c in ", " || c == last;
        }
      }
    }
  }

  /** Two characters for the empty alphabet, otherwise three per symbol:
      the symbol, and either a two-character separator or a brace. */
  lemma RenderedLength(a: Alphabet)
    ensures |AlphabetText(a)| == if a.symbols == {} then 2 else 3 * |a.symbols|
  {
    JoinSingletonsLength(Ascending(a.symbols));
  }

  /** The rendered text holds every symbol, and nothing else but braces,
      commas and blanks. */
  lemma RenderedChars(a: Alphabet)
    ensures forall c :: c in a.symbols ==> c in AlphabetText(a)
    ensures forall c :: c in AlphabetText(a) ==>
              c in a.symbols || c == '{' || c == '}' || c == ',' || c == ' '
  {
    JoinSingletonsChars(Ascending(a.symbols));
    AscendingLists(a.symbols);
  }

  /** Parsing the rendering of an alphanumeric alphabet gives back its
      symbols. */
  lemma ParseRenderRoundTrip(a: Alphabet)
    requires forall c :: c in a.symbols ==> IsAlnum(c)
    ensures ParsedSymbols(AlphabetText(a)) == a.symbols
  {
    RenderedChars(a);
  }
}
