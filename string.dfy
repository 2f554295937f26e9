/** A string: a content (a finite sequence of symbols) paired with the
    alphabet it is declared over. Nothing forces the content to be drawn
    from the alphabet; IsValid reports whether it is. */
module Strings {
  import Alphabets

  datatype String = String(content: string, alphabet: Alphabets.Alphabet)

  /** The string an unset String holds: no content over the empty
      alphabet, so it is empty, valid, and rendered as the empty-string
      symbol. */
  function Default(): (r: String)
    ensures IsEmpty(r)
    ensures r.alphabet == Alphabets.Empty()
    ensures forall i :: 0 <= i < |r.content| ==> Alphabets.Contains(r.alphabet, r.content[i])
    ensures Render(r) == "&"
  {
    String("", Alphabets.Empty())
  }

  /** The content; together with the alphabet it rebuilds the string. */
  function GetContent(s: String): (r: string)
    ensures String(r, s.alphabet) == s
  {
    s.content
  }

  /** The alphabet; together with the content it rebuilds the string. */
  function GetAlphabet(s: String): (r: Alphabets.Alphabet)
    ensures String(s.content, r) == s
  {
    s.alphabet
  }

  /** The number of symbols in the content. */
  function Length(s: String): (r: nat)
    ensures r == |GetContent(s)|
  {
    |s.content|
  }

  /** No symbols at all. */
  predicate IsEmpty(s: String)
    ensures IsEmpty(s) <==> Length(s) == 0
  {
    s.content == []
  }

  /** Checks the content symbol by symbol and stops at the first one the
      alphabet does not contain. */
  method IsValid(s: String) returns (valid: bool)
    ensures valid <==> forall i :: 0 <= i < |s.content| ==> Alphabets.Contains(s.alphabet, s.content[i])
  {
    for i := 0 to |s.content|
      invariant forall j :: 0 <= j < i ==> Alphabets.Contains(s.alphabet, s.content[j])
    {
      if !Alphabets.Contains(s.alphabet, s.content[i]) {
        return false;
      }
    }
    return true;
  }

  // ---------------------------------------------------------------------
  // Reversal

  function Reversed(x: string): (r: string)
    ensures |r| == |x|
    ensures forall i :: 0 <= i < |x| ==> r[i] == x[|x| - 1 - i]
  {
    if x == [] then [] else Reversed(x[1..]) + [x[0]]
  }

  /** The symbols in the opposite order, over the same alphabet. */
  function Reverse(s: String): (r: String)
    ensures r.alphabet == s.alphabet
    ensures Length(r) == Length(s)
    ensures forall i :: 0 <= i < Length(s) ==> r.content[i] == s.content[Length(s) - 1 - i]
  {
    String(Reversed(s.content), s.alphabet)
  }

  /** Reversing twice gives back the string. */
  lemma ReverseInvolution(s: String)
    ensures Reverse(Reverse(s)) == s
  {
  }

  // ---------------------------------------------------------------------
  // Equality and order look at the content only

  predicate Equal(a: String, b: String)
    ensures Equal(a, b) <==> GetContent(a) == GetContent(b)
    ensures a.alphabet == b.alphabet ==> (Equal(a, b) <==> a == b)
  {
    a.content == b.content
  }

  /** Lexicographic order, stated directly: `x` is a proper prefix of `y`,
      or at the first position where they differ `x` has the smaller
      symbol. */
  ghost predicate Precedes(x: string, y: string)
  {
    (|x| < |y| && x == y[..|x|])
    || exists k :: 0 <= k < |x| && k < |y| && x[..k] == y[..k] && x[k] < y[k]
  }

  /** Precedes, one symbol at a time. */
  lemma PrecedesStep(x: string, y: string)
    requires x != [] && y != []
    ensures Precedes(x, y) <==> x[0] < y[0] || (x[0] == y[0] && Precedes(x[1..], y[1..]))
  {
    if Precedes(x, y) && !(|x| < |y| && x == y[..|x|]) {
      var k :| 0 <= k < |x| && k < |y| && x[..k] == y[..k] && x[k] < y[k];
      if k > 0 {
        assert x[0] == x[..k][0] == y[..k][0] == y[0];
        assert x[1..][..k-1] == x[1..k] == y[1..k] == y[1..][..k-1];
        assert x[1..][k-1] < y[1..][k-1];
      }
    }
    if x[0] < y[0] {
      assert x[..0] == y[..0];
    }
    if x[0] == y[0] && Precedes(x[1..], y[1..]) {
      if |x[1..]| < |y[1..]| && x[1..] == y[1..][..|x[1..]|] {
        assert x == [x[0]] + x[1..] && y[..|x|] == [y[0]] + y[1..][..|x[1..]|];
      } else {
        var k :| 0 <= k < |x[1..]| && k < |y[1..]| && x[1..][..k] == y[1..][..k] && x[1..][k] < y[1..][k];
        assert x[..k+1] == [x[0]] + x[1..][..k] && y[..k+1] == [y[0]] + y[1..][..k];
        assert x[k+1] < y[k+1];
      }
    }
  }

  /** Lexicographic order on contents as std::string compares them (the
      symbol order on bytes): it decides symbol by symbol and agrees with
      Precedes. */
  function LexLess(x: string, y: string): (r: bool)
    ensures r <==> Precedes(x, y)
  {
    if x == [] then y != []
    else if y == [] then false
    else
      PrecedesStep(x, y);
      x[0] < y[0] || (x[0] == y[0] && LexLess(x[1..], y[1..]))
  }

  /** `<` on strings: the lexicographic order of the contents, whatever the
      alphabets; a string is never less than one with the same content. */
  function Less(a: String, b: String): (r: bool)
    ensures r <==> Precedes(a.content, b.content)
    ensures r ==> a.content != b.content
  {
    LexLess(a.content, b.content)
  }

  lemma {:induction false} LexIrreflexive(x: string)
    ensures !LexLess(x, x)
  {
    if x != [] {
      LexIrreflexive(x[1..]);
    }
  }

  lemma {:induction false} LexTransitive(x: string, y: string, z: string)
    requires LexLess(x, y) && LexLess(y, z)
    ensures LexLess(x, z)
  {
    if x != [] && x[0] == y[0] && y[0] == z[0] {
      LexTransitive(x[1..], y[1..], z[1..]);
    }
  }

  lemma {:induction false} LexTrichotomy(x: string, y: string)
    ensures x == y || LexLess(x, y) || LexLess(y, x)
    ensures !(LexLess(x, y) && LexLess(y, x))
  {
    if x != [] && y != [] && x[0] == y[0] {
      LexTrichotomy(x[1..], y[1..]);
      if x[1..] == y[1..] {
        assert x == [x[0]] + x[1..] && y == [y[0]] + y[1..];
      }
    }
  }

  /** `<` on strings is a strict total order on contents that ignores the
      alphabets: irreflexive, transitive, and of two strings with different
      contents exactly one is less than the other. */
  lemma LessIsStrictTotalOrder(a: String, b: String, c: String)
    ensures !Less(a, a)
    ensures Less(a, b) && Less(b, c) ==> Less(a, c)
    ensures Equal(a, b) ==> !Less(a, b) && !Less(b, a)
    ensures !Equal(a, b) ==> (Less(a, b) <==> !Less(b, a))
  {
    LexIrreflexive(a.content);
    LexIrreflexive(b.content);
    LexTrichotomy(a.content, b.content);
    if Less(a, b) && Less(b, c) {
      LexTransitive(a.content, b.content, c.content);
    }
  }

  // ---------------------------------------------------------------------
  // Text form

  /** The content verbatim, or `&` for the empty string. */
  function Render(s: String): (r: string)
    ensures r != []
    ensures !IsEmpty(s) ==> r == GetContent(s)
    ensures IsEmpty(s) ==> r == "&"
  {
    if s.content == [] then "&" else s.content
  }

  /** The rendering tells strings apart, except a content that is the
      single symbol `&`, which looks like the empty string. */
  lemma RenderDistinguishes(a: String, b: String)
    requires a.content != "&" && b.content != "&"
    ensures Render(a) == Render(b) <==> Equal(a, b)
  {
  }

  /** Reading a token replaces the content and keeps the alphabet. */
  function Parse(s: String, token: string): (r: String)
    ensures GetContent(r) == token
    ensures GetAlphabet(r) == GetAlphabet(s)
  {
    s.(content := token)
  }
}
