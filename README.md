# Strings and languages over an alphabet

A model of the data model of a small formal-language toolkit and of its
derivation operations. There are three value types:

- an **Alphabet** is a finite set of symbols;
- a **String** is a content (a sequence of symbols) paired with the alphabet
  it is declared over, which the content need not respect;
- a **Language** is a finite set of strings, where two strings are the same
  member when their contents are equal, whatever their alphabets.

A string yields its length, its validity against its alphabet, its reversal,
and the languages of its prefixes and of its suffixes. Every value has a text
form. An alphabet renders as `{a, b, c}` and a string renders as its content,
or `&` when it is empty. A language renders as `{&, a, ab}`, with its members
shortest first and, within one length, in lexicographic order.

Files and modules:

- `text.dfy`, module `Text`: the `", "`-separated join and the braces that
  both set renderings use.
- `alphabet.dfy`, module `Alphabets`: the `Alphabet` datatype, membership,
  the character filter of the line parser, the parser and the renderer.
- `string.dfy`, module `Strings`: the `String` datatype, length, emptiness,
  validity, reversal, the content-only equality and order, rendering and
  token reading.
- `shortlex.dfy`, module `ShortLex`: the comparator the language render sorts
  with, and an in-place insertion sort on an array standing in for
  `std::sort`.
- `language.dfy`, module `Languages`: the `Language` class. Its field
  `strings` maps each member's content to that member's alphabet, which gives
  the deduplication by content that `std::set<String>` gets from the content
  equality.
- `derivations.dfy`, module `Derivations`: `Prefixes` and `Suffixes`. They
  build a `Language` from a `String`, so they come after both types.
- `scenarios.dfy`, module `Scenarios`: worked examples proved from the
  contracts alone. The prefixes of `ab` render as `{&, a, ab}`. The suffixes
  of the empty string render as `{&}`. `xy` over `{a, b}` is not valid.

The stream operators become explicit operations. Rendering returns the text.
Parsing takes the line, the token, or the count and token list it would have
read. The stream `>>` on an alphabet or a string overwrites its target, so it
becomes an operation that returns the new value. The language's `>>` adds to
an existing object, so it is a method of the class. Character classes are
the ASCII ones. Symbols are ordered by Dafny's ordering on `char`.

Two places where the code decides something that the documented design
leaves open. The model follows the code in both:

- Language parsing with fewer tokens than the count. Each remaining read
  leaves a fresh, empty `String`, and that empty string is still inserted.
  `Languages.TokenAt` returns `""` past the end of the tokens for this reason.
- The alphabet line parser drops every character that is neither
  alphanumeric nor punctuation. Besides `{`, `}`, `,` and blanks, this
  includes tabs and control characters.

## Model

| member | source | states |
|---|---|---|
| `Alphabets.GetSymbols` | src/Alphabet.cc:14-22 | the symbol set handed out rebuilds exactly the alphabet it came from, so the constructor stores the given set and the getter returns it |
| `Alphabets.Contains` | src/Alphabet.cc:29-31 | true exactly when the character is one of the symbols |
| `Alphabets.Empty` | src/Alphabet.h:13 | a default-constructed alphabet contains no symbol and is rendered as `{}` |
| `Alphabets.Kept` | src/Alphabet.cc:69-73 | the parser's filter never keeps `{`, `}`, `,` or whitespace, and always keeps alphanumerics |
| `Alphabets.ParsedSymbols` | src/Alphabet.cc:66-73 | a character is in the parsed set exactly when it occurs in the line and passes the filter |
| `Alphabets.Parse` | src/Alphabet.cc:62-76 | the result's symbols are exactly the filtered characters of the line; the previous alphabet plays no part, because it is cleared first |
| `Alphabets.AscendingLists` | src/Alphabet.cc:43 | the iteration order of the symbol set lists every symbol once, in strictly increasing order |
| `Alphabets.Render` | src/Alphabet.cc:40-52 | the text is `{`, the symbols in ascending order separated by `, ` with no trailing separator, then `}` |
| `Alphabets.RenderedLength` | src/Alphabet.cc:40-52 | the rendering is 2 characters long for the empty alphabet and 3 per symbol otherwise |
| `Alphabets.RenderedChars` | src/Alphabet.cc:40-52 | the rendering contains every symbol and nothing else but braces, commas and blanks |
| `Alphabets.ParseRenderRoundTrip` | src/Alphabet.cc:40-76 | parsing the rendering of an alphabet of alphanumeric symbols gives back its symbol set |
| `Strings.GetContent` | src/String.cc:21-28 | the content, together with the alphabet, rebuilds the string |
| `Strings.Default` | src/String.h:58 | a default-constructed string has empty content over the empty alphabet: it is empty, every symbol of it is in its alphabet, and it is rendered as `&` |
| `Strings.GetAlphabet` | src/String.cc:21-34 | the alphabet, together with the content, rebuilds the string |
| `Strings.Length` | src/String.cc:40 | the number of symbols of the content |
| `Strings.IsEmpty` | src/String.cc:60 | true exactly when the length is 0 |
| `Strings.IsValid` | src/String.cc:47-54 | true exactly when every symbol of the content is in the alphabet; so true for empty content, and false once any symbol is missing from the alphabet |
| `Strings.Reversed` | src/String.cc:68 | same length, and position i holds the symbol at position n-1-i |
| `Strings.Reverse` | src/String.cc:67-69 | keeps the alphabet and the length, and position i of the result holds the symbol at position n-1-i |
| `Strings.ReverseInvolution` | src/String.cc:67-69 | reversing twice gives back the original string |
| `Strings.Equal` | src/String.cc:121-123 | equality compares contents only; for two strings over the same alphabet it is plain equality |
| `Strings.LexLess` | src/String.cc:131-133 | the `std::string` order that `<` delegates to, computed symbol by symbol, holds exactly when the first content is a proper prefix of the second or has the smaller symbol at the first position where they differ |
| `Strings.Less` | src/String.cc:131-133 | `<` on strings is that lexicographic order on the contents, whatever the alphabets, and never holds between equal contents |
| `Strings.LexIrreflexive` | src/String.cc:131-133 | no content is lexicographically less than itself |
| `Strings.LexTransitive` | src/String.cc:131-133 | the lexicographic order on contents is transitive |
| `Strings.LexTrichotomy` | src/String.cc:131-133 | two contents are equal or one is less than the other, and never each less than the other |
| `Strings.LessIsStrictTotalOrder` | src/String.cc:121-133 | `<` on strings ignores alphabets: it is irreflexive and transitive, equal strings are not less than one another, and of two strings with different contents exactly one is less |
| `Strings.Render` | src/String.cc:142-149 | `&` for the empty string and the content verbatim otherwise; never empty |
| `Strings.RenderDistinguishes` | src/String.cc:142-149 | two renderings are equal exactly when the contents are, unless a content is the single symbol `&` |
| `Strings.Parse` | src/String.cc:158-161 | the token becomes the content and the alphabet is unchanged |
| `ShortLex.Before` | src/Language.cc:61-66 | the sort comparator holds when the first string is shorter, or as long and lexicographically smaller (length first, then `<`); it never holds between equal contents |
| `ShortLex.BeforeIsStrictWeakOrder` | src/Language.cc:61-67 | the render comparator is irreflexive, asymmetric and transitive, its incomparability is transitive, and it is total on different contents |
| `ShortLex.Sort` | src/Language.cc:59-67 | the sorted vector is a permutation of the input and no later element compares less than an earlier one |
| `ShortLex.First` | src/Language.cc:59-67 | in a set of strings with distinct contents, the member that the comparator puts before every other member |
| `ShortLex.ListingSound` | src/Language.cc:55-67 | the render order lists every member exactly once, with lengths non-decreasing and, within a length, contents strictly increasing by `<` |
| `ShortLex.ListingUnique` | src/Language.cc:55-78 | two strictly sorted listings with the same members are equal, so the rendered order and text depend on the membership alone |
| `Languages.Language.constructor` | src/Language.h:35 | a new language has no members |
| `Languages.Language.AddString` | src/Language.cc:36 | afterwards a member has the string's content; nothing is removed, and if a member with that content existed the language is unchanged, alphabet included; otherwise the string is added |
| `Languages.Language.GetStrings` | src/Language.cc:42 | the members, read without changing the language; no two have the same content |
| `Languages.Language.Members` | src/Language.cc:55-56 | the copy into a vector holds every member once and nothing else |
| `Languages.WriteListing` | src/Language.cc:69-78 | the text is `{`, the renderings of the sorted members separated by `, `, then `}` |
| `Languages.Language.Render` | src/Language.cc:53-80 | the text is the members in render order (`ShortLex.Listing`), each rendered, separated by `, ` and between braces: the sorted copy of the set is exactly that order |
| `Languages.Language.Parse` | src/Language.cc:89-98 | the members become the old ones plus the contents read; old members keep their alphabets, new ones get the empty alphabet, nothing is cleared, and a count of 0 or less adds nothing |
| `Derivations.Prefixes` | src/String.cc:76-90 | the members are exactly the prefixes `content[0..i)` for 0 <= i <= n, each over the source string's alphabet |
| `Derivations.Suffixes` | src/String.cc:97-112 | the members are exactly the suffixes `content[n-i..n)` for 0 <= i <= n, each over the source string's alphabet |
| `Derivations.PrefixCount` | src/String.cc:76-90 | a content of length n has n+1 distinct prefixes, including the empty one and the whole content; one for empty content |
| `Derivations.SuffixCount` | src/String.cc:97-112 | a content of length n has n+1 distinct suffixes, including the empty one and the whole content; one for empty content |
| `Derivations.SuffixesArePrefixesOfReversal` | src/String.cc:67-112 | the suffixes of a content are the reversals of the prefixes of its reversal |

## Left out

- src/Main.cc is not part of this model. It handles the command line, opens
  and reads the input file, splits lines, warns on stderr and writes the
  output file, all of which is I/O.
- `Subsequences` and `SubStrings` (src/String.h:121-123) and
  `GetStringsByLength` (src/Language.h:57) are declared but have no
  implementation, so there is no behaviour to model.
- Stream machinery is left out: whitespace tokenisation, `std::getline`, a
  failed read of the count, and stream states. The parsers take the line, the
  token, or the count and tokens that the stream would have delivered.
- `std::isalnum` and `std::ispunct` depend on the locale. The model uses the
  ASCII classes.
- A Dafny `char` of the model stands for one C++ `char`, that is one byte.
  The source counts, reverses and slices bytes (`Length`, `Reverse`,
  `substr`), so a symbol written in several UTF-8 bytes is several symbols
  there; model characters above 255 have no counterpart in the source.
- `std::string` comparison (`String::operator<`, src/String.cc:131-133, and
  the tie-break of the render comparator, src/Language.cc:61-66) goes through
  `std::char_traits<char>`, which compares as `unsigned char`; on byte values
  0..255 that is exactly Dafny's order on `char`. Only the iteration order of
  `std::set<char>` (the alphabet render, src/Alphabet.cc:43) depends on the
  sign of `char`: where `char` is signed, bytes 128..255 come before the
  ASCII symbols. `Alphabets.Render` lists symbols in unsigned order, which is
  the source's order only where `char` is unsigned or all symbols are ASCII.
- `std::sort` is modelled by an insertion sort. It has the same contract
  (sorted under the comparator and a permutation), but not the same sequence
  of steps.
- The `size_t` lengths and the 32-bit `int` count of src/Language.cc:90 are
  taken as unbounded. A count above `INT_MAX` cannot be read into that
  `int`; that is the stream failure left out above.
