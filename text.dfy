/** Text helpers shared by the renderings of alphabets and languages. */
module Text {

  /** The items separated by ", " with no trailing separator: what the
      render loops with a `first` flag append between the braces. */
  function Join(items: seq<string>): string
    decreases |items|
  {
    if |items| == 0 then ""
    else if |items| == 1 then items[0]
    else Join(items[..|items| - 1]) + ", " + items[|items| - 1]
  }

  /** `{`, the joined items, `}`. */
  function Braced(items: seq<string>): string
  {
    "{" + Join(items) + "}"
  }

  /** One more round of a `first`-flag loop: a separator comes before every
      item but the first. */
  lemma JoinSnoc(items: seq<string>, x: string)
    ensures Join(items + [x]) == if items == [] then x else Join(items) + ", " + x
  {
  }

  lemma Associative<T>(a: seq<T>, b: seq<T>, c: seq<T>)
    ensures (a + b) + c == a + (b + c)
  {
  }
}
