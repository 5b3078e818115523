/** What lies under a square: a mine or nothing, with the character that shows it. */
module SquareContents {
  import opened Wrappers

  datatype SquareContent = Mine | Empty {

    /** Character representation of the content: 'M' for a mine, a blank otherwise. */
    function GetChar(): (c: char)
      ensures c == 'M' || c == ' '
      ensures c == 'M' <==> this == Mine
    {
      if this == Mine then 'M' else ' '
    }
  }

  /** The content a character stands for, if any (the inverse of GetChar). */
  function FromChar(c: char): (r: Option<SquareContent>)
    ensures r.Some? <==> c == 'M' || c == ' '
  {
    if c == 'M' then Some(Mine) else if c == ' ' then Some(Empty) else None
  }

  /** The content can be recovered from its character. */
  lemma FromCharGetChar(content: SquareContent)
    ensures FromChar(content.GetChar()) == Some(content)
  {
  }

  lemma GetCharInjective(a: SquareContent, b: SquareContent)
    requires a.GetChar() == b.GetChar()
    ensures a == b
  {
    FromCharGetChar(a);
    FromCharGetChar(b);
  }
}
