/**
 * One square of the board: its location, whether a mine lies under it, whether the
 * player has discovered it, whether a flag is on it, and its content, which mirrors
 * the mine.
 */
module Squares {
  import opened Wrappers
  import opened Locations
  import opened SquareContents

  /** The value of a square's fields at one moment. */
  datatype SquareState = SquareState(
    content: SquareContent,
    location: Location,
    undermined: bool,
    discovered: bool,
    flag: bool)

  /** The invariant every square keeps: its content is Mine exactly when it is undermined. */
  predicate Consistent(s: SquareState) {
    s.content == Mine <==> s.undermined
  }

  /** State of a freshly built square at `l`. */
  function NewState(l: Location): (s: SquareState)
    ensures Consistent(s) && s.location == l
    ensures !s.undermined && !s.discovered && !s.flag && s.content == Empty
  {
    SquareState(Empty, l, false, false, false)
  }

  /** Effect of `mine()`. */
  function Mined(s: SquareState): SquareState {
    s.(content := Mine, undermined := true)
  }

  /** Effect of `discover()`. */
  function Discovered(s: SquareState): SquareState {
    s.(discovered := true)
  }

  /** Effect of `putFlag()`. */
  function Flagged(s: SquareState): SquareState {
    if !s.flag then s.(flag := true) else s
  }

  /** Effect of `removeFlag()`. */
  function Unflagged(s: SquareState): SquareState {
    if s.flag then s.(flag := false) else s
  }

  /** Mining sets the mine and its content, keeps the rest, and is idempotent. */
  lemma MinedProperties(s: SquareState)
    ensures Mined(s).undermined && Mined(s).content == Mine && Consistent(Mined(s))
    ensures Mined(s).discovered == s.discovered && Mined(s).flag == s.flag
    ensures Mined(s).location == s.location
    ensures Mined(Mined(s)) == Mined(s)
  {
  }

  /** Discovering sets only the discovered mark, keeps the invariant, and is idempotent. */
  lemma DiscoveredProperties(s: SquareState)
    ensures Discovered(s).discovered
    ensures Discovered(s).(discovered := s.discovered) == s
    ensures Consistent(s) ==> Consistent(Discovered(s))
    ensures Discovered(Discovered(s)) == Discovered(s)
  {
  }

  /** Putting and removing a flag change only the flag, and each is idempotent. */
  lemma FlagProperties(s: SquareState)
    ensures Flagged(s).flag && !Unflagged(s).flag
    ensures Flagged(s).(flag := s.flag) == s && Unflagged(s).(flag := s.flag) == s
    ensures Consistent(s) ==> Consistent(Flagged(s)) && Consistent(Unflagged(s))
    ensures Flagged(Flagged(s)) == Flagged(s) && Unflagged(Unflagged(s)) == Unflagged(s)
  {
  }

  /** No operation on a square turns a discovered square back into an undiscovered one. */
  lemma DiscoveredIsPermanent(s: SquareState)
    requires s.discovered
    ensures Mined(s).discovered && Discovered(s).discovered
    ensures Flagged(s).discovered && Unflagged(s).discovered
  {
  }

  class Square {
    var content: SquareContent
    const location: Location
    var undermined: bool
    var discovered: bool
    var flag: bool

    function State(): SquareState
      reads this
    {
      SquareState(content, location, undermined, discovered, flag)
    }

    predicate Valid()
      reads this
    {
      Consistent(State())
    }

    /** A new square is not undermined, not discovered and has no flag. */
    constructor (l: Location)
      ensures Valid() && State() == NewState(l)
    {
      content := Empty;
      location := l;
      undermined := false;
      discovered := false;
      flag := false;
    }

    function GetLocation(): Location
      reads this
    {
      location
    }

    function IsUndermined(): bool
      reads this
    {
      undermined
    }

    function IsDiscovered(): bool
      reads this
    {
      discovered
    }

    function HasFlag(): bool
      reads this
    {
      flag
    }

    method Mine()
      modifies this
      ensures Valid() && State() == Mined(old(State()))
    {
      content := SquareContents.Mine;
      undermined := true;
    }

    method Discover()
      modifies this
      ensures State() == Discovered(old(State()))
      ensures old(Valid()) ==> Valid()
    {
      discovered := true;
    }

    method PutFlag()
      modifies this
      ensures State() == Flagged(old(State())) && flag
      ensures old(Valid()) ==> Valid()
    {
      if !flag {
        flag := true;
      }
    }

    method RemoveFlag()
      modifies this
      ensures State() == Unflagged(old(State())) && !flag
      ensures old(Valid()) ==> Valid()
    {
      if flag {
        flag := false;
      }
    }

    /** Text naming the content of the square. */
    function ToString(): (s: string)
      reads this
      ensures s == "Undermined square." <==> undermined
      ensures s == "Empty square." <==> !undermined
    {
      (if IsUndermined() then "Undermined" else "Empty") + " square."
    }

    /**
     * Java's `equals(Object)`: true for a Square at an equal location with the
     * same mine, whatever either square's discovered and flag marks; false for
     * null and for objects of any other class.
     */
    function Equals(o: object?): (r: bool)
      reads this, o
      ensures r <==> o is Square && (o as Square).location == location
                     && (o as Square).undermined == undermined
    {
      if o is Square then
        var s := o as Square;
        s.GetLocation().Equals(Some(location)) && s.IsUndermined() == undermined
      else
        false
    }
  }

  lemma SquareEqualsReflexive(a: Square)
    ensures a.Equals(a)
  {
  }

  lemma SquareEqualsSymmetric(a: Square, b: Square)
    ensures a.Equals(b) <==> b.Equals(a)
  {
  }

  lemma SquareEqualsTransitive(a: Square, b: Square, c: Square)
    requires a.Equals(b) && b.Equals(c)
    ensures a.Equals(c)
  {
  }
}
