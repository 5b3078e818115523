/** A position `(x, y)` on the board: `x` the abscissa (column), `y` the ordinate (row). */
module Locations {
  import opened Wrappers
  import opened Decimal

  /**
   * Immutable coordinate pair. The datatype's fields `x` and `y` are the getters
   * `getX` and `getY`, and they never change once the value is built.
   */
  datatype Location = Location(x: int, y: int) {

    /**
     * Java's `equals(Object)`: `o` is `None` when the argument is not a Location
     * (null or an object of another class). It coincides with value equality.
     */
    function Equals(o: Option<Location>): (r: bool)
      ensures r <==> o == Some(this)
    {
      match o
      case Some(l) => x == l.x && y == l.y
      case None => false
    }

    /** Text `(x, y)`, both coordinates in decimal. */
    function ToString(): (s: string)
      ensures |s| >= 6 && s[0] == '(' && s[|s| - 1] == ')'
    {
      "(" + IntToString(x) + ", " + IntToString(y) + ")"
    }
  }

  lemma EqualsReflexive(a: Location)
    ensures a.Equals(Some(a))
  {
  }

  lemma EqualsSymmetric(a: Location, b: Location)
    ensures a.Equals(Some(b)) <==> b.Equals(Some(a))
  {
  }

  lemma EqualsTransitive(a: Location, b: Location, c: Location)
    requires a.Equals(Some(b)) && b.Equals(Some(c))
    ensures a.Equals(Some(c))
  {
  }

  /** Two locations with the same text are the same location. */
  lemma ToStringInjective(a: Location, b: Location)
    requires a.ToString() == b.ToString()
    ensures a == b
  {
    var s := a.ToString();
    var sx, sy := IntToString(a.x), IntToString(a.y);
    var tx, ty := IntToString(b.x), IntToString(b.y);
    assert s == "(" + sx + ", " + sy + ")";
    assert s == "(" + tx + ", " + ty + ")";
    // The first ',' of the text sits right after the abscissa, so both abscissas have the same length.
    assert forall k :: 1 <= k < 1 + |sx| ==> s[k] == sx[k - 1] != ',';
    assert forall k :: 1 <= k < 1 + |tx| ==> s[k] == tx[k - 1] != ',';
    assert s[1 + |sx|] == ',' && s[1 + |tx|] == ',';
    assert |sx| == |tx|;
    assert sx == s[1..1 + |sx|] == tx;
    IntToStringInjective(a.x, b.x);
    assert sy == s[3 + |sx|..|s| - 1] == ty;
    IntToStringInjective(a.y, b.y);
  }
}
