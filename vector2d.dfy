/** Model of packages/game-engine/src/types/Vector2D.ts: a mutable 2-D vector
    whose arithmetic methods change the receiver and return it. */
module Vector {

  import opened Wrappers

  /** The plain `{x, y}` object the constructor and `add` accept and `toJs` returns. */
  datatype NumPair = NumPair(x: real, y: real)

  /** The sign of a component, as `normalize` computes it. */
  function Sign(r: real): (s: real)
    ensures s == -1.0 || s == 0.0 || s == 1.0
    ensures s < 0.0 <==> r < 0.0
    ensures s > 0.0 <==> r > 0.0
  {
    if r < 0.0 then -1.0 else if r > 0.0 then 1.0 else r
  }

  /** Normalising twice is normalising once. */
  lemma SignIdempotent(r: real)
    ensures Sign(Sign(r)) == Sign(r)
  {
  }

  class Vector2D {
    var x: real
    var y: real

    /** `new Vector2D()` is the origin; `new Vector2D(p)` copies `p`'s components. */
    constructor (params: Option<NumPair>)
      ensures params.None? ==> x == 0.0 && y == 0.0
      ensures params.Some? ==> x == params.value.x && y == params.value.y
    {
      if params.None? {
        x, y := 0.0, 0.0;
      } else {
        x, y := params.value.x, params.value.y;
      }
    }

    method Scale(v: real) returns (r: Vector2D)
      modifies this
      ensures r == this
      ensures x == old(x) * v && y == old(y) * v
    {
      x := x * v;
      y := y * v;
      r := this;
    }

    method Add(v: NumPair) returns (r: Vector2D)
      modifies this
      ensures r == this
      ensures x == old(x) + v.x && y == old(y) + v.y
    {
      x := x + v.x;
      y := y + v.y;
      r := this;
    }

    /** `subtract(v)` is `add({x: -v.x, y: -v.y})`. */
    method Subtract(v: NumPair) returns (r: Vector2D)
      modifies this
      ensures r == this
      ensures x == old(x) - v.x && y == old(y) - v.y
    {
      r := Add(NumPair(-v.x, -v.y));
    }

    /** A distinct object with the same components. */
    method Clone() returns (r: Vector2D)
      ensures fresh(r)
      ensures r.x == x && r.y == y
    {
      r := new Vector2D(Some(NumPair(x, y)));
    }

    /** Maps each component to its sign, in place. */
    method Normalize() returns (r: Vector2D)
      modifies this
      ensures r == this
      ensures x == Sign(old(x)) && y == Sign(old(y))
    {
      if x < 0.0 {
        x := -1.0;
      } else if x > 0.0 {
        x := 1.0;
      }
      if y < 0.0 {
        y := -1.0;
      } else if y > 0.0 {
        y := 1.0;
      }
      r := this;
    }

    function ToJs(): (p: NumPair)
      reads this
      ensures p.x == x && p.y == y
    {
      NumPair(x, y)
    }
  }
}
