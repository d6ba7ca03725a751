/** Integer geometry of the layout: Unity's `RectInt` and `Vector2Int`, the
    room record, and the centre arithmetic every generator repeats. */
module Geometry {

  /** `RectInt`: lower-left corner, width and height. Nothing forces the sizes
      to be positive, and the partition code can make them negative. */
  datatype Rect = Rect(x: int, y: int, width: int, height: int)

  /** `Vector2Int`; in the scene the second coordinate is the world z axis. */
  datatype Point = Point(x: int, y: int)

  /** `RoomInfo`, reduced to the rectangle the layout code reads from it. */
  datatype RoomInfo = RoomInfo(roomRect: Rect)

  /** The cell `p` lies in `r` (half-open on the far sides, as `RectInt`). */
  predicate Contains(r: Rect, p: Point)
  {
    r.x <= p.x < r.x + r.width && r.y <= p.y < r.y + r.height
  }

  /** C#'s `n / 2`, which truncates toward zero (Dafny's `/` does not for negative `n`). */
  function Half(n: int): (h: int)
    ensures n >= 0 ==> 0 <= h && h + h <= n < h + h + 2
    ensures n < 0 ==> h <= 0 && n <= h + h < n + 2
  {
    if n >= 0 then n / 2 else -((-n) / 2)
  }

  /** `GetRoomCenter`: `(x + width / 2, y + height / 2)` in integer arithmetic.
      For a rectangle with positive sizes the centre is one of its cells. */
  function Center(r: Rect): (c: Point)
    ensures r.width > 0 && r.height > 0 ==> Contains(r, c)
    ensures r.width >= 0 ==> 0 <= 2 * (c.x - r.x) <= r.width
    ensures r.height >= 0 ==> 0 <= 2 * (c.y - r.y) <= r.height
  {
    Point(r.x + Half(r.width), r.y + Half(r.height))
  }

  /** The square of `Vector2.Distance`; both order pairs of points alike. */
  function Dist2(p: Point, q: Point): (d: nat)
    ensures d == 0 <==> p == q
  {
    var dx := p.x - q.x;
    var dy := p.y - q.y;
    SquareZero(dx);
    SquareZero(dy);
    dx * dx + dy * dy
  }

  lemma Dist2Symmetric(p: Point, q: Point)
    ensures Dist2(p, q) == Dist2(q, p)
  {
    assert (p.x - q.x) * (p.x - q.x) == (q.x - p.x) * (q.x - p.x);
    assert (p.y - q.y) * (p.y - q.y) == (q.y - p.y) * (q.y - p.y);
  }

  lemma SquareZero(n: int)
    ensures n * n >= 0
    ensures n * n == 0 <==> n == 0
  {
    if n < 0 {
      assert n * n == (-n) * (-n);
    }
  }

  /** The squared distance between the centres of two rooms. */
  function RoomDist2(a: RoomInfo, b: RoomInfo): nat
  {
    Dist2(Center(a.roomRect), Center(b.roomRect))
  }
}
