/**
 * The keyframe timeline of one tracked object, as a value: the start and end
 * frames of the object's interval and the keyframes that pin its box to a
 * top-left position. Every operation of the object is specified here as a
 * function of the old state; the class `Objects.Obj` is proved against them.
 */
module Timeline {
  import opened Options
  import opened Rounding
  import opened BoundingBox

  datatype ObjState = ObjState(
    fraCount: int,            // frames in the video
    bboxSize: int,            // width and height of the object's boxes
    sta: int,                 // start frame of the object's interval
    end: int,                 // end frame of the object's interval
    keys: map<int, Point>)    // keyframe -> top-left corner of its box

  /** The object invariant. */
  ghost predicate Valid(o: ObjState) {
    && o.fraCount > 1
    && ValidSize(o.bboxSize, o.bboxSize)
    && 0 <= o.sta < o.end < o.fraCount
    && o.sta in o.keys && o.end in o.keys
    && forall k :: k in o.keys ==> o.sta <= k <= o.end
  }

  /** A new object spans the whole video, with a box at the origin at both ends. */
  function Init(fraCount: int, bboxSize: int): (o: ObjState)
    requires fraCount > 1 && ValidSize(bboxSize, bboxSize)
    ensures Valid(o)
    ensures o.sta == 0 && o.end == fraCount - 1
    ensures o.keys.Keys == {0, fraCount - 1}
    ensures o.keys[0] == Origin && o.keys[fraCount - 1] == Origin
  {
    ObjState(fraCount, bboxSize, 0, fraCount - 1, map[0 := Origin, fraCount - 1 := Origin])
  }

  /** The box to store when the caller passed none: a box at the origin. */
  function BoxOrOrigin(bbox: Option<Point>): Point {
    if bbox.Some? then bbox.value else Origin
  }

  /** The keyframes outside [lo, hi). */
  function Without(keys: map<int, Point>, lo: int, hi: int): map<int, Point> {
    map k | k in keys && !(lo <= k < hi) :: keys[k]
  }

  /**
   * Moves the start frame to f. A start at or after the end is rejected and
   * nothing changes. Moving the start later discards the keyframes of the
   * vacated frames [old start, f); f then holds the given box, or a box at the
   * origin when none was given.
   */
  function StaMoved(o: ObjState, f: int, bbox: Option<Point>): (r: ObjState)
    requires Valid(o) && 0 <= f < o.fraCount
    requires f == o.sta ==> bbox.Some?
    ensures Valid(r)
    ensures f >= o.end ==> r == o
    ensures f < o.end ==> r.sta == f && f in r.keys && r.keys[f] == BoxOrOrigin(bbox)
    ensures f < o.end ==> forall k :: k != f ==> (k in r.keys <==> k in o.keys && !(o.sta <= k < f))
    ensures forall k :: k in r.keys && k != f ==> k in o.keys && r.keys[k] == o.keys[k]
    ensures r.end == o.end && r.fraCount == o.fraCount && r.bboxSize == o.bboxSize
  {
    if f >= o.end then o
    else if f == o.sta then o.(keys := o.keys[f := bbox.value])
    else
      var kept := if f > o.sta then Without(o.keys, o.sta, f) else o.keys;
      o.(sta := f, keys := kept[f := BoxOrOrigin(bbox)])
  }

  /**
   * Moves the end frame to f. An end at or before the start is rejected and
   * nothing changes. Moving the end earlier discards the keyframes of the
   * vacated frames (f, old end]; f then holds the given box, or a box at the
   * origin when none was given.
   */
  function EndMoved(o: ObjState, f: int, bbox: Option<Point>): (r: ObjState)
    requires Valid(o) && 0 <= f < o.fraCount
    requires f == o.end ==> bbox.Some?
    ensures Valid(r)
    ensures f <= o.sta ==> r == o
    ensures f > o.sta ==> r.end == f && f in r.keys && r.keys[f] == BoxOrOrigin(bbox)
    ensures f > o.sta ==> forall k :: k != f ==> (k in r.keys <==> k in o.keys && !(f < k <= o.end))
    ensures forall k :: k in r.keys && k != f ==> k in o.keys && r.keys[k] == o.keys[k]
    ensures r.sta == o.sta && r.fraCount == o.fraCount && r.bboxSize == o.bboxSize
  {
    if f <= o.sta then o
    else if f == o.end then o.(keys := o.keys[f := bbox.value])
    else
      var kept := if f < o.end then Without(o.keys, f + 1, o.end + 1) else o.keys;
      o.(end := f, keys := kept[f := BoxOrOrigin(bbox)])
  }

  /** Stores a keyframe strictly inside the interval; anywhere else nothing changes. */
  function KeyMarked(o: ObjState, f: int, bbox: Option<Point>): (r: ObjState)
    requires Valid(o) && 0 <= f < o.fraCount
    requires o.sta < f < o.end ==> bbox.Some?
    ensures Valid(r)
    ensures !(o.sta < f < o.end) ==> r == o
    ensures o.sta < f < o.end ==> f in r.keys && r.keys[f] == bbox.value
    ensures r.keys.Keys <= o.keys.Keys + {f}
    ensures forall k :: k in o.keys && k != f ==> k in r.keys && r.keys[k] == o.keys[k]
    ensures r.sta == o.sta && r.end == o.end && r.fraCount == o.fraCount && r.bboxSize == o.bboxSize
  {
    if f <= o.sta || f >= o.end then o
    else o.(keys := o.keys[f := bbox.value])
  }

  /** Removes the keyframe at f, unless f is the start or the end frame. */
  function KeyUnmarked(o: ObjState, f: int): (r: ObjState)
    requires Valid(o) && 0 <= f < o.fraCount
    ensures Valid(r)
    ensures f == o.sta || f == o.end ==> r == o
    ensures f != o.sta && f != o.end ==> f !in r.keys
    ensures forall k :: k != f ==> (k in r.keys <==> k in o.keys)
    ensures forall k :: k in r.keys ==> r.keys[k] == o.keys[k]
    ensures r.sta == o.sta && r.end == o.end && r.fraCount == o.fraCount && r.bboxSize == o.bboxSize
  {
    if f == o.sta || f == o.end then o
    else if f in o.keys then o.(keys := o.keys - {f})
    else o
  }

  /** The nearest keyframe before f: the greatest key in [sta, f). */
  function PrevKey(o: ObjState, f: int): (r: int)
    requires Valid(o) && o.sta < f <= o.end
    ensures r in o.keys && o.sta <= r < f
    ensures forall k :: r < k < f ==> k !in o.keys
    decreases f
  {
    if f - 1 in o.keys then f - 1 else PrevKey(o, f - 1)
  }

  /** The nearest keyframe after f: the least key in (f, end]. */
  function NextKey(o: ObjState, f: int): (r: int)
    requires Valid(o) && o.sta <= f < o.end
    ensures r in o.keys && f < r <= o.end
    ensures forall k :: f < k < r ==> k !in o.keys
    decreases o.end - f
  {
    if f + 1 in o.keys then f + 1 else NextKey(o, f + 1)
  }

  /**
   * The top-left corner of the object's box at frame f: none outside the
   * interval, the stored box at a keyframe, and otherwise each coordinate
   * interpolated linearly between the nearest keyframes on either side.
   */
  function BoxAt(o: ObjState, f: int): (r: Option<Point>)
    requires Valid(o)
    ensures r.None? <==> f < o.sta || f > o.end
    ensures f in o.keys ==> r == Some(o.keys[f])
  {
    if f < o.sta || f > o.end then None
    else if f in o.keys then Some(o.keys[f])
    else
      var lo := PrevKey(o, f);
      var hi := NextKey(o, f);
      var a := o.keys[lo];
      var b := o.keys[hi];
      Some((Interp(lo, a.0, hi, b.0, f), Interp(lo, a.1, hi, b.1, f)))
  }

  /** lo and hi are keys with no key strictly between them. */
  ghost predicate Adjacent(o: ObjState, lo: int, hi: int) {
    lo in o.keys && hi in o.keys && lo < hi && forall k :: lo < k < hi ==> k !in o.keys
  }

  /** The greatest key below f is the key lo that is adjacent to a key after f. */
  lemma PrevKeyIs(o: ObjState, f: int, lo: int, hi: int)
    requires Valid(o) && Adjacent(o, lo, hi) && lo < f <= hi
    ensures PrevKey(o, f) == lo
  {
  }

  /** The least key above f is the key hi that is adjacent to a key at or before f. */
  lemma NextKeyIs(o: ObjState, f: int, lo: int, hi: int)
    requires Valid(o) && Adjacent(o, lo, hi) && lo <= f < hi
    ensures NextKey(o, f) == hi
  {
  }

  /**
   * Between two adjacent keyframes every interpolated box exists and each of
   * its coordinates lies between the corresponding coordinates of the two keys.
   */
  lemma BoxAtBetweenKeys(o: ObjState, lo: int, hi: int, f: int)
    requires Valid(o) && Adjacent(o, lo, hi) && lo < f < hi
    ensures BoxAt(o, f).Some?
    ensures Min(o.keys[lo].0, o.keys[hi].0) <= BoxAt(o, f).value.0 <= Max(o.keys[lo].0, o.keys[hi].0)
    ensures Min(o.keys[lo].1, o.keys[hi].1) <= BoxAt(o, f).value.1 <= Max(o.keys[lo].1, o.keys[hi].1)
  {
    assert f !in o.keys;
    PrevKeyIs(o, f, lo, hi);
    NextKeyIs(o, f, lo, hi);
  }

  /** A box that does not move between two adjacent keyframes stays put in between. */
  lemma BoxAtConstantBetweenKeys(o: ObjState, lo: int, hi: int, f: int)
    requires Valid(o) && Adjacent(o, lo, hi) && lo < f < hi
    requires o.keys[lo] == o.keys[hi]
    ensures BoxAt(o, f) == Some(o.keys[lo])
  {
    BoxAtBetweenKeys(o, lo, hi, f);
  }

  /**
   * An example: frames 0..9, start at (0, 0), end at (90, 0), no other
   * keyframes; frame 3 lies a third of the way, at (30, 0).
   */
  lemma BoxAtExample()
    ensures var o := ObjState(10, 30, 0, 9, map[0 := (0, 0), 9 := (90, 0)]);
      Valid(o) && BoxAt(o, 3) == Some((30, 0))
  {
    var o := ObjState(10, 30, 0, 9, map[0 := (0, 0), 9 := (90, 0)]);
    assert PrevKey(o, 3) == 0 by { PrevKeyIs(o, 3, 0, 9); }
    assert NextKey(o, 3) == 9 by { NextKeyIs(o, 3, 0, 9); }
  }

  /** Half-way ties round to the even coordinate, as Python's `round` does: a quarter of the way. */
  lemma BoxAtTieFrame1()
    ensures var o := ObjState(5, 2, 0, 4, map[0 := (0, 0), 4 := (2, 6)]);
      Valid(o) && BoxAt(o, 1) == Some((0, 2))
  {
    var o := ObjState(5, 2, 0, 4, map[0 := (0, 0), 4 := (2, 6)]);
    assert PrevKey(o, 1) == 0 by { PrevKeyIs(o, 1, 0, 4); }
    assert NextKey(o, 1) == 4 by { NextKeyIs(o, 1, 0, 4); }
    assert RoundHalfEven(2, 4) == 0;
    assert RoundHalfEven(6, 4) == 2;
  }

  /** Half-way ties round to the even coordinate, as Python's `round` does: three quarters of the way. */
  lemma BoxAtTieFrame3()
    ensures var o := ObjState(5, 2, 0, 4, map[0 := (0, 0), 4 := (2, 6)]);
      Valid(o) && BoxAt(o, 3) == Some((2, 4))
  {
    var o := ObjState(5, 2, 0, 4, map[0 := (0, 0), 4 := (2, 6)]);
    assert PrevKey(o, 3) == 0 by { PrevKeyIs(o, 3, 0, 4); }
    assert NextKey(o, 3) == 4 by { NextKeyIs(o, 3, 0, 4); }
    assert RoundHalfEven(6, 4) == 2;
    assert RoundHalfEven(18, 4) == 4;
  }

  /**
   * An example of a later start: with a keyframe at 2, moving the
   * start to 4 discards that keyframe.
   */
  lemma SetStaExample(b: Point)
    ensures var o := ObjState(10, 30, 0, 9, map[0 := (0, 0), 2 := (5, 5), 9 := (90, 0)]);
      Valid(o) && StaMoved(o, 4, Some(b)).sta == 4 && 2 !in StaMoved(o, 4, Some(b)).keys
  {
  }

}
