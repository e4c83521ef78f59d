/**
 * One tracked object whose keyframe map is updated in place. The methods that
 * model an operation of the source are proved equal to its `Timeline` function;
 * `DropKeys` and `SetKeyBox` state their effect on the keyframe map directly.
 */
module Objects {
  import opened Options
  import opened Rounding
  import opened BoundingBox
  import opened Timeline

  class Obj {
    const fraCount: int
    const bboxSize: int
    var sta: int
    var end: int
    var keys: map<int, Point>

    /** The object's state as a value. */
    function Model(): ObjState
      reads this
    {
      ObjState(fraCount, bboxSize, sta, end, keys)
    }

    ghost predicate Valid()
      reads this
    {
      Timeline.Valid(Model())
    }

    constructor (bboxSize: int, fraCount: int)
      requires fraCount > 1 && ValidSize(bboxSize, bboxSize)
      ensures Valid()
      ensures Model() == Init(fraCount, bboxSize)
    {
      this.fraCount := fraCount;
      this.bboxSize := bboxSize;
      sta := 0;
      end := fraCount - 1;
      keys := map[0 := Origin, fraCount - 1 := Origin];
    }

    predicate IsKeyFra(f: int)
      reads this
    {
      f in keys
    }

    /** Deletes the keyframes of the frames [lo, hi), one frame at a time. */
    method DropKeys(lo: int, hi: int)
      requires lo <= hi
      modifies this
      ensures sta == old(sta) && end == old(end)
      ensures keys == Without(old(keys), lo, hi)
    {
      for fra := lo to hi
        invariant sta == old(sta) && end == old(end)
        invariant keys == Without(old(keys), lo, fra)
      {
        if IsKeyFra(fra) {
          keys := keys - {fra};
        }
      }
    }

    /** Moves the stored box of keyframe f to tl; a frame that is not a keyframe does not become one. */
    method SetKeyBox(f: int, tl: Point)
      requires Valid()
      modifies this
      ensures Valid()
      ensures sta == old(sta) && end == old(end)
      ensures keys == if f in old(keys) then old(keys)[f := tl] else old(keys)
    {
      if IsKeyFra(f) {
        keys := keys[f := tl];
      }
    }

    method SetStaFra(f: int, bbox: Option<Point>)
      requires Valid() && 0 <= f < fraCount
      requires f == sta ==> bbox.Some?
      modifies this
      ensures Valid()
      ensures Model() == StaMoved(old(Model()), f, bbox)
    {
      if f >= end {
        return;
      }
      if f == sta {
        keys := keys[f := bbox.value];
        return;
      }
      if f > sta {
        DropKeys(sta, f);    // the vacated frames [sta, f)
      }
      keys := keys[f := BoxOrOrigin(bbox)];
      sta := f;
      assert Model() == StaMoved(old(Model()), f, bbox);
    }

    method SetEndFra(f: int, bbox: Option<Point>)
      requires Valid() && 0 <= f < fraCount
      requires f == end ==> bbox.Some?
      modifies this
      ensures Valid()
      ensures Model() == EndMoved(old(Model()), f, bbox)
    {
      if f <= sta {
        return;
      }
      if f == end {
        keys := keys[f := bbox.value];
        return;
      }
      if f < end {
        DropKeys(f + 1, end + 1);    // the vacated frames (f, end]
      }
      keys := keys[f := BoxOrOrigin(bbox)];
      end := f;
      assert Model() == EndMoved(old(Model()), f, bbox);
    }

    method MarkKeyFra(f: int, bbox: Option<Point>)
      requires Valid() && 0 <= f < fraCount
      requires sta < f < end ==> bbox.Some?
      modifies this
      ensures Valid()
      ensures Model() == KeyMarked(old(Model()), f, bbox)
    {
      if f <= sta || f >= end {
        return;
      }
      keys := keys[f := bbox.value];
    }

    method UnmarkKeyFra(f: int)
      requires Valid() && 0 <= f < fraCount
      modifies this
      ensures Valid()
      ensures Model() == KeyUnmarked(old(Model()), f)
    {
      if f == sta || f == end {
        return;
      }
      if f in keys {
        keys := keys - {f};
      }
    }

    /**
     * The box at frame f, found as the source finds it: scan down from f for the
     * nearest keyframe, scan up from f for the next one, and interpolate.
     */
    method GetBbox(f: int) returns (r: Option<Point>)
      requires Valid()
      ensures r == BoxAt(Model(), f)
    {
      if f < sta || f > end {
        return None;
      }
      if f in keys {
        return Some(keys[f]);
      }
      var lo := f - 1;
      while lo !in keys
        invariant sta <= lo < f
        invariant forall k :: lo < k < f ==> k !in keys
        decreases lo
      {
        lo := lo - 1;
      }
      var hi := f + 1;
      while hi !in keys
        invariant f < hi <= end
        invariant forall k :: f < k < hi ==> k !in keys
        decreases end - hi
      {
        hi := hi + 1;
      }
      PrevKeyIs(Model(), f, lo, hi);
      NextKeyIs(Model(), f, lo, hi);
      var a, b := keys[lo], keys[hi];
      r := Some((Interp(lo, a.0, hi, b.0, f), Interp(lo, a.1, hi, b.1, f)));
    }
  }

}
