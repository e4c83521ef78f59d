/**
 * The rows the annotations are saved as and loaded from. A row is
 * `frame, tlx, tly, w, h` with the frame numbered from 1. The "key" output holds
 * one row per keyframe and the "all" output one row per frame of the interval,
 * both in ascending frame order. Loading rebuilds an object from the key rows.
 */
module Rows {
  import opened Options
  import opened BoundingBox
  import opened Timeline

  datatype Row = Row(frame: int, tlx: int, tly: int, w: int, h: int)

  function TlOf(r: Row): Point {
    (r.tlx, r.tly)
  }

  /** The row of frame f with its box at tl: frames are numbered from 1 in a row. */
  function RowOf(f: int, tl: Point, size: int): (r: Row)
    ensures RowsMap([r]) == map[f := tl]
  {
    Row(f + 1, tl.0, tl.1, size, size)
  }

  /** The row saved for frame f of the interval. */
  function RowAt(o: ObjState, f: int): (r: Row)
    requires Valid(o) && o.sta <= f <= o.end
    ensures r.frame == f + 1 && r.w == o.bboxSize && r.h == o.bboxSize
    ensures f in o.keys ==> TlOf(r) == o.keys[f]
  {
    RowOf(f, BoxAt(o, f).value, o.bboxSize)
  }

  ghost predicate Ascending(rows: seq<Row>) {
    forall i, j :: 0 <= i < j < |rows| ==> rows[i].frame < rows[j].frame
  }

  /** The keyframe positions the rows describe, frame numbers back to 0-based. */
  function RowsMap(rows: seq<Row>): map<int, Point>
    decreases |rows|
  {
    if rows == [] then map[]
    else RowsMap(rows[..|rows| - 1])[rows[|rows| - 1].frame - 1 := TlOf(rows[|rows| - 1])]
  }

  /** The key rows of the frames [sta, hi), in the order the save loop emits them. */
  function KeyRowsUpTo(o: ObjState, hi: int): (rows: seq<Row>)
    requires Valid(o) && o.sta <= hi <= o.end + 1
    ensures forall i :: 0 <= i < |rows| ==> o.sta < rows[i].frame <= hi
    ensures forall i :: 0 <= i < |rows| ==> rows[i].w == o.bboxSize && rows[i].h == o.bboxSize
    decreases hi
  {
    if hi == o.sta then []
    else KeyRowsUpTo(o, hi - 1) + if hi - 1 in o.keys then [RowOf(hi - 1, o.keys[hi - 1], o.bboxSize)] else []
  }

  /** The key rows come in strictly ascending frame order. */
  lemma {:induction false} KeyRowsUpToAscending(o: ObjState, hi: int)
    requires Valid(o) && o.sta <= hi <= o.end + 1
    ensures Ascending(KeyRowsUpTo(o, hi))
    decreases hi
  {
    if hi > o.sta {
      KeyRowsUpToAscending(o, hi - 1);
    }
  }

  /** The keyframes below hi. */
  function KeysBelow(keys: map<int, Point>, hi: int): map<int, Point> {
    map k | k in keys && k < hi :: keys[k]
  }

  /** When every keyframe lies below hi, the keyframes below hi are all of them. */
  lemma KeysBelowAll(keys: map<int, Point>, hi: int)
    requires forall k :: k in keys ==> k < hi
    ensures KeysBelow(keys, hi) == keys
  {
  }

  /** Appending a row adds its keyframe to what the rows describe. */
  lemma RowsMapSnoc(rows: seq<Row>, r: Row)
    ensures RowsMap(rows + [r]) == RowsMap(rows)[r.frame - 1 := TlOf(r)]
  {
    assert (rows + [r])[..|rows|] == rows;
  }

  /** The keyframes below hi are those below hi - 1, plus hi - 1 if it is a keyframe. */
  lemma KeysBelowStep(keys: map<int, Point>, hi: int)
    ensures KeysBelow(keys, hi) ==
      if hi - 1 in keys then KeysBelow(keys, hi - 1)[hi - 1 := keys[hi - 1]] else KeysBelow(keys, hi - 1)
  {
  }

  /** The key rows of [sta, hi) describe exactly the keyframes below hi. */
  lemma {:induction false} KeyRowsUpToMap(o: ObjState, hi: int)
    requires Valid(o) && o.sta <= hi <= o.end + 1
    ensures RowsMap(KeyRowsUpTo(o, hi)) == KeysBelow(o.keys, hi)
    decreases hi
  {
    if hi == o.sta {
      assert KeysBelow(o.keys, hi) == map[];
    } else {
      KeyRowsUpToMap(o, hi - 1);
      KeyRowsUpToMapStep(o, hi);
    }
  }

  /** One step of the save loop adds the keyframe of frame hi - 1, if there is one. */
  lemma KeyRowsUpToMapStep(o: ObjState, hi: int)
    requires Valid(o) && o.sta < hi <= o.end + 1
    requires RowsMap(KeyRowsUpTo(o, hi - 1)) == KeysBelow(o.keys, hi - 1)
    ensures RowsMap(KeyRowsUpTo(o, hi)) == KeysBelow(o.keys, hi)
  {
    var prefix := KeyRowsUpTo(o, hi - 1);
    KeysBelowStep(o.keys, hi);
    if hi - 1 in o.keys {
      var row := RowOf(hi - 1, o.keys[hi - 1], o.bboxSize);
      assert KeyRowsUpTo(o, hi) == prefix + [row];
      RowsMapSnoc(prefix, row);
    } else {
      assert KeyRowsUpTo(o, hi) == prefix;
    }
  }

  /** The rows of every frame in [sta, hi), in the order the save loop emits them. */
  function AllRowsUpTo(o: ObjState, hi: int): (rows: seq<Row>)
    requires Valid(o) && o.sta <= hi <= o.end + 1
    ensures |rows| == hi - o.sta
    ensures forall i :: 0 <= i < |rows| ==> rows[i].frame == o.sta + i + 1
    ensures forall i :: 0 <= i < |rows| ==> rows[i].w == o.bboxSize && rows[i].h == o.bboxSize
    decreases hi
  {
    if hi == o.sta then [] else AllRowsUpTo(o, hi - 1) + [RowAt(o, hi - 1)]
  }

  /** The contents of the "key" output of an object. */
  function KeyRows(o: ObjState): seq<Row>
    requires Valid(o)
  {
    KeyRowsUpTo(o, o.end + 1)
  }

  /** The contents of the "all" output of an object. */
  function AllRows(o: ObjState): seq<Row>
    requires Valid(o)
  {
    AllRowsUpTo(o, o.end + 1)
  }

  /** The key rows are the object's keyframes exactly, one row each, 1-indexed and ascending. */
  lemma {:induction false} KeyRowsAreKeyframes(o: ObjState)
    requires Valid(o)
    ensures Ascending(KeyRows(o))
    ensures RowsMap(KeyRows(o)) == o.keys
  {
    var rows := KeyRows(o);
    KeyRowsUpToAscending(o, o.end + 1);
    KeyRowsUpToMap(o, o.end + 1);
    KeysBelowAll(o.keys, o.end + 1);
  }

  /** The "all" output has one row per frame of the interval, at the box of that frame. */
  lemma {:induction false} AllRowsCoverInterval(o: ObjState)
    requires Valid(o)
    ensures |AllRows(o)| == o.end - o.sta + 1
    ensures forall f :: o.sta <= f <= o.end ==>
      AllRows(o)[f - o.sta].frame == f + 1 && Some(TlOf(AllRows(o)[f - o.sta])) == BoxAt(o, f)
  {
    AllRowsUpToBoxes(o, o.end + 1);
  }

  /** Each of the rows of [sta, hi) holds the box of its frame. */
  lemma {:induction false} AllRowsUpToBoxes(o: ObjState, hi: int)
    requires Valid(o) && o.sta <= hi <= o.end + 1
    ensures forall i :: 0 <= i < hi - o.sta ==> AllRowsUpTo(o, hi)[i] == RowAt(o, o.sta + i)
    decreases hi
  {
    if hi > o.sta {
      AllRowsUpToBoxes(o, hi - 1);
      var prefix := AllRowsUpTo(o, hi - 1);
      var rows := AllRowsUpTo(o, hi);
      assert rows == prefix + [RowAt(o, hi - 1)];
      forall i | 0 <= i < hi - o.sta
        ensures rows[i] == RowAt(o, o.sta + i)
      {
        if i < hi - 1 - o.sta {
          assert rows[i] == prefix[i];
        }
      }
    }
  }

  /** The first key row is the start frame's. */
  lemma {:induction false} KeyRowsFirst(o: ObjState, hi: int)
    requires Valid(o) && o.sta < hi <= o.end + 1
    ensures |KeyRowsUpTo(o, hi)| > 0 && KeyRowsUpTo(o, hi)[0] == RowOf(o.sta, o.keys[o.sta], o.bboxSize)
    decreases hi
  {
    if hi - 1 > o.sta {
      KeyRowsFirst(o, hi - 1);
    }
  }

  /** The middle rows of a key file: all but the first and the last. */
  function Middle(rows: seq<Row>): (r: seq<Row>)
    ensures |rows| >= 2 ==> [rows[0]] + r + [rows[|rows| - 1]] == rows
    ensures |rows| < 2 ==> r == []
  {
    if |rows| <= 2 then [] else rows[1..|rows| - 1]
  }

  /** Every row names a frame of the video. */
  ghost predicate FramesInVideo(rows: seq<Row>, fraCount: int) {
    forall i :: 0 <= i < |rows| ==> 1 <= rows[i].frame <= fraCount
  }

  /** Marks one keyframe per row, in order. */
  function MarkRows(o: ObjState, rows: seq<Row>): (r: ObjState)
    requires Valid(o) && FramesInVideo(rows, o.fraCount)
    ensures Valid(r)
    ensures r.sta == o.sta && r.end == o.end && r.fraCount == o.fraCount && r.bboxSize == o.bboxSize
    decreases |rows|
  {
    if rows == [] then o
    else
      var last := rows[|rows| - 1];
      KeyMarked(MarkRows(o, rows[..|rows| - 1]), last.frame - 1, Some(TlOf(last)))
  }

  /** Rows strictly inside the interval add exactly their keyframes, later rows winning. */
  lemma {:induction false} MarkRowsMap(o: ObjState, rows: seq<Row>)
    requires Valid(o) && FramesInVideo(rows, o.fraCount)
    requires forall i :: 0 <= i < |rows| ==> o.sta < rows[i].frame - 1 < o.end
    ensures MarkRows(o, rows).keys == o.keys + RowsMap(rows)
    decreases |rows|
  {
    if rows != [] {
      var init := rows[..|rows| - 1];
      MarkRowsMap(o, init);
    }
  }

  /** Marking one more row of a sequence is one more mark on the marks so far. */
  lemma MarkRowsStep(o: ObjState, rows: seq<Row>, i: int)
    requires Valid(o) && FramesInVideo(rows, o.fraCount) && 0 <= i < |rows|
    ensures FramesInVideo(rows[..i], o.fraCount)
    ensures MarkRows(o, rows[..i + 1]) ==
      KeyMarked(MarkRows(o, rows[..i]), rows[i].frame - 1, Some(TlOf(rows[i])))
  {
    var p := rows[..i + 1];
    assert p[..|p| - 1] == rows[..i];
    assert p[|p| - 1] == rows[i];
  }

  /** A fresh object with its start moved to the first row and its end to the last row. */
  function LoadBounds(fraCount: int, bboxSize: int, rows: seq<Row>): (o: ObjState)
    requires fraCount > 1 && ValidSize(bboxSize, bboxSize)
    requires |rows| > 0 && FramesInVideo(rows, fraCount)
    ensures Valid(o) && o.fraCount == fraCount && o.bboxSize == bboxSize
  {
    var first, last := rows[0], rows[|rows| - 1];
    var o1 := StaMoved(Init(fraCount, bboxSize), first.frame - 1, Some(TlOf(first)));
    EndMoved(o1, last.frame - 1, Some(TlOf(last)))
  }

  /** Moving the start, then the end, of a fresh object onto the first and last rows is `LoadBounds`. */
  lemma LoadBoundsSteps(fraCount: int, bboxSize: int, rows: seq<Row>, started: ObjState, ended: ObjState)
    requires fraCount > 1 && ValidSize(bboxSize, bboxSize)
    requires |rows| > 0 && FramesInVideo(rows, fraCount)
    requires started == StaMoved(Init(fraCount, bboxSize), rows[0].frame - 1, Some(TlOf(rows[0])))
    requires ended == EndMoved(started, rows[|rows| - 1].frame - 1, Some(TlOf(rows[|rows| - 1])))
    ensures ended == LoadBounds(fraCount, bboxSize, rows)
  {
  }

  /** Loading is marking the middle rows on the loaded bounds. */
  lemma LoadSteps(fraCount: int, bboxSize: int, rows: seq<Row>, bounds: ObjState, loaded: ObjState)
    requires fraCount > 1 && ValidSize(bboxSize, bboxSize)
    requires |rows| > 0 && FramesInVideo(rows, fraCount)
    requires bounds == LoadBounds(fraCount, bboxSize, rows)
    requires FramesInVideo(Middle(rows), fraCount)
    requires loaded == MarkRows(bounds, Middle(rows))
    ensures loaded == Load(fraCount, bboxSize, rows)
  {
  }

  /**
   * The object rebuilt from a key file: a fresh object whose start is moved to the
   * first row, whose end is moved to the last row, and which marks every other row.
   */
  function Load(fraCount: int, bboxSize: int, rows: seq<Row>): (o: ObjState)
    requires fraCount > 1 && ValidSize(bboxSize, bboxSize)
    requires |rows| > 0 && FramesInVideo(rows, fraCount)
    ensures Valid(o) && o.fraCount == fraCount && o.bboxSize == bboxSize
  {
    MiddleInVideo(rows, fraCount);
    MarkRows(LoadBounds(fraCount, bboxSize, rows), Middle(rows))
  }

  lemma MiddleInVideo(rows: seq<Row>, fraCount: int)
    requires FramesInVideo(rows, fraCount)
    ensures FramesInVideo(Middle(rows), fraCount)
  {
    if |rows| > 2 {
      forall i | 0 <= i < |Middle(rows)|
        ensures 1 <= Middle(rows)[i].frame <= fraCount
      {
        assert Middle(rows)[i] == rows[i + 1];
      }
    }
  }

  lemma {:induction false} RowsMapAppend(a: seq<Row>, b: seq<Row>)
    ensures RowsMap(a + b) == RowsMap(a) + RowsMap(b)
    decreases |b|
  {
    if b == [] {
      assert a + b == a;
    } else {
      assert (a + b)[..|a + b| - 1] == a + b[..|b| - 1];
      assert (a + b)[|a + b| - 1] == b[|b| - 1];
      RowsMapAppend(a, b[..|b| - 1]);
    }
  }

  /**
   * Moving a fresh object's start and end onto the bounds of o leaves exactly
   * those two keyframes.
   */
  lemma FreshObjectBounds(o: ObjState)
    requires Valid(o)
    ensures var o1 := StaMoved(Init(o.fraCount, o.bboxSize), o.sta, Some(o.keys[o.sta]));
      EndMoved(o1, o.end, Some(o.keys[o.end])) == o.(keys := map[o.sta := o.keys[o.sta], o.end := o.keys[o.end]])
  {
    var o1 := StaMoved(Init(o.fraCount, o.bboxSize), o.sta, Some(o.keys[o.sta]));
    assert o1.keys.Keys <= {o.sta, o.fraCount - 1};
    var o2 := EndMoved(o1, o.end, Some(o.keys[o.end]));
    assert o2.keys.Keys == {o.sta, o.end};
  }

  /** The rows between the first and the last key row name frames strictly inside the interval. */
  lemma MiddleInside(o: ObjState)
    requires Valid(o)
    requires KeyRows(o)[0].frame == o.sta + 1 && KeyRows(o)[|KeyRows(o)| - 1].frame == o.end + 1
    ensures var mid := Middle(KeyRows(o));
      forall i :: 0 <= i < |mid| ==> o.sta < mid[i].frame - 1 < o.end
  {
    var rows := KeyRows(o);
    var mid := Middle(rows);
    KeyRowsUpToAscending(o, o.end + 1);
    forall i | 0 <= i < |mid|
      ensures o.sta < mid[i].frame - 1 < o.end
    {
      assert mid[i] == rows[i + 1];
    }
  }

  lemma RowsMapSingle(r: Row)
    ensures RowsMap([r]) == map[r.frame - 1 := TlOf(r)]
  {
    assert [r][..0] == [];
  }

  /** The map of a key file is its first row, then its middle rows, then its last row. */
  lemma {:induction false} RowsMapSplit(rows: seq<Row>)
    requires |rows| >= 2
    ensures RowsMap(rows) == RowsMap([rows[0]]) + RowsMap(Middle(rows)) + RowsMap([rows[|rows| - 1]])
  {
    var first, last, mid := rows[0], rows[|rows| - 1], Middle(rows);
    var front := [first] + mid;
    assert rows == front + [last];
    RowsMapAppend(front, [last]);
    RowsMapAppend([first], mid);
  }

  /** The first and the last key row are the start and the end frame's. */
  lemma KeyRowsEnds(o: ObjState)
    requires Valid(o)
    ensures |KeyRows(o)| >= 2
    ensures KeyRows(o)[0].frame == o.sta + 1 && TlOf(KeyRows(o)[0]) == o.keys[o.sta]
    ensures KeyRows(o)[|KeyRows(o)| - 1].frame == o.end + 1
    ensures TlOf(KeyRows(o)[|KeyRows(o)| - 1]) == o.keys[o.end]
  {
    KeyRowsFirst(o, o.end + 1);
  }

  /** The middle key rows hold every keyframe but the start and the end. */
  lemma MiddleKeyRows(o: ObjState)
    requires Valid(o)
    ensures var mid := Middle(KeyRows(o));
      && (forall i :: 0 <= i < |mid| ==> o.sta < mid[i].frame - 1 < o.end)
      && map[o.sta := o.keys[o.sta], o.end := o.keys[o.end]] + RowsMap(mid) == o.keys
  {
    var rows := KeyRows(o);
    KeyRowsEnds(o);
    KeyRowsAreKeyframes(o);
    MiddleInside(o);
    var mid := Middle(rows);
    RowsMapSplit(rows);
    RowsMapSingle(rows[0]);
    RowsMapSingle(rows[|rows| - 1]);
    RowsMapFramesInside(mid, o.sta, o.end);
  }

  /** Loading a key file whose first and last rows are o's bounds only marks the middle rows. */
  lemma LoadFromBounds(o: ObjState, rows: seq<Row>)
    requires Valid(o) && |rows| > 0 && FramesInVideo(rows, o.fraCount)
    requires rows[0].frame == o.sta + 1 && TlOf(rows[0]) == o.keys[o.sta]
    requires rows[|rows| - 1].frame == o.end + 1 && TlOf(rows[|rows| - 1]) == o.keys[o.end]
    ensures LoadBounds(o.fraCount, o.bboxSize, rows)
      == o.(keys := map[o.sta := o.keys[o.sta], o.end := o.keys[o.end]])
  {
    LoadBoundsOfEnds(o, rows);
    FreshObjectBounds(o);
  }

  /** The first and last rows of the file carry o's bounds and their boxes. */
  lemma LoadBoundsOfEnds(o: ObjState, rows: seq<Row>)
    requires Valid(o) && |rows| > 0 && FramesInVideo(rows, o.fraCount)
    requires rows[0].frame == o.sta + 1 && TlOf(rows[0]) == o.keys[o.sta]
    requires rows[|rows| - 1].frame == o.end + 1 && TlOf(rows[|rows| - 1]) == o.keys[o.end]
    ensures LoadBounds(o.fraCount, o.bboxSize, rows)
      == EndMoved(StaMoved(Init(o.fraCount, o.bboxSize), o.sta, Some(o.keys[o.sta])), o.end, Some(o.keys[o.end]))
  {
  }

  /** The frames of the key rows are frames of the video. */
  lemma KeyRowsInVideo(o: ObjState)
    requires Valid(o)
    ensures FramesInVideo(KeyRows(o), o.fraCount)
  {
  }

  /** Saving an object's key rows and loading them back gives the same object. */
  lemma {:induction false} SaveLoadRoundTrip(o: ObjState)
    requires Valid(o)
    ensures FramesInVideo(KeyRows(o), o.fraCount)
    ensures Load(o.fraCount, o.bboxSize, KeyRows(o)) == o
  {
    KeyRowsInVideo(o);
    KeyRowsEnds(o);
    LoadFromBounds(o, KeyRows(o));
    MiddleKeyRows(o);
    MiddleInVideo(KeyRows(o), o.fraCount);
    MarkRowsMap(LoadBounds(o.fraCount, o.bboxSize, KeyRows(o)), Middle(KeyRows(o)));
  }

  /** A map built from rows names only the rows' frames. */
  lemma {:induction false} RowsMapFramesInside(rows: seq<Row>, lo: int, hi: int)
    requires forall i :: 0 <= i < |rows| ==> lo < rows[i].frame - 1 < hi
    ensures forall k :: k in RowsMap(rows) ==> lo < k < hi
    decreases |rows|
  {
    if rows != [] {
      RowsMapFramesInside(rows[..|rows| - 1], lo, hi);
    }
  }

}
