/**
 * The annotation session: the tracked objects of one video, the active object,
 * the active frame and the active box, with the navigation and editing commands
 * and the saving and loading of the objects' rows.
 */
module Session {
  import opened Options
  import opened BoundingBox
  import opened Timeline
  import opened Objects
  import opened Rows

  /** How far a fast move takes the active box, in pixels. */
  const DefaultFastMovAmount := 40

  datatype Direction = Up | Down | Left | Right

  /**
   * The guard a move must pass before it happens. As written, each direction
   * tests the other axis: up tests the x coordinate, down the right edge against
   * the frame width, left the y coordinate and right the bottom edge against the
   * frame height.
   */
  predicate MoveAllowed(dir: Direction, tl: Point, w: int, h: int, fraW: int, fraH: int) {
    match dir
    case Up => tl.0 > 0
    case Down => tl.0 + w < fraW - 1
    case Left => tl.1 > 0
    case Right => tl.1 + h < fraH - 1
  }

  /** The top-left corner after a move of the given number of pixels. */
  function Moved(dir: Direction, tl: Point, pixels: int): Point {
    match dir
    case Up => (tl.0, tl.1 - pixels)
    case Down => (tl.0, tl.1 + pixels)
    case Left => (tl.0 - pixels, tl.1)
    case Right => (tl.0 + pixels, tl.1)
  }

  /** The active box after a move command: no box, or a refused move, leaves it as it was. */
  function MoveResult(dir: Direction, tl: Option<Point>, pixels: int, w: int, h: int, fraW: int, fraH: int): Option<Point> {
    if tl.Some? && MoveAllowed(dir, tl.value, w, h, fraW, fraH) then Some(Moved(dir, tl.value, pixels))
    else tl
  }

  /** The keys of an object in ascending order, below hi. */
  function KeysUpTo(o: ObjState, hi: int): (ks: seq<int>)
    requires Valid(o) && o.sta <= hi <= o.end + 1
    ensures forall i :: 0 <= i < |ks| ==> ks[i] in o.keys && ks[i] < hi
    ensures forall k :: k in o.keys && k < hi ==> k in ks
    decreases hi
  {
    if hi == o.sta then []
    else KeysUpTo(o, hi - 1) + if hi - 1 in o.keys then [hi - 1] else []
  }

  /** The keys below hi come in strictly ascending order. */
  lemma {:induction false} KeysUpToAscending(o: ObjState, hi: int)
    requires Valid(o) && o.sta <= hi <= o.end + 1
    ensures forall i, j :: 0 <= i < j < |KeysUpTo(o, hi)| ==> KeysUpTo(o, hi)[i] < KeysUpTo(o, hi)[j]
    decreases hi
  {
    if hi > o.sta {
      KeysUpToAscending(o, hi - 1);
      var prefix := KeysUpTo(o, hi - 1);
      var ks := KeysUpTo(o, hi);
      if hi - 1 in o.keys {
        assert ks == prefix + [hi - 1];
        forall i, j | 0 <= i < j < |ks|
          ensures ks[i] < ks[j]
        {
          assert ks[i] == prefix[i];
          if j < |prefix| {
            assert ks[j] == prefix[j];
          }
        }
      } else {
        assert ks == prefix;
      }
    }
  }

  /** The keys of an object in ascending order: the start first and the end last. */
  function SortedKeys(o: ObjState): (ks: seq<int>)
    requires Valid(o)
    ensures forall i, j :: 0 <= i < j < |ks| ==> ks[i] < ks[j]
    ensures forall k :: k in o.keys <==> k in ks
    ensures |ks| >= 2 && ks[0] == o.sta && ks[|ks| - 1] == o.end
  {
    KeysUpToAscending(o, o.end + 1);
    var ks := KeysUpTo(o, o.end + 1);
    assert o.sta in ks && o.end in ks;
    ks
  }

  /** Two neighbours in the sorted keys have no key between them. */
  lemma SortedNeighboursAdjacent(o: ObjState, i: int)
    requires Valid(o) && 0 < i < |SortedKeys(o)|
    ensures Adjacent(o, SortedKeys(o)[i - 1], SortedKeys(o)[i])
  {
    var ks := SortedKeys(o);
    forall k | ks[i - 1] < k < ks[i]
      ensures k !in ks
    {
      forall j | 0 <= j < |ks|
        ensures ks[j] != k
      {
        if j < i {
          assert ks[j] <= ks[i - 1];
        } else {
          assert ks[j] >= ks[i];
        }
      }
    }
  }

  /**
   * The frame the "go to middle" command lands on: half-way, rounded down,
   * between two neighbouring keys chosen by where the active frame a is.
   * At or before the start: the start and the next key. At or after the end:
   * the key before the end and the end. Inside: the greatest key at or before a
   * and the least key after a.
   */
  function MidFra(o: ObjState, a: int): (m: int)
    requires Valid(o)
    ensures o.sta <= m <= o.end
  {
    if a <= o.sta then (o.sta + NextKey(o, o.sta)) / 2
    else if a >= o.end then (PrevKey(o, o.end) + o.end) / 2
    else (PrevKey(o, a + 1) + NextKey(o, a)) / 2
  }

  /** Inside the interval, the middle frame splits the gap between the keys around a. */
  lemma MidFraInside(o: ObjState, a: int, lo: int, hi: int)
    requires Valid(o) && o.sta < a < o.end
    requires Adjacent(o, lo, hi) && lo <= a < hi
    ensures MidFra(o, a) == (lo + hi) / 2
    ensures lo <= MidFra(o, a) < hi
  {
    PrevKeyIs(o, a + 1, lo, hi);
    NextKeyIs(o, a, lo, hi);
  }

  /** At or before the start, the middle frame splits the first gap between keys. */
  lemma MidFraBeforeStart(o: ObjState, a: int, hi: int)
    requires Valid(o) && a <= o.sta && Adjacent(o, o.sta, hi)
    ensures MidFra(o, a) == (o.sta + hi) / 2
    ensures o.sta <= MidFra(o, a) < hi
  {
    NextKeyIs(o, o.sta, o.sta, hi);
  }

  /** At or after the end, the middle frame splits the last gap between keys. */
  lemma MidFraAfterEnd(o: ObjState, a: int, lo: int)
    requires Valid(o) && a >= o.end && Adjacent(o, lo, o.end)
    ensures MidFra(o, a) == (lo + o.end) / 2
    ensures lo <= MidFra(o, a) < o.end
  {
    PrevKeyIs(o, o.end, lo, o.end);
  }

  /**
   * Walks the sorted keys of an object to find the keys around a frame strictly
   * inside its interval: the last key at or before it and the first key after it.
   */
  method CurrGap(o: ObjState, a: int) returns (minFra: int, maxFra: int)
    requires Valid(o) && o.sta < a < o.end
    ensures Adjacent(o, minFra, maxFra) && minFra <= a < maxFra
  {
    var ks := SortedKeys(o);
    var lo: Option<int> := None;
    var i := 0;
    while a >= ks[i]
      invariant 0 <= i < |ks|
      invariant forall j :: 0 <= j < i ==> ks[j] <= a
      invariant lo == if i == 0 then None else Some(ks[i - 1])
      decreases |ks| - i
    {
      lo := Some(ks[i]);
      i := i + 1;
    }
    maxFra := ks[i];
    minFra := lo.value;
    SortedNeighboursAdjacent(o, i);
  }

  /** The frame half-way between the two keys chosen by the active frame a, found as the source finds it. */
  method MidFraOf(o: ObjState, a: int) returns (m: int)
    requires Valid(o)
    ensures m == MidFra(o, a)
  {
    var minFra, maxFra;
    if a <= o.sta {
      minFra := o.sta;
      maxFra := NextKey(o, o.sta);    // the least key other than the start
    } else if a >= o.end {
      maxFra := o.end;
      minFra := PrevKey(o, o.end);    // the greatest key other than the end
    } else {
      minFra, maxFra := CurrGap(o, a);
      MidFraInside(o, a, minFra, maxFra);
    }
    m := (maxFra + minFra) / 2;
  }

  /** A guarded move of a box: the box moves only when the guard for its direction holds. */
  method MoveGuarded(b: BBox, dir: Direction, pixels: int, fraW: int, fraH: int)
    modifies b
    ensures b.Tl() == MoveResult(dir, Some(old(b.Tl())), pixels, b.w, b.h, fraW, fraH).value
  {
    match dir
    case Up =>
      if b.tlx > 0 { b.MoveUp(pixels); }
    case Down =>
      if b.tlx + b.w < fraW - 1 { b.MoveDown(pixels); }
    case Left =>
      if b.tly > 0 { b.MoveLeft(pixels); }
    case Right =>
      if b.tly + b.h < fraH - 1 { b.MoveRight(pixels); }
  }

  /** Marks one keyframe per row, in order, on an object. */
  method MarkRowsInto(obj: Obj, rows: seq<Row>)
    requires obj.Valid() && FramesInVideo(rows, obj.fraCount)
    modifies obj
    ensures obj.Valid() && obj.Model() == MarkRows(old(obj.Model()), rows)
  {
    ghost var o := obj.Model();
    assert rows[..0] == [];
    for i := 0 to |rows|
      invariant obj.Valid()
      invariant obj.Model() == MarkRows(o, rows[..i])
    {
      MarkRowsStep(o, rows, i);
      obj.MarkKeyFra(rows[i].frame - 1, Some(TlOf(rows[i])));
    }
    assert rows[..|rows|] == rows;
  }

  /** Replays the rows of a key file on a fresh object: start, end, then the keys between. */
  method LoadInto(obj: Obj, rows: seq<Row>)
    requires obj.Valid() && obj.Model() == Init(obj.fraCount, obj.bboxSize)
    requires |rows| > 0 && FramesInVideo(rows, obj.fraCount)
    modifies obj
    ensures obj.Valid() && obj.Model() == Load(obj.fraCount, obj.bboxSize, rows)
  {
    var first, last := rows[0], rows[|rows| - 1];
    obj.SetStaFra(first.frame - 1, Some(TlOf(first)));
    ghost var started := obj.Model();
    obj.SetEndFra(last.frame - 1, Some(TlOf(last)));
    ghost var bounds := obj.Model();
    LoadBoundsSteps(obj.fraCount, obj.bboxSize, rows, started, bounds);
    MiddleInVideo(rows, obj.fraCount);
    MarkRowsInto(obj, Middle(rows));
    LoadSteps(obj.fraCount, obj.bboxSize, rows, bounds, obj.Model());
  }

  /** The key and all rows of one object, built by one pass over its interval. */
  method SaveRows(obj: Obj) returns (keyLines: seq<Row>, allLines: seq<Row>)
    requires obj.Valid()
    ensures keyLines == KeyRows(obj.Model()) && allLines == AllRows(obj.Model())
  {
    ghost var o := obj.Model();
    keyLines, allLines := [], [];
    for fra := obj.sta to obj.end + 1
      invariant keyLines == KeyRowsUpTo(o, fra)
      invariant allLines == AllRowsUpTo(o, fra)
    {
      var bbox := obj.GetBbox(fra);
      var line := Row(fra + 1, bbox.value.0, bbox.value.1, obj.bboxSize, obj.bboxSize);
      assert line == RowAt(o, fra);
      if obj.IsKeyFra(fra) {
        assert line == RowOf(fra, o.keys[fra], o.bboxSize);
        keyLines := keyLines + [line];
      }
      allLines := allLines + [line];
    }
  }

  class Vid {
    const fraCount: int   // frames in the video
    const fraW: int       // frame width in pixels
    const fraH: int       // frame height in pixels
    const bboxSize: int
    var objs: seq<Obj>
    var activeObj: int
    var activeFra: int
    var activeBbox: BBox?

    /** The objects are valid, distinct and sized for this video; the active frame is a frame. */
    ghost predicate ObjsValid()
      reads this, objs
    {
      && fraCount > 1 && ValidSize(bboxSize, bboxSize)
      && 0 <= activeFra < fraCount
      && (forall i :: 0 <= i < |objs| ==>
            objs[i].Valid() && objs[i].fraCount == fraCount && objs[i].bboxSize == bboxSize)
      && (forall i, j :: 0 <= i < j < |objs| ==> objs[i] != objs[j])
    }

    /** ... and there is an active object. */
    ghost predicate ValidNav()
      reads this, objs
    {
      ObjsValid() && 0 <= activeObj < |objs|
    }

    /** The top-left corner of the active box, if there is one. */
    function ActiveTl(): Option<Point>
      reads this, activeBbox
    {
      if activeBbox == null then None else Some(activeBbox.Tl())
    }

    /**
     * The session invariant. The active box is missing exactly when the active
     * frame is outside the active object's interval, and at a keyframe it is the
     * stored box: the source hands out the stored box object itself there.
     */
    ghost predicate Valid()
      reads this, objs, activeBbox
    {
      && ValidNav()
      && (activeBbox != null ==> activeBbox.w == bboxSize && activeBbox.h == bboxSize)
      && (ActiveTl().None? <==> activeFra < objs[activeObj].sta || activeFra > objs[activeObj].end)
      && (activeFra in objs[activeObj].keys ==> ActiveTl() == Some(objs[activeObj].keys[activeFra]))
    }

    /**
     * Opens a session. The video's frame count and size come from the decoded
     * video; keyFiles holds the rows of each saved key file, in object order.
     */
    constructor (fraCount: int, fraW: int, fraH: int, bboxSize: int, keyFiles: seq<seq<Row>>)
      requires fraCount > 1 && ValidSize(bboxSize, bboxSize)
      requires forall n :: 0 <= n < |keyFiles| ==> |keyFiles[n]| > 0 && FramesInVideo(keyFiles[n], fraCount)
      ensures Valid()
      ensures |objs| == if |keyFiles| == 0 then 1 else |keyFiles|
      ensures forall n :: 0 <= n < |keyFiles| ==> objs[n].Model() == Load(fraCount, bboxSize, keyFiles[n])
      ensures |keyFiles| == 0 ==> objs[0].Model() == Init(fraCount, bboxSize)
      ensures activeObj == |objs| - 1 && activeFra == 0
      ensures ActiveTl() == BoxAt(objs[activeObj].Model(), activeFra)
      ensures forall o :: o in objs ==> fresh(o)
      ensures forall i :: 0 <= i < |objs| ==> fresh(objs[i])
      ensures activeBbox == null || fresh(activeBbox)
    {
      this.fraCount := fraCount;
      this.fraW := fraW;
      this.fraH := fraH;
      this.bboxSize := bboxSize;
      activeFra := 0;
      objs := [];
      activeObj := 0;
      activeBbox := new BBox(bboxSize, bboxSize);
      new;
      LoadAll(keyFiles);
      if |keyFiles| > 0 {
        UpdateActiveBbox();
      }
      if |objs| == 0 {
        CreateNewObj();
      }
      assert forall i :: 0 <= i < |objs| ==> objs[i] in objs;
    }

    /** Rebuilds one object per key file, in order, into an empty session. */
    method LoadAll(keyFiles: seq<seq<Row>>)
      requires ObjsValid() && objs == []
      requires forall n :: 0 <= n < |keyFiles| ==> |keyFiles[n]| > 0 && FramesInVideo(keyFiles[n], fraCount)
      modifies this
      ensures ObjsValid() && |objs| == |keyFiles| && activeFra == old(activeFra)
      ensures forall n :: 0 <= n < |keyFiles| ==> objs[n].Model() == Load(fraCount, bboxSize, keyFiles[n])
      ensures |keyFiles| > 0 ==> activeObj == |objs| - 1
      ensures activeBbox == old(activeBbox)
      ensures forall o :: o in objs ==> fresh(o)
    {
      for n := 0 to |keyFiles|
        invariant ObjsValid() && |objs| == n && activeFra == old(activeFra)
        invariant n > 0 ==> activeObj == n - 1
        invariant forall m {:trigger objs[m].Model()} :: 0 <= m < n ==> objs[m].Model() == Load(fraCount, bboxSize, keyFiles[m])
        invariant activeBbox == old(activeBbox)
        invariant forall o :: o in objs ==> fresh(o)
      {
        LoadObj(keyFiles[n]);
      }
    }

    /**
     * Rebuilds one object from the rows of its key file, appends it and makes it
     * active. The source appends the fresh object first and then replays the
     * rows on it; the active box it computes in between is recomputed once all
     * files are loaded, so the order is not observable.
     */
    method LoadObj(rows: seq<Row>)
      requires ObjsValid() && |rows| > 0 && FramesInVideo(rows, fraCount)
      modifies this
      ensures ObjsValid()
      ensures |objs| == |old(objs)| + 1 && objs[..|old(objs)|] == old(objs) && fresh(objs[|objs| - 1])
      ensures forall m :: 0 <= m < |old(objs)| ==> objs[m].Model() == old(objs[m].Model())
      ensures objs[|objs| - 1].Model() == Load(fraCount, bboxSize, rows)
      ensures activeObj == |objs| - 1 && activeFra == old(activeFra)
      ensures activeBbox == old(activeBbox)
      ensures forall o :: o in objs ==> o in old(objs) || fresh(o)
    {
      var obj := new Obj(bboxSize, fraCount);
      LoadInto(obj, rows);
      assert forall i :: 0 <= i < |objs| ==> objs[i] != obj;
      objs := objs + [obj];
      activeObj := |objs| - 1;
    }

    /** Recomputes the active box from the active object at the active frame. */
    method UpdateActiveBbox()
      requires ValidNav()
      modifies this
      ensures Valid()
      ensures activeBbox == null || fresh(activeBbox)
      ensures objs == old(objs) && activeObj == old(activeObj) && activeFra == old(activeFra)
      ensures ActiveTl() == BoxAt(objs[activeObj].Model(), activeFra)
    {
      var tl := objs[activeObj].GetBbox(activeFra);
      if tl.None? {
        activeBbox := null;
      } else {
        var b := new BBox(bboxSize, bboxSize);
        b.SetTl(tl.value);
        activeBbox := b;
      }
    }

    method GoToStaFra()
      requires Valid()
      modifies this
      ensures Valid()
      ensures activeBbox == old(activeBbox) || activeBbox == null || fresh(activeBbox)
      ensures objs == old(objs) && activeObj == old(activeObj)
      ensures activeFra == objs[activeObj].sta
      ensures ActiveTl() == Some(objs[activeObj].keys[activeFra])
    {
      activeFra := objs[activeObj].sta;
      UpdateActiveBbox();
    }

    method GoToEndFra()
      requires Valid()
      modifies this
      ensures Valid()
      ensures activeBbox == old(activeBbox) || activeBbox == null || fresh(activeBbox)
      ensures objs == old(objs) && activeObj == old(activeObj)
      ensures activeFra == objs[activeObj].end
      ensures ActiveTl() == Some(objs[activeObj].keys[activeFra])
    {
      activeFra := objs[activeObj].end;
      UpdateActiveBbox();
    }

    method GoToPrevFra()
      requires Valid()
      modifies this
      ensures Valid()
      ensures activeBbox == old(activeBbox) || activeBbox == null || fresh(activeBbox)
      ensures objs == old(objs) && activeObj == old(activeObj)
      ensures old(activeFra) == 0 ==> unchanged(this)
      ensures old(activeFra) > 0 ==> activeFra == old(activeFra) - 1
      ensures ActiveTl() == BoxAt(objs[activeObj].Model(), activeFra)
    {
      if activeFra > 0 {
        activeFra := activeFra - 1;
        UpdateActiveBbox();
      }
    }

    method GoToNextFra()
      requires Valid()
      modifies this
      ensures Valid()
      ensures activeBbox == old(activeBbox) || activeBbox == null || fresh(activeBbox)
      ensures objs == old(objs) && activeObj == old(activeObj)
      ensures old(activeFra) == fraCount - 1 ==> unchanged(this)
      ensures old(activeFra) < fraCount - 1 ==> activeFra == old(activeFra) + 1
      ensures ActiveTl() == BoxAt(objs[activeObj].Model(), activeFra)
    {
      if activeFra < fraCount - 1 {
        activeFra := activeFra + 1;
        UpdateActiveBbox();
      }
    }

    /** Jumps half-way into the gap between keys around the active frame. */
    method GoToMidFra()
      requires Valid()
      modifies this
      ensures Valid()
      ensures activeBbox == old(activeBbox) || activeBbox == null || fresh(activeBbox)
      ensures objs == old(objs) && activeObj == old(activeObj)
      ensures activeFra == MidFra(objs[activeObj].Model(), old(activeFra))
      ensures ActiveTl() == BoxAt(objs[activeObj].Model(), activeFra)
    {
      activeFra := MidFraOf(objs[activeObj].Model(), activeFra);
      UpdateActiveBbox();
    }

    method GoToPrevObj()
      requires Valid()
      modifies this
      ensures Valid()
      ensures activeBbox == old(activeBbox) || activeBbox == null || fresh(activeBbox)
      ensures objs == old(objs) && activeFra == old(activeFra)
      ensures old(activeObj) == 0 ==> unchanged(this)
      ensures old(activeObj) > 0 ==> activeObj == old(activeObj) - 1
      ensures old(activeObj) > 0 ==> ActiveTl() == BoxAt(objs[activeObj].Model(), activeFra)
    {
      if activeObj > 0 {
        activeObj := activeObj - 1;
        UpdateActiveBbox();
      }
    }

    method GoToNextObj()
      requires Valid()
      modifies this
      ensures Valid()
      ensures activeBbox == old(activeBbox) || activeBbox == null || fresh(activeBbox)
      ensures objs == old(objs) && activeFra == old(activeFra)
      ensures old(activeObj) == |objs| - 1 ==> unchanged(this)
      ensures old(activeObj) < |objs| - 1 ==> activeObj == old(activeObj) + 1
      ensures old(activeObj) < |objs| - 1 ==> ActiveTl() == BoxAt(objs[activeObj].Model(), activeFra)
    {
      if activeObj < |objs| - 1 {
        activeObj := activeObj + 1;
        UpdateActiveBbox();
      }
    }

    /** Appends a fresh object spanning the whole video and makes it active. */
    method CreateNewObj()
      requires ObjsValid()
      modifies this
      ensures Valid()
      ensures activeBbox == old(activeBbox) || activeBbox == null || fresh(activeBbox)
      ensures forall o :: o in objs ==> o in old(objs) || fresh(o)
      ensures |objs| == |old(objs)| + 1 && objs[..|old(objs)|] == old(objs) && fresh(objs[|objs| - 1])
      ensures objs[|objs| - 1].Model() == Init(fraCount, bboxSize)
      ensures activeObj == |objs| - 1 && activeFra == old(activeFra)
      ensures ActiveTl() == BoxAt(Init(fraCount, bboxSize), activeFra)
    {
      var obj := new Obj(bboxSize, fraCount);
      objs := objs + [obj];
      activeObj := |objs| - 1;
      UpdateActiveBbox();
    }

    /**
     * Deletes the first object (not necessarily the active one) and keeps the
     * active index, so the object after the active one becomes active. A session
     * left without objects gets a fresh one. The source fails when the active
     * object was the last of several, so that case is excluded.
     */
    method DelCurrObj()
      requires Valid()
      requires |objs| == 1 || activeObj < |objs| - 1
      modifies this
      ensures Valid()
      ensures activeBbox == old(activeBbox) || activeBbox == null || fresh(activeBbox)
      ensures forall o :: o in objs ==> o in old(objs) || fresh(o)
      ensures |old(objs)| > 1 ==> objs == old(objs)[1..] && activeObj == old(activeObj)
      ensures |old(objs)| > 1 ==> objs[activeObj] == old(objs[activeObj + 1])
      ensures |old(objs)| == 1 ==> |objs| == 1 && fresh(objs[0]) && objs[0].Model() == Init(fraCount, bboxSize)
      ensures |old(objs)| == 1 ==> activeObj == 0
      ensures activeFra == old(activeFra)
      ensures ActiveTl() == BoxAt(objs[activeObj].Model(), activeFra)
    {
      objs := objs[1..];
      assert forall i :: 0 <= i < |objs| ==> objs[i] == old(objs)[i + 1];
      if |objs| == 0 {
        CreateNewObj();
      }
      UpdateActiveBbox();
    }

    /**
     * Moves the active box by one pixel, or by the fast amount, when the guard
     * allows it. At a keyframe the active box is the stored keyframe box, so the
     * keyframe moves with it; elsewhere only the active box moves.
     */
    method MoveBbox(dir: Direction, fast: bool)
      requires Valid()
      modifies activeBbox, objs[activeObj]
      ensures Valid()
      ensures ActiveTl() == MoveResult(dir, old(ActiveTl()), if fast then DefaultFastMovAmount else 1,
                                       bboxSize, bboxSize, fraW, fraH)
      ensures objs[activeObj].sta == old(objs[activeObj].sta) && objs[activeObj].end == old(objs[activeObj].end)
      ensures objs[activeObj].keys ==
        if activeFra in old(objs[activeObj].keys) then old(objs[activeObj].keys)[activeFra := ActiveTl().value]
        else old(objs[activeObj].keys)
    {
      if activeBbox == null {
        return;
      }
      var pixels := if fast then DefaultFastMovAmount else 1;
      var b := activeBbox;
      MoveGuarded(b, dir, pixels, fraW, fraH);
      // the stored keyframe box is the active box: keep it in step
      var obj := objs[activeObj];
      obj.SetKeyBox(activeFra, b.Tl());
      forall i | 0 <= i < |objs| && i != activeObj
        ensures objs[i].Valid()
      {
        assert objs[i] != obj;
      }
    }

    /** Makes the active frame the active object's start, with the active box. */
    method MarkSta()
      requires Valid()
      modifies this, objs[activeObj]
      ensures Valid()
      ensures activeBbox == old(activeBbox) || activeBbox == null || fresh(activeBbox)
      ensures objs == old(objs) && activeObj == old(activeObj) && activeFra == old(activeFra)
      ensures objs[activeObj].Model() == StaMoved(old(objs[activeObj].Model()), activeFra, old(ActiveTl()))
      ensures ActiveTl() == BoxAt(objs[activeObj].Model(), activeFra)
    {
      objs[activeObj].SetStaFra(activeFra, ActiveTl());
      UpdateActiveBbox();
    }

    /** Makes the active frame the active object's end, with the active box. */
    method MarkEnd()
      requires Valid()
      modifies this, objs[activeObj]
      ensures Valid()
      ensures activeBbox == old(activeBbox) || activeBbox == null || fresh(activeBbox)
      ensures objs == old(objs) && activeObj == old(activeObj) && activeFra == old(activeFra)
      ensures objs[activeObj].Model() == EndMoved(old(objs[activeObj].Model()), activeFra, old(ActiveTl()))
      ensures ActiveTl() == BoxAt(objs[activeObj].Model(), activeFra)
    {
      objs[activeObj].SetEndFra(activeFra, ActiveTl());
      UpdateActiveBbox();
    }

    /** Stores the active box as a keyframe; the active box itself is not recomputed. */
    method MarkKey()
      requires Valid()
      modifies objs[activeObj]
      ensures Valid()
      ensures objs[activeObj].Model() == KeyMarked(old(objs[activeObj].Model()), activeFra, ActiveTl())
      ensures ActiveTl() == old(ActiveTl())
    {
      objs[activeObj].MarkKeyFra(activeFra, ActiveTl());
    }

    /** Removes the keyframe at the active frame; the active box itself is not recomputed. */
    method UnmarkKey()
      requires Valid()
      modifies objs[activeObj]
      ensures Valid()
      ensures objs[activeObj].Model() == KeyUnmarked(old(objs[activeObj].Model()), activeFra)
      ensures ActiveTl() == old(ActiveTl())
    {
      objs[activeObj].UnmarkKeyFra(activeFra);
    }

    /** The rows of every object's "key" and "all" outputs, in object order. */
    method Save() returns (keyFiles: seq<seq<Row>>, allFiles: seq<seq<Row>>)
      requires ObjsValid()
      ensures |keyFiles| == |objs| && |allFiles| == |objs|
      ensures forall n :: 0 <= n < |objs| ==>
        keyFiles[n] == KeyRows(objs[n].Model()) && allFiles[n] == AllRows(objs[n].Model())
    {
      keyFiles, allFiles := [], [];
      for n := 0 to |objs|
        invariant |keyFiles| == n && |allFiles| == n
        invariant forall m :: 0 <= m < n ==>
          keyFiles[m] == KeyRows(objs[m].Model()) && allFiles[m] == AllRows(objs[m].Model())
      {
        var keyLines, allLines := SaveRows(objs[n]);
        keyFiles := keyFiles + [keyLines];
        allFiles := allFiles + [allLines];
      }
    }
  }

}
