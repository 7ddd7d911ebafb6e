/**
 * ImageViewerAdapter: the full-screen pager's per-position state: the
 * rotation saved for a position, the full bitmap loaded for it, and the
 * rotated copy made from that bitmap, together with the rules for when a
 * cached bitmap may be recycled.
 *
 * Rotations are whole degrees. Making a rotated copy (`Bitmap.createBitmap`
 * with a rotation matrix) is an oracle passed in as `produced`; it may be the
 * source bitmap itself, which is why identity comparisons matter.
 */
module ViewerAdapter {
  import opened Common
  import opened Bitmaps
  import opened ImageEntries

  /** What binding a page does after showing the thumbnail, if any. */
  datatype BindNext = FromCache(shown: Bitmap) | LoadStarted

  datatype BindResult = BindResult(thumbnailShown: Bitmap?, next: BindNext)

  lemma Pick(s: set<int>)
    requires s != {}
    ensures exists x :: x in s
  {
    if forall x :: x !in s {
      assert false;
    }
  }

  lemma ValueHasKey(m: map<int, Bitmap>, b: Bitmap)
    requires b in m.Values
    ensures exists q :: q in m && m[q] == b
  {
    if forall q :: q in m ==> m[q] != b {
      assert false;
    }
  }

  class ImageViewerAdapter {
    const entries: seq<ImageEntry>
    var rotationMap: map<int, int>
    var loadedBitmaps: map<int, Bitmap>
    var rotatedBitmaps: map<int, Bitmap>

    constructor (imageEntries: seq<ImageEntry>)
      ensures entries == imageEntries
      ensures rotationMap == map[] && loadedBitmaps == map[] && rotatedBitmaps == map[]
    {
      entries := imageEntries;
      rotationMap := map[];
      loadedBitmaps := map[];
      rotatedBitmaps := map[];
    }

    /** `getItemCount`: one page per image entry. */
    function ItemCount(): (n: nat)
      ensures n == |entries|
    {
      |entries|
    }

    /** `getRotation`: the saved rotation, 0 when none is saved. */
    function GetRotation(position: int): (r: int)
      reads this
      ensures position in rotationMap ==> r == rotationMap[position]
      ensures position !in rotationMap ==> r == 0
    {
      if position in rotationMap then rotationMap[position] else 0
    }

    /**
     * `saveRotation`: records the rotation and drops the position's rotated
     * copy, recycling that copy exactly when it is not yet recycled, a
     * loaded bitmap exists for the position, and the copy is a different
     * object from it. Every other position keeps its entries.
     */
    method SaveRotation(position: int, rotation: int)
      modifies this`rotationMap, this`rotatedBitmaps,
               if position in rotatedBitmaps then {rotatedBitmaps[position]} else {}
      ensures rotationMap == old(rotationMap)[position := rotation]
      ensures rotatedBitmaps == old(rotatedBitmaps) - {position}
      ensures GetRotation(position) == rotation
      ensures forall q :: q != position ==> GetRotation(q) == old(GetRotation(q))
      ensures position in old(rotatedBitmaps) ==>
                (old(rotatedBitmaps)[position].recycled <==>
                   old(rotatedBitmaps[position].recycled)
                   || (position in loadedBitmaps && loadedBitmaps[position] != old(rotatedBitmaps)[position]))
    {
      rotationMap := rotationMap[position := rotation];
      var oldRotated: Option<Bitmap> := None;
      if position in rotatedBitmaps {
        oldRotated := Some(rotatedBitmaps[position]);
        rotatedBitmaps := rotatedBitmaps - {position};
      }
      if oldRotated.Some? && !oldRotated.value.recycled {
        if position in loadedBitmaps && oldRotated.value != loadedBitmaps[position] {
          oldRotated.value.Recycle();
        }
      }
    }

    /**
     * `displayBitmap`: with no saved rotation or rotation 0 the bitmap itself
     * is shown; otherwise the cached rotated copy is shown, and when it is
     * missing or recycled a new copy (`produced`) is made, cached and shown.
     */
    method DisplayBitmap(position: int, bitmap: Bitmap, produced: Bitmap) returns (shown: Bitmap)
      modifies this`rotatedBitmaps
      ensures GetRotation(position) == 0 ==> shown == bitmap && rotatedBitmaps == old(rotatedBitmaps)
      ensures GetRotation(position) != 0 ==> position in rotatedBitmaps && shown == rotatedBitmaps[position]
      ensures GetRotation(position) != 0 && position in old(rotatedBitmaps) && !old(rotatedBitmaps[position].recycled) ==>
                rotatedBitmaps == old(rotatedBitmaps)
      ensures GetRotation(position) != 0 && (position !in old(rotatedBitmaps) || old(rotatedBitmaps[position].recycled)) ==>
                rotatedBitmaps == old(rotatedBitmaps)[position := produced] && shown == produced
    {
      if position in rotationMap && rotationMap[position] != 0 {
        if position !in rotatedBitmaps || rotatedBitmaps[position].recycled {
          rotatedBitmaps := rotatedBitmaps[position := produced];
        }
        shown := rotatedBitmaps[position];
      } else {
        shown := bitmap;
      }
    }

    /**
     * `onBindViewHolder`: the thumbnail first, when the entry has one; then
     * the cached full bitmap when there is one that is not recycled,
     * otherwise a background load starts.
     */
    method OnBindViewHolder(position: int, produced: Bitmap) returns (bind: BindResult)
      requires 0 <= position < |entries|
      modifies this`rotatedBitmaps
      ensures bind.thumbnailShown == entries[position].thumbnail
      ensures bind.next.FromCache? <==> position in loadedBitmaps && !loadedBitmaps[position].recycled
      ensures bind.next.FromCache? && GetRotation(position) == 0 ==> bind.next.shown == loadedBitmaps[position]
      ensures bind.next.FromCache? && GetRotation(position) != 0 ==>
                position in rotatedBitmaps && bind.next.shown == rotatedBitmaps[position]
      ensures bind.next.FromCache? && GetRotation(position) != 0 && position in old(rotatedBitmaps)
              && !old(rotatedBitmaps[position].recycled) ==>
                rotatedBitmaps == old(rotatedBitmaps)
      ensures bind.next.FromCache? && GetRotation(position) != 0
              && (position !in old(rotatedBitmaps) || old(rotatedBitmaps[position].recycled)) ==>
                rotatedBitmaps == old(rotatedBitmaps)[position := produced] && bind.next.shown == produced
      ensures bind.next.LoadStarted? || GetRotation(position) == 0 ==> rotatedBitmaps == old(rotatedBitmaps)
    {
      var entry := entries[position];
      var thumbnail: Bitmap? := null;
      if entry.HasThumbnail() {
        thumbnail := entry.thumbnail;
      }
      if position in loadedBitmaps && !loadedBitmaps[position].recycled {
        var shown := DisplayBitmap(position, loadedBitmaps[position], produced);
        bind := BindResult(thumbnail, FromCache(shown));
      } else {
        bind := BindResult(thumbnail, LoadStarted);
      }
    }

    /**
     * The sequential part of `loadBitmapAsync` once the stream is decoded
     * (`None`: no header of that name, or no bitmap): a bitmap is cached for
     * the position, and shown only if the page is still bound to it.
     */
    method LoadCompleted(position: int, decoded: Option<Bitmap>, stillBound: bool, produced: Bitmap)
      returns (shown: Option<Bitmap>)
      modifies this`loadedBitmaps, this`rotatedBitmaps
      ensures decoded.None? ==> loadedBitmaps == old(loadedBitmaps) && rotatedBitmaps == old(rotatedBitmaps)
      ensures decoded.Some? ==> loadedBitmaps == old(loadedBitmaps)[position := decoded.value]
      ensures shown.Some? <==> decoded.Some? && stillBound
      ensures shown.Some? && GetRotation(position) == 0 ==> shown.value == decoded.value
      ensures shown.Some? && GetRotation(position) != 0 ==>
                position in rotatedBitmaps && shown.value == rotatedBitmaps[position]
      ensures shown.Some? && GetRotation(position) != 0 && position in old(rotatedBitmaps)
              && !old(rotatedBitmaps[position].recycled) ==>
                rotatedBitmaps == old(rotatedBitmaps)
      ensures shown.Some? && GetRotation(position) != 0
              && (position !in old(rotatedBitmaps) || old(rotatedBitmaps[position].recycled)) ==>
                rotatedBitmaps == old(rotatedBitmaps)[position := produced] && shown.value == produced
      ensures shown.None? || GetRotation(position) == 0 ==> rotatedBitmaps == old(rotatedBitmaps)
    {
      shown := None;
      if decoded.Some? {
        loadedBitmaps := loadedBitmaps[position := decoded.value];
        if stillBound {
          var b := DisplayBitmap(position, decoded.value, produced);
          shown := Some(b);
        }
      }
    }

    /**
     * The first loop of `cleanup`: a rotated copy ends up recycled exactly
     * when it already was, or it is the copy at some position where it is
     * not that position's loaded bitmap. A copy that is the loaded bitmap
     * of every position holding it is left alone.
     */
    method RecycleRotated()
      modifies rotatedBitmaps.Values
      ensures forall p :: p in rotatedBitmaps ==>
                (rotatedBitmaps[p].recycled <==>
                   old(rotatedBitmaps[p].recycled)
                   || exists q :: q in rotatedBitmaps && rotatedBitmaps[q] == rotatedBitmaps[p]
                                  && (q !in loadedBitmaps || loadedBitmaps[q] != rotatedBitmaps[p]))
    {
      var pending := rotatedBitmaps.Keys;
      while pending != {}
        invariant pending <= rotatedBitmaps.Keys
        invariant forall p :: p in rotatedBitmaps ==>
                    (rotatedBitmaps[p].recycled <==>
                       old(rotatedBitmaps[p].recycled)
                       || exists q :: q in rotatedBitmaps && q !in pending && rotatedBitmaps[q] == rotatedBitmaps[p]
                                      && (q !in loadedBitmaps || loadedBitmaps[q] != rotatedBitmaps[p]))
        decreases pending
      {
        Pick(pending);
        var position :| position in pending;
        var bitmap := rotatedBitmaps[position];
        if !bitmap.recycled {
          if position !in loadedBitmaps || bitmap != loadedBitmaps[position] {
            bitmap.Recycle();
          }
        }
        pending := pending - {position};
      }
    }

    /** The second loop of `cleanup`: every loaded bitmap not yet recycled is recycled. */
    method RecycleLoaded()
      modifies loadedBitmaps.Values
      ensures forall p :: p in loadedBitmaps ==> loadedBitmaps[p].recycled
    {
      var pending := loadedBitmaps.Keys;
      while pending != {}
        invariant pending <= loadedBitmaps.Keys
        invariant forall p :: p in loadedBitmaps && p !in pending ==> loadedBitmaps[p].recycled
        decreases pending
      {
        Pick(pending);
        var position :| position in pending;
        var bitmap := loadedBitmaps[position];
        if !bitmap.recycled {
          bitmap.Recycle();
        }
        pending := pending - {position};
      }
    }

    /**
     * `cleanup`: afterwards every bitmap either cache held is recycled (a
     * rotated copy spared by the first loop is a loaded bitmap, which the
     * second loop recycles) and all three maps are empty.
     */
    method Cleanup()
      modifies this`rotationMap, this`loadedBitmaps, this`rotatedBitmaps,
               rotatedBitmaps.Values, loadedBitmaps.Values
      ensures rotationMap == map[] && loadedBitmaps == map[] && rotatedBitmaps == map[]
      ensures forall p :: p in old(loadedBitmaps) ==> old(loadedBitmaps)[p].recycled
      ensures forall p :: p in old(rotatedBitmaps) ==> old(rotatedBitmaps)[p].recycled
    {
      RecycleRotated();
      ghost var afterFirst := rotatedBitmaps;
      assert forall p :: p in afterFirst && !afterFirst[p].recycled ==>
               p in loadedBitmaps && loadedBitmaps[p] == afterFirst[p];
      label first:
      RecycleLoaded();
      forall p | p in afterFirst
        ensures afterFirst[p].recycled
      {
        var b := afterFirst[p];
        if b in loadedBitmaps.Values {
          ValueHasKey(loadedBitmaps, b);
        } else {
          assert old@first(b.recycled);
        }
      }
      rotatedBitmaps := map[];
      loadedBitmaps := map[];
      rotationMap := map[];
    }
  }
}
