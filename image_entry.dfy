/**
 * ImageEntry: one image of an archive with two bitmap slots (the full
 * image and its thumbnail), a loading flag and the entry's size.
 */
module ImageEntries {
  import opened Bitmaps

  class ImageEntry {
    var fileName: string
    var fullBitmap: Bitmap?
    var thumbnail: Bitmap?
    var thumbnailLoading: bool
    /** A Java `long`; never constrained by the application. */
    var fileSize: int

    /** Stores the name; both slots empty, not loading, size 0. */
    constructor (name: string)
      ensures fileName == name
      ensures fullBitmap == null && thumbnail == null
      ensures !thumbnailLoading && fileSize == 0
    {
      fileName := name;
      fullBitmap := null;
      thumbnail := null;
      thumbnailLoading := false;
      fileSize := 0;
    }

    method SetFileName(name: string)
      modifies this`fileName
      ensures fileName == name
    {
      fileName := name;
    }

    method SetFullBitmap(b: Bitmap?)
      modifies this`fullBitmap
      ensures fullBitmap == b && (HasFullBitmap() <==> b != null)
    {
      fullBitmap := b;
    }

    method SetThumbnail(b: Bitmap?)
      modifies this`thumbnail
      ensures thumbnail == b && (HasThumbnail() <==> b != null)
    {
      thumbnail := b;
    }

    method SetThumbnailLoading(loading: bool)
      modifies this`thumbnailLoading
      ensures thumbnailLoading == loading
    {
      thumbnailLoading := loading;
    }

    method SetFileSize(size: int)
      modifies this`fileSize
      ensures fileSize == size
    {
      fileSize := size;
    }

    predicate HasThumbnail()
      reads this
    {
      thumbnail != null
    }

    predicate HasFullBitmap()
      reads this
    {
      fullBitmap != null
    }

    /**
     * `recycle`: each slot holding a bitmap not yet recycled has it
     * recycled and is cleared; a slot holding an already recycled bitmap
     * is left as it is. So afterwards every bitmap still held is recycled.
     * When both slots hold the same bitmap, clearing the thumbnail recycles
     * it, and the full-image slot then keeps it.
     */
    method Recycle()
      modifies this`thumbnail, this`fullBitmap, thumbnail, fullBitmap
      ensures old(thumbnail) != null ==> old(thumbnail).recycled
      ensures old(fullBitmap) != null ==> old(fullBitmap).recycled
      ensures thumbnail == if old(thumbnail) != null && !old(thumbnail.recycled) then null else old(thumbnail)
      ensures fullBitmap == if old(fullBitmap) != null && !old(fullBitmap.recycled) && old(fullBitmap) != old(thumbnail)
                            then null else old(fullBitmap)
      ensures thumbnail != null ==> thumbnail.recycled
      ensures fullBitmap != null ==> fullBitmap.recycled
    {
      if thumbnail != null && !thumbnail.recycled {
        thumbnail.Recycle();
        thumbnail := null;
      }
      if fullBitmap != null && !fullBitmap.recycled {
        fullBitmap.Recycle();
        fullBitmap := null;
      }
    }
  }

  /**
   * One bitmap in both slots: after `recycle` the entry reports no
   * thumbnail but still a full bitmap, which is recycled.
   */
  method SharedSlotExample() returns (hasThumbnail: bool, hasFullBitmap: bool, fullRecycled: bool)
    ensures !hasThumbnail && hasFullBitmap && fullRecycled
  {
    var b := new Bitmap(64, 64);
    var entry := new ImageEntry("a.png");
    entry.SetThumbnail(b);
    entry.SetFullBitmap(b);
    entry.Recycle();
    hasThumbnail := entry.HasThumbnail();
    hasFullBitmap := entry.HasFullBitmap();
    fullRecycled := entry.fullBitmap != null && entry.fullBitmap.recycled;
  }
}
