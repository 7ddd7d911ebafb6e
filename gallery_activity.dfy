/**
 * GalleryActivity: reads the image entries of one archive into a list of
 * bitmaps, asks for a password when the archive library reports a
 * password problem, and switches between a three-column grid and a list.
 *
 * The archive library and the bitmap decoder are oracles: `read` gives the
 * header list (or the failure) for the password handed over, and each image
 * header carries what opening and decoding its stream yields.
 */
module Gallery {
  import opened Common
  import opened Text
  import opened Bitmaps
  import opened Passwords

  /** The extensions the gallery shows, compared after lower-casing. */
  predicate IsImageName(fileName: string)
  {
    var lower := Lower(fileName);
    EndsWith(lower, ".jpg") || EndsWith(lower, ".jpeg") || EndsWith(lower, ".png")
    || EndsWith(lower, ".gif") || EndsWith(lower, ".bmp") || EndsWith(lower, ".webp")
  }

  /** The test ignores the case of the name. */
  lemma ImageNameIgnoresCase(fileName: string)
    ensures IsImageName(Lower(fileName)) <==> IsImageName(fileName)
  {
    LowerIdempotent(fileName);
  }

  lemma ImageNameExamples()
    ensures IsImageName("scans/PAGE01.JPG")
    ensures IsImageName("a.webp")
    ensures !IsImageName("notes.txt")
    ensures !IsImageName("cover.jpg.bak")
  {
    var upper := Lower("scans/PAGE01.JPG");
    assert upper[|upper| - 4..] == ".jpg";
    var w := Lower("a.webp");
    assert w[|w| - 5..] == ".webp";
    var t := Lower("notes.txt");
    assert t[|t| - 1] == 't';
    var b := Lower("cover.jpg.bak");
    assert b[|b| - 1] == 'k';
  }

  /** An exception thrown by the archive library: a ZipException or some other exception. */
  datatype Failure = Failure(zipException: bool, message: Option<string>)

  /** Opening and decoding one entry's stream: a bitmap (null when undecodable), or an exception. */
  datatype EntryRead = Decoded(bitmap: Bitmap?) | Fails(failure: Failure)

  datatype Header = Header(fileName: string, content: EntryRead)

  /** `getFileHeaders`: the headers, or the exception it throws. */
  datatype ZipRead = Headers(headers: seq<Header>) | ReadFails(failure: Failure)

  /** The loop of lines 121-134: the decoded images, or the exception that ended it. */
  datatype Scan = Collected(images: seq<Bitmap>) | Aborted(failure: Failure)

  /** What the loop over `headers` produces, entry by entry. */
  function ScanHeaders(headers: seq<Header>): Scan
  {
    if headers == [] then Collected([])
    else
      var h := headers[|headers| - 1];
      match ScanHeaders(headers[..|headers| - 1])
      case Aborted(f) => Aborted(f)
      case Collected(images) =>
        if !IsImageName(h.fileName) then Collected(images)
        else match h.content
          case Fails(f) => Aborted(f)
          case Decoded(b) => Collected(if b != null then images + [b] else images)
  }

  /** The headers whose stream is opened: the image entries. */
  predicate Opened(h: Header) { IsImageName(h.fileName) }

  /** The loop completes exactly when no image entry's stream fails. */
  lemma {:induction false} ScanCompletes(headers: seq<Header>)
    ensures ScanHeaders(headers).Collected? <==>
              forall k :: 0 <= k < |headers| && Opened(headers[k]) ==> headers[k].content.Decoded?
  {
    if headers != [] {
      var init := headers[..|headers| - 1];
      ScanCompletes(init);
      assert forall k :: 0 <= k < |init| ==> init[k] == headers[k];
    }
  }

  /** A completed loop keeps exactly the non-null bitmaps of the image entries. */
  lemma {:induction false} ScanImages(headers: seq<Header>, b: Bitmap)
    requires ScanHeaders(headers).Collected?
    ensures b in ScanHeaders(headers).images <==>
              exists k :: 0 <= k < |headers| && Opened(headers[k]) && headers[k].content == Decoded(b)
  {
    if headers != [] {
      var last := |headers| - 1;
      var init := headers[..last];
      var h := headers[last];
      var before := ScanHeaders(init);
      assert before.Collected?;
      var added := Opened(h) && h.content.Decoded? && h.content.bitmap != null;
      assert ScanHeaders(headers).images == if added then before.images + [h.content.bitmap] else before.images;
      ScanImages(init, b);
      if b in ScanHeaders(headers).images {
        if b !in before.images {
          assert Opened(headers[last]) && headers[last].content == Decoded(b);
        } else {
          var k :| 0 <= k < |init| && Opened(init[k]) && init[k].content == Decoded(b);
          assert headers[k] == init[k];
        }
      } else {
        forall k | 0 <= k < |headers| && Opened(headers[k])
          ensures headers[k].content != Decoded(b)
        {
          if k < last {
            assert headers[k] == init[k];
          }
        }
      }
    }
  }

  /** An aborted loop reports the exception of the first image entry whose stream fails. */
  lemma {:induction false} ScanAborts(headers: seq<Header>)
    requires ScanHeaders(headers).Aborted?
    ensures exists k :: 0 <= k < |headers| && Opened(headers[k])
                        && headers[k].content == Fails(ScanHeaders(headers).failure)
                        && forall j :: 0 <= j < k && Opened(headers[j]) ==> headers[j].content.Decoded?
  {
    var init := headers[..|headers| - 1];
    assert forall k :: 0 <= k < |init| ==> init[k] == headers[k];
    if ScanHeaders(init).Aborted? {
      ScanAborts(init);
    } else {
      ScanCompletes(init);
      assert Opened(headers[|headers| - 1]);
    }
  }

  /**
   * Header order is kept: the images of a list made of two parts are those
   * of the first part followed by those of the second, and an exception in
   * the first part ends the loop before the second is looked at.
   */
  lemma {:induction false} ScanConcat(a: seq<Header>, b: seq<Header>)
    ensures ScanHeaders(a).Aborted? ==> ScanHeaders(a + b) == ScanHeaders(a)
    ensures ScanHeaders(a).Collected? && ScanHeaders(b).Collected? ==>
              ScanHeaders(a + b) == Collected(ScanHeaders(a).images + ScanHeaders(b).images)
    ensures ScanHeaders(a).Collected? && ScanHeaders(b).Aborted? ==> ScanHeaders(a + b) == ScanHeaders(b)
    decreases |b|
  {
    if b == [] {
      assert a + b == a;
    } else {
      var b' := b[..|b| - 1];
      var h := b[|b| - 1];
      ScanConcat(a, b');
      assert (a + b)[..|a + b| - 1] == a + b';
      assert (a + b)[|a + b| - 1] == h;
      if ScanHeaders(a).Collected? && ScanHeaders(b').Collected? {
        var x, y := ScanHeaders(a).images, ScanHeaders(b').images;
        assert ScanHeaders(a + b') == Collected(x + y);
        if Opened(h) && h.content.Decoded? && h.content.bitmap != null {
          assert x + y + [h.content.bitmap] == x + (y + [h.content.bitmap]);
        }
      }
    }
  }

  /** Once an entry has ended the loop, the entries after it do not matter. */
  lemma {:induction false} AbortedStays(headers: seq<Header>, n: nat)
    requires n <= |headers| && ScanHeaders(headers[..n]).Aborted?
    ensures ScanHeaders(headers) == ScanHeaders(headers[..n])
    decreases |headers|
  {
    if n < |headers| {
      var init := headers[..|headers| - 1];
      assert init[..n] == headers[..n];
      AbortedStays(init, n);
    } else {
      assert headers[..n] == headers;
    }
  }

  /** The loop itself, over the header list. */
  method DecodeImages(headers: seq<Header>) returns (scan: Scan)
    ensures scan == ScanHeaders(headers)
  {
    var loadedImages: seq<Bitmap> := [];
    var i := 0;
    while i < |headers|
      invariant 0 <= i <= |headers|
      invariant ScanHeaders(headers[..i]) == Collected(loadedImages)
    {
      assert headers[..i + 1][..i] == headers[..i];
      var fileHeader := headers[i];
      if IsImageName(fileHeader.fileName) {
        match fileHeader.content {
          case Fails(f) =>
            assert ScanHeaders(headers[..i + 1]) == Aborted(f);
            AbortedStays(headers, i + 1);
            return Aborted(f);
          case Decoded(bitmap) =>
            if bitmap != null {
              loadedImages := loadedImages + [bitmap];
            }
        }
      }
      i := i + 1;
    }
    assert headers[..i] == headers;
    scan := Collected(loadedImages);
  }

  /**
   * The test of lines 149-152: the message is present and mentions
   * "password", "Wrong password" or "encrypted" (case-sensitively).
   */
  predicate IsPasswordError(message: Option<string>)
  {
    message.Some? &&
    (Contains(message.value, "password") || Contains(message.value, "Wrong password")
     || Contains(message.value, "encrypted"))
  }

  /** The "Wrong password" alternative adds nothing: such a message already mentions "password". */
  lemma WrongPasswordIsRedundant(message: Option<string>)
    ensures IsPasswordError(message) <==>
              message.Some? && (Contains(message.value, "password") || Contains(message.value, "encrypted"))
  {
    if message.Some? && Contains(message.value, "Wrong password") {
      ContainsPiece(message.value, "Wrong password", 6, 8);
      assert "Wrong password"[6..14] == "password";
    }
  }

  /** The test is case-sensitive: "Wrong Password" is not taken for a password error. */
  lemma CapitalisedMessageIsNoPasswordError()
    ensures !IsPasswordError(Some("Wrong Password"))
  {
    var m := "Wrong Password";
    WrongPasswordIsRedundant(Some(m));
    MissingFirstCharNotContained(m, "password");
    MissingFirstCharNotContained(m, "encrypted");
  }

  /** What a load ends in, after the UI thread has taken over. */
  datatype LoadOutcome =
    | Shown(noneFound: bool)      // images replaced; the "No images found" toast when empty
    | PasswordPrompt              // the password dialog
    | ErrorToast(message: Option<string>)

  /** The catch blocks: only a ZipException that reads as a password error leads to the prompt. */
  function FailureOutcome(f: Failure): (o: LoadOutcome)
    ensures o == PasswordPrompt <==> f.zipException && IsPasswordError(f.message)
    ensures o != PasswordPrompt ==> o == ErrorToast(f.message)
  {
    if f.zipException && IsPasswordError(f.message) then PasswordPrompt else ErrorToast(f.message)
  }

  /** The password handed to the archive library: the current one, for an encrypted archive, when non-empty. */
  function AppliedPassword(encrypted: bool, password: Option<string>): (p: Option<string>)
    ensures p.Some? <==> encrypted && password.Some? && password.value != []
    ensures p.Some? ==> p == password
  {
    if encrypted && password.Some? && password.value != [] then password else None
  }

  /** The outcome of one load for what the archive library answers. */
  function Load(answer: ZipRead): LoadOutcome
  {
    match answer
    case ReadFails(f) => FailureOutcome(f)
    case Headers(hs) =>
      match ScanHeaders(hs)
      case Collected(images) => Shown(images == [])
      case Aborted(f) => FailureOutcome(f)
  }

  /**
   * A load prompts for a password only after a ZipException whose message
   * mentions "password" or "encrypted", thrown by the header read or by the
   * stream of an image entry.
   */
  lemma LoadPromptsOnlyForPasswordErrors(answer: ZipRead)
    requires Load(answer) == PasswordPrompt
    ensures answer.ReadFails? ==> answer.failure.zipException
    ensures answer.Headers? ==>
              ScanHeaders(answer.headers).Aborted? && ScanHeaders(answer.headers).failure.zipException
    ensures exists f: Failure :: f.zipException && f.message.Some?
              && (Contains(f.message.value, "password") || Contains(f.message.value, "encrypted"))
              && (answer == ReadFails(f) || (answer.Headers? && ScanHeaders(answer.headers) == Aborted(f)))
  {
    var f := if answer.ReadFails? then answer.failure else ScanHeaders(answer.headers).failure;
    WrongPasswordIsRedundant(f.message);
  }

  class GalleryActivity {
    /** EXTRA_ARCHIVE_NAME: the key under which a new password is saved. */
    const archiveName: string
    /** EXTRA_PASSWORD, then whatever the dialog accepted. */
    var password: Option<string>
    var isGridView: bool
    /** The bitmaps the grid or list shows. */
    var images: seq<Bitmap>
    const passwordManager: PasswordManager
    /** `finish()` was called. */
    var finished: bool

    /**
     * `onCreate` up to the start of the load: the intent's name and
     * password, grid view, no images yet.
     */
    constructor (name: string, intentPassword: Option<string>, stored: map<string, string>)
      ensures archiveName == name && password == intentPassword
      ensures isGridView && images == [] && !finished
      ensures fresh(passwordManager) && passwordManager.prefs == stored
    {
      archiveName := name;
      password := intentPassword;
      isGridView := true;
      images := [];
      passwordManager := new PasswordManager(stored);
      finished := false;
    }

    /** `updateLayoutManager`: three columns in grid view, one in list view. */
    function SpanCount(): (n: nat)
      reads this
      ensures n == 3 <==> isGridView
      ensures n == 1 <==> !isGridView
    {
      if isGridView then 3 else 1
    }

    /** The grid button. */
    method SelectGrid()
      modifies this`isGridView
      ensures isGridView && SpanCount() == 3
    {
      isGridView := true;
    }

    /** The list button. */
    method SelectList()
      modifies this`isGridView
      ensures !isGridView && SpanCount() == 1
    {
      isGridView := false;
    }

    /**
     * `loadImagesFromArchive`, background part and UI part together: the
     * current password goes to the library only for an encrypted archive
     * and only when non-empty; a complete read replaces the shown images
     * with the decoded ones; any exception leaves them as they were.
     */
    method LoadImagesFromArchive(encrypted: bool, read: Option<string> -> ZipRead) returns (outcome: LoadOutcome)
      modifies this`images
      ensures outcome == Load(read(AppliedPassword(encrypted, password)))
      ensures outcome.Shown? ==> images == ScanHeaders(read(AppliedPassword(encrypted, password)).headers).images
      ensures outcome.Shown? ==> (outcome.noneFound <==> images == [])
      ensures !outcome.Shown? ==> images == old(images)
    {
      var applied := if encrypted && password.Some? && password.value != [] then password else None;
      match read(applied) {
        case ReadFails(f) =>
          outcome := FailureOutcome(f);
        case Headers(fileHeaders) =>
          var scan := DecodeImages(fileHeaders);
          match scan {
            case Aborted(f) =>
              outcome := FailureOutcome(f);
            case Collected(loadedImages) =>
              images := loadedImages;
              outcome := Shown(images == []);
          }
      }
    }

    /**
     * The dialog's OK button: an empty entry is refused and nothing changes;
     * otherwise it becomes the current password, is saved under the
     * archive's name, and the load runs again with it.
     */
    method PasswordOk(entered: string, encrypted: bool, read: Option<string> -> ZipRead)
      returns (outcome: Option<LoadOutcome>)
      modifies this`password, this`images, passwordManager
      ensures outcome.Some? <==> entered != []
      ensures outcome.Some? ==> password == Some(entered)
      ensures outcome.Some? ==> passwordManager.prefs == old(passwordManager.prefs)[archiveName := entered]
      ensures outcome.Some? ==> outcome.value == Load(read(AppliedPassword(encrypted, Some(entered))))
      ensures outcome.Some? && outcome.value.Shown? ==>
                images == ScanHeaders(read(AppliedPassword(encrypted, Some(entered))).headers).images
      ensures outcome.Some? && !outcome.value.Shown? ==> images == old(images)
      ensures outcome.None? ==> password == old(password) && images == old(images)
                                && passwordManager.prefs == old(passwordManager.prefs)
    {
      if entered != [] {
        password := Some(entered);
        passwordManager.SavePassword(archiveName, entered);
        var o := LoadImagesFromArchive(encrypted, read);
        outcome := Some(o);
      } else {
        outcome := None;
      }
    }

    /** The dialog's Cancel button closes the gallery. */
    method CancelPassword()
      modifies this`finished
      ensures finished
    {
      finished := true;
    }

    /** `onDestroy`: every shown bitmap not yet recycled is recycled, then the list is cleared. */
    method Destroy()
      modifies this`images, set b | b in images
      ensures images == []
      ensures forall b :: b in old(images) ==> b.recycled
    {
      var i := 0;
      while i < |images|
        invariant 0 <= i <= |images|
        invariant images == old(images)
        invariant forall k :: 0 <= k < i ==> images[k].recycled
      {
        if !images[i].recycled {
          images[i].Recycle();
        }
        i := i + 1;
      }
      images := [];
    }
  }
}
