# AZipViewer core in Dafny

AZipViewer is an Android app. It imports zip archives into a private
directory, remembers their passwords, and shows the images inside them. It
has a gallery and a full-screen pager with rotation. This project models the
app's sequential logic and proves properties about it:

- **Import** (`MainScreen`): turning the URI's last path segment into a file
  name; picking a free " (n)" name when the name is taken; the
  encrypted × shared-intent decision.
- **Archive list** (`MainScreen`): rebuilding the list from the directory
  listing; the case-insensitive search; the view counter on a click; the
  password prompts and their retry; delete bookkeeping.
- **Model classes**: `ArchiveItem` (view counter, password, size unit),
  `PasswordManager` (a map from file name to password) and `ImageEntry`
  (two bitmap slots and `recycle`).
- **Sizing arithmetic** (`Thumbnails`): the 32-bit byte estimate, the 1 MB
  threshold, and the power-of-two sample size loop.
- **Gallery** (`Gallery`): the image-extension test; the header loop; the
  ZipException classification; the password dialog; the grid/list switch;
  recycling on destroy.
- **Viewer** (`ViewerAdapter`, `Viewer`): the three per-position caches
  (rotation, loaded bitmap, rotated copy) with their recycle rules; the page,
  rotation and counter state; the top-bar toggle.

What happens outside the app is passed in as a parameter:

- Bitmaps are objects with a `recycled` flag.
- The archives directory is a set of names, or a listing of entries.
- The zip library (zip4j) and the bitmap decoder are oracles. They are
  parameters that say whether an archive is encrypted, what `getFileHeaders`
  returns or throws, and what each entry decodes to.
- Whether a file deletion succeeds is also a parameter.
- The clock value for the fallback name is a parameter.

Java `int` arithmetic is written out where it matters. `estimateBitmapSize`
wraps modulo 2^32, and `/` truncates toward zero. Lower-casing is ASCII.

## Model

All source paths are under `app/src/main/java/com/bitifyware/zipviewer/`.

| member | source | states |
|---|---|---|
| Text.Lower | app/src/main/java/com/bitifyware/zipviewer/MainActivity.java:456-458 | `toLowerCase` keeps the length and lower-cases each character (ASCII letters only) |
| Text.LastIndexOf | app/src/main/java/com/bitifyware/zipviewer/MainActivity.java:403 | the result is -1 or an index holding the character, and no later index holds it |
| Text.NatToString | app/src/main/java/com/bitifyware/zipviewer/MainActivity.java:413 | the decimal text of a counter is non-empty and all digits, and it starts with '0' only when it is "0" |
| Text.ParseNatToString | app/src/main/java/com/bitifyware/zipviewer/MainActivity.java:413 | reading the decimal text back gives the number |
| Text.NatToStringInjective | app/src/main/java/com/bitifyware/zipviewer/MainActivity.java:410-415 | different counters give different texts |
| Thumbnails.WrapInt32 | app/src/main/java/com/bitifyware/zipviewer/ThumbnailGenerator.java:62 | the Java `int` value equals the true value modulo 2^32, and is the true value when that fits |
| Thumbnails.JavaDiv | app/src/main/java/com/bitifyware/zipviewer/ThumbnailGenerator.java:112-116 | `int` division by a positive divisor: the quotient has the dividend's sign, and the remainder has the dividend's sign and is smaller than the divisor |
| Thumbnails.JavaDivNegates | app/src/main/java/com/bitifyware/zipviewer/ThumbnailGenerator.java:112-116 | negating the dividend negates the quotient, so -7 / 2 is -3 where the Euclidean quotient is -4 |
| Thumbnails.EstimateBitmapSize | app/src/main/java/com/bitifyware/zipviewer/ThumbnailGenerator.java:57-63 | null gives 0; a bitmap whose byte count fits gives exactly 4·width·height, which is positive |
| Thumbnails.NeedsThumbnailByPixels | app/src/main/java/com/bitifyware/zipviewer/ThumbnailGenerator.java:71-73 | never for null; otherwise (when the byte count fits) exactly when the bitmap has more than 512·512 pixels |
| Thumbnails.EstimateWrapsForHugeBitmap | app/src/main/java/com/bitifyware/zipviewer/ThumbnailGenerator.java:62 | a 32768×16384 bitmap is estimated at −2^31 bytes and judged not to need a thumbnail |
| Thumbnails.CalculateInSampleSize | app/src/main/java/com/bitifyware/zipviewer/ThumbnailGenerator.java:105-122 | returns a power of two; 1 when both dimensions are within the request; otherwise the returned size fails the halved-dimension test; when it is above 1, half of it still passes the test |
| ArchiveItems.ArchiveItem.constructor | app/src/main/java/com/bitifyware/zipviewer/ArchiveItem.java:17-24 | name, size and date come from the file; view count 0; no password |
| ArchiveItems.ArchiveItem.IncrementViewCount | app/src/main/java/com/bitifyware/zipviewer/ArchiveItem.java:60-62 | the count goes up by exactly one, and no other field changes |
| ArchiveItems.ArchiveItem.SetPassword | app/src/main/java/com/bitifyware/zipviewer/ArchiveItem.java:64-74 | `getPassword` returns the value set; `hasPassword` holds exactly when that value is present and non-empty |
| ArchiveItems.ArchiveItem.FormattedSize | app/src/main/java/com/bitifyware/zipviewer/ArchiveItem.java:38-46 | bytes below 1024, KB below 1024², MB from there on; the byte text is the decimal of the size followed by " B" and reads back as the size; KB and MB amounts are the exact quotients, with the KB amount in [1, 1024) |
| Passwords.PasswordManager.constructor | app/src/main/java/com/bitifyware/zipviewer/PasswordManager.java:13-15 | the store holds what was stored before |
| Passwords.PasswordManager.GetPassword | app/src/main/java/com/bitifyware/zipviewer/PasswordManager.java:27-29 | null exactly when no entry exists; otherwise the stored value |
| Passwords.PasswordManager.HasPassword | app/src/main/java/com/bitifyware/zipviewer/PasswordManager.java:41-43 | holds exactly when `getPassword` is not null |
| Passwords.PasswordManager.SavePassword | app/src/main/java/com/bitifyware/zipviewer/PasswordManager.java:20-22 | afterwards the name maps to the password; every other name is unchanged |
| Passwords.PasswordManager.RemovePassword | app/src/main/java/com/bitifyware/zipviewer/PasswordManager.java:34-36 | afterwards the name has no entry; every other name is unchanged |
| Passwords.SaveTwiceKeepsLast | app/src/main/java/com/bitifyware/zipviewer/PasswordManager.java:20-22 | after two saves under one name the second value is stored, and other names are untouched |
| MainScreen.StripTrailingSlashes | app/src/main/java/com/bitifyware/zipviewer/MainActivity.java:348 | the result is a prefix that does not end in '/', and only '/' characters were removed |
| MainScreen.BaseName | app/src/main/java/com/bitifyware/zipviewer/MainActivity.java:348 | `File.getName()` is the last component of the path without its trailing slashes: a suffix of it without '/' that starts the path or follows a '/'; a name without '/' is unchanged; it is empty exactly when the path is only slashes |
| MainScreen.FallbackNameHasNoSlash | app/src/main/java/com/bitifyware/zipviewer/MainActivity.java:345 | "archive_<millis>.zip" has no '/' and is longer than 12 characters |
| MainScreen.FileNameFromUriAsWritten | app/src/main/java/com/bitifyware/zipviewer/MainActivity.java:342-350 | a null or empty segment gives the fallback name; a non-empty segment gives its last component (`BaseName`), so the name has no '/' and a segment without '/' is kept |
| MainScreen.SlashSegmentSanitisesToEmpty | app/src/main/java/com/bitifyware/zipviewer/MainActivity.java:343-348 | the segment "/" sanitises to the empty name |
| MainScreen.DotDotSegmentPassesThrough | app/src/main/java/com/bitifyware/zipviewer/MainActivity.java:343-348 | the segment ".." passes the sanitising unchanged |
| MainScreen.FileNameFromUri | app/src/main/java/com/bitifyware/zipviewer/MainActivity.java:342-350 | corrected: always a non-empty name other than "." and "..", without '/'; the last component of a non-empty segment is kept when it is such a name, and the fallback name is used when it is not; a null or empty segment gives the fallback name |
| MainScreen.SplitExtension | app/src/main/java/com/bitifyware/zipviewer/MainActivity.java:401-407 | name + extension is the file name; a non-empty extension has at least one character after its '.', which is its only '.', and the name before it is non-empty |
| MainScreen.SplitExtensionFindsLastDot | app/src/main/java/com/bitifyware/zipviewer/MainActivity.java:401-407 | there is an extension exactly when the last '.' is neither the first nor the last character |
| MainScreen.SplitExtensionExamples | app/src/main/java/com/bitifyware/zipviewer/MainActivity.java:401-407 | "a.tar.gz" splits before ".gz"; ".bashrc", "notes." and "README" are not split |
| MainScreen.AttemptInjective | app/src/main/java/com/bitifyware/zipviewer/MainActivity.java:410-415 | the names tried for different counters differ, and none equals the original name |
| MainScreen.NotYetTried | app/src/main/java/com/bitifyware/zipviewer/MainActivity.java:410-415 | the name for counter j is not among the first j names tried |
| MainScreen.FirstFreeAt | app/src/main/java/com/bitifyware/zipviewer/MainActivity.java:410-417 | when every earlier name tried is taken and the n-th is free, the n-th is the first free name |
| MainScreen.FirstFreeUnique | app/src/main/java/com/bitifyware/zipviewer/MainActivity.java:397-418 | there is only one first free name, so keep-both's choice is fixed by the directory |
| MainScreen.GenerateUniqueFileName | app/src/main/java/com/bitifyware/zipviewer/MainActivity.java:397-418 | the result is not in the directory; it is the name itself when that is free; otherwise it is the first free name in the order name, "base (1).ext", "base (2).ext", …; a usable name gives a usable result; the loop terminates |
| MainScreen.CandidateUsable | app/src/main/java/com/bitifyware/zipviewer/MainActivity.java:413 | inserting " (n)" into a usable name gives a usable name |
| MainScreen.ImportTargetName | app/src/main/java/com/bitifyware/zipviewer/MainActivity.java:355-392 | a free name is used as it is; for a taken name, override keeps it, keep-both gives the first free name of "name", "base (1).ext", …, and dismissing imports nothing; a usable name only leads to usable names |
| MainScreen.ImportFromUri | app/src/main/java/com/bitifyware/zipviewer/MainActivity.java:137-163 | the same choice on the name derived from the URI (corrected derivation), keep-both giving the first free numbered name; whatever is imported is a usable name inside the archives directory |
| MainScreen.ImportDecision | app/src/main/java/com/bitifyware/zipviewer/MainActivity.java:185-206 | prompts exactly when the archive is reported encrypted (a failed check counts as plain); opens the gallery exactly when the file was shared from another app |
| MainScreen.RegularFiles | app/src/main/java/com/bitifyware/zipviewer/MainActivity.java:428-440 | the list of regular files is no longer than the listing |
| MainScreen.RegularFilesIsSubsequence | app/src/main/java/com/bitifyware/zipviewer/MainActivity.java:428-440 | the regular files keep the directory listing's order |
| MainScreen.RegularFilesMembers | app/src/main/java/com/bitifyware/zipviewer/MainActivity.java:428-440 | an entry is listed exactly when it is in the directory and is a regular file |
| MainScreen.FilteredByEmptyQuery | app/src/main/java/com/bitifyware/zipviewer/MainActivity.java:453-454 | the empty query shows every archive in order |
| MainScreen.FilteredMembers | app/src/main/java/com/bitifyware/zipviewer/MainActivity.java:455-461 | an archive is shown exactly when it is in the list and its lower-cased name contains the lower-cased query |
| MainScreen.FilteredIsSubsequence | app/src/main/java/com/bitifyware/zipviewer/MainActivity.java:457-461 | the shown archives keep the list's order |
| MainScreen.FilteredConcat | app/src/main/java/com/bitifyware/zipviewer/MainActivity.java:457-461 | filtering two parts of the list filters each part, and the results come in list order |
| MainScreen.MainActivity.constructor | app/src/main/java/com/bitifyware/zipviewer/MainActivity.java:69-101 | empty search bar, the stored passwords, and the list loaded from the listing |
| MainScreen.MainActivity.NewArchiveItem | app/src/main/java/com/bitifyware/zipviewer/MainActivity.java:432-437 | a new item for the file, with its name, size and date, view count 0 and the password stored under its name, if any |
| MainScreen.MainActivity.LoadArchives | app/src/main/java/com/bitifyware/zipviewer/MainActivity.java:423-445 | one new item per regular file, in order, each with the file's name, size and date, view count 0 and its stored password; then the list is re-filtered with the current query |
| MainScreen.MainActivity.FilterArchives | app/src/main/java/com/bitifyware/zipviewer/MainActivity.java:450-465 | the shown list is the filter of the archives by the query |
| MainScreen.MainActivity.OnQueryChanged | app/src/main/java/com/bitifyware/zipviewer/MainActivity.java:92-94 | typing in the search bar re-filters with the new text |
| MainScreen.MainActivity.CheckAndPromptForPassword | app/src/main/java/com/bitifyware/zipviewer/MainActivity.java:178-217 | follows the decision table; the "added" branches reload the list; only add-and-open starts the gallery, with no password |
| MainScreen.MainActivity.Unlock | app/src/main/java/com/bitifyware/zipviewer/MainActivity.java:291-304 | an empty password is refused and nothing changes; otherwise it is saved under the name and the list reloads |
| MainScreen.MainActivity.UnlockAndOpen | app/src/main/java/com/bitifyware/zipviewer/MainActivity.java:241-253 | as `Unlock`, and an accepted password also opens the gallery with it |
| MainScreen.MainActivity.CancelPrompt | app/src/main/java/com/bitifyware/zipviewer/MainActivity.java:286-289 | cancelling a prompt reloads the list |
| MainScreen.MainActivity.OnArchiveClick | app/src/main/java/com/bitifyware/zipviewer/MainActivity.java:468-499 | the view count goes up by one; the item's password is applied only for an encrypted archive and only when non-empty; readable headers open the gallery with the item's password; otherwise, or when the encryption check fails, the prompt appears with a retry |
| MainScreen.MainActivity.RetryAfterUnlock | app/src/main/java/com/bitifyware/zipviewer/MainActivity.java:489-497 | as written: after an accepted password the retry applies the clicked item's old password (none if it had none), never the entered one |
| MainScreen.StaleRetryExample | app/src/main/java/com/bitifyware/zipviewer/MainActivity.java:489-497 | for an archive readable only with "secret", the as-written retry prompts again; the corrected retry opens the gallery with "secret" |
| MainScreen.MainActivity.RetryAfterUnlockWithEnteredPassword | app/src/main/java/com/bitifyware/zipviewer/MainActivity.java:489-497 | corrected: the retry applies the entered password to an encrypted archive and opens the gallery with it |
| MainScreen.MainActivity.ConfirmDelete | app/src/main/java/com/bitifyware/zipviewer/MainActivity.java:521-530 | only a successful deletion removes the stored password and reloads the list; otherwise nothing changes |
| Gallery.ImageNameIgnoresCase | app/src/main/java/com/bitifyware/zipviewer/GalleryActivity.java:122-125 | the image test ignores the case of the name |
| Gallery.ImageNameExamples | app/src/main/java/com/bitifyware/zipviewer/GalleryActivity.java:122-125 | ".JPG" and ".webp" names are images; ".txt" and ".jpg.bak" names are not |
| Gallery.ScanCompletes | app/src/main/java/com/bitifyware/zipviewer/GalleryActivity.java:121-134 | the header loop completes exactly when no image entry's stream throws |
| Gallery.ScanImages | app/src/main/java/com/bitifyware/zipviewer/GalleryActivity.java:121-134 | after a complete loop, a bitmap is loaded exactly when an image-named entry decoded to it (non-image names and null decodes are skipped) |
| Gallery.ScanAborts | app/src/main/java/com/bitifyware/zipviewer/GalleryActivity.java:121-134 | an aborted loop reports the exception of the first image entry whose stream throws |
| Gallery.ScanConcat | app/src/main/java/com/bitifyware/zipviewer/GalleryActivity.java:121-134 | images follow header order: those of an earlier part come first; an exception in the earlier part ends the loop |
| Gallery.AbortedStays | app/src/main/java/com/bitifyware/zipviewer/GalleryActivity.java:121-134 | entries after the one that threw do not affect the result |
| Gallery.DecodeImages | app/src/main/java/com/bitifyware/zipviewer/GalleryActivity.java:119-134 | the loop produces the result of the header scan |
| Gallery.WrongPasswordIsRedundant | app/src/main/java/com/bitifyware/zipviewer/GalleryActivity.java:149-152 | the message counts as a password error exactly when it is non-null and contains "password" or "encrypted" |
| Gallery.CapitalisedMessageIsNoPasswordError | app/src/main/java/com/bitifyware/zipviewer/GalleryActivity.java:149-152 | the match is case-sensitive: "Wrong Password" does not count |
| Gallery.FailureOutcome | app/src/main/java/com/bitifyware/zipviewer/GalleryActivity.java:146-163 | the prompt appears exactly for a ZipException classed as a password error; every other exception shows the error |
| Gallery.AppliedPassword | app/src/main/java/com/bitifyware/zipviewer/GalleryActivity.java:114-116 | a password is applied exactly when the archive is encrypted and the password is non-null and non-empty |
| Gallery.LoadPromptsOnlyForPasswordErrors | app/src/main/java/com/bitifyware/zipviewer/GalleryActivity.java:146-158 | a load prompts only after a ZipException, thrown by the header read or by an image stream, whose message contains "password" or "encrypted" |
| Gallery.GalleryActivity.constructor | app/src/main/java/com/bitifyware/zipviewer/GalleryActivity.java:41-71 | the intent's name and password; grid view; no images yet |
| Gallery.GalleryActivity.SpanCount | app/src/main/java/com/bitifyware/zipviewer/GalleryActivity.java:91-97 | three columns exactly in grid view, one in list view |
| Gallery.GalleryActivity.SelectGrid | app/src/main/java/com/bitifyware/zipviewer/GalleryActivity.java:75-79 | the grid button selects three columns |
| Gallery.GalleryActivity.SelectList | app/src/main/java/com/bitifyware/zipviewer/GalleryActivity.java:81-85 | the list button selects one column |
| Gallery.GalleryActivity.LoadImagesFromArchive | app/src/main/java/com/bitifyware/zipviewer/GalleryActivity.java:107-165 | a complete read replaces the images with exactly the loaded ones (not merged); "none found" exactly when that list is empty; any exception leaves the images unchanged |
| Gallery.GalleryActivity.PasswordOk | app/src/main/java/com/bitifyware/zipviewer/GalleryActivity.java:179-189 | an empty entry changes nothing and does not reload; otherwise it becomes the password, is saved under the archive name, and the load runs again with it; a complete read replaces the images with the ones decoded with that password, and a failed one leaves them as they were |
| Gallery.GalleryActivity.CancelPassword | app/src/main/java/com/bitifyware/zipviewer/GalleryActivity.java:190-192 | cancelling closes the gallery |
| Gallery.GalleryActivity.Destroy | app/src/main/java/com/bitifyware/zipviewer/GalleryActivity.java:205-216 | every shown bitmap ends up recycled, and the list is cleared |
| ImageEntries.ImageEntry.constructor | app/src/main/java/com/bitifyware/zipviewer/ImageEntry.java:15-18 | stores the name; both slots are empty and the entry is not loading |
| ImageEntries.ImageEntry.SetFileName | app/src/main/java/com/bitifyware/zipviewer/ImageEntry.java:24-26 | the getter returns the value set; only that field changes |
| ImageEntries.ImageEntry.SetFullBitmap | app/src/main/java/com/bitifyware/zipviewer/ImageEntry.java:32-34 | the getter returns the value set; `hasFullBitmap` holds exactly when it is non-null |
| ImageEntries.ImageEntry.SetThumbnail | app/src/main/java/com/bitifyware/zipviewer/ImageEntry.java:40-42 | the getter returns the value set; `hasThumbnail` holds exactly when it is non-null |
| ImageEntries.ImageEntry.SetThumbnailLoading | app/src/main/java/com/bitifyware/zipviewer/ImageEntry.java:48-50 | the getter returns the value set; only that field changes |
| ImageEntries.ImageEntry.SetFileSize | app/src/main/java/com/bitifyware/zipviewer/ImageEntry.java:56-58 | the getter returns the value set; only that field changes |
| ImageEntries.ImageEntry.Recycle | app/src/main/java/com/bitifyware/zipviewer/ImageEntry.java:75-84 | every bitmap the entry held is recycled afterwards; a slot with a live bitmap is cleared; a slot with an already recycled bitmap is kept, including the full slot when it shares the thumbnail's bitmap |
| ImageEntries.SharedSlotExample | app/src/main/java/com/bitifyware/zipviewer/ImageEntry.java:75-84 | one bitmap in both slots: after `recycle` the entry has no thumbnail but still reports a full bitmap, which is recycled |
| ViewerAdapter.ImageViewerAdapter.constructor | app/src/main/java/com/bitifyware/zipviewer/ImageViewerAdapter.java:40-51 | the entries are kept; all three maps start empty |
| ViewerAdapter.ImageViewerAdapter.ItemCount | app/src/main/java/com/bitifyware/zipviewer/ImageViewerAdapter.java:191-193 | one page per image entry |
| ViewerAdapter.ImageViewerAdapter.GetRotation | app/src/main/java/com/bitifyware/zipviewer/ImageViewerAdapter.java:237-240 | the saved rotation, or 0 when none is saved |
| ViewerAdapter.ImageViewerAdapter.SaveRotation | app/src/main/java/com/bitifyware/zipviewer/ImageViewerAdapter.java:207-218 | records the rotation; drops the position's rotated copy; other positions are unchanged; the copy is recycled exactly when it was live and a different loaded bitmap exists for the position |
| ViewerAdapter.ImageViewerAdapter.DisplayBitmap | app/src/main/java/com/bitifyware/zipviewer/ImageViewerAdapter.java:131-145 | with rotation 0 the bitmap itself is shown and nothing changes; otherwise the cached live copy is shown, or a new copy is cached and shown |
| ViewerAdapter.ImageViewerAdapter.OnBindViewHolder | app/src/main/java/com/bitifyware/zipviewer/ImageViewerAdapter.java:62-81 | shows the thumbnail if any; uses the cache exactly when a loaded bitmap is present and live, otherwise a load starts; with a rotation, a live cached rotated copy is reused and the cache is unchanged, and a missing or recycled one is replaced at that position only; with no load or no rotation the rotated cache is unchanged |
| ViewerAdapter.ImageViewerAdapter.LoadCompleted | app/src/main/java/com/bitifyware/zipviewer/ImageViewerAdapter.java:99-115 | a decoded bitmap is cached for the position; it is shown exactly when the page is still bound; when shown with a rotation, a live rotated copy is reused and a missing or recycled one is replaced at that position only; otherwise the rotated cache is unchanged |
| ViewerAdapter.ImageViewerAdapter.RecycleRotated | app/src/main/java/com/bitifyware/zipviewer/ImageViewerAdapter.java:250-261 | a rotated copy is recycled exactly when it was already recycled, or when it sits at a position whose loaded bitmap is a different object |
| ViewerAdapter.ImageViewerAdapter.RecycleLoaded | app/src/main/java/com/bitifyware/zipviewer/ImageViewerAdapter.java:264-269 | every loaded bitmap ends up recycled |
| ViewerAdapter.ImageViewerAdapter.Cleanup | app/src/main/java/com/bitifyware/zipviewer/ImageViewerAdapter.java:246-273 | all three maps are empty afterwards; every bitmap either cache held is recycled |
| Viewer.ToggleTwice | app/src/main/java/com/bitifyware/zipviewer/ImageViewerActivity.java:111-118 | the toggle never yields INVISIBLE; two toggles restore the state exactly when it was not INVISIBLE |
| Viewer.NextRotation | app/src/main/java/com/bitifyware/zipviewer/ImageViewerActivity.java:99 | a press adds 90 degrees modulo 360 and stays in {0, 90, 180, 270} |
| Viewer.Rotated | app/src/main/java/com/bitifyware/zipviewer/ImageViewerActivity.java:97-99 | any number of presses keeps the rotation in {0, 90, 180, 270} |
| Viewer.RotatedClosedForm | app/src/main/java/com/bitifyware/zipviewer/ImageViewerActivity.java:99 | after k presses the rotation is (r + 90k) mod 360 |
| Viewer.FourTurnsRestore | app/src/main/java/com/bitifyware/zipviewer/ImageViewerActivity.java:99 | four presses restore the rotation, and one to three presses do not |
| Viewer.IntToString | app/src/main/java/com/bitifyware/zipviewer/ImageViewerActivity.java:94 | a non-negative `int` gives digits without a leading zero that read back as the number; a negative one gives '-' followed by such digits for its magnitude |
| Viewer.CounterTextReadsBack | app/src/main/java/com/bitifyware/zipviewer/ImageViewerActivity.java:93-95 | the counter reads as the one-based page number, " / ", and the total |
| Viewer.ImageViewerActivity.constructor | app/src/main/java/com/bitifyware/zipviewer/ImageViewerActivity.java:56-70 | rotation starts at 0; a null or empty shared list finishes the activity before any adapter is set; otherwise the counter shows the requested page |
| Viewer.ImageViewerActivity.OnPageSelected | app/src/main/java/com/bitifyware/zipviewer/ImageViewerActivity.java:74-80 | the new page becomes current, rotation resets to 0, and the counter follows |
| Viewer.ImageViewerActivity.RotateCurrentImage | app/src/main/java/com/bitifyware/zipviewer/ImageViewerActivity.java:97-109 | one quarter turn more, and the rotation stays a quarter turn |
| Viewer.ImageViewerActivity.ToggleUI | app/src/main/java/com/bitifyware/zipviewer/ImageViewerActivity.java:111-118 | VISIBLE becomes GONE; any other state becomes VISIBLE |

## Left out

- Threads, executors and `runOnUiThread`. Each background job and its UI
  continuation are modelled as one sequential step. Races are not modelled:
  the worker thread's `HashMap` writes in `loadBitmapAsync`, and the
  check-then-copy in `openArchiveFile`.
- File I/O: `copyToInternalStorage`, `mkdirs`, `listFiles`, `delete`,
  `File.length` and `lastModified`. The directory is a set of names or a
  listing; deletion success is a parameter.
- zip4j and `BitmapFactory`. These are oracle parameters: encryption,
  `getFileHeaders`, per-entry streams and decoding, and the rotated copy
  from `Bitmap.createBitmap`. Closing streams is not modelled.
- `generateThumbnail` and `decodeSampledBitmap` depend on float scale factors
  and decoding. Only `calculateInSampleSize` is modelled, on a given
  `Bounds`.
- ArchiveItems.ArchiveItem.FormattedSize: the `%.1f` rendering of KB and MB
  is not modelled. The result gives the exact quotient instead.
- `getFormattedDate` uses `DateFormat` and is not modelled. The getters of
  `ArchiveItem` and `ImageEntry` are plain field reads of the class fields.
- Dialogs, toasts, layout managers, view-button colours, PhotoView zoom and
  double-tap, and system UI flags. `setRotation` on the page view appears
  only as the angle `RotateCurrentImage` returns.
- Intents and activity launches. A launch appears only as a
  `GalleryRequest` value (archive name and password). The archive path is
  not modelled. `onImageClick` only hands the list and the position to the
  viewer, and the viewer's constructor takes both as parameters.
- `ImageViewerActivity.java:65` builds the adapter from the bitmap list,
  but the adapter's constructor takes image entries. Each file is modelled
  on its own terms; the link between them is not modelled.
- ArchiveItems.ArchiveItem.IncrementViewCount: the `int` counter is an
  unbounded `nat`. Wrap-around after 2^31 − 1 clicks is not modelled.
- MainScreen.GenerateUniqueFileName: the `int` counter is unbounded. The
  counter never exceeds the directory size plus one.
- Viewer.CounterText: `position + 1` is not wrapped at 2^31 − 1.
- Thumbnails.CalculateInSampleSize requires a positive requested width or
  height, unless the bounds are already within the request (the source then
  returns 1). The excluded calls have both requests at most 0 and a bound
  beyond its request. In most of them the loop test holds for every power
  of two, because truncation only moves a quotient toward 0, so the `int`
  doubles until it overflows to 0 and the division throws. The rest have a
  halved bound below its request from the start, which needs a bound of -2
  or less, and there the source returns 1.
- Lower-casing is ASCII only. Java's `toLowerCase` is Unicode- and
  locale-aware.
- `PasswordManager` is an in-memory map. The asynchronous `apply()` of
  SharedPreferences is not modelled.
- Rotations in the adapter are whole degrees. The source stores them as
  `float`.
- ViewerAdapter.ImageViewerAdapter.LoadCompleted: a second load for the
  same position replaces the cached bitmap without recycling it, as the
  source does. The leaked bitmap is not tracked.
- Gallery.GalleryActivity.LoadImagesFromArchive: bitmaps decoded before an
  entry throws are dropped without recycling, as in the source. That leak is
  not tracked.
- `isEncrypted` throwing in the gallery is not a separate case. It reaches
  the same catch blocks as a failing header read, which the `read` oracle
  can return.
- `ArchiveAdapter.java` and `ImageAdapter.java` are not part of this model.
  They only bind views and forward clicks.

## Findings

| source | as written | input that shows it | evidently intended | confidence | as-written member | corrected member |
|---|---|---|---|---|---|---|
| app/src/main/java/com/bitifyware/zipviewer/MainActivity.java:342-350 | The name is only reduced with `new File(name).getName()`. | Last path segment "/" (a URI ending in `%2F`) gives the empty name. Last path segment ".." is kept as it is. | The comment at line 347 says the sanitising is meant to keep the file inside the archives directory. So the result should be a non-empty name other than "." or "..", and the fallback "archive_<millis>.zip" should be used otherwise. | medium; not executed | MainScreen.FileNameFromUriAsWritten, MainScreen.SlashSegmentSanitisesToEmpty, MainScreen.DotDotSegmentPassesThrough | MainScreen.FileNameFromUri |
| app/src/main/java/com/bitifyware/zipviewer/MainActivity.java:489-497 | After the prompt accepts a password, it saves the password and reloads the list, which creates new items. The retry then repeats `onArchiveClick` on the old item. That item never received the entered password. | An encrypted "a.zip" with no saved password, whose headers zip4j reads only with "secret". The user enters "secret". The retry reads the archive without a password and prompts again, at every attempt. | The retry should read the archive with the entered password and open the gallery with it. | low (the prompt repeats only if zip4j needs the password to read the headers, which is not part of this model); not executed | MainScreen.MainActivity.RetryAfterUnlock, MainScreen.StaleRetryExample | MainScreen.MainActivity.RetryAfterUnlockWithEnteredPassword |
