/**
 * MainActivity: importing an archive into the private archives directory
 * (name sanitising, collision-free renaming, the encrypted/shared decision),
 * listing and searching the imported archives, and the bookkeeping of
 * clicks, password prompts and deletion.
 *
 * The directory is a set of names (for renaming) or a listing of entries
 * (for reloading); whether zip4j finds the archive encrypted, whether it can
 * read the headers, and whether a file deletion succeeds are parameters.
 */
module MainScreen {
  import opened Common
  import opened Text
  import opened ArchiveItems
  import opened Passwords

  // ----- Names of imported files -----

  /** Drops trailing '/' characters, as java.io.File's path normalisation does. */
  function StripTrailingSlashes(s: string): (r: string)
    ensures |r| <= |s| && r == s[..|r|]
    ensures r == [] || r[|r| - 1] != '/'
    ensures forall i :: |r| <= i < |s| ==> s[i] == '/'
  {
    if s != [] && s[|s| - 1] == '/' then StripTrailingSlashes(s[..|s| - 1]) else s
  }

  /**
   * `new File(path).getName()` for a Unix path: the last non-empty segment.
   * It is empty exactly when the path consists of slashes only.
   */
  function BaseName(path: string): (r: string)
    ensures '/' !in r
    ensures '/' !in path ==> r == path
    ensures r == [] <==> forall i :: 0 <= i < |path| ==> path[i] == '/'
    ensures var t := StripTrailingSlashes(path);
            |r| <= |t| && r == t[|t| - |r|..] && (|r| == |t| || t[|t| - |r| - 1] == '/')
  {
    var t := StripTrailingSlashes(path);
    t[LastIndexOf(t, '/') + 1..]
  }

  /** The name used when the URI has no last path segment: "archive_<millis>.zip". */
  function FallbackName(millis: nat): string
  {
    "archive_" + NatToString(millis) + ".zip"
  }

  lemma FallbackNameHasNoSlash(millis: nat)
    ensures '/' !in FallbackName(millis)
    ensures |FallbackName(millis)| > 12
  {
    var digits := NatToString(millis);
    assert FallbackName(millis) == "archive_" + digits + ".zip";
  }

  /**
   * `getFileNameFromUri` as written (lines 342-350): the last path segment,
   * or the fallback name when it is null or empty, then reduced to
   * `new File(name).getName()`.
   */
  function FileNameFromUriAsWritten(lastSegment: Option<string>, millis: nat): (r: string)
    ensures '/' !in r
    ensures lastSegment.None? || lastSegment.value == [] ==> r == FallbackName(millis)
    ensures lastSegment.Some? && lastSegment.value != [] ==> r == BaseName(lastSegment.value)
    ensures lastSegment.Some? && '/' !in lastSegment.value && lastSegment.value != [] ==>
              r == lastSegment.value
  {
    FallbackNameHasNoSlash(millis);
    var fileName := if lastSegment.None? || lastSegment.value == [] then FallbackName(millis) else lastSegment.value;
    BaseName(fileName)
  }

  /** A decoded last segment "/" (the URI path ".../%2F") sanitises to the empty name. */
  lemma SlashSegmentSanitisesToEmpty(millis: nat)
    ensures FileNameFromUriAsWritten(Some("/"), millis) == ""
  {
    assert StripTrailingSlashes("/") == "";
  }

  /** A last segment ".." passes the sanitising unchanged, naming the parent of the archives directory. */
  lemma DotDotSegmentPassesThrough(millis: nat)
    ensures FileNameFromUriAsWritten(Some(".."), millis) == ".."
  {
    assert '/' !in "..";
    assert BaseName("..") == "..";
  }

  /** A name that denotes an entry inside the archives directory. */
  predicate UsableName(name: string)
  {
    name != [] && name != "." && name != ".." && '/' !in name
  }

  lemma FallbackNameUsable(millis: nat)
    ensures UsableName(FallbackName(millis))
  {
    FallbackNameHasNoSlash(millis);
    assert |FallbackName(millis)| > 2;
  }

  /**
   * `getFileNameFromUri` as its comment intends: a non-empty name of an
   * entry inside the archives directory, keeping a usable segment as it is
   * and falling back to "archive_<millis>.zip" otherwise.
   */
  function FileNameFromUri(lastSegment: Option<string>, millis: nat): (r: string)
    ensures UsableName(r)
    ensures lastSegment.Some? && UsableName(lastSegment.value) ==> r == lastSegment.value
    ensures lastSegment.Some? && lastSegment.value != [] && UsableName(BaseName(lastSegment.value)) ==>
              r == BaseName(lastSegment.value)
    ensures lastSegment.Some? && lastSegment.value != [] && !UsableName(BaseName(lastSegment.value)) ==>
              r == FallbackName(millis)
    ensures lastSegment.None? || lastSegment.value == [] ==> r == FallbackName(millis)
  {
    FallbackNameUsable(millis);
    var name := FileNameFromUriAsWritten(lastSegment, millis);
    if UsableName(name) then name else FallbackName(millis)
  }

  /**
   * The split of lines 401-407: when the last '.' is neither the first nor
   * the last character, the extension is the text from that dot on;
   * otherwise there is no extension.
   */
  function SplitExtension(fileName: string): (r: (string, string))
    ensures r.0 + r.1 == fileName
    ensures r.1 != [] ==> r.0 != [] && |r.1| >= 2 && r.1[0] == '.' && '.' !in r.1[1..]
  {
    var lastDotIndex := LastIndexOf(fileName, '.');
    if 0 < lastDotIndex < |fileName| - 1 then
      var r := (fileName[..lastDotIndex], fileName[lastDotIndex..]);
      assert fileName[lastDotIndex] == '.';
      assert '.' !in r.1[1..] by {
        forall k | 0 <= k < |r.1[1..]| ensures r.1[1..][k] != '.' {
          assert r.1[1..][k] == fileName[lastDotIndex + 1 + k];
        }
      }
      r
    else
      (fileName, "")
  }

  /** There is an extension exactly when the last '.' is neither the first nor the last character. */
  lemma SplitExtensionFindsLastDot(fileName: string)
    ensures SplitExtension(fileName).1 != [] <==>
              exists i :: 0 < i < |fileName| - 1 && fileName[i] == '.'
                          && forall j :: i < j < |fileName| ==> fileName[j] != '.'
  {
    var lastDotIndex := LastIndexOf(fileName, '.');
    if 0 < lastDotIndex < |fileName| - 1 {
      assert fileName[lastDotIndex] == '.';
    } else {
      forall i | 0 < i < |fileName| - 1 && fileName[i] == '.'
        ensures exists j :: i < j < |fileName| && fileName[j] == '.'
      {
        assert fileName[lastDotIndex] == '.';
      }
    }
  }

  /** "a.tar.gz" splits before ".gz"; a leading, a trailing or no dot leaves the name whole. */
  lemma SplitExtensionExamples()
    ensures SplitExtension("a.tar.gz") == ("a.tar", ".gz")
    ensures SplitExtension(".bashrc") == (".bashrc", "")
    ensures SplitExtension("notes.") == ("notes.", "")
    ensures SplitExtension("README") == ("README", "")
  {
    assert "a.tar.gz"[5] == '.' && "a.tar.gz"[6] != '.' && "a.tar.gz"[7] != '.';
    assert LastIndexOf("a.tar.gz", '.') == 5;
    assert "a.tar.gz"[..5] == "a.tar" && "a.tar.gz"[5..] == ".gz";
    assert ".bashrc"[0] == '.';
    assert "notes."[5] == '.';
  }

  /** The name with counter n: " (n)" inserted before the extension (line 413). */
  function Candidate(fileName: string, n: nat): string
  {
    var (nameWithoutExt, extension) := SplitExtension(fileName);
    nameWithoutExt + " (" + NatToString(n) + ")" + extension
  }

  /** The k-th name `generateUniqueFileName` tries: the name itself, then counters 1, 2, 3, ... */
  function Attempt(fileName: string, k: nat): string
  {
    if k == 0 then fileName else Candidate(fileName, k)
  }

  /** The counter's digits sit right after the " (" that follows the base name. */
  lemma DigitsInCandidate(base: string, digits: string, ext: string)
    ensures var c := base + " (" + digits + ")" + ext;
            |c| == |base| + |digits| + 3 + |ext| && c[|base| + 2..|base| + 2 + |digits|] == digits
  {
    var c := base + " (" + digits + ")" + ext;
    assert c == (base + " (" + digits) + (")" + ext);
    assert (base + " (" + digits)[|base| + 2..] == digits;
  }

  /** Different counters give different names, and none of them is the original name. */
  lemma AttemptInjective(fileName: string, j: nat, k: nat)
    requires Attempt(fileName, j) == Attempt(fileName, k)
    ensures j == k
  {
    var (base, ext) := SplitExtension(fileName);
    var x, y := NatToString(j), NatToString(k);
    if j != 0 {
      DigitsInCandidate(base, x, ext);
      assert Attempt(fileName, j) == base + " (" + x + ")" + ext;
    }
    if k != 0 {
      DigitsInCandidate(base, y, ext);
      assert Attempt(fileName, k) == base + " (" + y + ")" + ext;
    }
    if j != 0 && k != 0 {
      NatToStringInjective(j, k);
    }
  }

  /** The first k names tried. */
  ghost function Tried(fileName: string, k: nat): set<string>
  {
    if k == 0 then {} else Tried(fileName, k - 1) + {Attempt(fileName, k - 1)}
  }

  lemma {:induction false} NotYetTried(fileName: string, k: nat, j: nat)
    requires k <= j
    ensures Attempt(fileName, j) !in Tried(fileName, k)
  {
    if k > 0 {
      NotYetTried(fileName, k - 1, j);
      if Attempt(fileName, j) == Attempt(fileName, k - 1) {
        AttemptInjective(fileName, j, k - 1);
      }
    }
  }

  /** The first n names tried are exactly the names with counters below n. */
  lemma {:induction false} TriedHolds(fileName: string, n: nat)
    ensures forall k: nat :: k < n ==> Attempt(fileName, k) in Tried(fileName, n)
  {
    if n > 0 {
      TriedHolds(fileName, n - 1);
    }
  }

  /** A turn of the loop tries one more taken name, which it had not tried yet. */
  lemma TriedStep(fileName: string, existing: set<string>, c: nat)
    requires Tried(fileName, c) <= existing && Attempt(fileName, c) in existing
    ensures Tried(fileName, c + 1) <= existing
    ensures existing - Tried(fileName, c + 1) < existing - Tried(fileName, c)
  {
    NotYetTried(fileName, c, c);
    assert Attempt(fileName, c) in existing - Tried(fileName, c);
  }

  /** Inserting " (n)" keeps a usable name usable. */
  lemma CandidateUsable(fileName: string, n: nat)
    requires UsableName(fileName)
    ensures UsableName(Candidate(fileName, n))
  {
    var (base, ext) := SplitExtension(fileName);
    var digits := NatToString(n);
    var c := Candidate(fileName, n);
    assert c == base + " (" + digits + ")" + ext;
    forall i | 0 <= i < |c|
      ensures c[i] != '/'
    {
      if i < |base| {
        assert c[i] == fileName[i];
      } else if |base| + 2 <= i < |base| + 2 + |digits| {
        assert c[i] == digits[i - |base| - 2];
      } else if i > |base| + 2 + |digits| {
        assert c[i] == fileName[i - 3 - |digits|];
      }
    }
  }

  /** Every name `generateUniqueFileName` tries for a usable name is usable. */
  lemma AttemptUsable(fileName: string, k: nat)
    requires UsableName(fileName)
    ensures UsableName(Attempt(fileName, k))
  {
    if k > 0 {
      CandidateUsable(fileName, k);
    }
  }

  /**
   * `name` is the first name of the sequence "name", "base (1).ext",
   * "base (2).ext", ... that is not in `existing`.
   */
  ghost predicate IsFirstFree(fileName: string, existing: set<string>, name: string)
  {
    name !in existing
    && exists n: nat :: name == Attempt(fileName, n) && forall k: nat :: k < n ==> Attempt(fileName, k) in existing
  }

  /** When all earlier attempts are taken and the n-th is not, the n-th is the first free one. */
  lemma FirstFreeAt(fileName: string, existing: set<string>, n: nat)
    requires Tried(fileName, n) <= existing && Attempt(fileName, n) !in existing
    ensures IsFirstFree(fileName, existing, Attempt(fileName, n))
  {
    TriedHolds(fileName, n);
  }

  /** There is only one first free name, so "keep both" is determined by the directory. */
  lemma FirstFreeUnique(fileName: string, existing: set<string>, a: string, b: string)
    requires IsFirstFree(fileName, existing, a) && IsFirstFree(fileName, existing, b)
    ensures a == b
  {
    var n: nat :| a == Attempt(fileName, n) && forall k: nat :: k < n ==> Attempt(fileName, k) in existing;
    var m: nat :| b == Attempt(fileName, m) && forall k: nat :: k < m ==> Attempt(fileName, k) in existing;
  }

  /**
   * `generateUniqueFileName` against the names already in the archives
   * directory: the first name of the sequence "name", "base (1).ext",
   * "base (2).ext", ... that is free. The loop ends because each turn tries
   * a name not tried before and the directory is finite.
   */
  method GenerateUniqueFileName(fileName: string, existing: set<string>) returns (newFileName: string)
    ensures newFileName !in existing
    ensures fileName !in existing ==> newFileName == fileName
    ensures IsFirstFree(fileName, existing, newFileName)
    ensures UsableName(fileName) ==> UsableName(newFileName)
  {
    var (nameWithoutExt, extension) := SplitExtension(fileName);

    var counter: nat := 1;
    newFileName := fileName;
    while newFileName in existing
      invariant counter >= 1
      invariant newFileName == Attempt(fileName, counter - 1)
      invariant Tried(fileName, counter - 1) <= existing
      invariant UsableName(fileName) ==> UsableName(newFileName)
      decreases existing - Tried(fileName, counter - 1)
    {
      TriedStep(fileName, existing, counter - 1);
      if UsableName(fileName) {
        AttemptUsable(fileName, counter);
      }
      assert Attempt(fileName, counter) == nameWithoutExt + " (" + NatToString(counter) + ")" + extension;
      newFileName := nameWithoutExt + " (" + NatToString(counter) + ")" + extension;
      counter := counter + 1;
    }
    FirstFreeAt(fileName, existing, counter - 1);
  }

  /** How the file-exists dialog was answered. */
  datatype ExistsChoice = Override | KeepBoth | Dismissed

  /**
   * The file-exists dialog of `openArchiveFile` (lines 137-163 and 355-392):
   * a free name is used as it is; for a taken name, "override" reuses it,
   * "keep both" picks the first free numbered name, and dismissing the
   * dialog imports nothing. A usable name only ever leads to usable names.
   */
  method ImportTargetName(fileName: string, existing: set<string>, choice: ExistsChoice)
    returns (target: Option<string>)
    ensures fileName !in existing ==> target == Some(fileName)
    ensures fileName in existing ==>
              (target.None? <==> choice == Dismissed)
              && (choice == Override ==> target == Some(fileName))
              && (choice == KeepBoth ==> target.Some? && IsFirstFree(fileName, existing, target.value))
    ensures target.Some? ==> target.value == fileName || IsFirstFree(fileName, existing, target.value)
    ensures UsableName(fileName) && target.Some? ==> UsableName(target.value)
  {
    if fileName !in existing {
      target := Some(fileName);
    } else if choice == Override {
      target := Some(fileName);
    } else if choice == KeepBoth {
      var unique := GenerateUniqueFileName(fileName, existing);
      target := Some(unique);
    } else {
      target := None;
    }
  }

  /**
   * `openArchiveFile` from the URI's last path segment to the name the copy
   * is stored under, using the intended `getFileNameFromUri`: whatever is
   * imported is a usable name inside the archives directory.
   */
  method ImportFromUri(lastSegment: Option<string>, millis: nat, existing: set<string>, choice: ExistsChoice)
    returns (target: Option<string>)
    ensures target.Some? ==> UsableName(target.value)
    ensures FileNameFromUri(lastSegment, millis) !in existing ==> target == Some(FileNameFromUri(lastSegment, millis))
    ensures FileNameFromUri(lastSegment, millis) in existing ==>
              (target.None? <==> choice == Dismissed)
              && (choice == Override ==> target == Some(FileNameFromUri(lastSegment, millis)))
              && (choice == KeepBoth ==> target.Some? && IsFirstFree(FileNameFromUri(lastSegment, millis), existing, target.value))
  {
    target := ImportTargetName(FileNameFromUri(lastSegment, millis), existing, choice);
  }

  // ----- What to do with a freshly copied archive -----

  /** The four branches of `checkAndPromptForPassword` (lines 185-206). */
  datatype ImportAction =
    | PromptThenOpen  // promptForPasswordAndOpen
    | PromptOnly      // promptForPassword(name, null)
    | AddAndOpen      // "Archive added", then openGallery(file, null)
    | AddOnly         // "Archive added"
  {
    predicate Prompts() { this == PromptThenOpen || this == PromptOnly }
    predicate Opens() { this == PromptThenOpen || this == AddAndOpen }
  }

  /**
   * The decision for an imported archive: prompt for a password exactly when
   * zip4j reports it encrypted (a failed check counts as not encrypted), and
   * open the gallery exactly when the file came from another app.
   */
  function ImportDecision(encrypted: Option<bool>, fromSharedIntent: bool): (a: ImportAction)
    ensures a.Prompts() <==> encrypted == Some(true)
    ensures a.Opens() <==> fromSharedIntent
  {
    match encrypted
    case Some(true) => if fromSharedIntent then PromptThenOpen else PromptOnly
    case Some(false) => if fromSharedIntent then AddAndOpen else AddOnly
    case None => if fromSharedIntent then AddAndOpen else AddOnly
  }

  /** The extras of the intent that starts the gallery. */
  datatype GalleryRequest = GalleryRequest(archiveName: string, password: Option<string>)

  /** What `onArchiveClick` ends in: the gallery, or the password prompt whose success retries the click. */
  datatype AfterClick = LaunchGallery(request: GalleryRequest) | PromptWithRetry(fileName: string)

  /** `applied` is the password handed to zip4j before reading the headers, if any. */
  datatype ClickOutcome = ClickOutcome(applied: Option<string>, next: AfterClick)

  // ----- The archive list -----

  /** The regular files of a listing, in listing order; a missing directory or failed listing gives none. */
  function RegularFiles(files: seq<FileInfo>): (r: seq<FileInfo>)
    ensures |r| <= |files|
  {
    if files == [] then []
    else RegularFiles(files[..|files| - 1]) + (if files[|files| - 1].isFile then [files[|files| - 1]] else [])
  }

  /** The listing keeps exactly the regular files. */
  lemma {:induction false} RegularFilesMembers(files: seq<FileInfo>, f: FileInfo)
    ensures f in RegularFiles(files) <==> f in files && f.isFile
  {
    if files != [] {
      RegularFilesMembers(files[..|files| - 1], f);
      assert files == files[..|files| - 1] + [files[|files| - 1]];
    }
  }

  /** The listing keeps the regular files in the order the directory listed them. */
  lemma {:induction false} RegularFilesIsSubsequence(files: seq<FileInfo>)
    ensures IsSubsequence(RegularFiles(files), files)
  {
    if files != [] {
      var init := files[..|files| - 1];
      RegularFilesIsSubsequence(init);
      var r := RegularFiles(files);
      if files[|files| - 1].isFile {
        assert r == RegularFiles(init) + [files[|files| - 1]];
        assert r[..|r| - 1] == RegularFiles(init);
        assert r[|r| - 1] == files[|files| - 1];
      } else {
        assert r == RegularFiles(init);
      }
    }
  }

  /** The regular files of a listing, or none when the directory could not be listed. */
  function Listed(listing: Option<seq<FileInfo>>): seq<FileInfo>
  {
    if listing.Some? then RegularFiles(listing.value) else []
  }

  /** The search test of `filterArchives`: the lower-cased name contains the lower-cased query. */
  predicate Matches(item: ArchiveItem, query: string)
  {
    Contains(Lower(item.name), Lower(query))
  }

  /** The archives that match `query`, in list order. */
  function Filtered(items: seq<ArchiveItem>, query: string): seq<ArchiveItem>
  {
    if items == [] then []
    else Filtered(items[..|items| - 1], query)
         + (if Matches(items[|items| - 1], query) then [items[|items| - 1]] else [])
  }

  /** The empty query keeps every archive, in order. */
  lemma {:induction false} FilteredByEmptyQuery(items: seq<ArchiveItem>)
    ensures Filtered(items, []) == items
  {
    if items != [] {
      FilteredByEmptyQuery(items[..|items| - 1]);
      assert OccursAt(Lower(items[|items| - 1].name), Lower([]), 0);
    }
  }

  /** An archive is kept exactly when it is in the list and matches. */
  lemma {:induction false} FilteredMembers(items: seq<ArchiveItem>, query: string, x: ArchiveItem)
    ensures x in Filtered(items, query) <==> x in items && Matches(x, query)
  {
    if items != [] {
      FilteredMembers(items[..|items| - 1], query, x);
      assert items == items[..|items| - 1] + [items[|items| - 1]];
    }
  }

  /** The kept archives are a subsequence of the list: their order is the list's. */
  lemma {:induction false} FilteredIsSubsequence(items: seq<ArchiveItem>, query: string)
    ensures IsSubsequence(Filtered(items, query), items)
  {
    if items != [] {
      var init := items[..|items| - 1];
      FilteredIsSubsequence(init, query);
      var r := Filtered(items, query);
      assert items[..|items| - 1] == init;
      if Matches(items[|items| - 1], query) {
        assert r == Filtered(init, query) + [items[|items| - 1]];
        assert r[..|r| - 1] == Filtered(init, query);
        assert r[|r| - 1] == items[|items| - 1];
      } else {
        assert r == Filtered(init, query);
      }
    }
  }

  /** Filtering a list made of two parts filters each part in turn. */
  lemma {:induction false} FilteredConcat(a: seq<ArchiveItem>, b: seq<ArchiveItem>, query: string)
    ensures Filtered(a + b, query) == Filtered(a, query) + Filtered(b, query)
    decreases |b|
  {
    if b == [] {
      assert a + b == a;
    } else {
      var b' := b[..|b| - 1];
      FilteredConcat(a, b', query);
      assert (a + b)[..|a + b| - 1] == a + b';
    }
  }

  class MainActivity {
    /** Every archive of the archives directory, in listing order. */
    var archives: seq<ArchiveItem>
    /** What the list shows: the archives matching the search bar. */
    var filteredArchives: seq<ArchiveItem>
    /** The search bar's text. */
    var query: string
    const passwordManager: PasswordManager

    /**
     * The archive list has one fresh item per regular file of `files`, in
     * order, with the file's name, size and date, view count 0 and the
     * stored password, if any.
     */
    ghost predicate Lists(files: seq<FileInfo>)
      reads this, archives, passwordManager
    {
      && |archives| == |files|
      && forall k :: 0 <= k < |archives| ==>
           && archives[k].file == files[k]
           && archives[k].name == files[k].name
           && archives[k].size == files[k].length
           && archives[k].date == files[k].lastModified
           && archives[k].viewCount == 0
           && archives[k].password == passwordManager.GetPassword(files[k].name)
    }

    /** The state `loadArchives` leaves behind for `listing`. */
    ghost predicate Loaded(listing: Option<seq<FileInfo>>)
      reads this, archives, passwordManager
    {
      Lists(Listed(listing)) && filteredArchives == Filtered(archives, query)
    }

    /** `onCreate`: empty lists, the password store, an empty search bar, then `loadArchives`. */
    constructor (stored: map<string, string>, listing: Option<seq<FileInfo>>)
      ensures fresh(passwordManager) && passwordManager.prefs == stored
      ensures query == []
      ensures Loaded(listing)
      ensures forall k :: 0 <= k < |archives| ==> fresh(archives[k])
    {
      archives := [];
      filteredArchives := [];
      query := [];
      passwordManager := new PasswordManager(stored);
      new;
      LoadArchives(listing);
    }

    /** One regular file of the listing as a new item, with its stored password if there is one. */
    method NewArchiveItem(f: FileInfo) returns (item: ArchiveItem)
      ensures fresh(item)
      ensures item.file == f && item.name == f.name && item.viewCount == 0
      ensures item.size == f.length && item.date == f.lastModified
      ensures item.password == passwordManager.GetPassword(f.name)
    {
      item := new ArchiveItem(f);
      var password := passwordManager.GetPassword(f.name);
      if password.Some? {
        item.SetPassword(password);
      }
    }

    /**
     * `loadArchives`: rebuilds the list from the directory listing, one new
     * item per regular file carrying its stored password (so view counts
     * start again from 0), then re-applies the search.
     */
    method LoadArchives(listing: Option<seq<FileInfo>>)
      modifies this`archives, this`filteredArchives
      ensures Loaded(listing)
      ensures forall k :: 0 <= k < |archives| ==> fresh(archives[k])
    {
      archives := [];
      if listing.Some? {
        var files := listing.value;
        var i := 0;
        while i < |files|
          invariant 0 <= i <= |files|
          invariant Lists(RegularFiles(files[..i]))
          invariant forall k :: 0 <= k < |archives| ==> fresh(archives[k])
        {
          assert files[..i + 1][..i] == files[..i];
          assert RegularFiles(files[..i + 1]) == RegularFiles(files[..i]) + if files[i].isFile then [files[i]] else [];
          if files[i].isFile {
            var item := NewArchiveItem(files[i]);
            archives := archives + [item];
          }
          i := i + 1;
        }
        assert files[..i] == files;
      }
      FilterArchives(query);
    }

    /**
     * `filterArchives`: the empty query shows every archive; otherwise the
     * archives whose lower-cased name contains the lower-cased query, in
     * list order.
     */
    method FilterArchives(q: string)
      modifies this`filteredArchives
      ensures filteredArchives == Filtered(archives, q)
    {
      filteredArchives := [];
      if q == [] {
        filteredArchives := filteredArchives + archives;
        FilteredByEmptyQuery(archives);
      } else {
        var lowerQuery := Lower(q);
        var i := 0;
        while i < |archives|
          invariant 0 <= i <= |archives|
          invariant filteredArchives == Filtered(archives[..i], q)
        {
          assert archives[..i + 1][..i] == archives[..i];
          if Contains(Lower(archives[i].name), lowerQuery) {
            filteredArchives := filteredArchives + [archives[i]];
          }
          i := i + 1;
        }
        assert archives[..i] == archives;
      }
    }

    /** The search bar's text watcher. */
    method OnQueryChanged(q: string)
      modifies this`query, this`filteredArchives
      ensures query == q && filteredArchives == Filtered(archives, q)
    {
      query := q;
      FilterArchives(q);
    }

    /**
     * `checkAndPromptForPassword` once zip4j has answered (`None`: the check
     * threw): the added branches reload the list, the prompting branches
     * leave it to the prompt, and only AddAndOpen starts the gallery here,
     * without a password.
     */
    method CheckAndPromptForPassword(archive: FileInfo, fromSharedIntent: bool, encrypted: Option<bool>,
                                     listing: Option<seq<FileInfo>>)
      returns (action: ImportAction, launch: Option<GalleryRequest>)
      modifies this`archives, this`filteredArchives
      ensures action == ImportDecision(encrypted, fromSharedIntent)
      ensures launch.Some? <==> action == AddAndOpen
      ensures launch.Some? ==> launch.value == GalleryRequest(archive.name, None)
      ensures !action.Prompts() ==> Loaded(listing)
      ensures action.Prompts() ==> archives == old(archives) && filteredArchives == old(filteredArchives)
    {
      action := ImportDecision(encrypted, fromSharedIntent);
      launch := None;
      if !action.Prompts() {
        LoadArchives(listing);
        if action == AddAndOpen {
          launch := Some(GalleryRequest(archive.name, None));
        }
      }
    }

    /**
     * The Unlock button of `promptForPassword` (lines 291-304): an empty
     * entry is refused and nothing changes; otherwise the password is saved
     * under the archive's name and the list is reloaded.
     */
    method Unlock(fileName: string, entered: string, listing: Option<seq<FileInfo>>) returns (accepted: bool)
      modifies this`archives, this`filteredArchives, passwordManager
      ensures accepted <==> entered != []
      ensures accepted ==> passwordManager.prefs == old(passwordManager.prefs)[fileName := entered]
      ensures accepted ==> Loaded(listing) && forall k :: 0 <= k < |archives| ==> fresh(archives[k])
      ensures !accepted ==> passwordManager.prefs == old(passwordManager.prefs)
                            && archives == old(archives) && filteredArchives == old(filteredArchives)
    {
      accepted := entered != [];
      if accepted {
        passwordManager.SavePassword(fileName, entered);
        LoadArchives(listing);
      }
    }

    /**
     * The Unlock button of `promptForPasswordAndOpen` (lines 241-253): as
     * `Unlock`, and an accepted password also opens the gallery with it.
     */
    method UnlockAndOpen(fileName: string, entered: string, listing: Option<seq<FileInfo>>)
      returns (launch: Option<GalleryRequest>)
      modifies this`archives, this`filteredArchives, passwordManager
      ensures launch.Some? <==> entered != []
      ensures launch.Some? ==> launch.value == GalleryRequest(fileName, Some(entered))
      ensures launch.Some? ==> passwordManager.prefs == old(passwordManager.prefs)[fileName := entered]
      ensures launch.Some? ==> Loaded(listing)
      ensures launch.None? ==> passwordManager.prefs == old(passwordManager.prefs)
                               && archives == old(archives) && filteredArchives == old(filteredArchives)
    {
      var accepted := Unlock(fileName, entered, listing);
      launch := if accepted then Some(GalleryRequest(fileName, Some(entered))) else None;
    }

    /** The Cancel button of either password prompt: dismiss and reload. */
    method CancelPrompt(listing: Option<seq<FileInfo>>)
      modifies this`archives, this`filteredArchives
      ensures Loaded(listing)
    {
      LoadArchives(listing);
    }

    /**
     * `onArchiveClick`: one more view on the clicked item; the item's
     * password goes to zip4j only for an encrypted archive and only when it
     * is non-empty; if the headers can then be read the gallery opens with
     * the item's password, otherwise (or when the encryption check throws)
     * the password prompt appears and its success repeats the click.
     */
    method OnArchiveClick(item: ArchiveItem, encrypted: Option<bool>, readable: Option<string> -> bool)
      returns (outcome: ClickOutcome)
      modifies item`viewCount
      ensures item.viewCount == old(item.viewCount) + 1
      ensures outcome.applied.Some? <==> encrypted == Some(true) && item.HasPassword()
      ensures outcome.applied.Some? ==> outcome.applied == item.password
      ensures outcome.next.LaunchGallery? <==> encrypted.Some? && readable(outcome.applied)
      ensures outcome.next.LaunchGallery? ==> outcome.next.request == GalleryRequest(item.name, item.password)
      ensures outcome.next.PromptWithRetry? ==> outcome.next.fileName == item.name
    {
      item.IncrementViewCount();
      var applied: Option<string> := None;
      if encrypted.None? {
        outcome := ClickOutcome(applied, PromptWithRetry(item.name));
      } else {
        if encrypted.value && item.HasPassword() {
          applied := item.GetPassword();
        }
        if readable(applied) {
          outcome := ClickOutcome(applied, LaunchGallery(GalleryRequest(item.name, item.GetPassword())));
        } else {
          outcome := ClickOutcome(applied, PromptWithRetry(item.name));
        }
      }
    }

    /**
     * The retry of lines 489-497 as written: the prompt saves the password
     * and reloads the list, which replaces every item object, and then
     * repeats the click on the item that was clicked before. That item's
     * password field never receives the entered password, so the retry
     * hands zip4j the old password (or none) and the gallery gets it too.
     */
    method RetryAfterUnlock(item: ArchiveItem, entered: string, listing: Option<seq<FileInfo>>,
                            encrypted: Option<bool>, readable: Option<string> -> bool)
      returns (outcome: Option<ClickOutcome>)
      modifies this`archives, this`filteredArchives, passwordManager, item`viewCount
      ensures outcome.Some? <==> entered != []
      ensures outcome.Some? ==> item.password == old(item.password)
      ensures outcome.Some? && outcome.value.applied.Some? ==> outcome.value.applied == old(item.password)
      ensures outcome.Some? && old(item.password) == None ==> outcome.value.applied == None
      ensures outcome.Some? ==>
                outcome.value.next == if encrypted.Some? && readable(outcome.value.applied)
                                      then LaunchGallery(GalleryRequest(item.name, old(item.password)))
                                      else PromptWithRetry(item.name)
    {
      var accepted := Unlock(item.name, entered, listing);
      if accepted {
        var o := OnArchiveClick(item, encrypted, readable);
        outcome := Some(o);
      } else {
        outcome := None;
      }
    }

    /**
     * The retry as intended: the clicked item takes the entered password
     * before the click is repeated, so an encrypted archive is read with it
     * and the gallery receives it.
     */
    method RetryAfterUnlockWithEnteredPassword(item: ArchiveItem, entered: string, listing: Option<seq<FileInfo>>,
                                               encrypted: Option<bool>, readable: Option<string> -> bool)
      returns (outcome: Option<ClickOutcome>)
      modifies this`archives, this`filteredArchives, passwordManager, item`viewCount, item`password
      ensures outcome.Some? <==> entered != []
      ensures outcome.Some? ==> passwordManager.prefs == old(passwordManager.prefs)[item.name := entered]
      ensures outcome.Some? && encrypted == Some(true) ==> outcome.value.applied == Some(entered)
      ensures outcome.Some? ==>
                outcome.value.next == if encrypted.Some? && readable(outcome.value.applied)
                                      then LaunchGallery(GalleryRequest(item.name, Some(entered)))
                                      else PromptWithRetry(item.name)
    {
      var accepted := Unlock(item.name, entered, listing);
      if accepted {
        item.SetPassword(Some(entered));
        var o := OnArchiveClick(item, encrypted, readable);
        outcome := Some(o);
      } else {
        outcome := None;
      }
    }

    /**
     * The Delete button of `onDeleteClick`: only when the file was deleted
     * is its stored password removed and the list reloaded; otherwise
     * nothing changes.
     */
    method ConfirmDelete(item: ArchiveItem, deleted: bool, listing: Option<seq<FileInfo>>)
      modifies this`archives, this`filteredArchives, passwordManager
      ensures deleted ==> passwordManager.prefs == old(passwordManager.prefs) - {item.name}
      ensures deleted ==> Loaded(listing)
      ensures !deleted ==> passwordManager.prefs == old(passwordManager.prefs)
                           && archives == old(archives) && filteredArchives == old(filteredArchives)
    {
      if deleted {
        passwordManager.RemovePassword(item.name);
        LoadArchives(listing);
      }
    }
  }

  /**
   * An encrypted "a.zip" without a saved password whose headers zip4j reads
   * only with "secret": after the user enters "secret", the retry still
   * reads it without a password and prompts again; with the correction it
   * opens the gallery with "secret".
   */
  method StaleRetryExample()
  {
    var file := FileInfo("a.zip", 10, 0, true);
    var readable := (p: Option<string>) => p == Some("secret");

    var screen := new MainActivity(map[], Some([file]));
    var item := new ArchiveItem(file);
    var outcome := screen.RetryAfterUnlock(item, "secret", Some([file]), Some(true), readable);
    assert outcome == Some(ClickOutcome(None, PromptWithRetry("a.zip")));

    var screen' := new MainActivity(map[], Some([file]));
    var item' := new ArchiveItem(file);
    var outcome' := screen'.RetryAfterUnlockWithEnteredPassword(item', "secret", Some([file]), Some(true), readable);
    assert outcome' == Some(ClickOutcome(Some("secret"), LaunchGallery(GalleryRequest("a.zip", Some("secret")))));
  }
}
