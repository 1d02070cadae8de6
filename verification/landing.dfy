/** The landing page: a prompt, a list of selected files, image previews,
    the guard on the submit button, and deletion of a preview. */
module Landing {
  import opened Common

  /** A selected file: its name and its MIME type (`File.type`). */
  datatype File = File(name: string, mimeType: string)

  predicate StartsWith(s: string, prefix: string)
  {
    |prefix| <= |s| && s[..|prefix|] == prefix
  }

  /** `file.type.startsWith('image/')`. */
  predicate IsImage(f: File)
  {
    StartsWith(f.mimeType, "image/")
  }

  // ---------------------------------------------------------------------
  // String.prototype.trim
  // ---------------------------------------------------------------------

  /** The code points ECMAScript's `trim` removes: WhiteSpace (tab, vertical
      tab, form feed, space, no-break space, byte order mark and the Zs
      category) and LineTerminator (LF, CR, U+2028, U+2029). */
  predicate IsWhiteSpace(c: char)
  {
    var n := c as int;
    (0x09 <= n <= 0x0D) || n == 0x20 || n == 0xA0 || n == 0x1680
    || (0x2000 <= n <= 0x200A) || n == 0x2028 || n == 0x2029
    || n == 0x202F || n == 0x205F || n == 0x3000 || n == 0xFEFF
  }

  predicate AllWhiteSpace(s: string)
  {
    forall i :: 0 <= i < |s| ==> IsWhiteSpace(s[i])
  }

  /** Leading white space removed. */
  function TrimStart(s: string): (r: string)
    ensures |r| <= |s| && r == s[|s| - |r|..]
    ensures AllWhiteSpace(s[..|s| - |r|])
    ensures |r| > 0 ==> !IsWhiteSpace(r[0])
  {
    if |s| > 0 && IsWhiteSpace(s[0]) then
      var rest := s[1..];
      var r := TrimStart(rest);
      assert s[..|s| - |r|] == [s[0]] + rest[..|rest| - |r|];
      assert r == s[|s| - |r|..] by {
        assert rest[|rest| - |r|..] == s[|s| - |r|..];
      }
      r
    else s
  }

  /** Trailing white space removed. */
  function TrimEnd(s: string): (r: string)
    ensures |r| <= |s| && r == s[..|r|]
    ensures AllWhiteSpace(s[|r|..])
    ensures |r| > 0 ==> !IsWhiteSpace(r[|r| - 1])
  {
    if |s| > 0 && IsWhiteSpace(s[|s| - 1]) then
      var r := TrimEnd(s[..|s| - 1]);
      assert s[|r|..] == s[..|s| - 1][|r|..] + [s[|s| - 1]];
      r
    else s
  }

  /** `s.trim()`: a contiguous part of `s`, with only white space cut off
      on either side and no white space left at either end. */
  function Trim(s: string): (r: string)
    ensures |r| <= |s|
    ensures |r| > 0 ==> !IsWhiteSpace(r[0]) && !IsWhiteSpace(r[|r| - 1])
    ensures exists a :: (0 <= a <= |s| - |r| && r == s[a..a + |r|]
                         && AllWhiteSpace(s[..a]) && AllWhiteSpace(s[a + |r|..]))
  {
    TrimEnd(TrimStart(s))
  }

  /** Trimming leaves nothing exactly when the text is all white space. */
  lemma TrimEmpty(s: string)
    ensures |Trim(s)| == 0 <==> AllWhiteSpace(s)
  {
    var t := TrimStart(s);
    assert t[0..] == t;
    assert s[..|s| - 0] == s;
    if |t| > 0 {
      assert t[0] == s[|s| - |t|];
    }
  }

  // ---------------------------------------------------------------------
  // Image files and the rest
  // ---------------------------------------------------------------------

  /** `files.filter(f => f.type.startsWith('image/'))`. */
  function Images(fs: seq<File>): (r: seq<File>)
    ensures |r| <= |fs|
    ensures forall i :: 0 <= i < |r| ==> IsImage(r[i]) && r[i] in fs
  {
    if |fs| == 0 then []
    else
      var p := Images(fs[..|fs| - 1]);
      if IsImage(fs[|fs| - 1]) then p + [fs[|fs| - 1]] else p
  }

  /** `files.filter(f => !f.type.startsWith('image/'))`. */
  function NonImages(fs: seq<File>): (r: seq<File>)
    ensures |r| <= |fs|
    ensures forall i :: 0 <= i < |r| ==> !IsImage(r[i]) && r[i] in fs
  {
    if |fs| == 0 then []
    else
      var p := NonImages(fs[..|fs| - 1]);
      if IsImage(fs[|fs| - 1]) then p else p + [fs[|fs| - 1]]
  }

  /** Every file lands in exactly one of the two lists. */
  lemma {:induction false} PartitionCount(fs: seq<File>)
    ensures |Images(fs)| + |NonImages(fs)| == |fs|
    ensures multiset(Images(fs)) + multiset(NonImages(fs)) == multiset(fs)
  {
    if |fs| > 0 {
      var p, last := fs[..|fs| - 1], fs[|fs| - 1];
      PartitionCount(p);
      var li: seq<File> := if IsImage(last) then [last] else [];
      var ln: seq<File> := if IsImage(last) then [] else [last];
      SplitLast(fs, p, last, li, ln);
      SnocMultiset(fs, p, last);
      MultisetJoin(Images(p), NonImages(p), p, li, ln, last);
    }
  }

  /** One unfolding of both filters at the last file. */
  lemma SplitLast(fs: seq<File>, p: seq<File>, last: File, li: seq<File>, ln: seq<File>)
    requires |fs| > 0 && p == fs[..|fs| - 1] && last == fs[|fs| - 1]
    requires li == (if IsImage(last) then [last] else [])
    requires ln == (if IsImage(last) then [] else [last])
    ensures Images(fs) == Images(p) + li && NonImages(fs) == NonImages(p) + ln
  {
  }

  /** A non-empty list is its prefix followed by its last file. */
  lemma SnocMultiset(fs: seq<File>, p: seq<File>, last: File)
    requires |fs| > 0 && p == fs[..|fs| - 1] && last == fs[|fs| - 1]
    ensures multiset(fs) == multiset(p + [last])
  {
    assert fs == p + [last];
  }

  /** The multiset step of `PartitionCount`, on plain sequences. */
  lemma MultisetJoin<T>(a: seq<T>, b: seq<T>, p: seq<T>, li: seq<T>, ln: seq<T>, last: T)
    requires multiset(a) + multiset(b) == multiset(p)
    requires (li == [last] && ln == []) || (li == [] && ln == [last])
    ensures multiset(a + li) + multiset(b + ln) == multiset(p + [last])
    ensures |a + li| + |b + ln| == |a| + |b| + 1
  {
  }

  /** Both filters distribute over concatenation. */
  lemma {:induction false} FilterAppend(a: seq<File>, b: seq<File>)
    ensures Images(a + b) == Images(a) + Images(b)
    ensures NonImages(a + b) == NonImages(a) + NonImages(b)
    decreases |b|
  {
    if |b| == 0 {
      assert a + b == a;
    } else {
      var c := b[..|b| - 1];
      assert (a + b)[..|a + b| - 1] == a + c;
      FilterAppend(a, c);
    }
  }

  /** A list of images only is its own image part and has no other part. */
  lemma {:induction false} FilterAllImages(fs: seq<File>)
    requires forall i :: 0 <= i < |fs| ==> IsImage(fs[i])
    ensures Images(fs) == fs && NonImages(fs) == []
  {
    if |fs| > 0 {
      FilterAllImages(fs[..|fs| - 1]);
    }
  }

  /** A list without images is its own non-image part. */
  lemma {:induction false} FilterNoImages(fs: seq<File>)
    requires forall i :: 0 <= i < |fs| ==> !IsImage(fs[i])
    ensures Images(fs) == [] && NonImages(fs) == fs
  {
    if |fs| > 0 {
      FilterNoImages(fs[..|fs| - 1]);
    }
  }

  // ---------------------------------------------------------------------
  // Array.prototype.splice(start, 1)
  // ---------------------------------------------------------------------

  /** The position `splice` starts at for `start` on `len` elements: a
      negative start counts from the end, and both ends are clamped. */
  function SpliceStart(start: int, len: nat): (r: nat)
    ensures r <= len
    ensures 0 <= start ==> (r < len <==> start < len)
    ensures start < 0 ==> (r < len <==> len > 0)
    ensures 0 <= start < len ==> r == start
    ensures start < 0 && 0 <= len + start ==> r == len + start
    ensures start >= len ==> r == len
    ensures len + start < 0 ==> r == 0
  {
    if start < 0 then (if len + start < 0 then 0 else len + start)
    else if start > len then len
    else start
  }

  // ---------------------------------------------------------------------
  // Page state and its transitions
  // ---------------------------------------------------------------------

  datatype LandingState = LandingState(
    prompt: string,
    isExpanding: bool,
    selectedFiles: seq<File>,
    previews: seq<string>)

  /** The page as mounted. */
  function Mount(): (s: LandingState)
    ensures IsButtonDisabled(s) && !s.isExpanding
    ensures s.prompt == "" && s.selectedFiles == [] && s.previews == []
  {
    LandingState("", false, [], [])
  }

  /** `isButtonDisabled`: the trimmed prompt is empty and no file is selected. */
  function IsButtonDisabled(s: LandingState): (d: bool)
    ensures d <==> AllWhiteSpace(s.prompt) && |s.selectedFiles| == 0
  {
    TrimEmpty(s.prompt);
    |Trim(s.prompt)| == 0 && |s.selectedFiles| == 0
  }

  /** What a click produces: the next state and whether navigation to the
      viewer is scheduled. */
  datatype ClickOutcome = ClickOutcome(state: LandingState, navigates: bool)

  /** `handleClick`: without prompt text or files nothing happens; otherwise
      the page starts expanding and schedules navigation. */
  function HandleClick(s: LandingState): (out: ClickOutcome)
    ensures IsButtonDisabled(s) <==> (out.state == s && !out.navigates)
    ensures !IsButtonDisabled(s) ==> out.state.isExpanding && out.navigates
    ensures out.state.(isExpanding := s.isExpanding) == s
  {
    if |Trim(s.prompt)| == 0 && |s.selectedFiles| == 0 then ClickOutcome(s, false)
    else ClickOutcome(s.(isExpanding := true), true)
  }

  /** `handleFileChange`: a chosen batch is appended after the files already
      selected; with no file list nothing changes. */
  function HandleFileChange(s: LandingState, files: Option<seq<File>>): (r: LandingState)
    ensures files.Some? ==> |r.selectedFiles| == |s.selectedFiles| + |files.value|
    ensures files.Some? ==> r.selectedFiles[..|s.selectedFiles|] == s.selectedFiles
    ensures files.Some? ==> r.selectedFiles[|s.selectedFiles|..] == files.value
    ensures files.None? ==> r == s
    ensures r.(selectedFiles := s.selectedFiles) == s
  {
    match files
    case None => s
    case Some(batch) => s.(selectedFiles := s.selectedFiles + batch)
  }

  /** The updater a batch's last FileReader callback passes to
      `setImagePreviews`: the batch's previews go after the existing ones. */
  function AddPreviews(s: LandingState, urls: seq<string>): (r: LandingState)
    ensures |r.previews| == |s.previews| + |urls|
    ensures r.previews[..|s.previews|] == s.previews
    ensures r.previews[|s.previews|..] == urls
    ensures r.(previews := s.previews) == s
  {
    s.(previews := s.previews + urls)
  }

  /** `removeImage(index)`: the preview at `index` is dropped, and the file
      list becomes the image files with `splice(index, 1)` applied, followed
      by all non-image files. */
  function RemoveImage(s: LandingState, index: int): (r: LandingState)
    ensures r.previews == RemoveAt(s.previews, index)
    ensures NonImages(r.selectedFiles) == NonImages(s.selectedFiles)
    ensures Images(r.selectedFiles)
      == RemoveAt(Images(s.selectedFiles), SpliceStart(index, |Images(s.selectedFiles)|))
    ensures r.selectedFiles == Images(r.selectedFiles) + NonImages(r.selectedFiles)
    ensures r.prompt == s.prompt && r.isExpanding == s.isExpanding
  {
    var imgs := Images(s.selectedFiles);
    var rest := NonImages(s.selectedFiles);
    var kept := RemoveAt(imgs, SpliceStart(index, |imgs|));
    assert forall i :: 0 <= i < |kept| ==> IsImage(kept[i]);
    FilterAppend(kept, rest);
    FilterAllImages(kept);
    FilterNoImages(rest);
    s.(previews := RemoveAt(s.previews, index), selectedFiles := kept + rest)
  }

  /** The file count drops by one exactly when `index` names an image file;
      otherwise the files are only regrouped, images first. */
  lemma RemoveImageCount(s: LandingState, index: int)
    requires 0 <= index
    ensures var r := RemoveImage(s, index);
      |r.selectedFiles| == (if index < |Images(s.selectedFiles)|
                            then |s.selectedFiles| - 1 else |s.selectedFiles|)
    ensures var r := RemoveImage(s, index);
      index >= |Images(s.selectedFiles)| ==>
        multiset(r.selectedFiles) == multiset(s.selectedFiles)
  {
    var r := RemoveImage(s, index);
    PartitionCount(s.selectedFiles);
    PartitionCount(r.selectedFiles);
  }

  /** The k-th preview stands for the k-th image file when both lists have
      the same length. */
  predicate Paired(s: LandingState)
  {
    |s.previews| == |Images(s.selectedFiles)|
  }

  /** Selecting a batch and receiving one preview per image file in it keeps
      previews and image files in step. */
  lemma PairedAfterUpload(s: LandingState, batch: seq<File>, urls: seq<string>)
    requires Paired(s)
    requires |urls| == |Images(batch)|
    ensures Paired(AddPreviews(HandleFileChange(s, Some(batch)), urls))
  {
    FilterAppend(s.selectedFiles, batch);
  }

  /** Deleting a preview by its (non-negative) position keeps previews and
      image files in step. */
  lemma PairedAfterRemove(s: LandingState, index: int)
    requires Paired(s) && 0 <= index
    ensures Paired(RemoveImage(s, index))
  {
  }
}
