/** The viewer page's gallery and its simulated loading bar.

    The gallery shows the navigation images followed by the uploaded ones,
    minus every raw position recorded in a set of hidden indices. Deleting
    the k-th shown image hides the raw position that is displayed there. */
module Viewer {
  import opened Common

  /** An image as the page holds it: a URL or a data URL. */
  type Image = string

  /** Number of raw positions below `i` that are not hidden: the gallery
      position at which raw position `i` would be shown. */
  function CountShown(i: nat, hidden: set<int>): nat
  {
    if i == 0 then 0 else CountShown(i - 1, hidden) + (if i - 1 in hidden then 0 else 1)
  }

  lemma {:induction false} CountShownMono(i: nat, j: nat, hidden: set<int>)
    requires i <= j
    ensures CountShown(i, hidden) <= CountShown(j, hidden)
    decreases j - i
  {
    if i < j {
      CountShownMono(i, j - 1, hidden);
    }
  }

  /** A shown raw position is counted strictly below every later position. */
  lemma CountShownStrict(a: nat, b: nat, hidden: set<int>)
    requires a < b && a !in hidden
    ensures CountShown(a, hidden) < CountShown(b, hidden)
  {
    CountShownMono(a + 1, b, hidden);
  }

  /** Two shown positions with the same count are the same position. */
  lemma CountShownInjective(a: nat, b: nat, hidden: set<int>)
    requires a !in hidden && b !in hidden
    requires CountShown(a, hidden) == CountShown(b, hidden)
    ensures a == b
  {
    if a < b {
      CountShownStrict(a, b, hidden);
    } else if b < a {
      CountShownStrict(b, a, hidden);
    }
  }

  /** The raw list with every hidden raw index dropped
      (`allImagesRaw.filter((_, index) => !hiddenImageIndices.has(index))`).
      Written from the end, so that the last element's index is `|raw| - 1`. */
  function Visible(raw: seq<Image>, hidden: set<int>): (r: seq<Image>)
    ensures |r| == CountShown(|raw|, hidden)
    ensures forall j :: 0 <= j < |r| ==> r[j] in raw
  {
    if |raw| == 0 then []
    else
      var p := raw[..|raw| - 1];
      Visible(p, hidden) + (if |raw| - 1 in hidden then [] else [raw[|raw| - 1]])
  }

  /** Raw position `a`, when shown, appears at gallery position
      `CountShown(a)`: the filter keeps exactly the shown elements in their
      raw order. */
  lemma {:induction false} VisibleAt(raw: seq<Image>, hidden: set<int>, a: nat)
    requires a < |raw| && a !in hidden
    ensures CountShown(a, hidden) < |Visible(raw, hidden)|
    ensures Visible(raw, hidden)[CountShown(a, hidden)] == raw[a]
  {
    var p := raw[..|raw| - 1];
    if a == |raw| - 1 {
    } else {
      VisibleAt(p, hidden, a);
    }
  }

  /** A hidden position shows nothing: every shown element comes from a
      raw position that is not hidden. */
  lemma {:induction false} VisibleFrom(raw: seq<Image>, hidden: set<int>, j: nat)
    requires j < |Visible(raw, hidden)|
    ensures 0 <= ActualIndex(|raw|, hidden, j) < |raw|
    ensures ActualIndex(|raw|, hidden, j) !in hidden
    ensures Visible(raw, hidden)[j] == raw[ActualIndex(|raw|, hidden, j)]
  {
    var a := ActualIndex(|raw|, hidden, j);
    VisibleAt(raw, hidden, a);
  }

  /** Only the hidden indices inside the raw range matter. */
  lemma {:induction false} VisibleOnlyInRange(raw: seq<Image>, h1: set<int>, h2: set<int>)
    requires forall i :: 0 <= i < |raw| ==> (i in h1 <==> i in h2)
    ensures Visible(raw, h1) == Visible(raw, h2)
  {
    if |raw| > 0 {
      VisibleOnlyInRange(raw[..|raw| - 1], h1, h2);
    }
  }

  /** Appending raw elements whose positions are not hidden appends them to
      the gallery unchanged. */
  lemma {:induction false} VisibleAppend(raw: seq<Image>, more: seq<Image>, hidden: set<int>)
    requires forall i :: |raw| <= i < |raw| + |more| ==> i !in hidden
    ensures Visible(raw + more, hidden) == Visible(raw, hidden) + more
  {
    if |more| > 0 {
      var m := more[..|more| - 1];
      assert (raw + more)[..|raw + more| - 1] == raw + m;
      VisibleAppend(raw, m, hidden);
      assert more == m + [more[|more| - 1]];
    } else {
      assert raw + more == raw;
    }
  }

  /** Hiding the shown raw position `a` removes exactly its gallery entry. */
  lemma {:induction false} HideOne(raw: seq<Image>, hidden: set<int>, a: nat)
    requires a < |raw| && a !in hidden
    ensures Visible(raw, hidden + {a}) == RemoveAt(Visible(raw, hidden), CountShown(a, hidden))
  {
    var p := raw[..|raw| - 1];
    var k := CountShown(a, hidden);
    if a == |raw| - 1 {
      VisibleOnlyInRange(p, hidden + {a}, hidden);
      assert Visible(raw, hidden) == Visible(p, hidden) + [raw[a]];
    } else {
      HideOne(p, hidden, a);
      CountShownStrict(a, |p|, hidden);
      var v := Visible(p, hidden);
      var tail := if |raw| - 1 in hidden then [] else [raw[|raw| - 1]];
      assert Visible(raw, hidden + {a}) == RemoveAt(v, k) + tail;
      assert RemoveAt(v + tail, k) == RemoveAt(v, k) + tail;
    }
  }

  // ---------------------------------------------------------------------
  // Mapping a gallery position back to a raw index (removeImage's loop)
  // ---------------------------------------------------------------------

  /** The loop of `removeImage` from raw position `i` on, with `count` shown
      positions already passed; -1 when it runs off the end. */
  function ScanFrom(n: nat, hidden: set<int>, k: int, i: nat, count: int): int
    requires i <= n
    decreases n - i
  {
    if i == n then -1
    else if i !in hidden then
      if count == k then i else ScanFrom(n, hidden, k, i + 1, count + 1)
    else ScanFrom(n, hidden, k, i + 1, count)
  }

  lemma {:induction false} ScanFromSpec(n: nat, hidden: set<int>, k: int, i: nat, count: int)
    requires i <= n && count == CountShown(i, hidden)
    ensures var r := ScanFrom(n, hidden, k, i, count);
      if count <= k < CountShown(n, hidden)
      then i <= r < n && r !in hidden && CountShown(r, hidden) == k
      else r == -1
    decreases n - i
  {
    if i < n {
      if i !in hidden {
        if count == k {
          CountShownMono(i + 1, n, hidden);
        } else {
          ScanFromSpec(n, hidden, k, i + 1, count + 1);
        }
      } else {
        ScanFromSpec(n, hidden, k, i + 1, count);
      }
    }
  }

  /** The raw index shown at gallery position `k` among `n` raw images, or
      -1 when `k` is not a gallery position. */
  function ActualIndex(n: nat, hidden: set<int>, k: int): (a: int)
    ensures 0 <= k < CountShown(n, hidden) ==>
      0 <= a < n && a !in hidden && CountShown(a, hidden) == k
    ensures !(0 <= k < CountShown(n, hidden)) ==> a == -1
  {
    ScanFromSpec(n, hidden, k, 0, 0);
    ScanFrom(n, hidden, k, 0, 0)
  }

  /** The loop of `removeImage` as written: walk the raw positions, count
      the shown ones, stop at the `k`-th. */
  method FindActualIndex(n: nat, hidden: set<int>, k: int) returns (actual: int)
    ensures actual == -1 <==> !(0 <= k < CountShown(n, hidden))
    ensures actual != -1 ==>
      0 <= actual < n && actual !in hidden && CountShown(actual, hidden) == k
    ensures actual == ActualIndex(n, hidden, k)
  {
    var count := 0;
    actual := -1;
    var i := 0;
    while i < n
      invariant 0 <= i <= n
      invariant count == CountShown(i, hidden)
      invariant actual == -1
      invariant k < 0 || count <= k
    {
      if i !in hidden {
        if count == k {
          actual := i;
          break;
        }
        count := count + 1;
      }
      i := i + 1;
    }
    if actual != -1 {
      CountShownMono(actual + 1, n, hidden);
      var b := ActualIndex(n, hidden, k);
      CountShownInjective(actual, b, hidden);
    }
  }

  // ---------------------------------------------------------------------
  // Page state and its transitions
  // ---------------------------------------------------------------------

  /** The viewer's state. `ticking` records whether the loading interval is
      still installed (it is cleared once the bar reaches 100). */
  datatype ViewerState = ViewerState(
    initial: seq<Image>,
    uploaded: seq<Image>,
    hidden: set<int>,
    isLoading: bool,
    progress: int,
    ticking: bool)

  /** Initial images followed by uploaded ones (`allImagesRaw`). */
  function Raw(s: ViewerState): seq<Image>
  {
    s.initial + s.uploaded
  }

  /** The images the gallery shows (`allImages`). */
  function Gallery(s: ViewerState): seq<Image>
  {
    Visible(Raw(s), s.hidden)
  }

  /** The page as mounted with the navigation images; the effect installs
      the loading interval. */
  function Mount(initial: seq<Image>): (s: ViewerState)
    ensures Gallery(s) == initial
    ensures s.initial == initial && s.uploaded == [] && s.hidden == {}
    ensures s.isLoading && s.progress == 0 && s.ticking
  {
    var s := ViewerState(initial, [], {}, true, 0, true);
    VisibleAppend([], initial, {});
    assert Raw(s) == [] + initial;
    s
  }

  /** `removeImage(k)`: hides the raw index shown at gallery position `k`. */
  function RemoveImage(s: ViewerState, k: int): (r: ViewerState)
    ensures 0 <= k < |Gallery(s)| ==> Gallery(r) == RemoveAt(Gallery(s), k)
    ensures !(0 <= k < |Gallery(s)|) ==> r == s
    ensures s.hidden <= r.hidden && |r.hidden - s.hidden| <= 1
    ensures r.(hidden := s.hidden) == s
  {
    var a := ActualIndex(|Raw(s)|, s.hidden, k);
    if a != -1 then
      HideOne(Raw(s), s.hidden, a);
      assert s.hidden + {a} - s.hidden <= {a};
      s.(hidden := s.hidden + {a})
    else s
  }

  /** One FileReader callback of `processFiles`: the data URL is appended
      to the uploaded images. It shows in the gallery only when its raw
      position is not in the hidden set. */
  function UploadArrived(s: ViewerState, url: Image): (r: ViewerState)
    ensures r.uploaded == s.uploaded + [url]
    ensures r.(uploaded := s.uploaded) == s
    ensures Gallery(r) == Gallery(s) + (if |Raw(s)| in s.hidden then [] else [url])
  {
    var r := s.(uploaded := s.uploaded + [url]);
    assert Raw(r) == Raw(s) + [url];
    assert Raw(r)[..|Raw(r)| - 1] == Raw(s);
    r
  }

  /** Several callbacks in a row. */
  function UploadAll(s: ViewerState, urls: seq<Image>): ViewerState
    decreases |urls|
  {
    if |urls| == 0 then s else UploadAll(UploadArrived(s, urls[0]), urls[1..])
  }

  /** `handleReset` as written: on confirmation the uploaded images are
      cleared; the initial images and the hidden indices stay as they are. */
  function ResetAsWritten(s: ViewerState, confirmed: bool): (r: ViewerState)
    ensures confirmed ==> r.uploaded == []
    ensures !confirmed ==> r == s
    ensures r.(uploaded := s.uploaded) == s
  {
    if confirmed then s.(uploaded := []) else s
  }

  /** After uploading one image, hiding it and resetting, the next upload
      lands on the same raw index and is never shown. */
  lemma ResetAsWrittenHidesNextUpload()
    ensures var s0 := UploadArrived(Mount([]), "a");
      var s1 := RemoveImage(s0, 0);
      var s2 := ResetAsWritten(s1, true);
      var s3 := UploadArrived(s2, "b");
      ButtonsEnabled(s1) && Gallery(s3) == []
  {
    var s0 := UploadArrived(Mount([]), "a");
    assert Gallery(s0) == ["a"];
    var s1 := RemoveImage(s0, 0);
    assert s1.hidden == {0};
    var s2 := ResetAsWritten(s1, true);
    assert Raw(s2) == [];
  }

  /** `handleReset` corrected: on confirmation the uploaded images are
      cleared together with the hidden indices that pointed at them. */
  function Reset(s: ViewerState, confirmed: bool): (r: ViewerState)
    ensures confirmed ==> r.uploaded == [] && r.initial == s.initial
    ensures confirmed ==> Gallery(r) == Visible(s.initial, s.hidden)
    ensures confirmed ==> forall i :: i in r.hidden ==> 0 <= i < |s.initial|
    ensures confirmed ==> forall i :: 0 <= i < |s.initial| ==> (i in r.hidden <==> i in s.hidden)
    ensures confirmed ==> r.(uploaded := s.uploaded, hidden := s.hidden) == s
    ensures !confirmed ==> r == s
  {
    if confirmed then
      var h := set i | i in s.hidden && 0 <= i < |s.initial|;
      var r := s.(uploaded := [], hidden := h);
      assert Raw(r) == s.initial;
      VisibleOnlyInRange(s.initial, h, s.hidden);
      r
    else s
  }

  /** After the corrected reset, every image uploaded afterwards is shown,
      after the remaining initial images and in arrival order. */
  lemma {:induction false} ResetThenUploadsShown(s: ViewerState, urls: seq<Image>)
    ensures Gallery(UploadAll(Reset(s, true), urls)) == Gallery(Reset(s, true)) + urls
  {
    var r := Reset(s, true);
    UploadAllSpec(r, urls);
    var u := r.(uploaded := r.uploaded + urls);
    assert Raw(r) == s.initial;
    assert Raw(u) == Raw(r) + urls;
    VisibleAppend(Raw(r), urls, r.hidden);
    assert Gallery(u) == Gallery(r) + urls;
  }

  lemma {:induction false} UploadAllSpec(s: ViewerState, urls: seq<Image>)
    ensures UploadAll(s, urls) == s.(uploaded := s.uploaded + urls)
    decreases |urls|
  {
    if |urls| == 0 {
      assert s.uploaded + urls == s.uploaded;
    } else {
      var s1 := UploadArrived(s, urls[0]);
      UploadAllSpec(s1, urls[1..]);
      assert s.uploaded + [urls[0]] + urls[1..] == s.uploaded + urls;
    }
  }

  // ---------------------------------------------------------------------
  // Simulated loading progress
  // ---------------------------------------------------------------------

  /** One firing of the 300 ms interval: the updater passed to
      `setLoadingProgress`. At 100 or above it clears the interval and ends
      loading; otherwise it adds 10. Without an interval nothing fires. */
  function ProgressTick(s: ViewerState): (r: ViewerState)
    ensures r.initial == s.initial && r.uploaded == s.uploaded && r.hidden == s.hidden
    ensures 0 <= s.progress <= 100 && s.progress % 10 == 0 ==>
      0 <= r.progress <= 100 && r.progress % 10 == 0
    ensures s.ticking && s.progress >= 100 ==> r.progress == 100 && !r.isLoading && !r.ticking
    ensures s.ticking && s.progress < 100 ==> r.progress == s.progress + 10 && r.isLoading == s.isLoading && r.ticking
    ensures !s.ticking ==> r == s
  {
    if !s.ticking then s
    else if s.progress >= 100 then s.(progress := 100, isLoading := false, ticking := false)
    else s.(progress := s.progress + 10)
  }

  /** `n` firings in a row. */
  function Ticks(s: ViewerState, n: nat): ViewerState
  {
    if n == 0 then s else ProgressTick(Ticks(s, n - 1))
  }

  /** From mounting, the bar reads 0, 10, ..., 100 and never more; loading
      ends, and the interval is cleared, at the eleventh firing. */
  lemma {:induction false} ProgressFromMount(initial: seq<Image>, n: nat)
    ensures Ticks(Mount(initial), n).progress == (if n < 10 then 10 * n else 100)
    ensures Ticks(Mount(initial), n).isLoading <==> n <= 10
    ensures Ticks(Mount(initial), n).ticking <==> n <= 10
  {
    if n > 0 {
      ProgressFromMount(initial, n - 1);
    }
  }

  /** Once the interval is cleared no firing changes anything. */
  lemma {:induction false} TicksIdle(s: ViewerState, n: nat)
    requires !s.ticking
    ensures Ticks(s, n) == s
  {
    if n > 0 {
      TicksIdle(s, n - 1);
    }
  }

  /** Render Model and Reset are enabled only while there are uploaded
      images (`disabled={uploadedImages.length === 0}`). */
  predicate ButtonsEnabled(s: ViewerState): (b: bool)
    ensures b <==> |Raw(s)| > |s.initial|
  {
    |s.uploaded| > 0
  }

  /** `handleSave` as written: loading restarts at 0, but the interval is
      not reinstalled. */
  function SaveAsWritten(s: ViewerState): (r: ViewerState)
    ensures r.isLoading && r.progress == 0 && r.ticking == s.ticking
    ensures r.(isLoading := s.isLoading, progress := s.progress) == s
    ensures Gallery(r) == Gallery(s)
  {
    s.(isLoading := true, progress := 0)
  }

  /** Saving after loading has finished leaves the bar at 0% forever. The
      run uploads one image first, so the Render Model button is enabled
      when it is pressed. */
  lemma SaveAfterLoadStalls(initial: seq<Image>, url: Image, n: nat)
    ensures var done := Ticks(UploadArrived(Mount(initial), url), 11);
      ButtonsEnabled(done) && done.progress == 100 && !done.isLoading
    ensures var done := Ticks(UploadArrived(Mount(initial), url), 11);
      var stuck := Ticks(SaveAsWritten(done), n);
      stuck.isLoading && stuck.progress == 0
  {
    var up := UploadArrived(Mount(initial), url);
    ProgressFromRestart(up, 11);
    TicksIdle(SaveAsWritten(Ticks(up, 11)), n);
  }

  /** `handleSave` corrected: loading restarts at 0 with the interval
      installed again. */
  function Save(s: ViewerState): (r: ViewerState)
    ensures r.isLoading && r.progress == 0 && r.ticking
    ensures r.(isLoading := s.isLoading, progress := s.progress, ticking := s.ticking) == s
    ensures Gallery(r) == Gallery(s)
  {
    s.(isLoading := true, progress := 0, ticking := true)
  }

  /** From a restart at 0 the bar climbs by 10 for `n` firings, up to 100. */
  lemma {:induction false} ProgressFromRestart(s: ViewerState, n: nat)
    requires s.ticking && s.isLoading && s.progress == 0
    ensures Ticks(s, n).progress == (if n < 10 then 10 * n else 100)
    ensures Ticks(s, n).isLoading <==> n <= 10
    ensures Ticks(s, n).ticking <==> n <= 10
    ensures Ticks(s, n).uploaded == s.uploaded
  {
    if n > 0 {
      ProgressFromRestart(s, n - 1);
    }
  }

  /** After the corrected save, eleven firings finish loading again. */
  lemma SaveCompletes(s: ViewerState)
    ensures Ticks(Save(s), 11).progress == 100
    ensures !Ticks(Save(s), 11).isLoading
  {
    ProgressFromRestart(Save(s), 11);
  }
}
