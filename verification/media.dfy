/**
 The list transform at the heart of the `get-files` handler: the entries of a
 repository directory listing are filtered down to media files by extension and
 each survivor is projected onto a small media record.

 Absent, `null` and empty values of a listing field all behave as falsy in the
 handler, so the model writes all three as the empty string.
 */
module Media {
  import Ascii
  import StringSplit

  /** The video extensions the handler accepts. */
  const VideoExt: seq<string> := ["mp4", "webm", "mov", "avi", "mkv"]

  /** The image extensions the handler accepts. */
  const ImageExt: seq<string> := ["jpg", "jpeg", "png", "gif", "webp", "svg", "bmp"]

  /** Every accepted extension, videos first. */
  const AllowedExt: seq<string> := VideoExt + ImageExt

  /** A file's `download_url`, which the listing reports as `null` for some entries. */
  datatype DownloadUrl = NoUrl | Url(href: string)

  /** One directory entry of the listing, with the fields the handler reads. */
  datatype Entry = Entry(
    kind: string,          // the `type` field: "file", "dir", "symlink", ...
    name: string,
    path: string,
    sha: string,
    downloadUrl: DownloadUrl,
    size: int
  )

  datatype MediaKind = Video | Image

  /** The record the handler emits for one media file. */
  datatype MediaItem = MediaItem(
    id: string,
    kind: MediaKind,
    url: DownloadUrl,
    title: string,
    path: string,
    date: string,
    size: int
  )

  /**
   The lower-cased text after the last dot of `name`, or the whole lower-cased
   name when it has no dot: `name.split('.').pop().toLowerCase()`.
   */
  function Extension(name: string): (ext: string)
    ensures '.' !in ext
    ensures Ascii.IsLower(ext)
    ensures |ext| <= |name|
  {
    StringSplit.LastPieceIsSuffix(name, '.');
    Ascii.ToLower(StringSplit.LastPiece(name, '.'))
  }

  /** The filter's test: a file with a name whose extension is accepted. */
  predicate IsMediaFile(e: Entry)
    ensures IsMediaFile(e) ==>
      && e.kind == "file"
      && (Extension(e.name) in VideoExt <==> Extension(e.name) !in ImageExt)
      && 3 <= |Extension(e.name)| <= 4
  {
    ExtensionSetsDisjoint();
    e.kind == "file" && e.name != "" && Extension(e.name) in AllowedExt
  }

  /** Videos by extension, everything else an image. */
  function Classify(ext: string): (k: MediaKind)
    ensures k == Video <==> ext in VideoExt
    ensures ext in AllowedExt ==> (k == Image <==> ext in ImageExt)
  {
    ExtensionSetsDisjoint();
    if ext in VideoExt then Video else Image
  }

  /** The record emitted for entry `e`, stamped with `date`. */
  function ToItem(e: Entry, date: string): (item: MediaItem)
    ensures CopiesFields(e, item)
    ensures item.date == date
    ensures item.kind == Video <==> Extension(e.name) in VideoExt
    ensures IsMediaFile(e) ==> (item.kind == Image <==> Extension(e.name) in ImageExt)
  {
    MediaItem(e.sha, Classify(Extension(e.name)), e.downloadUrl, e.name, e.path, date, e.size)
  }

  /** True when `item` carries the fields of `e` under their output names. */
  predicate CopiesFields(e: Entry, item: MediaItem) {
    && item.id == e.sha
    && item.url == e.downloadUrl
    && item.title == e.name
    && item.path == e.path
    && item.size == e.size
  }

  /** The media files of the listing, in listing order. */
  function Filter(entries: seq<Entry>): (kept: seq<Entry>)
    ensures |kept| <= |entries|
    ensures forall e :: e in kept <==> e in entries && IsMediaFile(e)
  {
    if |entries| == 0 then []
    else (if IsMediaFile(entries[0]) then [entries[0]] else []) + Filter(entries[1..])
  }

  /**
   The output records of the survivors. The handler reads the clock once per
   record, so the `i`-th record carries `clock(i)`.
   */
  function MapItems(kept: seq<Entry>, clock: nat -> string): (items: seq<MediaItem>)
    ensures |items| == |kept|
    ensures forall i :: 0 <= i < |kept| ==>
      CopiesFields(kept[i], items[i]) && items[i].date == clock(i)
      && (items[i].kind == Video <==> Extension(kept[i].name) in VideoExt)
  {
    var items := seq(|kept|, i requires 0 <= i < |kept| => ToItem(kept[i], clock(i)));
    assert forall i :: 0 <= i < |kept| ==> items[i] == ToItem(kept[i], clock(i));
    items
  }

  /** The whole transform: `files.filter(...).map(...)`. */
  function ListMedia(entries: seq<Entry>, clock: nat -> string): (items: seq<MediaItem>)
    ensures |items| <= |entries|
    ensures entries == [] ==> items == []
    ensures forall i :: 0 <= i < |items| ==>
      && items[i].title != ""
      && Extension(items[i].title) in AllowedExt
      && (items[i].kind == Video <==> Extension(items[i].title) in VideoExt)
      && (items[i].kind == Image <==> Extension(items[i].title) in ImageExt)
      && items[i].date == clock(i)
    ensures forall i :: 0 <= i < |items| ==>
      exists j :: 0 <= j < |entries| && IsMediaFile(entries[j]) && CopiesFields(entries[j], items[i])
  {
    var kept := Filter(entries);
    var mapped := MapItems(kept, clock);
    assert forall i :: 0 <= i < |mapped| ==>
      kept[i] in kept && mapped[i] == ToItem(kept[i], clock(i)) && IsMediaFile(kept[i]);
    mapped
  }

  // ---------------------------------------------------------------------------
  // The extension sets

  /** The two sets share no extension, and together they hold twelve. */
  lemma ExtensionSetsDisjoint()
    ensures forall x :: x in VideoExt ==> x !in ImageExt
    ensures |AllowedExt| == 12
    ensures forall x :: x in AllowedExt <==> x in VideoExt || x in ImageExt
  {
  }

  /** Every accepted extension is a lower-case, dot-free, non-empty word, so `Extension` can produce it. */
  lemma AllowedExtReachable(x: string)
    requires x in AllowedExt
    ensures Extension("media." + x) == x
  {
    assert x != "" && '.' !in x && Ascii.IsLower(x);
    var name := "media." + x;
    assert StringSplit.IsLastPiece(name, '.', x);
    StringSplit.LastPieceUnique(name, '.', x);
    Ascii.LowerIsFixed(x);
  }

  // ---------------------------------------------------------------------------
  // Extension extraction

  /**
   The extension is the lower-cased longest dot-free suffix of the name: it
   is preceded by a dot unless it spans the whole name.
   */
  lemma ExtensionIsLoweredSuffix(name: string)
    ensures var ext := Extension(name);
      && ext == Ascii.ToLower(name[|name| - |ext|..])
      && '.' !in name[|name| - |ext|..]
      && (|ext| < |name| ==> name[|name| - |ext| - 1] == '.')
  {
    StringSplit.LastPieceIsSuffix(name, '.');
  }

  /** A name without a dot is its own extension, lower-cased. */
  lemma ExtensionWithoutDot(name: string)
    requires '.' !in name
    ensures Extension(name) == Ascii.ToLower(name)
  {
  }

  /** A name ending in a dot has the empty extension, which is never accepted. */
  lemma ExtensionAfterTrailingDot(name: string)
    requires |name| > 0 && name[|name| - 1] == '.'
    ensures Extension(name) == ""
    ensures Extension(name) !in AllowedExt
  {
    StringSplit.LastPieceIsSuffix(name, '.');
  }

  /** Lower-casing the name first does not change its extension. */
  lemma ExtensionIgnoresCase(name: string)
    ensures Extension(Ascii.ToLower(name)) == Extension(name)
  {
    var p := StringSplit.LastPiece(name, '.');
    StringSplit.LastPieceIsSuffix(name, '.');
    var lowered := Ascii.ToLower(name);
    var k := |p|;
    var t := lowered[|lowered| - k..];
    Ascii.ToLowerSlice(name, |name| - k, |name|);
    assert t == Ascii.ToLower(p);
    forall i | 0 <= i < |t|
      ensures t[i] != '.'
    {
      Ascii.LowerCharKeepsNonLetter(p[i], '.');
    }
    if k < |name| {
      Ascii.LowerCharKeepsNonLetter(name[|name| - k - 1], '.');
    }
    assert StringSplit.IsLastPiece(lowered, '.', t);
    StringSplit.LastPieceUnique(lowered, '.', t);
    Ascii.ToLowerIdempotent(p);
  }

  /** Two names that agree up to case have the same extension. */
  lemma ExtensionCaseInsensitive(a: string, b: string)
    requires Ascii.ToLower(a) == Ascii.ToLower(b)
    ensures Extension(a) == Extension(b)
  {
    ExtensionIgnoresCase(a);
    ExtensionIgnoresCase(b);
  }

  /** The filter's verdict does not depend on the case of the name. */
  lemma IsMediaFileIgnoresCase(e: Entry, name: string)
    requires Ascii.ToLower(name) == Ascii.ToLower(e.name)
    ensures IsMediaFile(e.(name := name)) <==> IsMediaFile(e)
  {
    ExtensionCaseInsensitive(name, e.name);
  }

  // ---------------------------------------------------------------------------
  // The filter

  /** Filtering a concatenation filters each part: the filter keeps listing order. */
  lemma {:induction false} FilterAppend(a: seq<Entry>, b: seq<Entry>)
    ensures Filter(a + b) == Filter(a) + Filter(b)
    decreases |a|
  {
    if |a| > 0 {
      var head := if IsMediaFile(a[0]) then [a[0]] else [];
      assert (a + b)[0] == a[0];
      assert (a + b)[1..] == a[1..] + b;
      assert Filter(a + b) == head + Filter(a[1..] + b);
      FilterAppend(a[1..], b);
      assert Filter(a) == head + Filter(a[1..]);
    } else {
      assert a + b == b;
    }
  }

  /** A single entry passes exactly when it is a media file. */
  lemma FilterSingle(e: Entry)
    ensures Filter([e]) == (if IsMediaFile(e) then [e] else [])
  {
    assert [e][1..] == [];
  }

  /** Filtering twice is filtering once. */
  lemma {:induction false} FilterIdempotent(entries: seq<Entry>)
    ensures Filter(Filter(entries)) == Filter(entries)
    decreases |entries|
  {
    if |entries| > 0 {
      var head := if IsMediaFile(entries[0]) then [entries[0]] else [];
      FilterIdempotent(entries[1..]);
      FilterAppend(head, Filter(entries[1..]));
      if IsMediaFile(entries[0]) {
        FilterSingle(entries[0]);
      }
    }
  }

  /** An entry that is not a file, or has no name, is never kept. */
  lemma NonFilesDropped(entries: seq<Entry>, e: Entry)
    requires e.kind != "file" || e.name == ""
    ensures e !in Filter(entries)
  {
  }

  /** The number of media files among the first `j` entries is where entry `j`'s record lands. */
  function Position(entries: seq<Entry>, j: nat): nat
    requires j <= |entries|
  {
    |Filter(entries[..j])|
  }

  /** Entry `j`, when it is a media file, is the survivor at position `Position(entries, j)`. */
  lemma {:induction false} FilterPosition(entries: seq<Entry>, j: nat)
    requires j < |entries| && IsMediaFile(entries[j])
    ensures Position(entries, j) < |Filter(entries)|
    ensures Filter(entries)[Position(entries, j)] == entries[j]
  {
    var pre, post := entries[..j], entries[j + 1..];
    assert entries == pre + ([entries[j]] + post);
    FilterAppend(pre, [entries[j]] + post);
    FilterAppend([entries[j]], post);
    FilterSingle(entries[j]);
  }

  /** Later media files land at later positions. */
  lemma PositionIncreases(entries: seq<Entry>, j1: nat, j2: nat)
    requires j1 < j2 <= |entries| && IsMediaFile(entries[j1])
    ensures Position(entries, j1) < Position(entries, j2)
  {
    assert entries[..j2] == entries[..j1] + entries[j1..j2];
    FilterAppend(entries[..j1], entries[j1..j2]);
    assert entries[j1..j2] == [entries[j1]] + entries[j1 + 1..j2];
    FilterAppend([entries[j1]], entries[j1 + 1..j2]);
    FilterSingle(entries[j1]);
  }

  // ---------------------------------------------------------------------------
  // The whole transform

  /**
   Every media file of the listing has its record in the output, at the
   position given by the media files before it, with its fields copied, its
   kind given by its extension and the date read for that position.
   */
  lemma ListMediaComplete(entries: seq<Entry>, clock: nat -> string, j: nat)
    requires j < |entries| && IsMediaFile(entries[j])
    ensures var i := Position(entries, j);
      && i < |ListMedia(entries, clock)|
      && ListMedia(entries, clock)[i] == ToItem(entries[j], clock(i))
      && CopiesFields(entries[j], ListMedia(entries, clock)[i])
  {
    FilterPosition(entries, j);
  }

  /** The output of a concatenated listing is the output of each part, the clock continuing across. */
  lemma ListMediaAppend(a: seq<Entry>, b: seq<Entry>, clock: nat -> string)
    ensures ListMedia(a + b, clock)
         == ListMedia(a, clock) + ListMedia(b, (i: nat) => clock(i + |Filter(a)|))
  {
    FilterAppend(a, b);
    MapItemsAppend(Filter(a), Filter(b), clock);
  }

  /** Mapping a concatenation maps each part, the clock continuing across. */
  lemma MapItemsAppend(x: seq<Entry>, y: seq<Entry>, clock: nat -> string)
    ensures MapItems(x + y, clock) == MapItems(x, clock) + MapItems(y, (i: nat) => clock(i + |x|))
  {
    var lhs := MapItems(x + y, clock);
    var rhs := MapItems(x, clock) + MapItems(y, (i: nat) => clock(i + |x|));
    assert |lhs| == |rhs|;
    forall i | 0 <= i < |lhs|
      ensures lhs[i] == rhs[i]
    {
      assert lhs[i] == ToItem((x + y)[i], clock(i));
      if i >= |x| {
        assert (x + y)[i] == y[i - |x|];
        assert rhs[i] == MapItems(y, (i: nat) => clock(i + |x|))[i - |x|];
      } else {
        assert (x + y)[i] == x[i];
        assert rhs[i] == MapItems(x, clock)[i];
      }
    }
  }

  /** When the clock shows one date throughout, every record carries that date. */
  lemma ListMediaOneDate(entries: seq<Entry>, today: string)
    ensures forall item :: item in ListMedia(entries, _ => today) ==> item.date == today
  {
  }

  /**
   The listing `[a.MP4 file, sub directory, b.txt file]` yields exactly one
   record, a video for `a.MP4`.
   */
  lemma ExampleListing(clock: nat -> string)
    ensures ListMedia([
        Entry("file", "a.MP4", "p1", "s1", Url("u1"), 10),
        Entry("dir", "sub", "", "", NoUrl, 0),
        Entry("file", "b.txt", "", "s2", NoUrl, 0)
      ], clock)
      == [MediaItem("s1", Video, Url("u1"), "a.MP4", "p1", clock(0), 10)]
  {
    var a := Entry("file", "a.MP4", "p1", "s1", Url("u1"), 10);
    ExampleFilter();
    ExampleExtensions();
    var items := MapItems([a], clock);
    assert |items| == 1 && items[0] == ToItem(a, clock(0));
  }

  /** Only the `a.MP4` entry of the example survives the filter. */
  lemma ExampleFilter()
    ensures Filter([
        Entry("file", "a.MP4", "p1", "s1", Url("u1"), 10),
        Entry("dir", "sub", "", "", NoUrl, 0),
        Entry("file", "b.txt", "", "s2", NoUrl, 0)
      ]) == [Entry("file", "a.MP4", "p1", "s1", Url("u1"), 10)]
  {
    var a := Entry("file", "a.MP4", "p1", "s1", Url("u1"), 10);
    var d := Entry("dir", "sub", "", "", NoUrl, 0);
    var b := Entry("file", "b.txt", "", "s2", NoUrl, 0);
    FilterThree(a, d, b);
    ExampleVerdicts();
    FilterSingle(a);
    FilterSingle(d);
    FilterSingle(b);
  }

  /** The filter's verdict on each entry of the example. */
  lemma ExampleVerdicts()
    ensures IsMediaFile(Entry("file", "a.MP4", "p1", "s1", Url("u1"), 10))
    ensures !IsMediaFile(Entry("dir", "sub", "", "", NoUrl, 0))
    ensures !IsMediaFile(Entry("file", "b.txt", "", "s2", NoUrl, 0))
  {
    ExampleVideoKept();
    ExampleTextDropped();
  }

  lemma ExampleVideoKept()
    ensures IsMediaFile(Entry("file", "a.MP4", "p1", "s1", Url("u1"), 10))
  {
    ExampleExtensions();
  }

  lemma ExampleTextDropped()
    ensures !IsMediaFile(Entry("file", "b.txt", "", "s2", NoUrl, 0))
  {
    ExampleExtensions();
    assert "txt" !in AllowedExt;
    OutsideAllowListDropped(Entry("file", "b.txt", "", "s2", NoUrl, 0));
  }

  /** An entry whose extension is not on the allow-list is not a media file. */
  lemma OutsideAllowListDropped(e: Entry)
    requires Extension(e.name) !in AllowedExt
    ensures !IsMediaFile(e)
  {
  }

  /** Three entries are filtered one by one. */
  lemma FilterThree(x: Entry, y: Entry, z: Entry)
    ensures Filter([x, y, z]) == Filter([x]) + Filter([y]) + Filter([z])
  {
    assert [x, y, z] == [x] + ([y] + [z]);
    FilterAppend([x], [y] + [z]);
    FilterAppend([y], [z]);
  }

  /** The extensions of the example's two file names. */
  lemma ExampleExtensions()
    ensures Extension("a.MP4") == "mp4"
    ensures Extension("b.txt") == "txt"
  {
    assert StringSplit.IsLastPiece("a.MP4", '.', "MP4");
    StringSplit.LastPieceUnique("a.MP4", '.', "MP4");
    var lowered := Ascii.ToLower("MP4");
    assert lowered[0] == 'm' && lowered[1] == 'p' && lowered[2] == '4';
    assert StringSplit.IsLastPiece("b.txt", '.', "txt");
    StringSplit.LastPieceUnique("b.txt", '.', "txt");
    Ascii.LowerIsFixed("txt");
  }
}
