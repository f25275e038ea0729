/**
 * Building the catalog from the downloader tool's JSON listing: one video
 * per playlist entry (numbered from 1, with default titles and URLs), or a
 * single video when the listing has no entries; and the chapters of one
 * video. The tool is not run: its exit status, error output and decoded JSON
 * are inputs.
 */
module Playlist {
  import opened Wrappers
  import opened Text
  import opened Errors
  import opened Video

  /**
   * What running the tool yielded: an I/O failure (it could not be spawned
   * or waited for), or its exit status, its error output (already decoded,
   * lossily, to text) and its standard output deserialised as `J` or the
   * deserialiser's error message.
   */
  datatype ToolRun<J> =
    | IoFailed(ioMessage: string)
    | Exited(success: bool, stderr: string, stdout: Result<J, string>)

  const WATCH_URL: string := "https://www.youtube.com/watch?v="

  /** The watch page of a video id. */
  function WatchUrl(id: string): (url: string)
    ensures StartsWith(url, WATCH_URL) && url[|WATCH_URL|..] == id
  {
    WATCH_URL + id
  }

  /** The title given to the entry at position `i` (0-based) when it has none. */
  function DefaultTitle(i: nat): string {
    "Video " + Decimal(i + 1)
  }

  /** Entries at different positions get different default titles. */
  lemma DefaultTitlesDistinct(i: nat, j: nat)
    ensures DefaultTitle(i) == DefaultTitle(j) ==> i == j
  {
    if DefaultTitle(i) == DefaultTitle(j) {
      assert DefaultTitle(i)[6..] == Decimal(i + 1);
      assert DefaultTitle(j)[6..] == Decimal(j + 1);
      DecimalInjective(i + 1, j + 1);
    }
  }

  /**
   * The video for the playlist entry at position `i`: numbered `i + 1`, its
   * id or the empty id, its title or "Video {i + 1}", its URL or the watch
   * page of its id, its duration as listed, and no chapters or sections.
   */
  function EntryVideo(i: nat, e: EntryJson): (v: VideoInfo)
    ensures v.index == i + 1
    ensures v.id == e.id.GetOr("")
    ensures e.title.Some? ==> v.title == e.title.value
    ensures e.title.None? ==> v.title == DefaultTitle(v.index - 1)
    ensures e.url.Some? ==> v.url == e.url.value
    ensures e.url.None? ==> StartsWith(v.url, WATCH_URL) && v.url[|WATCH_URL|..] == v.id
    ensures v.duration == e.duration
    ensures !HasChapters(v) && !HasSelectedSections(v)
  {
    var id := e.id.GetOr("");
    VideoInfo(
      index := i + 1,
      id := id,
      title := e.title.GetOr(DefaultTitle(i)),
      duration := e.duration,
      url := e.url.GetOr(WatchUrl(id)),
      chapters := [],
      selectedSections := [])
  }

  /** The videos of a playlist's entries, in the entries' order. */
  function EntryVideos(entries: seq<EntryJson>): (videos: seq<VideoInfo>)
    ensures |videos| == |entries|
    ensures forall k :: 0 <= k < |entries| ==> videos[k] == EntryVideo(k, entries[k])
  {
    seq(|entries|, k requires 0 <= k < |entries| => EntryVideo(k, entries[k]))
  }

  /**
   * The single video a listing without entries describes: number 1, its
   * full title or "Unknown", its page URL or the watch page of its id, and
   * the chapters it reports, or none.
   */
  function SingleVideo(json: PlaylistJson): (v: VideoInfo)
    ensures v.index == 1
    ensures v.id == json.id.GetOr("")
    ensures json.fullTitle.Some? ==> v.title == json.fullTitle.value
    ensures json.fullTitle.None? ==> v.title == "Unknown"
    ensures json.webpageUrl.Some? ==> v.url == json.webpageUrl.value
    ensures json.webpageUrl.None? ==> StartsWith(v.url, WATCH_URL) && v.url[|WATCH_URL|..] == v.id
    ensures v.duration == json.duration
    ensures json.chapters.Some? ==> v.chapters == json.chapters.value
    ensures json.chapters.None? ==> !HasChapters(v)
    ensures !HasSelectedSections(v)
  {
    var id := json.id.GetOr("");
    VideoInfo(
      index := 1,
      id := id,
      title := json.fullTitle.GetOr("Unknown"),
      duration := json.duration,
      url := json.webpageUrl.GetOr(WatchUrl(id)),
      chapters := json.chapters.GetOr([]),
      selectedSections := [])
  }

  /**
   * The catalog a decoded listing describes: with `entries`, the playlist's
   * title and one video per entry (an empty list is an error); without, no
   * collection title and the single video.
   */
  function Catalog(json: PlaylistJson): (r: Result<(Option<string>, seq<VideoInfo>), AppError>)
    ensures r.Failure? <==> json.entries == Some([])
    ensures r.Failure? ==> r.error == EmptyPlaylist
    ensures r.Success? ==> r.value.1 != []
    ensures json.entries.Some? && r.Success? ==>
              r.value.0 == json.title && r.value.1 == EntryVideos(json.entries.value)
    ensures json.entries.None? ==> r == Success((None, [SingleVideo(json)]))
  {
    match json.entries
    case Some(entries) =>
      if entries == [] then Failure(EmptyPlaylist)
      else Success((json.title, EntryVideos(entries)))
    case None => Success((None, [SingleVideo(json)]))
  }

  /**
   * `YtDlpFetcher::fetch` after the tool has run: an I/O failure is `Io`, a
   * non-zero exit is `YtDlp` with the trimmed error output, output that does
   * not deserialise is `Json`, and otherwise the catalog; a successful fetch
   * never returns an empty catalog.
   */
  function Fetch(run: ToolRun<PlaylistJson>): (r: Result<(Option<string>, seq<VideoInfo>), AppError>)
    ensures run.IoFailed? ==> r == Failure(Io(run.ioMessage))
    ensures run.Exited? && !run.success ==> r == Failure(YtDlp(Trim(run.stderr)))
    ensures run.Exited? && run.success && run.stdout.Failure? ==> r == Failure(Json(run.stdout.error))
    ensures run.Exited? && run.success && run.stdout.Success? ==> r == Catalog(run.stdout.value)
    ensures r.Success? ==> r.value.1 != []
  {
    match run
    case IoFailed(m) => Failure(Io(m))
    case Exited(success, stderr, stdout) =>
      if !success then Failure(YtDlp(Trim(stderr)))
      else
        match stdout
        case Failure(m) => Failure(Json(m))
        case Success(json) => Catalog(json)
  }

  /**
   * The videos of a successful fetch are numbered 1, 2, ..., n in order, so
   * their numbers are distinct and ascending; none has selected sections;
   * a playlist's videos have no chapters.
   */
  lemma {:induction false} FetchNumbersInOrder(run: ToolRun<PlaylistJson>)
    ensures Fetch(run).Success? ==>
              var videos := Fetch(run).value.1;
              && (forall k :: 0 <= k < |videos| ==> videos[k].index == k + 1 && !HasSelectedSections(videos[k]))
              && (forall j, k :: 0 <= j < k < |videos| ==> videos[j].index < videos[k].index)
    ensures Fetch(run).Success? && run.stdout.value.entries.Some? ==>
              forall k :: 0 <= k < |Fetch(run).value.1| ==> !HasChapters(Fetch(run).value.1[k])
  {
    if Fetch(run).Success? {
      var json := run.stdout.value;
      var videos := Fetch(run).value.1;
      if json.entries.Some? {
        var entries := json.entries.value;
        forall k | 0 <= k < |videos|
          ensures videos[k].index == k + 1 && !HasSelectedSections(videos[k]) && !HasChapters(videos[k])
        {
          assert videos[k] == EntryVideo(k, entries[k]);
        }
      }
    }
  }

  /** Untitled playlist entries at different positions never share a title. */
  lemma UntitledEntriesDistinct(entries: seq<EntryJson>, j: nat, k: nat)
    requires j < k < |entries|
    requires entries[j].title.None? && entries[k].title.None?
    ensures EntryVideos(entries)[j].title != EntryVideos(entries)[k].title
  {
    DefaultTitlesDistinct(j, k);
  }

  /**
   * `YtDlpFetcher::fetch_chapters` after the tool has run: the reported
   * chapters, none when the field is absent, and the same I/O, exit-status
   * and JSON errors as `Fetch`.
   */
  function FetchChapters(run: ToolRun<VideoJson>): (r: Result<seq<Chapter>, AppError>)
    ensures run.IoFailed? ==> r == Failure(Io(run.ioMessage))
    ensures run.Exited? && !run.success ==> r == Failure(YtDlp(Trim(run.stderr)))
    ensures run.Exited? && run.success && run.stdout.Failure? ==> r == Failure(Json(run.stdout.error))
    ensures r.Success? <==> run.Exited? && run.success && run.stdout.Success?
    ensures r.Success? && run.stdout.value.chapters.Some? ==> r.value == run.stdout.value.chapters.value
    ensures r.Success? && run.stdout.value.chapters.None? ==> r.value == []
  {
    match run
    case IoFailed(m) => Failure(Io(m))
    case Exited(success, stderr, stdout) =>
      if !success then Failure(YtDlp(Trim(stderr)))
      else
        match stdout
        case Failure(m) => Failure(Json(m))
        case Success(json) => Success(json.chapters.GetOr([]))
  }
}
