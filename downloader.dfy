/**
 * Driving the downloader tool: the argument vector for one video, reading
 * its progress lines and its error output, the result of one download, the
 * progress-bar label of a title, and the collection of per-video results.
 * The tool itself is not run: each run's exit status and output lines are
 * inputs.
 */
module Downloader {
  import opened Wrappers
  import opened Text
  import opened Utf8
  import opened Errors
  import opened Format
  import opened Video
  import opened Config

  /** The outcome of one download. */
  datatype DownloadResult = DownloadResult(title: string, success: bool, error: Option<string>)

  /**
   * What happened when the tool was run for one video: it ran to completion
   * (with its exit status and output lines), or an I/O step failed (creating
   * the output directory, spawning the tool, or waiting for it).
   */
  datatype ProcessRun =
    | Finished(success: bool, stdoutLines: seq<string>, stderrLines: seq<string>)
    | IoFailure(message: string)

  const PLAIN_TEMPLATE: string := "%(title)s.%(ext)s"
  const SECTION_TEMPLATE: string := "%(title)s - %(section_title)s.%(ext)s"

  // ---------------------------------------------------------------------------
  // The section syntax `*MM:SS-MM:SS`
  // ---------------------------------------------------------------------------

  /** `{m:02}:{s:02}` of `t` seconds: minutes and seconds, each at least two digits. */
  function Clock(t: nat): string {
    Pad2(t / 60) + ":" + Pad2(t % 60)
  }

  /** The clock text holds only digits and the colon. */
  lemma ClockChars(t: nat)
    ensures forall j :: 0 <= j < |Clock(t)| ==> IsDigit(Clock(t)[j]) || Clock(t)[j] == ':'
  {
    var m, sec := Pad2(t / 60), Pad2(t % 60);
    Pad2Digits(t / 60);
    Pad2Digits(t % 60);
    var s := m + ":" + sec;
    assert forall j :: 0 <= j < |m| ==> s[j] == m[j];
    assert forall j :: |m| < j < |s| ==> s[j] == sec[j - |m| - 1];
  }

  /** The `--download-sections` value for one (start, end) pair of seconds. */
  function SectionRange(start: nat, end: nat): string {
    "*" + Clock(start) + "-" + Clock(end)
  }

  /** Reads a `*MM:SS-MM:SS` value back into its two times, in seconds. */
  function ReadSectionRange(s: string): Option<(nat, nat)> {
    if s == [] || s[0] != '*' then None
    else
      match SplitOnce(s[1..], '-')
      case None => None
      case Some((a, b)) =>
        match (ReadTime(a), ReadTime(b))
        case (Some(x), Some(y)) => Some((x, y))
        case _ => None
  }

  /** The clock text reads back as its seconds, whatever the number of minutes. */
  lemma ClockRoundTrip(t: nat)
    ensures ReadTime(Clock(t)) == Some(t)
  {
    Pad2Digits(t / 60);
    ReadClock(Pad2(t / 60), t % 60);
  }

  /**
   * A section value loses nothing: it reads back as its start and end. So the
   * seconds field is below 60 and minutes * 60 + seconds is the time again,
   * however many digits the minutes take.
   */
  lemma SectionRangeRoundTrip(start: nat, end: nat)
    ensures ReadSectionRange(SectionRange(start, end)) == Some((start, end))
  {
    var a, b := Clock(start), Clock(end);
    var s := SectionRange(start, end);
    assert s[1..] == a + ['-'] + b;
    assert '-' !in a by {
      ClockChars(start);
      forall j | 0 <= j < |a| ensures a[j] != '-' {
        assert IsDigit(a[j]) || a[j] == ':';
      }
    }
    SplitOnceAt(a, '-', b);
    ClockRoundTrip(start);
    ClockRoundTrip(end);
  }

  // ---------------------------------------------------------------------------
  // `build_args`
  // ---------------------------------------------------------------------------

  /** The output path: the directory joined with the template for the video. */
  function OutputPath(video: VideoInfo, config: DownloadConfig): string {
    config.outputDir + "/" + (if HasSelectedSections(video) then SECTION_TEMPLATE else PLAIN_TEMPLATE)
  }

  /** `flag` in front of each value, in order: `[flag, v0, flag, v1, ...]`. */
  function FlagEach(flag: string, values: seq<string>): seq<string> {
    if values == [] then []
    else FlagEach(flag, values[..|values| - 1]) + [flag, values[|values| - 1]]
  }

  /** The `*MM:SS-MM:SS` value of each selected section, in order. */
  function SectionValues(sections: seq<(nat, nat)>): (values: seq<string>)
    ensures |values| == |sections|
  {
    seq(|sections|, j requires 0 <= j < |sections| => SectionRange(sections[j].0, sections[j].1))
  }

  /** One `--download-sections` pair per selected section. */
  function SectionArgs(sections: seq<(nat, nat)>): seq<string> {
    FlagEach("--download-sections", SectionValues(sections))
  }

  /** The flags that select the output format. */
  function FormatArgs(format: MediaFormat): seq<string> {
    match format
    case Audio(codec) => ["-x", "--audio-format", AudioCodecText(codec), "--audio-quality", "0"]
    case Video(codec) => ["--merge-output-format", VideoCodecText(codec)]
  }

  /** The argument vector `build_args` produces. */
  function ArgsFor(video: VideoInfo, config: DownloadConfig): seq<string> {
    ["--no-warnings", "--newline", "--progress", "-o", OutputPath(video, config)]
      + SectionArgs(video.selectedSections) + FormatArgs(config.format) + [video.url]
  }

  /** Each value comes right after its own copy of the flag, in order. */
  lemma {:induction false} FlagEachLayout(flag: string, values: seq<string>)
    ensures |FlagEach(flag, values)| == 2 * |values|
    ensures forall j :: 0 <= j < |values| ==>
              FlagEach(flag, values)[2 * j] == flag && FlagEach(flag, values)[2 * j + 1] == values[j]
  {
    if values != [] {
      var init := values[..|values| - 1];
      FlagEachLayout(flag, init);
      assert forall j :: 0 <= j < |init| ==> init[j] == values[j];
    }
  }

  /**
   * The head of the argument vector: the four fixed flags and the output
   * path, with the section-aware template exactly when sections are
   * selected; its length is 6 + 2 * sections + (5 for audio, 2 for video).
   */
  lemma ArgsLayoutHead(video: VideoInfo, config: DownloadConfig)
    ensures var args := ArgsFor(video, config);
      && |args| == 6 + 2 * |video.selectedSections| + (if config.format.Audio? then 5 else 2)
      && args[0] == "--no-warnings" && args[1] == "--newline" && args[2] == "--progress" && args[3] == "-o"
      && args[4] == config.outputDir + "/" + (if video.selectedSections != [] then SECTION_TEMPLATE else PLAIN_TEMPLATE)
  {
    FlagEachLayout("--download-sections", SectionValues(video.selectedSections));
  }

  /** Indexing into the middle piece of a three-piece sequence. */
  lemma IndexAfter<T>(head: seq<T>, mid: seq<T>, tail: seq<T>, k: nat)
    requires k < |mid|
    ensures (head + (mid + tail))[|head| + k] == mid[k]
  {
  }

  /** After the output path, a `--download-sections` pair per selected section, in order. */
  lemma ArgsLayoutSections(video: VideoInfo, config: DownloadConfig)
    ensures var args := ArgsFor(video, config);
      && |args| > 6 + 2 * |video.selectedSections|
      && forall j :: 0 <= j < |video.selectedSections| ==>
           args[5 + 2 * j] == "--download-sections"
           && args[6 + 2 * j] == SectionRange(video.selectedSections[j].0, video.selectedSections[j].1)
  {
    var sections := video.selectedSections;
    var values := SectionValues(sections);
    var sa := FlagEach("--download-sections", values);
    FlagEachLayout("--download-sections", values);
    var head := ["--no-warnings", "--newline", "--progress", "-o", OutputPath(video, config)];
    var tail := FormatArgs(config.format) + [video.url];
    var args := ArgsFor(video, config);
    assert args == head + (sa + tail);
    forall j | 0 <= j < |sections|
      ensures args[5 + 2 * j] == "--download-sections" && args[6 + 2 * j] == values[j]
    {
      IndexAfter(head, sa, tail, 2 * j);
      IndexAfter(head, sa, tail, 2 * j + 1);
    }
  }

  /** The tail: exactly the audio flags or the video flags, then the URL last. */
  lemma ArgsLayoutTail(video: VideoInfo, config: DownloadConfig)
    ensures var args := ArgsFor(video, config);
      && (config.format.Audio? ==>
            args[|args| - 6] == "-x" && args[|args| - 5] == "--audio-format"
            && args[|args| - 4] == AudioCodecText(config.format.audio)
            && args[|args| - 3] == "--audio-quality" && args[|args| - 2] == "0")
      && (config.format.Video? ==>
            args[|args| - 3] == "--merge-output-format" && args[|args| - 2] == VideoCodecText(config.format.video))
      && args[|args| - 1] == video.url
  {
    var front := ["--no-warnings", "--newline", "--progress", "-o", OutputPath(video, config)]
      + SectionArgs(video.selectedSections);
    var tail := FormatArgs(config.format) + [video.url];
    assert ArgsFor(video, config) == front + tail;
  }

  /**
   * `YtDlpDownloader::build_args`: pushes the fixed flags and the output
   * path, then a pair per selected section, then the format's flags, then
   * the URL; the result is `ArgsFor`, whose layout the `ArgsLayout` lemmas state.
   */
  method BuildArgs(video: VideoInfo, config: DownloadConfig) returns (args: seq<string>)
    ensures args == ArgsFor(video, config)
  {
    var template := if HasSelectedSections(video) then SECTION_TEMPLATE else PLAIN_TEMPLATE;
    args := ["--no-warnings", "--newline", "--progress", "-o", config.outputDir + "/" + template];
    ghost var head := args;

    var sections := video.selectedSections;
    ghost var values := SectionValues(sections);
    for j := 0 to |sections|
      invariant args == head + FlagEach("--download-sections", values[..j])
    {
      assert values[..j + 1][..j] == values[..j];
      var (start, end) := sections[j];
      args := args + ["--download-sections", SectionRange(start, end)];
    }
    assert values[..|sections|] == values;

    match config.format {
      case Audio(codec) =>
        args := args + ["-x", "--audio-format", AudioCodecText(codec), "--audio-quality", "0"];
      case Video(codec) =>
        args := args + ["--merge-output-format", VideoCodecText(codec)];
    }
    args := args + [video.url];
  }

  // ---------------------------------------------------------------------------
  // Progress lines
  // ---------------------------------------------------------------------------

  /** The whitespace-separated words of the trimmed line. */
  function Words(line: string): seq<string> {
    SplitWhitespace(Trim(line))
  }

  /** A word ending in '%' whose text before the trailing '%'s parses as a number. */
  predicate Qualifies(word: string, parseNumber: string -> Option<real>) {
    EndsWithChar(word, '%') && parseNumber(TrimEndMatches(word, '%')).Some?
  }

  /**
   * `parse_progress_percent`, with the floating-point parser as a parameter:
   * nothing for a line without "[download]"; otherwise the value of the first
   * word that qualifies (words ending in '%' that do not parse are passed
   * over), or nothing when no word qualifies.
   */
  method ParseProgressPercent(line: string, parseNumber: string -> Option<real>) returns (pct: Option<real>)
    ensures !Contains(line, "[download]") ==> pct == None
    ensures pct.Some? <==> Contains(line, "[download]") && SomeQualifies(Words(line), parseNumber)
    ensures pct.Some? ==> IsFirstPercent(Words(line), parseNumber, pct.value)
  {
    if !Contains(line, "[download]") {
      return None;
    }
    pct := FirstPercent(Words(line), parseNumber);
  }

  predicate SomeQualifies(words: seq<string>, parseNumber: string -> Option<real>) {
    exists i :: 0 <= i < |words| && Qualifies(words[i], parseNumber)
  }

  /** `v` is the number of the first qualifying word. */
  predicate IsFirstPercent(words: seq<string>, parseNumber: string -> Option<real>, v: real) {
    exists i :: 0 <= i < |words| && Qualifies(words[i], parseNumber)
      && (forall j :: 0 <= j < i ==> !Qualifies(words[j], parseNumber))
      && v == parseNumber(TrimEndMatches(words[i], '%')).value
  }

  /** The scan over the words: the number of the first qualifying word, if any. */
  method FirstPercent(words: seq<string>, parseNumber: string -> Option<real>) returns (pct: Option<real>)
    ensures pct.Some? <==> SomeQualifies(words, parseNumber)
    ensures pct.Some? ==> IsFirstPercent(words, parseNumber, pct.value)
  {
    for i := 0 to |words|
      invariant forall j :: 0 <= j < i ==> !Qualifies(words[j], parseNumber)
    {
      var word := words[i];
      if EndsWithChar(word, '%') {
        var parsed := parseNumber(TrimEndMatches(word, '%'));
        if parsed.Some? {
          return parsed;
        }
      }
    }
    return None;
  }

  // ---------------------------------------------------------------------------
  // One download
  // ---------------------------------------------------------------------------

  const EXIT_STATUS_REASON: string := "yt-dlp exited with non-zero status"

  predicate IsErrorLine(line: string) {
    StartsWith(line, "ERROR:")
  }

  /**
   * The failure reason: the last error-output line starting with "ERROR:",
   * or the generic exit-status message when there is none.
   */
  function FailureReason(stderrLines: seq<string>): string {
    if stderrLines == [] then EXIT_STATUS_REASON
    else if IsErrorLine(stderrLines[|stderrLines| - 1]) then stderrLines[|stderrLines| - 1]
    else FailureReason(stderrLines[..|stderrLines| - 1])
  }

  /**
   * With some "ERROR:" line, the reason is such a line with none after it;
   * with none, it is the generic message.
   */
  lemma {:induction false} FailureReasonIsLastError(stderrLines: seq<string>)
    ensures (exists i :: 0 <= i < |stderrLines| && IsErrorLine(stderrLines[i])) ==>
              exists i :: 0 <= i < |stderrLines| && IsErrorLine(stderrLines[i])
                && FailureReason(stderrLines) == stderrLines[i]
                && forall j :: i < j < |stderrLines| ==> !IsErrorLine(stderrLines[j])
    ensures (forall i :: 0 <= i < |stderrLines| ==> !IsErrorLine(stderrLines[i])) ==>
              FailureReason(stderrLines) == EXIT_STATUS_REASON
  {
    if stderrLines != [] {
      var n := |stderrLines| - 1;
      var init := stderrLines[..n];
      FailureReasonIsLastError(init);
      assert forall i :: 0 <= i < n ==> init[i] == stderrLines[i];
      if !IsErrorLine(stderrLines[n]) && exists i :: 0 <= i < |stderrLines| && IsErrorLine(stderrLines[i]) {
        var i :| 0 <= i < |stderrLines| && IsErrorLine(stderrLines[i]);
        assert IsErrorLine(init[i]);
      }
    }
  }

  /**
   * `YtDlpDownloader::download` after the run: an I/O failure is an `Io`
   * error; a successful exit is a success carrying the video's title; any
   * other exit is `DownloadFailed` with the title and the failure reason.
   */
  function Download(video: VideoInfo, run: ProcessRun): (r: Result<DownloadResult, AppError>)
    ensures r.Success? <==> run.Finished? && run.success
    ensures r.Success? ==> r.value == DownloadResult(video.title, true, None)
    ensures run.IoFailure? ==> r == Failure(Io(run.message))
    ensures run.Finished? && !run.success ==>
              r == Failure(DownloadFailed(video.title, FailureReason(run.stderrLines)))
  {
    match run
    case IoFailure(message) => Failure(Io(message))
    case Finished(success, _, stderrLines) =>
      if success then Success(DownloadResult(video.title, true, None))
      else Failure(DownloadFailed(video.title, FailureReason(stderrLines)))
  }

  /**
   * What one spawned task yields: the download's result, or a failed result
   * for the video's title carrying the error's text.
   */
  function TaskResult(video: VideoInfo, run: ProcessRun): (r: DownloadResult)
    ensures r.title == video.title
    ensures r.success <==> run.Finished? && run.success
    ensures r.success <==> r.error.None?
    ensures !r.success ==> r.error == Some(Message(Download(video, run).error))
  {
    match Download(video, run)
    case Success(result) => result
    case Failure(e) => DownloadResult(video.title, false, Some(Message(e)))
  }

  // ---------------------------------------------------------------------------
  // Progress-bar labels
  // ---------------------------------------------------------------------------

  const LABEL_MAX_BYTES: nat := 40
  const LABEL_KEEP_BYTES: nat := 37

  /**
   * The label as the source computes it, on bytes: a title over 40 bytes is
   * cut at byte 37 and "..." appended. `None` stands for the panic the byte
   * slice raises when byte 37 falls inside a multi-byte character.
   */
  function ShortenTitleAsWritten(title: string): (cut: Option<seq<byte>>)
    ensures cut.None? ==> |Encode(title)| > LABEL_MAX_BYTES
    ensures cut.Some? ==> |cut.value| <= LABEL_MAX_BYTES
  {
    var bytes := Encode(title);
    EllipsisBytes();
    if |bytes| > LABEL_MAX_BYTES then
      if IsCharBoundary(bytes, LABEL_KEEP_BYTES) then Some(bytes[..LABEL_KEEP_BYTES] + Encode("..."))
      else None
    else Some(bytes)
  }

  /** "..." is three bytes. */
  lemma EllipsisBytes()
    ensures |Encode("...")| == 3
  {
    assert "..."[1..] == ".." && ".."[1..] == "." && "."[1..] == [];
  }

  /**
   * The label with the cut moved back to the last character boundary within
   * 37 bytes: a title of at most 40 bytes is kept, a longer one becomes its
   * longest character prefix within 37 bytes followed by "...".
   */
  function ShortenTitle(title: string): string {
    if |Encode(title)| > LABEL_MAX_BYTES then
      title[..FitChars(title, LABEL_KEEP_BYTES)] + "..."
    else title
  }

  /**
   * The label never exceeds 40 bytes; a title that fits is kept; a longer
   * one is cut after the longest character prefix within 37 bytes, so a
   * shortened label has at least 37 bytes.
   */
  lemma ShortenTitleFits(title: string)
    ensures |Encode(ShortenTitle(title))| <= LABEL_MAX_BYTES
    ensures |Encode(title)| <= LABEL_MAX_BYTES ==> ShortenTitle(title) == title
    ensures |Encode(title)| > LABEL_MAX_BYTES ==>
              exists k :: 0 <= k < |title| && ShortenTitle(title) == title[..k] + "..."
                && |Encode(title[..k])| <= LABEL_KEEP_BYTES < |Encode(title[..k + 1])|
    ensures |Encode(title)| > LABEL_MAX_BYTES ==> |Encode(ShortenTitle(title))| >= LABEL_KEEP_BYTES
  {
    if |Encode(title)| > LABEL_MAX_BYTES {
      var k := FitChars(title, LABEL_KEEP_BYTES);
      EncodeSplitAt(title, k);
      EncodeAppend(title[..k], "...");
    }
  }

  /**
   * Wherever the source's label does not panic, the corrected label has
   * exactly its bytes: exactly 40 bytes when the title was shortened. It
   * panics exactly when the title is over 40 bytes and byte 37 is not a
   * character boundary.
   */
  lemma ShortenTitleAgrees(title: string)
    ensures ShortenTitleAsWritten(title).None? <==>
              |Encode(title)| > LABEL_MAX_BYTES && !IsCharBoundary(Encode(title), LABEL_KEEP_BYTES)
    ensures ShortenTitleAsWritten(title).Some? ==> ShortenTitleAsWritten(title).value == Encode(ShortenTitle(title))
    ensures ShortenTitleAsWritten(title).Some? && |Encode(title)| > LABEL_MAX_BYTES ==>
              |ShortenTitleAsWritten(title).value| == LABEL_MAX_BYTES
  {
    var bytes := Encode(title);
    if |bytes| > LABEL_MAX_BYTES && IsCharBoundary(bytes, LABEL_KEEP_BYTES) {
      CutOnBoundary(title);
    }
  }

  /** Cutting a long title at byte 37 on a character boundary gives the corrected label's 40 bytes. */
  lemma CutOnBoundary(title: string)
    requires |Encode(title)| > LABEL_MAX_BYTES && IsCharBoundary(Encode(title), LABEL_KEEP_BYTES)
    ensures Encode(title)[..LABEL_KEEP_BYTES] + Encode("...") == Encode(ShortenTitle(title))
    ensures |Encode(ShortenTitle(title))| == LABEL_MAX_BYTES
  {
    var k := FitChars(title, LABEL_KEEP_BYTES);
    BoundaryAtFit(title, LABEL_KEEP_BYTES);
    assert title == title[..k] + title[k..];
    EncodeAppend(title[..k], title[k..]);
    assert Encode(title)[..LABEL_KEEP_BYTES] == Encode(title[..k]);
    EncodeAppend(title[..k], "...");
    EllipsisBytes();
  }

  /** `n` copies of `c`. */
  function Repeat(c: char, n: nat): (s: string)
    ensures |s| == n
  {
    if n == 0 then [] else [c] + Repeat(c, n - 1)
  }

  /** The encoding of repeated three-byte characters repeats the character's three bytes. */
  lemma {:induction false} EncodeRepeat3(c: char, n: nat)
    requires Width(c) == 3
    ensures |Encode(Repeat(c, n))| == 3 * n
    ensures forall i :: 0 <= i < 3 * n ==> Encode(Repeat(c, n))[i] == EncodeChar(c)[i % 3]
  {
    if n > 0 {
      var s := Repeat(c, n);
      assert s[0] == c && s[1..] == Repeat(c, n - 1);
      EncodeRepeat3(c, n - 1);
      forall i | 3 <= i < 3 * n ensures Encode(s)[i] == EncodeChar(c)[i % 3] {
        assert (i - 3) % 3 == i % 3;
      }
    }
  }

  /**
   * The source's label panics on a title of fourteen U+65E5 characters:
   * 42 bytes, and byte 37 is the second byte of the thirteenth character.
   */
  lemma ShortenTitlePanicsOnCjk()
    ensures ShortenTitleAsWritten(Repeat('日', 14)).None?
  {
    var title := Repeat('日', 14);
    EncodeRepeat3('日', 14);
    assert Encode(title)[LABEL_KEEP_BYTES] == EncodeChar('日')[1];
  }

  // ---------------------------------------------------------------------------
  // `download_all`
  // ---------------------------------------------------------------------------

  /**
   * `download_all`, sequentially. The first loop labels each video's
   * progress bar and starts its task (whose result is `TaskResult` of that
   * video's run); the second joins the tasks in order, a task that fails to
   * join (given by `joinFailures`) becoming a failed result titled
   * "unknown". One result per video, in the videos' order. Labels use the
   * corrected cut, and agree byte for byte with the source's label on every
   * title where the source's byte slice does not panic.
   */
  method DownloadAll(videos: seq<VideoInfo>, runs: seq<ProcessRun>, joinFailures: seq<Option<string>>)
    returns (results: seq<DownloadResult>, labels: seq<string>)
    requires |runs| == |videos| && |joinFailures| == |videos|
    ensures |results| == |videos| && |labels| == |videos|
    ensures forall i :: 0 <= i < |videos| ==> labels[i] == ShortenTitle(videos[i].title)
    ensures forall i :: 0 <= i < |videos| && ShortenTitleAsWritten(videos[i].title).Some? ==>
              Encode(labels[i]) == ShortenTitleAsWritten(videos[i].title).value
    ensures forall i :: 0 <= i < |videos| ==> joinFailures[i].None? ==> results[i] == TaskResult(videos[i], runs[i])
    ensures forall i :: 0 <= i < |videos| ==> joinFailures[i].Some? ==>
              results[i] == DownloadResult("unknown", false, joinFailures[i])
    ensures forall i :: 0 <= i < |videos| ==> (results[i].success <==> results[i].error.None?)
  {
    var handles;
    handles, labels := StartAll(videos, runs);
    LabelsAgree(videos, labels);
    results := JoinAll(handles, joinFailures);
  }

  /** Corrected labels agree with the source's wherever the source's cut does not panic. */
  lemma LabelsAgree(videos: seq<VideoInfo>, labels: seq<string>)
    requires |labels| == |videos|
    requires forall i :: 0 <= i < |videos| ==> labels[i] == ShortenTitle(videos[i].title)
    ensures forall i :: 0 <= i < |videos| && ShortenTitleAsWritten(videos[i].title).Some? ==>
              Encode(labels[i]) == ShortenTitleAsWritten(videos[i].title).value
  {
    forall i | 0 <= i < |videos| && ShortenTitleAsWritten(videos[i].title).Some?
      ensures Encode(labels[i]) == ShortenTitleAsWritten(videos[i].title).value
    {
      ShortenTitleAgrees(videos[i].title);
    }
  }

  /** The first loop of `download_all`: a label and a task per video, in order. */
  method StartAll(videos: seq<VideoInfo>, runs: seq<ProcessRun>)
    returns (handles: seq<DownloadResult>, labels: seq<string>)
    requires |runs| == |videos|
    ensures |handles| == |videos| && |labels| == |videos|
    ensures forall i :: 0 <= i < |videos| ==> labels[i] == ShortenTitle(videos[i].title)
    ensures forall i :: 0 <= i < |videos| ==> handles[i] == TaskResult(videos[i], runs[i])
  {
    handles, labels := [], [];
    for i := 0 to |videos|
      invariant |handles| == i && |labels| == i
      invariant forall p :: 0 <= p < i ==> labels[p] == ShortenTitle(videos[p].title)
      invariant forall p :: 0 <= p < i ==> handles[p] == TaskResult(videos[p], runs[p])
    {
      var video := videos[i];
      var titleShort := ShortenTitle(video.title);
      labels := labels + [titleShort];
      handles := handles + [TaskResult(video, runs[i])];
    }
  }

  /** The second loop of `download_all`: each task's result, or "unknown" when it failed to join. */
  method JoinAll(handles: seq<DownloadResult>, joinFailures: seq<Option<string>>)
    returns (results: seq<DownloadResult>)
    requires |joinFailures| == |handles|
    ensures |results| == |handles|
    ensures forall i :: 0 <= i < |handles| ==> joinFailures[i].None? ==> results[i] == handles[i]
    ensures forall i :: 0 <= i < |handles| ==> joinFailures[i].Some? ==>
              results[i] == DownloadResult("unknown", false, joinFailures[i])
  {
    results := [];
    for i := 0 to |handles|
      invariant |results| == i
      invariant forall p :: 0 <= p < i ==> joinFailures[p].None? ==> results[p] == handles[p]
      invariant forall p :: 0 <= p < i ==> joinFailures[p].Some? ==>
                  results[p] == DownloadResult("unknown", false, joinFailures[p])
    {
      match joinFailures[i] {
        case None => results := results + [handles[i]];
        case Some(message) => results := results + [DownloadResult("unknown", false, Some(message))];
      }
    }
  }
}
