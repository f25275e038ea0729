/**
 * The catalog records (videos, chapters, the tool's JSON shapes) and the
 * helpers that display times and durations.
 */
module Video {
  import opened Wrappers
  import opened Text

  /** A chapter; times are whole seconds, the source's `f64` after its `as u64` truncation. */
  datatype Chapter = Chapter(title: string, startTime: nat, endTime: nat)

  /**
   * One downloadable item: its 1-based position in the catalog, the chapters
   * known for it, and the (start, end) second ranges chosen for download
   * (empty means the whole video).
   */
  datatype VideoInfo = VideoInfo(
    index: nat,
    id: string,
    title: string,
    duration: Option<nat>,
    url: string,
    chapters: seq<Chapter>,
    selectedSections: seq<(nat, nat)>)

  /** The tool's `-J` output for one video, as far as chapters go. */
  datatype VideoJson = VideoJson(chapters: Option<seq<Chapter>>)

  /** One entry of a flat playlist listing. */
  datatype EntryJson = EntryJson(id: Option<string>, title: Option<string>, duration: Option<nat>, url: Option<string>)

  /** The tool's `--flat-playlist -J` output: a playlist (with `entries`) or a single video. */
  datatype PlaylistJson = PlaylistJson(
    title: Option<string>,
    entries: Option<seq<EntryJson>>,
    id: Option<string>,
    webpageUrl: Option<string>,
    fullTitle: Option<string>,
    duration: Option<nat>,
    chapters: Option<seq<Chapter>>)

  /** `format_time`: the minutes `t / 60` without padding, a colon, and the seconds `t % 60` padded to two digits. */
  function FormatTime(t: nat): string {
    Decimal(t / 60) + ":" + Pad2(t % 60)
  }

  /**
   * The text of `format_time` is digits around one colon, with exactly two
   * digits after it: the seconds field is below 60 and minutes * 60 +
   * seconds is `t` again. The minutes are unpadded: the text starts with
   * '0' only when the minutes are the single digit 0.
   */
  lemma FormatTimeFields(t: nat)
    ensures var s := FormatTime(t);
      && |s| >= 4 && s[|s| - 3] == ':'
      && AllDigits(s[..|s| - 3]) && AllDigits(s[|s| - 2..])
      && DigitsValue(s[|s| - 2..]) < 60
      && DigitsValue(s[..|s| - 3]) * 60 + DigitsValue(s[|s| - 2..]) == t
      && (s[0] == '0' ==> |s| == 4)
  {
    var m, sec := Decimal(t / 60), Pad2(t % 60);
    DecimalDigits(t / 60);
    Pad2Digits(t % 60);
    var s := m + ":" + sec;
    assert s[..|s| - 3] == m && s[|s| - 2..] == sec;
  }

  /** The text of `format_time` holds only digits and the colon. */
  lemma FormatTimeChars(t: nat)
    ensures forall j :: 0 <= j < |FormatTime(t)| ==> IsDigit(FormatTime(t)[j]) || FormatTime(t)[j] == ':'
  {
    var m, sec := Decimal(t / 60), Pad2(t % 60);
    DecimalDigits(t / 60);
    Pad2Digits(t % 60);
    var s := m + ":" + sec;
    assert forall j :: 0 <= j < |m| ==> s[j] == m[j];
    assert forall j :: |m| < j < |s| ==> s[j] == sec[j - |m| - 1];
  }

  /** Reads `m:ss` back: unpadded minutes, a colon, two digits of seconds below 60. */
  function ReadTime(s: string): Option<nat> {
    var i := IndexOf(s, ':');
    if i == |s| then None
    else
      var m, sec := s[..i], s[i + 1..];
      if m == [] || !AllDigits(m) || |sec| != 2 || !AllDigits(sec) || DigitsValue(sec) >= 60 then None
      else Some(DigitsValue(m) * 60 + DigitsValue(sec))
  }

  /** Any digits, a colon and a two-digit seconds field read back as minutes * 60 + seconds. */
  lemma ReadClock(m: string, sec: nat)
    requires m != [] && AllDigits(m) && sec < 60
    ensures ReadTime(m + ":" + Pad2(sec)) == Some(DigitsValue(m) * 60 + sec)
  {
    var p := Pad2(sec);
    Pad2Digits(sec);
    var s := m + [':'] + p;
    assert ':' !in m by {
      forall j | 0 <= j < |m| ensures m[j] != ':' { assert IsDigit(m[j]); }
    }
    IndexOfAfter(m, ':', p);
    assert s[..|m|] == m;
    assert s[|m| + 1..] == p;
  }

  /** `format_time` loses nothing: reading its text gives back the seconds. */
  lemma FormatTimeRoundTrip(t: nat)
    ensures ReadTime(FormatTime(t)) == Some(t)
  {
    DecimalDigits(t / 60);
    ReadClock(Decimal(t / 60), t % 60);
  }

  /** Hence `format_time` is injective. */
  lemma FormatTimeInjective(a: nat, b: nat)
    ensures FormatTime(a) == FormatTime(b) ==> a == b
  {
    FormatTimeRoundTrip(a);
    FormatTimeRoundTrip(b);
  }

  /** `Chapter::time_display`: the start and end times joined by " - ". */
  function TimeDisplay(ch: Chapter): string {
    FormatTime(ch.startTime) + " - " + FormatTime(ch.endTime)
  }

  /** Reads a `time_display` text back into its two times. */
  function ReadTimeDisplay(s: string): Option<(nat, nat)> {
    var i := IndexOf(s, ' ');
    if i + 3 > |s| || s[i..i + 3] != " - " then None
    else
      match (ReadTime(s[..i]), ReadTime(s[i + 3..]))
      case (Some(a), Some(b)) => Some((a, b))
      case _ => None
  }

  /** A chapter's displayed bounds read back as its start and end. */
  lemma TimeDisplayRoundTrip(ch: Chapter)
    ensures ReadTimeDisplay(TimeDisplay(ch)) == Some((ch.startTime, ch.endTime))
  {
    var a, b := FormatTime(ch.startTime), FormatTime(ch.endTime);
    var s := a + " - " + b;
    assert ' ' !in a by {
      FormatTimeChars(ch.startTime);
      forall j | 0 <= j < |a| ensures a[j] != ' ' { assert IsDigit(a[j]) || a[j] == ':'; }
    }
    assert s == a + [' '] + ("- " + b);
    IndexOfAfter(a, ' ', "- " + b);
    assert s[..|a|] == a && s[|a|..|a| + 3] == " - " && s[|a| + 3..] == b;
    FormatTimeRoundTrip(ch.startTime);
    FormatTimeRoundTrip(ch.endTime);
  }

  /** `VideoInfo::duration_display`: "??:??" when the duration is unknown. */
  function DurationDisplay(v: VideoInfo): string {
    match v.duration
    case Some(d) => FormatTime(d)
    case None => "??:??"
  }

  /**
   * The placeholder is shown exactly when the duration is unknown, and a known
   * duration reads back from its display.
   */
  lemma DurationDisplayFaithful(v: VideoInfo)
    ensures DurationDisplay(v) == "??:??" <==> v.duration.None?
    ensures v.duration.Some? ==> ReadTime(DurationDisplay(v)) == Some(v.duration.value)
  {
    if v.duration.Some? {
      var s := FormatTime(v.duration.value);
      FormatTimeFields(v.duration.value);
      FormatTimeRoundTrip(v.duration.value);
      assert s[|s| - 1] == s[|s| - 2..][1];
      assert "??:??"[4] == '?';
    }
  }

  /** `VideoInfo::has_chapters`. */
  predicate HasChapters(v: VideoInfo)
    ensures HasChapters(v) <==> exists c :: c in v.chapters
  {
    assert v.chapters != [] ==> v.chapters[0] in v.chapters;
    v.chapters != []
  }

  /** `VideoInfo::has_selected_sections`. */
  predicate HasSelectedSections(v: VideoInfo)
    ensures HasSelectedSections(v) <==> exists section :: section in v.selectedSections
  {
    assert v.selectedSections != [] ==> v.selectedSections[0] in v.selectedSections;
    v.selectedSections != []
  }
}
