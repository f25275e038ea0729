/**
 * Choosing chapters of one video by a selection expression: the chosen
 * chapters' (start, end) bounds become the video's selected sections.
 */
module ChapterSelection {
  import opened Wrappers
  import opened Text
  import opened Errors
  import opened Video
  import opened RangeParser

  /** Every position is a 1-based chapter number among `n` chapters. */
  predicate InRange(positions: seq<nat>, n: nat) {
    forall k :: 0 <= k < |positions| ==> 1 <= positions[k] <= n
  }

  /** The bounds of the chapters at the given 1-based positions, in the positions' order. */
  function SectionsAt(chapters: seq<Chapter>, positions: seq<nat>): (sections: seq<(nat, nat)>)
    requires InRange(positions, |chapters|)
    ensures |sections| == |positions|
    ensures forall k :: 0 <= k < |positions| ==>
              sections[k] == (chapters[positions[k] - 1].startTime, chapters[positions[k] - 1].endTime)
  {
    seq(|positions|, k requires 0 <= k < |positions| =>
      (chapters[positions[k] - 1].startTime, chapters[positions[k] - 1].endTime))
  }

  /** The parse's error, or the video with the chosen chapters' bounds as its selected sections. */
  function Applied(video: VideoInfo, p: Result<seq<nat>, AppError>): Result<VideoInfo, AppError>
    requires p.Success? ==> InRange(p.value, |video.chapters|)
  {
    if p.Failure? then Failure(p.error)
    else Success(video.(selectedSections := SectionsAt(video.chapters, p.value)))
  }

  /**
   * Applying a parse of the answer: "all" selects every chapter, and a
   * success selects some section unless the answer was "all" and there are
   * no chapters (then 1..=0 is empty).
   */
  lemma AppliedSections(video: VideoInfo, answer: string, p: Result<seq<nat>, AppError>)
    requires ParsedAs(answer, |video.chapters|, p)
    requires p.Success? ==> InRange(p.value, |video.chapters|)
    ensures IsAll(answer) ==>
              Applied(video, p) == Success(video.(selectedSections := SectionsAt(video.chapters, Span(1, |video.chapters|))))
    ensures Applied(video, p).Success? ==>
              (HasSelectedSections(Applied(video, p).value) <==> HasChapters(video) || !IsAll(answer))
  {
    ParsedFromShape(IsAll(answer), Collect(Parts(answer), |video.chapters|), |video.chapters|, p);
  }

  /**
   * The positions an answer chooses among `n` chapters: exactly what
   * `parse_ranges` returns for it, so ascending, each once and each in range.
   */
  method ChoosePositions(answer: string, n: nat) returns (r: Result<seq<nat>, AppError>)
    ensures ParsedAs(answer, n, r)
    ensures r.Success? ==> StrictlyIncreasing(r.value) && InRange(r.value, n)
  {
    r := ParseRanges(answer, n);
    if r.Success? {
      forall k | 0 <= k < |r.value| ensures 1 <= r.value[k] <= n {
        assert r.value[k] in r.value;
      }
    }
  }

  /**
   * The chapter step of the interactive flow, after the answer is read: a
   * blank answer keeps the whole video; otherwise the trimmed answer is
   * parsed against the number of chapters, a parse error is returned as it
   * is, and on success the chosen chapters' bounds, in chapter order and
   * each once, become the selected sections ("all" chooses every chapter).
   * Nothing else about the video changes.
   */
  method SelectChapters(video: VideoInfo, input: string) returns (r: Result<VideoInfo, AppError>)
    ensures Trim(input) == [] ==> r == Success(video)
    ensures Trim(input) != [] ==>
              exists p: Result<seq<nat>, AppError> ::
                && ParsedAs(Trim(input), |video.chapters|, p)
                && (p.Success? ==> InRange(p.value, |video.chapters|))
                && r == Applied(video, p)
    ensures IsAll(Trim(input)) ==>
              r == Success(video.(selectedSections := SectionsAt(video.chapters, Span(1, |video.chapters|))))
    ensures r.Success? && Trim(input) != [] ==>
              (HasSelectedSections(r.value) <==> HasChapters(video) || !IsAll(Trim(input)))
  {
    var answer := Trim(input);
    if answer == [] {
      return Success(video);
    }
    var chosen := ChoosePositions(answer, |video.chapters|);
    AppliedSections(video, answer, chosen);
    r := Applied(video, chosen);
  }
}
