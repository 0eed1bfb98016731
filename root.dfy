/**
 * src/Root.tsx: the three compositions and the length of the summary video.
 * The morning and night shorts are portrait, 30 frames per second, 15 seconds;
 * the summary is landscape, 30 frames per second, 60 seconds by default, and
 * `calculateMetadata` sets its length from the number of comments.
 *
 * The length `calculateMetadata` returns is shorter than the timeline of
 * src/videos/SummaryVideo.tsx for every non-empty comment list, so the end of
 * that timeline is never rendered; `TimelineDuration` is the length that
 * timeline needs.
 */
module Root {
  import opened Js
  import opened SummaryVideo
  import CommentMerge

  datatype VideoConfig = VideoConfig(width: nat, height: nat, fps: nat, durationInFrames: nat)

  /** `SHORT_VIDEO_CONFIG` (lines 7-12). */
  const ShortVideoConfig: VideoConfig := VideoConfig(1080, 1920, 30, 30 * 15)

  /** `SUMMARY_VIDEO_CONFIG` (lines 15-20). */
  const SummaryVideoConfig: VideoConfig := VideoConfig(1920, 1080, 30, 30 * 60)

  /** The shorts are 9:16 and 450 frames long, the summary 16:9 and 1800 frames by default. */
  lemma ConfigConstants()
    ensures ShortVideoConfig.width * 16 == ShortVideoConfig.height * 9
    ensures ShortVideoConfig.durationInFrames == 450 && ShortVideoConfig.fps == 30
    ensures SummaryVideoConfig.width * 9 == SummaryVideoConfig.height * 16
    ensures SummaryVideoConfig.durationInFrames == 1800 && SummaryVideoConfig.fps == 30
    ensures SummaryVideoConfig.durationInFrames == ShortVideoConfig.durationInFrames * 4
  {
  }

  const BaseDuration: nat := 30 * 10
  const PerCommentDuration: nat := 30 * 5

  /** `props.comments?.length || 0`: a missing list counts as no comment. */
  function CommentsCount(comments: Option<seq<CommentMerge.UserComment>>): nat
  {
    if comments.Some? then |comments.value| else 0
  }

  /** `Math.max(baseDuration, baseDuration + commentsCount * perCommentDuration)` */
  function DurationFor(count: nat): nat
  {
    if BaseDuration + count * PerCommentDuration > BaseDuration then BaseDuration + count * PerCommentDuration
    else BaseDuration
  }

  /** The `durationInFrames` of `calculateMetadata` (lines 54-64). */
  function CalculatedDuration(comments: Option<seq<CommentMerge.UserComment>>): nat
  {
    DurationFor(CommentsCount(comments))
  }

  /**
   * The maximum never picks the base: the length is 300 frames plus 150 per
   * comment, so it is at least 300 (exactly 300 without comments or with the
   * list missing) and grows strictly with the count.
   */
  lemma DurationFormula(comments: Option<seq<CommentMerge.UserComment>>)
    ensures CalculatedDuration(comments) == 300 + 150 * CommentsCount(comments)
    ensures CalculatedDuration(comments) >= 300
    ensures comments.None? || comments.value == [] ==> CalculatedDuration(comments) == 300
  {
  }

  lemma DurationGrows(a: nat, b: nat)
    requires a < b
    ensures DurationFor(a) < DurationFor(b)
  {
    assert DurationFor(a) == 300 + 150 * a && DurationFor(b) == 300 + 150 * b;
  }

  // ---------------------------------------------------------------------------
  // The length against the timeline of the summary video, at 30 frames per second

  lemma TimelineAt30(n: nat)
    ensures ListViewStart(30, n) == 120 + 180 * n
    ensures OutroStart(30, n) == 270 + 180 * n
    ensures DurationFor(n) == 300 + 150 * n
  {
  }

  /**
   * As written, the outro is rendered only when there is no comment: for any
   * comment its first frame lies at or beyond the last frame of the video.
   */
  lemma OutroReachedOnlyWithoutComments(n: nat)
    ensures n == 0 ==> IsOutro(30, n, DurationFor(n) - 1)
    ensures n > 0 ==> forall frame: nat :: frame < DurationFor(n) ==> !IsOutro(30, n, frame)
  {
    TimelineAt30(n);
  }

  /** As written, the list view is rendered only for fewer than six comments. */
  lemma ListViewReachedBelowSix(n: nat)
    ensures n < 6 ==> IsListView(30, n, DurationFor(n) - 1) || IsOutro(30, n, DurationFor(n) - 1)
    ensures n >= 6 ==> forall frame: nat :: frame < DurationFor(n) ==>
      !IsListView(30, n, frame) && !IsOutro(30, n, frame)
  {
    TimelineAt30(n);
  }

  /**
   * As written, with more than six comments the last user's slot is cut short,
   * and from twelve comments on the last user is never shown at all.
   */
  lemma LastUserCut(n: nat)
    requires n > 0
    ensures SlotStart(30, n) <= DurationFor(n) <==> n <= 6
    ensures SlotStart(30, n - 1) < DurationFor(n) <==> n < 12
  {
    TimelineAt30(n);
    assert SlotStart(30, n - 1) + 180 == SlotStart(30, n);
  }

  /**
   * The length the timeline needs: intro, one slot per user, list view and
   * outro, 390 + 180 n frames at 30 frames per second.
   */
  function TimelineDuration(fps: nat, n: nat): nat
  {
    OutroStart(fps, n) + OutroFrames(fps)
  }

  /**
   * With that length every section is rendered in full: every user's slot
   * lies inside the video, the list view is shown for its five seconds, and
   * the last frame is the last frame of the outro.
   */
  lemma TimelineDurationShowsAll(fps: nat, n: nat)
    requires fps > 0
    ensures forall i: nat :: i < n ==> SlotStart(fps, i) + PerUserFrames(fps) <= ListViewStart(fps, n)
    ensures IsListView(fps, n, ListViewStart(fps, n))
    ensures IsOutro(fps, n, TimelineDuration(fps, n) - 1)
    ensures TimelineDuration(fps, n) - OutroStart(fps, n) == OutroFrames(fps)
    ensures fps == 30 ==> TimelineDuration(fps, n) == 390 + 180 * n
  {
    forall i: nat | i < n ensures SlotStart(fps, i) + PerUserFrames(fps) <= ListViewStart(fps, n) {
      Numerals.MulLe(i + 1, n, PerUserFrames(fps));
    }
  }

  /** The length as written falls short of the timeline for every comment count. */
  lemma DurationShortOfTimeline(n: nat)
    ensures DurationFor(n) < TimelineDuration(30, n)
    ensures TimelineDuration(30, n) - DurationFor(n) == 90 + 30 * n
  {
    TimelineAt30(n);
  }
}
