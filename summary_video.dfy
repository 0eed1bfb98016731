/**
 * src/videos/SummaryVideo.tsx: the integer and string logic of the summary
 * video. A frame number is placed in one of four sections (intro, one slot per
 * user, list view, outro); a celebration sound is scheduled inside the slot of
 * each user who posted both comments; the intro shows three badge counts; the
 * list view truncates long texts and scrolls when it has more rows than fit;
 * each user gets a praise phrase chosen by the same hash as the avatar colour.
 *
 * `fps` is the frame rate the composition is rendered at and `n` the number of
 * comments (`comments.length`). The drawing itself (JSX, springs, opacities,
 * particles) is not modelled.
 */
module SummaryVideo {
  import opened Js
  import opened Numerals
  import Hashing
  import FetchComments
  import opened CommentMerge

  // ---------------------------------------------------------------------------
  // Sections of the timeline (lines 40-53)

  function IntroFrames(fps: nat): nat { fps * 4 }
  function PerUserFrames(fps: nat): nat { fps * 6 }
  function ListViewFrames(fps: nat): nat { fps * 5 }
  function OutroFrames(fps: nat): nat { fps * 4 }

  /** The first frame of the slot of user `i`, `introFrames + i * perUserFrames`. */
  function SlotStart(fps: nat, i: nat): nat
  {
    IntroFrames(fps) + i * PerUserFrames(fps)
  }

  function ListViewStart(fps: nat, n: nat): nat
  {
    SlotStart(fps, n)
  }

  function OutroStart(fps: nat, n: nat): nat
  {
    ListViewStart(fps, n) + ListViewFrames(fps)
  }

  predicate IsIntro(fps: nat, frame: nat)
  {
    frame < IntroFrames(fps)
  }

  predicate IsListView(fps: nat, n: nat, frame: nat)
  {
    ListViewStart(fps, n) <= frame < OutroStart(fps, n)
  }

  predicate IsOutro(fps: nat, n: nat, frame: nat)
  {
    frame >= OutroStart(fps, n)
  }

  /**
   * At most one section flag holds, and none holds exactly on the frames of the
   * user slots, from the end of the intro to the start of the list view.
   */
  lemma SectionsExclusive(fps: nat, n: nat, frame: nat)
    ensures !(IsIntro(fps, frame) && IsListView(fps, n, frame))
    ensures !(IsIntro(fps, frame) && IsOutro(fps, n, frame))
    ensures !(IsListView(fps, n, frame) && IsOutro(fps, n, frame))
    ensures !IsIntro(fps, frame) && !IsListView(fps, n, frame) && !IsOutro(fps, n, frame)
        <==> IntroFrames(fps) <= frame < ListViewStart(fps, n)
  {
    assert IntroFrames(fps) <= ListViewStart(fps, n);
  }

  /** `getCurrentUserIndex` (lines 112-116): -1 outside the user slots, else the slot number. */
  function CurrentUserIndex(fps: nat, n: nat, frame: nat): int
  {
    if IsIntro(fps, frame) || IsListView(fps, n, frame) || IsOutro(fps, n, frame) then -1
    else
      assert fps > 0;
      (frame - IntroFrames(fps)) / PerUserFrames(fps)
  }

  /** `localFrame` (lines 120-122): the position of the frame inside its user slot, 0 elsewhere. */
  function LocalFrame(fps: nat, n: nat, frame: nat): nat
  {
    if CurrentUserIndex(fps, n, frame) >= 0 then
      assert fps > 0;
      (frame - IntroFrames(fps)) % PerUserFrames(fps)
    else 0
  }

  /**
   * The user index is -1 exactly in the intro, the list view and the outro;
   * otherwise it names one of the `n` users, the local frame lies inside that
   * user's slot, and slot start plus local frame gives back the frame.
   */
  lemma UserIndexInRange(fps: nat, n: nat, frame: nat)
    ensures CurrentUserIndex(fps, n, frame) == -1
        <==> IsIntro(fps, frame) || IsListView(fps, n, frame) || IsOutro(fps, n, frame)
    ensures CurrentUserIndex(fps, n, frame) >= 0 ==>
      && CurrentUserIndex(fps, n, frame) < n
      && LocalFrame(fps, n, frame) < PerUserFrames(fps)
      && frame == SlotStart(fps, CurrentUserIndex(fps, n, frame)) + LocalFrame(fps, n, frame)
  {
    if !(IsIntro(fps, frame) || IsListView(fps, n, frame) || IsOutro(fps, n, frame)) {
      var x, p := frame - IntroFrames(fps), PerUserFrames(fps);
      assert fps > 0;
      DivFacts(x, p);
      assert x < p * n by {
        assert ListViewStart(fps, n) == IntroFrames(fps) + n * p;
      }
      DivBelow(x, p, n);
      assert SlotStart(fps, x / p) == IntroFrames(fps) + (x / p) * p;
    }
  }

  /** The user a frame shows, read back from the slot it falls in. */
  lemma FrameInSlot(fps: nat, n: nat, i: nat, frame: nat)
    requires fps > 0 && i < n
    requires SlotStart(fps, i) <= frame < SlotStart(fps, i) + PerUserFrames(fps)
    ensures CurrentUserIndex(fps, n, frame) == i
    ensures LocalFrame(fps, n, frame) == frame - SlotStart(fps, i)
  {
    var p := PerUserFrames(fps);
    var x := frame - IntroFrames(fps);
    assert x == i * p + (frame - SlotStart(fps, i));
    MulLe(i + 1, n, p);
    assert frame < ListViewStart(fps, n);
    DivModUnique(x, p, i, frame - SlotStart(fps, i));
  }

  // ---------------------------------------------------------------------------
  // The celebration sound (lines 237-246)

  /** A `<Sequence>` holding the sound: its key, first frame and length in frames. */
  datatype Cue = Cue(key: string, from: nat, durationInFrames: nat)

  /** `userStartFrame + Math.floor(fps * 3.5)`; for a whole `fps`, `fps * 3.5` is `7 * fps / 2` exactly. */
  function EffectFrame(fps: nat, i: nat): nat
  {
    SlotStart(fps, i) + (7 * fps) / 2
  }

  /** What the callback of `comments.map` returns for the entry at `index`: `null` is None. */
  function EffectCue(comment: UserComment, index: nat, fps: nat): Option<Cue>
  {
    if !Truthy(comment.morningGoal) || !Truthy(comment.nightAchievement) then None
    else Some(Cue(comment.userId, EffectFrame(fps, index), 30))
  }

  function EffectCues(comments: seq<UserComment>, fps: nat): (cues: seq<Option<Cue>>)
    ensures |cues| == |comments|
  {
    seq(|comments|, i requires 0 <= i < |comments| => EffectCue(comments[i], i, fps))
  }

  /**
   * A sound is scheduled for exactly the users with both comments, keyed by
   * their id; it starts while that user's slot is on screen, and for 12 frames
   * per second or more it also ends before the next slot begins.
   */
  lemma EffectSchedule(comments: seq<UserComment>, fps: nat, i: nat)
    requires i < |comments|
    ensures EffectCues(comments, fps)[i].Some? <==> HasBoth(comments[i])
    ensures EffectCues(comments, fps)[i].Some? ==>
      && EffectCues(comments, fps)[i].value.key == comments[i].userId
      && EffectCues(comments, fps)[i].value.durationInFrames == 30
    ensures fps > 0 && HasBoth(comments[i]) ==>
      var from := EffectCues(comments, fps)[i].value.from;
      && CurrentUserIndex(fps, |comments|, from) == i
      && SlotStart(fps, i) <= from < SlotStart(fps, i + 1)
    ensures fps >= 12 && HasBoth(comments[i]) ==>
      EffectCues(comments, fps)[i].value.from + 30 <= SlotStart(fps, i + 1)
  {
    var cue := EffectCues(comments, fps)[i];
    assert cue == EffectCue(comments[i], i, fps);
    assert SlotStart(fps, i + 1) == SlotStart(fps, i) + PerUserFrames(fps);
    if fps > 0 && HasBoth(comments[i]) {
      FrameInSlot(fps, |comments|, i, cue.value.from);
    }
  }

  // ---------------------------------------------------------------------------
  // The badges of the intro (lines 209-219)

  datatype Badge = GoalBadge | AchievementBadge | BothBadge

  /** The `filter` callback of each badge. */
  predicate Counts(b: Badge, c: UserComment)
  {
    match b
    case GoalBadge => Truthy(c.morningGoal)
    case AchievementBadge => Truthy(c.nightAchievement)
    case BothBadge => Truthy(c.morningGoal) && Truthy(c.nightAchievement)
  }

  /** `comments.filter(...).length` */
  function BadgeCount(comments: seq<UserComment>, b: Badge): (k: nat)
    ensures k <= |comments|
  {
    if comments == [] then 0
    else
      BadgeCount(comments[..|comments| - 1], b) + (if Counts(b, comments[|comments| - 1]) then 1 else 0)
  }

  /**
   * The badges agree with the `stats` block written beside the comments: the
   * "both" badge is `bothCommented`, the goal badge adds the morning-only users,
   * the achievement badge the night-only ones. Hence "both" never exceeds either
   * of the other two, and together with the users who have neither the three
   * badges count every user (inclusion-exclusion).
   */
  lemma {:induction false} BadgesMatchStats(comments: seq<UserComment>)
    ensures BadgeCount(comments, BothBadge) == CountKind(comments, true, true)
    ensures BadgeCount(comments, GoalBadge) == CountKind(comments, true, true) + CountKind(comments, true, false)
    ensures BadgeCount(comments, AchievementBadge) == CountKind(comments, true, true) + CountKind(comments, false, true)
  {
    if comments != [] {
      BadgesMatchStats(comments[..|comments| - 1]);
    }
  }

  lemma BadgesBound(comments: seq<UserComment>)
    ensures BadgeCount(comments, BothBadge) <= BadgeCount(comments, GoalBadge)
    ensures BadgeCount(comments, BothBadge) <= BadgeCount(comments, AchievementBadge)
    ensures BadgeCount(comments, GoalBadge) + BadgeCount(comments, AchievementBadge)
          - BadgeCount(comments, BothBadge) + CountKind(comments, false, false) == |comments|
  {
    BadgesMatchStats(comments);
    CountKindsAddUp(comments);
  }

  // ---------------------------------------------------------------------------
  // The list view (lines 81-93 and 338)

  const ListTextLimit: nat := 30

  /** "..." as code units. */
  const Ellipsis: seq<CodeUnit> := [46, 46, 46]

  /**
   * `text.slice(0, 30) + (text.length > 30 ? "..." : "")`, over the UTF-16 code
   * units the string methods count; the cut may fall inside a surrogate pair.
   */
  function ListText(units: seq<CodeUnit>): (shown: seq<CodeUnit>)
    ensures |shown| <= ListTextLimit + |Ellipsis|
  {
    if |units| > ListTextLimit then units[..ListTextLimit] + Ellipsis else units
  }

  /**
   * A text of at most 30 code units is shown as it is; a longer one shows its
   * first 30 code units, then "...".
   */
  lemma ListTextShape(units: seq<CodeUnit>)
    ensures |units| <= ListTextLimit ==> ListText(units) == units
    ensures |units| > ListTextLimit ==>
      && |ListText(units)| == ListTextLimit + 3
      && ListText(units)[..ListTextLimit] == units[..ListTextLimit]
      && ListText(units)[ListTextLimit..] == Ellipsis
  {
    if |units| > ListTextLimit {
      assert ListText(units)[ListTextLimit..] == Ellipsis;
    }
  }

  /**
   * The shown text equals the text exactly when it is short enough, or when it
   * has 33 code units and already ends in "..." (cutting and re-appending then
   * gives it back).
   */
  lemma ListTextUnchanged(units: seq<CodeUnit>)
    ensures ListText(units) == units
        <==> |units| <= ListTextLimit || (|units| == ListTextLimit + 3 && units[ListTextLimit..] == Ellipsis)
  {
    if |units| > ListTextLimit {
      var shown := ListText(units);
      if shown == units {
        assert units[ListTextLimit..] == shown[ListTextLimit..];
      }
      if |units| == ListTextLimit + 3 && units[ListTextLimit..] == Ellipsis {
        assert units == units[..ListTextLimit] + units[ListTextLimit..];
      }
    }
  }

  /** One cell of a list row: the truncated text, or the dash drawn for a falsy field. */
  datatype Cell = Text(units: seq<CodeUnit>) | Dash

  function ListCell(field: Option<string>): (cell: Cell)
    ensures cell.Dash? <==> !Truthy(field)
    ensures cell.Text? ==> cell.units == ListText(Utf16(field.value))
  {
    if Truthy(field) then Text(ListText(Utf16(field.value))) else Dash
  }

  const RowHeight: nat := 120
  const VisibleRows: nat := 6

  predicate NeedsScroll(rows: nat)
  {
    rows > VisibleRows
  }

  /** `Math.max(0, (totalRows - visibleRows) * rowHeight)` */
  function MaxScroll(rows: nat): nat
  {
    if rows > VisibleRows then (rows - VisibleRows) * RowHeight else 0
  }

  /**
   * `interpolate(x, [x0, x1], [0, y1])` with both sides clamped: 0 up to `x0`,
   * `y1` from `x1` on, linear in between.
   */
  function Interpolate(x: real, x0: real, x1: real, y1: real): real
    requires x0 < x1
  {
    if x <= x0 then 0.0
    else if x >= x1 then y1
    else (x - x0) / (x1 - x0) * y1
  }

  /**
   * `scrollOffset` at `listViewLocalFrame`: from half a second into the list
   * view to half a second before its end the offset moves linearly from 0 to
   * `MaxScroll`. The breakpoints must increase, which a positive `fps` gives.
   */
  function ScrollOffset(fps: nat, rows: nat, localFrame: int): real
    requires fps > 0
  {
    if NeedsScroll(rows) then
      Interpolate(localFrame as real, fps as real * 0.5,
                  ListViewFrames(fps) as real - fps as real * 0.5, MaxScroll(rows) as real)
    else 0.0
  }

  lemma InterpolateBounds(x: real, x0: real, x1: real, y1: real)
    requires x0 < x1 && y1 >= 0.0
    ensures 0.0 <= Interpolate(x, x0, x1, y1) <= y1
  {
    if x0 < x < x1 {
      var d := x1 - x0;
      DivLe(0.0, x - x0, d);
      DivLe(x - x0, d, d);
      ScaleLe(0.0, (x - x0) / d, y1);
      ScaleLe((x - x0) / d, 1.0, y1);
    }
  }

  lemma DivLe(a: real, b: real, d: real)
    requires d > 0.0 && a <= b
    ensures a / d <= b / d
  {
    assert b / d - a / d == (b - a) / d;
  }

  lemma ScaleLe(a: real, b: real, c: real)
    requires a <= b && c >= 0.0
    ensures a * c <= b * c
  {
    assert b * c - a * c == (b - a) * c;
  }

  lemma InterpolateMonotone(x: real, y: real, x0: real, x1: real, y1: real)
    requires x0 < x1 && y1 >= 0.0 && x <= y
    ensures Interpolate(x, x0, x1, y1) <= Interpolate(y, x0, x1, y1)
  {
    InterpolateBounds(x, x0, x1, y1);
    InterpolateBounds(y, x0, x1, y1);
    if x0 < x && y < x1 {
      var d := x1 - x0;
      DivLe(x - x0, y - x0, d);
      ScaleLe((x - x0) / d, (y - x0) / d, y1);
    }
  }

  /**
   * The list scrolls only when it has more than six rows. The offset stays
   * between 0 and `MaxScroll`, never decreases as the frame advances, is 0 for
   * the first half second, and for the last half second it is `(rows - 6) * 120`,
   * which brings the last six rows into view.
   */
  lemma ScrollBounds(fps: nat, rows: nat, localFrame: int)
    requires fps > 0
    ensures 0.0 <= ScrollOffset(fps, rows, localFrame) <= MaxScroll(rows) as real
    ensures ScrollOffset(fps, rows, localFrame) > 0.0 ==> NeedsScroll(rows)
    ensures localFrame as real <= fps as real * 0.5 ==> ScrollOffset(fps, rows, localFrame) == 0.0
    ensures NeedsScroll(rows) && localFrame as real >= fps as real * 4.5 ==>
      && ScrollOffset(fps, rows, localFrame) == ((rows - VisibleRows) * RowHeight) as real
      && MaxScroll(rows) + VisibleRows * RowHeight == rows * RowHeight
  {
    if NeedsScroll(rows) {
      InterpolateBounds(localFrame as real, fps as real * 0.5,
                        ListViewFrames(fps) as real - fps as real * 0.5, MaxScroll(rows) as real);
    }
  }

  lemma ScrollMonotone(fps: nat, rows: nat, a: int, b: int)
    requires fps > 0 && a <= b
    ensures ScrollOffset(fps, rows, a) <= ScrollOffset(fps, rows, b)
  {
    if NeedsScroll(rows) {
      InterpolateMonotone(a as real, b as real, fps as real * 0.5,
                          ListViewFrames(fps) as real - fps as real * 0.5, MaxScroll(rows) as real);
    }
  }

  // ---------------------------------------------------------------------------
  // Praise (lines 474-500)

  const PraiseMessages: seq<string> := [
    "すごい！", "えらい！", "さすが！", "最高！", "完璧！",
    "天才！", "素晴らしい！", "やったね！", "お見事！", "グッジョブ！",
    "ナイス！", "神！", "がんばった！", "カッコいい！", "輝いてる！"
  ]

  /** The position `getPraiseMessage(userId)` reads. */
  function PraiseIndex(userId: string): (k: nat)
    ensures k < |PraiseMessages|
  {
    Hashing.SelectIndex(Hashing.UnwrappedHash(Utf16(userId)), |PraiseMessages|)
  }

  function PraiseMessage(userId: string): (message: string)
    ensures message in PraiseMessages
  {
    PraiseMessages[PraiseIndex(userId)]
  }

  /** `getPraiseMessage`: the same unwrapped hash loop as `generateAvatarColor`. */
  method GetPraiseMessage(userId: string) returns (message: string)
    ensures message == PraiseMessage(userId)
    ensures message in PraiseMessages
  {
    var units := Utf16(userId);
    var hash := 0;
    var i := 0;
    while i < |units|
      invariant 0 <= i <= |units|
      invariant hash == Hashing.UnwrappedHash(units[..i])
    {
      Hashing.UnwrappedHashStep(units, i);
      hash := units[i] + (ShiftLeft5(hash) - hash);
      i := i + 1;
    }
    assert units[..|units|] == units;
    message := PraiseMessages[Abs(hash) % |PraiseMessages|];
  }

  /** The empty id gets the first phrase. */
  lemma EmptyIdPraise()
    ensures PraiseMessage("") == "すごい！"
  {
    assert Utf16("") == [];
    assert Hashing.UnwrappedHash([]) == 0;
    assert Hashing.SelectIndex(0, |PraiseMessages|) == 0;
  }

  /**
   * Both lists have fifteen entries and both selectors hash the id the same
   * way, so a user's avatar colour and praise phrase sit at the same position.
   */
  lemma PraiseMatchesAvatar(userId: string)
    ensures |FetchComments.AvatarPalette| == |PraiseMessages|
    ensures FetchComments.AvatarColor(userId) == FetchComments.AvatarPalette[PraiseIndex(userId)]
    ensures PraiseMessage(userId) == PraiseMessages[PraiseIndex(userId)]
  {
  }
}
