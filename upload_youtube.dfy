/**
 * scripts/upload-youtube.js: the text logic around an upload. The command line
 * names the video type; the type picks the file `<type>_<date>.mp4` and the
 * title, tags and category of the upload request; after a morning or night
 * upload the new video id replaces the previous one in the `.env` file, which
 * is then written back trimmed and ending in a newline.
 *
 * The upload itself, the OAuth client, the file system and `process.exit` are
 * not modelled: the id the upload returns and the `.env` content read are
 * parameters, and an exit is an error value.
 */
module UploadYoutube {
  import opened Js

  datatype VideoType = Morning | Night | Summary

  /** The key of the type in `VIDEO_CONFIGS` and in the file name. */
  function TypeName(t: VideoType): string
  {
    match t
    case Morning => "morning"
    case Night => "night"
    case Summary => "summary"
  }

  /** The own keys of `VIDEO_CONFIGS`. */
  function TypeOf(name: string): (t: Option<VideoType>)
    ensures t.Some? ==> TypeName(t.value) == name
  {
    if name == "morning" then Some(Morning)
    else if name == "night" then Some(Night)
    else if name == "summary" then Some(Summary)
    else None
  }

  /** Every type is found again under its own name. */
  lemma TypeNameRoundTrip(t: VideoType)
    ensures TypeOf(TypeName(t)) == Some(t)
  {
  }

  // ---------------------------------------------------------------------------
  // VIDEO_CONFIGS (lines 26-66)

  function TitleSuffix(t: VideoType): string
  {
    match t
    case Morning => "おはよう！今日の目標は？🌅"
    case Night => "おつかれさま！今日できたことは？🌙"
    case Summary => "みんなの今日の頑張り✨"
  }

  /** `config.title(date)` */
  function Title(t: VideoType, date: string): string
  {
    "【" + date + "】" + TitleSuffix(t)
  }

  /**
   * A title is the date in corner brackets followed by the type's phrase, so
   * the date can be read back from it: two titles of one type are equal only
   * for equal dates.
   */
  lemma TitleParts(t: VideoType, date: string)
    ensures Title(t, date)[..|date| + 2] == "【" + date + "】"
    ensures Title(t, date)[|date| + 2..] == TitleSuffix(t)
    ensures Title(t, date)[1..|date| + 1] == date
  {
    var s := Title(t, date);
    assert s == ("【" + date + "】") + TitleSuffix(t);
    assert ("【" + date + "】")[1..|date| + 1] == date;
  }

  lemma TitleDetermines(t: VideoType, d1: string, d2: string)
    requires Title(t, d1) == Title(t, d2)
    ensures d1 == d2
  {
    TitleParts(t, d1);
    TitleParts(t, d2);
    assert |d1| == |d2|;
  }

  function Description(t: VideoType): string
  {
    match t
    case Morning =>
      "今日も一日頑張ろう！\n\nあなたの今日の目標をコメントで教えてください✨\n\n小さな目標でもOK！\n"
      + "みんなで共有して、一緒に頑張りましょう！\n\n#今日の頑張り #毎日投稿 #モチベーション"
    case Night =>
      "今日も一日お疲れ様でした！\n\n今日できたことをコメントで教えてください🌟\n\n"
      + "どんな小さなことでも、自分を褒めてあげよう！\nみんなの頑張りを見て、明日も頑張れる！\n\n"
      + "#今日の頑張り #毎日投稿 #振り返り #お疲れ様"
    case Summary =>
      "今日参加してくれたみんなの頑張りをまとめました！\n\n朝に目標を宣言して、夜に達成報告をしてくれた方々を\n"
      + "キャラクターでアニメーション紹介しています🎉\n\n明日もみんなで頑張ろう！\n\n"
      + "#今日の頑張り #みんなの頑張り #コミュニティ #毎日投稿"
  }

  function Tags(t: VideoType): seq<string>
  {
    match t
    case Morning => ["今日の頑張り", "モチベーション", "目標", "毎日投稿", "頑張る"]
    case Night => ["今日の頑張り", "振り返り", "お疲れ様", "毎日投稿", "頑張った"]
    case Summary => ["今日の頑張り", "みんなの頑張り", "コミュニティ", "まとめ", "毎日投稿"]
  }

  /** The `snippet` and `status` of the `videos.insert` request (lines 87-100). */
  datatype UploadRequest = UploadRequest(
    title: string,
    description: string,
    tags: seq<string>,
    categoryId: string,
    defaultLanguage: string,
    defaultAudioLanguage: string,
    privacyStatus: string,
    selfDeclaredMadeForKids: bool)

  /** Why `uploadVideo` throws before the request is sent. */
  datatype UploadError =
    | UnknownVideoType(name: string)   // the lookup is `undefined`: the `Error` of line 73
    | TitleNotCallable(name: string)   // the lookup is an inherited member of Object.prototype

  datatype UploadResult = Request(request: UploadRequest) | Failed(error: UploadError)

  /**
   * The names `VIDEO_CONFIGS[name]` finds on Object.prototype: the lookup is
   * then truthy, passes the check of line 72 and fails when `config.title` is
   * called.
   */
  predicate IsInheritedMember(name: string)
  {
    name in {"constructor", "hasOwnProperty", "isPrototypeOf", "propertyIsEnumerable",
             "toLocaleString", "toString", "valueOf", "__proto__", "__defineGetter__",
             "__defineSetter__", "__lookupGetter__", "__lookupSetter__"}
  }

  /**
   * `uploadVideo(videoPath, name, date)` up to the request, with the date
   * already formatted by `toLocaleDateString`.
   */
  function UploadRequestFor(name: string, formattedDate: string): (r: UploadResult)
    ensures r.Request? <==> TypeOf(name).Some?
    ensures r.Request? ==>
      && r.request.title == Title(TypeOf(name).value, formattedDate)
      && r.request.categoryId == "22"
      && r.request.privacyStatus == "public"
      && !r.request.selfDeclaredMadeForKids
    ensures r.Failed? ==> r.error.name == name
  {
    match TypeOf(name)
    case Some(t) =>
      Request(UploadRequest(Title(t, formattedDate), Description(t), Tags(t), "22", "ja", "ja", "public", false))
    case None =>
      if IsInheritedMember(name) then Failed(TitleNotCallable(name)) else Failed(UnknownVideoType(name))
  }

  /** Only a name that is neither a type nor an Object.prototype member gets the "unknown type" error. */
  lemma UnknownTypeError(name: string, formattedDate: string)
    ensures UploadRequestFor(name, formattedDate) == Failed(UnknownVideoType(name))
        <==> TypeOf(name).None? && !IsInheritedMember(name)
  {
  }

  // ---------------------------------------------------------------------------
  // main: the command line and the file name (lines 109-136)

  /** `args.indexOf(x)`: the first position of `x`, or -1. */
  function ArgIndex(args: seq<string>, x: string): (i: int)
    ensures -1 <= i < |args|
    ensures i >= 0 ==> args[i] == x && x !in args[..i]
    ensures i == -1 <==> x !in args
  {
    if args == [] then -1
    else if args[0] == x then 0
    else
      var k := ArgIndex(args[1..], x);
      if k < 0 then -1 else k + 1
  }

  datatype Launch =
    | UsageError                      // no `--type`, or nothing usable after it
    | UnknownType(name: string)       // the `default` branch of the switch
    | Upload(t: VideoType, fileName: string)

  /**
   * `main` up to the existence check of the video file: `args` is
   * `process.argv.slice(2)` and `today` the date part of the current instant.
   */
  function Launched(args: seq<string>, today: string): Launch
  {
    var typeIndex := ArgIndex(args, "--type");
    if typeIndex == -1 || typeIndex + 1 >= |args| || |args[typeIndex + 1]| == 0 then UsageError
    else
      var name := args[typeIndex + 1];
      match TypeOf(name)
      case Some(t) => Upload(t, TypeName(t) + "_" + today + ".mp4")
      case None => UnknownType(name)
  }

  /**
   * The usage error happens exactly when `--type` is missing or is not followed
   * by a non-empty argument; otherwise the argument after the first `--type`
   * decides, and only the three type names start an upload, of the file
   * `<type>_<today>.mp4`.
   */
  lemma LaunchCases(args: seq<string>, today: string)
    ensures Launched(args, today).UsageError? <==>
      || "--type" !in args
      || ArgIndex(args, "--type") + 1 == |args|
      || |args[ArgIndex(args, "--type") + 1]| == 0
    ensures Launched(args, today).Upload? ==>
      && TypeName(Launched(args, today).t) == args[ArgIndex(args, "--type") + 1]
      && Launched(args, today).fileName == args[ArgIndex(args, "--type") + 1] + "_" + today + ".mp4"
    ensures Launched(args, today).UnknownType? ==>
      && Launched(args, today).name == args[ArgIndex(args, "--type") + 1]
      && TypeOf(Launched(args, today).name).None?
  {
    var i := ArgIndex(args, "--type");
    if i == -1 {
      assert "--type" !in args;
    } else if i + 1 < |args| && |args[i + 1]| > 0 {
      LaunchedByName(args, today, i);
    }
  }

  lemma LaunchedByName(args: seq<string>, today: string, i: nat)
    requires i == ArgIndex(args, "--type") && i + 1 < |args| && |args[i + 1]| > 0
    ensures Launched(args, today) ==
      match TypeOf(args[i + 1])
      case Some(t) => Upload(t, TypeName(t) + "_" + today + ".mp4")
      case None => UnknownType(args[i + 1])
  {
  }

  /** The date part of `toISOString()`: `split("T")[0]`, everything before the first "T". */
  function DatePart(iso: string): (d: string)
    ensures |d| <= |iso| && d == iso[..|d|]
    ensures 'T' !in d
    ensures |d| < |iso| ==> iso[|d|] == 'T'
  {
    if iso == [] || iso[0] == 'T' then "" else [iso[0]] + DatePart(iso[1..])
  }

  /** For an instant `date + "T" + time` with a date free of "T", the date part is that date. */
  lemma {:induction false} DatePartOfInstant(date: string, time: string)
    requires 'T' !in date
    ensures DatePart(date + "T" + time) == date
  {
    if date != [] {
      assert (date + "T" + time)[1..] == date[1..] + "T" + time;
      DatePartOfInstant(date[1..], time);
      assert date == [date[0]] + date[1..];
    } else {
      assert (date + "T" + time)[0] == 'T';
    }
  }

  // ---------------------------------------------------------------------------
  // The .env rewrite (lines 150-161)

  const MorningKey: string := "MORNING_VIDEO_ID="
  const NightKey: string := "NIGHT_VIDEO_ID="

  /** Where `.*` stops: the first line terminator at or after `i`, or the end. */
  function LineEnd(s: string, i: nat): (j: nat)
    requires i <= |s|
    ensures i <= j <= |s|
    ensures j < |s| ==> IsLineTerminator(s[j])
    ensures forall m :: i <= m < j ==> !IsLineTerminator(s[m])
    decreases |s| - i
  {
    if i == |s| || IsLineTerminator(s[i]) then i else LineEnd(s, i + 1)
  }

  lemma LineEndAt(s: string, i: nat, j: nat)
    requires i <= j < |s| && IsLineTerminator(s[j])
    requires forall m :: i <= m < j ==> !IsLineTerminator(s[m])
    ensures LineEnd(s, i) == j
  {
  }

  /** The end of the match of `.*\n?` started at `i`. */
  function MatchEnd(s: string, i: nat): (e: nat)
    requires i <= |s|
    ensures i <= e <= |s|
  {
    var j := LineEnd(s, i);
    if j < |s| && s[j] == '\n' then j + 1 else j
  }

  /**
   * `s.replace(/KEY.*\n?/, "")`: the leftmost match starts at the first
   * occurrence of the key and runs to the end of its line, taking one "\n" if
   * that is what ends the line.
   */
  function RemoveKeyLine(s: string, key: string): (r: string)
    ensures IndexOf(s, key) == -1 ==> r == s
  {
    var i := IndexOf(s, key);
    if i < 0 then s else s[..i] + s[MatchEnd(s, i + |key|)..]
  }

  /** Removing the key line, appending `"\n" + key + id`, trimming and ending with a newline. */
  function Rewritten(s: string, key: string, id: string): string
  {
    Trim(RemoveKeyLine(s, key) + "\n" + key + id) + "\n"
  }

  /** The content written to `.env` after an upload of type `t` that returned `id`. */
  function EnvAfterUpload(s: string, t: VideoType, id: string): (w: string)
    ensures |w| >= 1 && w[|w| - 1] == '\n'
    ensures |w| == 1 || !IsJsWhitespace(w[0])
  {
    match t
    case Morning => TrimmedLine(RemoveKeyLine(s, MorningKey) + "\n" + MorningKey + id); Rewritten(s, MorningKey, id)
    case Night => TrimmedLine(RemoveKeyLine(s, NightKey) + "\n" + NightKey + id); Rewritten(s, NightKey, id)
    case Summary => TrimmedLine(s); Trim(s) + "\n"
  }

  /** A trimmed text plus "\n" ends in its newline and starts with it or with a non-space. */
  lemma TrimmedLine(s: string)
    ensures var w := Trim(s) + "\n";
      w[|w| - 1] == '\n' && (|w| == 1 || !IsJsWhitespace(w[0]))
  {
    TrimHasSolidEnds(s);
  }

  /** `envContent` reassigned step by step, then the text handed to `writeFileSync`. */
  method RewriteEnvContent(envContent: string, t: VideoType, id: string) returns (written: string)
    ensures written == EnvAfterUpload(envContent, t, id)
  {
    var content := envContent;
    if t == Morning {
      content := RemoveKeyLine(content, MorningKey);
      content := content + "\n" + MorningKey + id;
    } else if t == Night {
      content := RemoveKeyLine(content, NightKey);
      content := content + "\n" + NightKey + id;
    }
    written := Trim(content) + "\n";
  }

  /** A summary upload only trims the content and ends it with a newline. */
  lemma SummaryKeepsContent(s: string, id: string)
    ensures EnvAfterUpload(s, Summary, id) == Trim(s) + "\n"
  {
  }

  /** The characters of a YouTube video id. */
  predicate IsIdChar(c: char)
  {
    ('a' <= c <= 'z') || ('A' <= c <= 'Z') || ('0' <= c <= '9') || c == '_' || c == '-'
  }

  predicate IsVideoId(id: string)
  {
    forall i :: 0 <= i < |id| ==> IsIdChar(id[i])
  }

  /**
   * A key as the rewrite needs it: no line break, no leading whitespace, and a
   * single "=", at its end.
   */
  predicate IsEnvKey(key: string)
  {
    && |key| > 0
    && key[|key| - 1] == '='
    && !IsJsWhitespace(key[0])
    && forall i :: 0 <= i < |key| ==> KeyCharOk(key, i)
  }

  /** Inside a key no character is a newline and only the last is "=". */
  predicate KeyCharOk(key: string, i: nat)
    requires i < |key|
  {
    key[i] != '\n' && (i < |key| - 1 ==> key[i] != '=')
  }

  lemma KeysAreEnvKeys()
    ensures IsEnvKey(MorningKey) && IsEnvKey(NightKey)
  {
  }

  lemma OccurrenceChar(s: string, key: string, q: int, d: nat)
    requires OccursAt(s, key, q) && d < |key|
    ensures s[q + d] == key[d]
  {
    assert s[q..q + |key|][d] == s[q + d];
  }

  lemma OccursInLeft(a: string, b: string, key: string, q: int)
    requires q + |key| <= |a|
    ensures OccursAt(a + b, key, q) <==> OccursAt(a, key, q)
  {
    if 0 <= q {
      assert (a + b)[q..q + |key|] == a[q..q + |key|];
    }
  }

  lemma OccursInRight(a: string, b: string, key: string, q: int)
    requires q >= |a|
    ensures OccursAt(a + b, key, q) <==> OccursAt(b, key, q - |a|)
  {
    if q + |key| <= |a + b| {
      assert (a + b)[q..q + |key|] == b[q - |a|..q - |a| + |key|];
    }
  }

  lemma OccursInSuffix(s: string, e: nat, key: string, m: int)
    requires e <= |s| && m >= 0
    ensures OccursAt(s[e..], key, m) <==> OccursAt(s, key, e + m)
  {
    if m + |key| <= |s| - e {
      assert s[e..][m..m + |key|] == s[e + m..e + m + |key|];
    }
  }

  /**
   * Removing the key line leaves no occurrence of the key, when its only
   * occurrence starts a line: a new one could only span the junction, which
   * holds the "\n" before the removed line.
   */
  lemma RemovalLeavesNoKey(s: string, key: string)
    requires IsEnvKey(key)
    requires forall q :: OccursAt(s, key, q) ==> q == IndexOf(s, key) && (q == 0 || s[q - 1] == '\n')
    ensures forall q :: !OccursAt(RemoveKeyLine(s, key), key, q)
  {
    var p := IndexOf(s, key);
    if p >= 0 {
      assert OccursAt(s, key, p);
      var e := MatchEnd(s, p + |key|);
      RemovedLine(s, key);
      RemovalAtLeavesNoKey(s, key, p, e);
    }
  }

  /**
   * What the first match of the key's pattern covers: the key, the rest of its
   * line without any line terminator, and at most one "\n". The match ends at
   * the end of the text, after a "\n", or before another line terminator.
   */
  lemma RemovedLine(s: string, key: string)
    requires IndexOf(s, key) >= 0
    ensures var p := IndexOf(s, key); var e := MatchEnd(s, p + |key|);
      && RemoveKeyLine(s, key) == s[..p] + s[e..]
      && s[p..p + |key|] == key
      && (forall m :: p + |key| <= m < e - 1 ==> !IsLineTerminator(s[m]))
      && (e > p + |key| ==> s[e - 1] == '\n' || !IsLineTerminator(s[e - 1]))
      && (e == |s| || (e > p + |key| && s[e - 1] == '\n') || (IsLineTerminator(s[e]) && s[e] != '\n'))
  {
    var p := IndexOf(s, key);
    var j := LineEnd(s, p + |key|);
    assert OccursAt(s, key, p);
  }

  lemma RemovalAtLeavesNoKey(s: string, key: string, p: nat, e: nat)
    requires IsEnvKey(key) && p + |key| <= e <= |s| && (p == 0 || s[p - 1] == '\n')
    requires forall q :: OccursAt(s, key, q) ==> q == p
    ensures forall q :: !OccursAt(s[..p] + s[e..], key, q)
  {
    forall q ensures !OccursAt(s[..p] + s[e..], key, q) {
      NoKeyAcrossRemoval(s, key, p, e, q);
    }
  }

  lemma NoKeyAcrossRemoval(s: string, key: string, p: nat, e: nat, q: int)
    requires IsEnvKey(key) && p + |key| <= e <= |s|
    requires forall q :: OccursAt(s, key, q) ==> q == p
    requires p == 0 || s[p - 1] == '\n'
    ensures !OccursAt(s[..p] + s[e..], key, q)
  {
    var r := s[..p] + s[e..];
    var k := |key|;
    if 0 <= q && q + k <= |r| {
      if q + k <= p {
        OccursInLeft(s[..p], s[e..], key, q);
        assert s == s[..p] + s[p..];
        OccursInLeft(s[..p], s[p..], key, q);
      } else if q >= p {
        OccursInRight(s[..p], s[e..], key, q);
        OccursInSuffix(s, e, key, q - p);
      } else {
        assert r[p - 1] == '\n';
        if OccursAt(r, key, q) {
          assert KeyCharOk(key, p - 1 - q);
          OccurrenceChar(r, key, q, p - 1 - q);
        }
      }
    }
  }

  /** After a text free of the key, the appended line holds its only occurrence. */
  lemma AppendedLineHoldsKey(r: string, key: string, id: string)
    requires IsEnvKey(key) && IsVideoId(id)
    requires forall q :: !OccursAt(r, key, q)
    ensures forall q :: OccursAt(r + "\n" + key + id, key, q) <==> q == |r| + 1
  {
    var t := r + "\n" + key + id;
    var k := |key|;
    assert t[|r| + 1..|r| + 1 + k] == key;
    forall q | 0 <= q <= |r| ensures !OccursAt(t, key, q) {
      if q + k <= |r| {
        assert t == r + ("\n" + key + id);
        OccursInLeft(r, "\n" + key + id, key, q);
      } else {
        assert KeyCharOk(key, |r| - q);
        if OccursAt(t, key, q) {
          OccurrenceChar(t, key, q, |r| - q);
        }
      }
    }
  }

  /**
   * Trimming a text whose last character is not whitespace, then adding "\n",
   * moves every occurrence of a key that has no line break and does not start
   * with whitespace back by the number of characters trimmed.
   */
  lemma TrimShiftsOccurrences(t: string, key: string, q0: nat)
    requires IsEnvKey(key) && OccursAt(t, key, q0)
    requires forall q :: OccursAt(t, key, q) <==> q == q0
    requires !IsJsWhitespace(t[|t| - 1])
    ensures |Trim(t)| >= |t| - q0 && Trim(t) == t[|t| - |Trim(t)|..]
    ensures var w := Trim(t) + "\n";
      && |w| >= |t| - q0 + 1
      && forall q :: OccursAt(w, key, q) <==> q == |w| - (|t| - q0) - 1
  {
    OccurrenceChar(t, key, q0, 0);
    TrimOfSolidEnd(t, q0);
    ShiftedOccurrences(t, key, q0, |t| - |Trim(t)|);
  }

  /** With non-whitespace at `q0` and at the end, `trim` only drops a prefix before `q0`. */
  lemma TrimOfSolidEnd(t: string, q0: nat)
    requires q0 < |t| && !IsJsWhitespace(t[q0]) && !IsJsWhitespace(t[|t| - 1])
    ensures |Trim(t)| >= |t| - q0 && Trim(t) == t[|t| - |Trim(t)|..]
  {
    var u := TrimStart(t);
    var lo := |t| - |u|;
    assert lo <= q0;
    assert u == t[lo..];
    TrimEndOfSolid(u);
  }

  /** Dropping `lo` leading characters, none inside the occurrence, moves it back by `lo`. */
  lemma ShiftedOccurrences(t: string, key: string, q0: nat, lo: nat)
    requires IsEnvKey(key) && lo <= q0 && OccursAt(t, key, q0)
    requires forall q :: OccursAt(t, key, q) <==> q == q0
    ensures forall q :: OccursAt(t[lo..] + "\n", key, q) <==> q + lo == q0
  {
    var u := t[lo..];
    var w := u + "\n";
    var k := |key|;
    forall q ensures OccursAt(w, key, q) <==> q + lo == q0 {
      if 0 <= q && q + k <= |u| {
        OccursInLeft(u, "\n", key, q);
        OccursInSuffix(t, lo, key, q);
      } else if 0 <= q && q + k <= |w| {
        assert KeyCharOk(key, |u| - q);
        assert w[|u|] == '\n';
      }
    }
  }

  lemma TrimEndOfSolid(u: string)
    requires u != [] && !IsJsWhitespace(u[|u| - 1])
    ensures TrimEnd(u) == u
  {
  }

  /**
   * After a morning or night upload the key occurs exactly once, on the last
   * line, followed by the new id, when before it occurred at most once and at
   * the start of a line, and the id is a YouTube id.
   */
  lemma UploadedKeyOccursOnce(s: string, key: string, id: string)
    requires IsEnvKey(key) && IsVideoId(id)
    requires forall q :: OccursAt(s, key, q) ==> q == IndexOf(s, key) && (q == 0 || s[q - 1] == '\n')
    ensures var w := Rewritten(s, key, id);
      && |w| >= |key| + |id| + 1
      && w[|w| - |key| - |id| - 1..] == key + id + "\n"
      && forall q :: OccursAt(w, key, q) <==> q == |w| - |key| - |id| - 1
  {
    var r := RemoveKeyLine(s, key);
    RemovalLeavesNoKey(s, key);
    var t := r + "\n" + key + id;
    AppendedLineHoldsKey(r, key, id);
    AppendedLineEnds(r, key, id);
    TrimShiftsOccurrences(t, key, |r| + 1);
    SuffixKept(t, Trim(t), key + id);
  }

  lemma AppendedLineEnds(r: string, key: string, id: string)
    requires IsEnvKey(key) && IsVideoId(id)
    ensures !IsJsWhitespace((r + "\n" + key + id)[|r + "\n" + key + id| - 1])
    ensures (r + "\n" + key + id)[|r + "\n" + key + id| - (|key| + |id|)..] == key + id
  {
    var t := r + "\n" + key + id;
    assert t[|t| - 1] == (if id == [] then '=' else id[|id| - 1]);
  }

  lemma SuffixKept(t: string, T: string, tail: string)
    requires |tail| <= |T| <= |t| && T == t[|t| - |T|..] && t[|t| - |tail|..] == tail
    ensures (T + "\n")[|T| - |tail|..] == tail + "\n"
  {
    assert T[|T| - |tail|..] == tail;
  }

  /**
   * The occurrence must start a line: when the first key occurrence sits in
   * the middle of a line, after `a`, removing it joins `a` to the next line
   * `b`; when the joined text starts with the key (`TwoKeyLines`), the file
   * ends with two key lines. `MidLineContent` is such a file.
   */
  lemma KeyInsideLine(a: string, key: string, tail: string, b: string, id: string)
    requires IsVideoId(id) && id != [] && a != [] && !IsJsWhitespace(a[0])
    requires IndexOf(a + key + tail + "\n" + b, key) == |a|
    requires forall m :: 0 <= m < |tail| ==> !IsLineTerminator(tail[m])
    ensures Rewritten(a + key + tail + "\n" + b, key, id) == a + b + "\n" + key + id + "\n"
  {
    var c := a + key + tail + "\n" + b;
    RemovalJoins(a, key, tail, b);
    assert (a + b)[0] == a[0];
    RewrittenFromRemoval(c, key, id, a + b);
  }

  /** When the joined text `r` starts with the key, the rewritten file has two key lines. */
  lemma TwoKeyLines(r: string, key: string, id: string)
    requires OccursAt(r, key, 0)
    ensures var w := r + "\n" + key + id + "\n";
      OccursAt(w, key, 0) && OccursAt(w, key, |r| + 1)
  {
    var w := r + "\n" + key + id + "\n";
    assert w == r + ("\n" + key + id + "\n");
    OccursInLeft(r, "\n" + key + id + "\n", key, 0);
    assert w == (r + "\n") + key + (id + "\n");
    assert w[|r| + 1..|r| + 1 + |key|] == key;
  }

  /** A `.env` whose only occurrence of the morning key is in the middle of a line. */
  const MidLineContent: string := "MORN" + MorningKey + "abc" + "\n" + "ING_VIDEO_ID=5"

  lemma MidLineIndex()
    ensures OccursAt(MidLineContent, MorningKey, 4) && MidLineContent[3] != '\n'
    ensures IndexOf(MidLineContent, MorningKey) == 4
    ensures OccursAt("MORN" + "ING_VIDEO_ID=5", MorningKey, 0)
  {
    var key := MorningKey;
    var c := MidLineContent;
    MidLineOccurrence();
    forall q | 0 <= q < 4 ensures !OccursAt(c, key, q) {
      if OccursAt(c, key, q) {
        OccurrenceChar(c, key, q, 4 - q);
      }
    }
    IndexOfFirst(c, key, 4);
  }

  lemma MidLineOccurrence()
    ensures OccursAt(MidLineContent, MorningKey, 4) && MidLineContent[4] == 'M'
    ensures OccursAt("MORN" + "ING_VIDEO_ID=5", MorningKey, 0)
  {
    assert MidLineContent[4..21] == MorningKey;
    assert ("MORN" + "ING_VIDEO_ID=5")[..17] == MorningKey;
  }

  lemma RewrittenFromRemoval(c: string, key: string, id: string, r: string)
    requires RemoveKeyLine(c, key) == r && r != [] && !IsJsWhitespace(r[0])
    requires id != [] && !IsJsWhitespace(id[|id| - 1])
    ensures Rewritten(c, key, id) == r + "\n" + key + id + "\n"
  {
    var t := r + "\n" + key + id;
    assert t[|t| - 1] == id[|id| - 1];
    TrimKeepsSolidEnds(t);
  }

  lemma MidLineRemoval()
    ensures RemoveKeyLine(MidLineContent, MorningKey) == MorningKey + "5"
  {
    MidLineIndex();
    RemovalJoins("MORN", MorningKey, "abc", "ING_VIDEO_ID=5");
    assert "MORN" + "ING_VIDEO_ID=5" == MorningKey + "5";
  }

  /** Removing a key that starts after `a` on a line ending in "\n" joins `a` to the next line `b`. */
  lemma RemovalJoins(a: string, key: string, tail: string, b: string)
    requires IndexOf(a + key + tail + "\n" + b, key) == |a|
    requires forall m :: 0 <= m < |tail| ==> !IsLineTerminator(tail[m])
    ensures RemoveKeyLine(a + key + tail + "\n" + b, key) == a + b
  {
    var c := a + key + tail + "\n" + b;
    var i := |a| + |key|;
    var j := i + |tail|;
    assert c[j] == '\n';
    forall m | i <= m < j ensures !IsLineTerminator(c[m]) {
      assert c[m] == tail[m - i];
    }
    LineEndAt(c, i, j);
    assert c[..|a|] == a && c[j + 1..] == b;
  }

  /**
   * When the key line is the last line, each run moves it one line down: the
   * "\n" before the removed line stays, and the appended line brings its own.
   */
  lemma BlankLineAddedPerRun(prefix: string, key: string, previous: string, id: string)
    requires IsEnvKey(key) && IsVideoId(previous) && IsVideoId(id)
    requires prefix != [] && !IsJsWhitespace(prefix[0])
    requires forall q :: !OccursAt(prefix, key, q)
    ensures Rewritten(prefix + "\n" + key + previous + "\n", key, id) == prefix + "\n" + "\n" + key + id + "\n"
  {
    LastKeyLineRemoved(prefix, key, previous);
    var t := prefix + "\n" + "\n" + key + id;
    AppendedLineEnds(prefix + "\n", key, id);
    assert t[0] == prefix[0];
    TrimKeepsSolidEnds(t);
  }

  lemma LastKeyLineRemoved(prefix: string, key: string, previous: string)
    requires IsEnvKey(key) && IsVideoId(previous)
    requires forall q :: !OccursAt(prefix, key, q)
    ensures RemoveKeyLine(prefix + "\n" + key + previous + "\n", key) == prefix + "\n"
  {
    var c := prefix + "\n" + key + previous + "\n";
    var p := |prefix| + 1;
    FirstKeyAfterPrefix(prefix, key, previous + "\n");
    assert c == prefix + "\n" + key + (previous + "\n");
    LastLineEnd(c, p + |key|, previous);
    RemovedLine(c, key);
    assert c[..p] == prefix + "\n";
  }

  lemma FirstKeyAfterPrefix(prefix: string, key: string, rest: string)
    requires IsEnvKey(key) && forall q :: !OccursAt(prefix, key, q)
    ensures IndexOf(prefix + "\n" + key + rest, key) == |prefix| + 1
  {
    var c := prefix + "\n" + key + rest;
    var k := |key|;
    assert c[|prefix| + 1..|prefix| + 1 + k] == key;
    assert OccursAt(c, key, |prefix| + 1);
    forall q | 0 <= q < |prefix| + 1 ensures !OccursAt(c, key, q) {
      if q + k <= |prefix| {
        assert c == prefix + ("\n" + key + rest);
        OccursInLeft(prefix, "\n" + key + rest, key, q);
      } else if OccursAt(c, key, q) {
        assert KeyCharOk(key, |prefix| - q);
        OccurrenceChar(c, key, q, |prefix| - q);
      }
    }
  }

  lemma LastLineEnd(c: string, i: nat, previous: string)
    requires IsVideoId(previous) && i + |previous| + 1 == |c| && c[i..] == previous + "\n"
    ensures MatchEnd(c, i) == |c|
  {
    var j := LineEnd(c, i);
    if j == |c| {
      assert c[|c| - 1] == '\n';
    }
  }

  /**
   * The rewrite with the separator it evidently intends: trailing blank lines
   * left by the removal are dropped before the new line is appended, so the
   * new line follows the previous content after exactly one line break.
   */
  function StableRewritten(s: string, key: string, id: string): string
  {
    Trim(TrimEnd(RemoveKeyLine(s, key)) + "\n" + key + id) + "\n"
  }

  /**
   * A file that ends with the key's line keeps its shape under the corrected
   * rewrite: only the id changes, however many times it runs.
   */
  lemma StableKeyLine(prefix: string, key: string, previous: string, id: string)
    requires IsEnvKey(key) && IsVideoId(previous) && IsVideoId(id)
    requires prefix != [] && !IsJsWhitespace(prefix[0]) && !IsJsWhitespace(prefix[|prefix| - 1])
    requires forall q :: !OccursAt(prefix, key, q)
    ensures StableRewritten(prefix + "\n" + key + previous + "\n", key, id) == prefix + "\n" + key + id + "\n"
  {
    LastKeyLineRemoved(prefix, key, previous);
    TrimEndOfLine(prefix);
    var t := prefix + "\n" + key + id;
    AppendedLineEnds(prefix, key, id);
    assert t[0] == prefix[0];
    TrimKeepsSolidEnds(t);
  }

  lemma TrimEndOfLine(u: string)
    requires u != [] && !IsJsWhitespace(u[|u| - 1])
    ensures TrimEnd(u + "\n") == u
  {
    var s := u + "\n";
    var r := TrimEnd(s);
    assert s[|u| - 1] == u[|u| - 1];
    assert |r| == |u|;
  }

  /**
   * Whatever the file held, the corrected rewrite ends with the new key line
   * and one "\n".
   */
  lemma StableRewrittenEnds(s: string, key: string, id: string)
    requires IsEnvKey(key) && IsVideoId(id)
    ensures var w := StableRewritten(s, key, id);
      && |w| >= |key| + |id| + 1
      && w[|w| - |key| - |id| - 1..] == key + id + "\n"
  {
    var r := TrimEnd(RemoveKeyLine(s, key));
    KeyLineAfterTrim(r, key, id, StableRewritten(s, key, id));
  }

  lemma KeyLineAfterTrim(r: string, key: string, id: string, w: string)
    requires IsEnvKey(key) && IsVideoId(id) && w == Trim(r + "\n" + key + id) + "\n"
    ensures |w| >= |key| + |id| + 1 && w[|w| - |key| - |id| - 1..] == key + id + "\n"
  {
    var t := r + "\n" + key + id;
    AppendedLineEnds(r, key, id);
    assert t[|r| + 1] == key[0];
    TrimOfSolidEnd(t, |r| + 1);
    LineKept(t, Trim(t), key + id, w);
  }

  lemma LineKept(t: string, T: string, tail: string, w: string)
    requires |tail| <= |T| <= |t| && T == t[|t| - |T|..] && t[|t| - |tail|..] == tail
    requires w == T + "\n"
    ensures |w| >= |tail| + 1 && w[|w| - |tail| - 1..] == tail + "\n"
  {
    SuffixKept(t, T, tail);
  }
}
