# ganbaru pipeline, modelled in Dafny

ganbaru ("do your best") is a daily YouTube routine. In the morning a short
video asks viewers for today's goal, and in the evening a second one asks what
they achieved. Two scripts and a set of Remotion compositions run it:

- `fetch-comments.js` collects both videos' comments and merges them into one
  entry per commenter. Each entry gets a stable avatar colour, and the script
  counts who commented in the morning, at night, or both.
- The summary video (`SummaryVideo.tsx`) shows an intro, then one six-second
  slot per commenter, then a list view of everyone, then an outro. Its
  length comes from `Root.tsx`.
- `bgm.ts` picks the background music from a seed string (the date).
- `UserCharacter.tsx` darkens and lightens avatar colours (`adjustColor`).
- `upload-youtube.js` decides from its command line which video to upload,
  builds the upload request, and records the new video id in `.env`.
- `date.js` computes today's date and the current time in Japan Standard
  Time.

The model is pure where the source computes values. It is imperative where
the source is: the hash loops, the merge over a `Map`, and the `.env`
rewrite are methods proved against the functions that specify them.

Modules, one per source file, plus two shared ones:

| module | models |
|---|---|
| `Js` | JavaScript semantics the core relies on: `ToInt32` for `<<`, `>>`, `&`, `\|`; UTF-16 code units for `charCodeAt` and `length`; `trim`; `indexOf`; first-match `replace` |
| `Numerals` | `toString(radix)`, `String(n)`, `padStart`, and the digit part of `parseInt` |
| `Hashing` | the two string-hash loops: the unwrapped one of `generateAvatarColor`/`getPraiseMessage` and the `& hash`-wrapped one of `getSeededRandomIndex` |
| `FetchComments` | comment mapping and avatar colour (`scripts/fetch-comments.js`) |
| `CommentMerge` | `mergeComments` and the stats block (`scripts/fetch-comments.js`) |
| `Bgm` | `src/utils/bgm.ts` |
| `UserCharacter` | `adjustColor` (`src/components/UserCharacter.tsx`) and its copy `adjustColorForList` |
| `SummaryVideo` | timeline, sections, effect cues, badges, list cells, scroll, praise (`src/videos/SummaryVideo.tsx`) |
| `Root` | composition constants and `calculateMetadata` (`src/Root.tsx`) |
| `UploadYoutube` | video configs, command-line dispatch, `.env` rewrite (`scripts/upload-youtube.js`) |
| `DateUtil` | `scripts/utils/date.js` |

## Model

| member | source | states |
|---|---|---|
| Js.ToInt32 | src/utils/bgm.ts:24-25 | the 32-bit result agrees with its argument modulo 2^32 and is the argument itself when that already fits |
| Js.ShiftLeft5 | scripts/fetch-comments.js:57 | `x << 5` is a 32-bit value congruent to 32·x modulo 2^32 |
| Js.Utf16Append | scripts/fetch-comments.js:56-57 | the code units of a concatenation are the concatenated code units |
| Js.Utf16OfBmp | scripts/fetch-comments.js:56-57 | for text inside the Basic Multilingual Plane, `length` equals the character count and `charCodeAt(i)` is the i-th character's code |
| Js.TrimStart | scripts/upload-youtube.js:161 | the result is a suffix that starts with non-whitespace, and everything dropped is whitespace |
| Js.TrimEnd | scripts/upload-youtube.js:161 | the result is a prefix that ends with non-whitespace, and everything dropped is whitespace |
| Js.TrimKeepsSolidEnds | scripts/upload-youtube.js:161 | text that starts and ends with non-whitespace is unchanged by `trim` |
| Js.IndexOf | scripts/upload-youtube.js:154 | the result is -1 or a position where the pattern occurs, and there is no earlier occurrence |
| Js.IndexOfFirst | scripts/upload-youtube.js:154 | the first occurrence is the one `indexOf` finds |
| Numerals.ToRadix | src/components/UserCharacter.tsx:170 | `toString(radix)` writes digits of that radix with no leading zero |
| Numerals.DecimalStringRoundTrip | scripts/utils/date.js:13-17 | `parseInt(String(n), 10)` gives `n` back, negative numbers included |
| Numerals.PadStart | scripts/utils/date.js:14-15 | the result is at least `width` long, ends with the input, and has only fill characters before it |
| Numerals.ParseToRadix | src/components/UserCharacter.tsx:166 | reading back what `toString(radix)` wrote gives the number (round trip) |
| Numerals.ParseFixedDigits | src/components/UserCharacter.tsx:170 | a zero-padded number that fits in its width reads back as itself |
| Numerals.FixedDigitsOfParse | src/components/UserCharacter.tsx:166-170 | re-printing parsed digits at their own width gives the same digits in lower case |
| Numerals.PadStartIsFixedDigits | src/components/UserCharacter.tsx:170 | `toString(radix).padStart(width, "0")` is the fixed-width numeral of any number that fits |
| Numerals.ParseIntToRadix | src/components/UserCharacter.tsx:166 | `parseInt` reads back every numeral `toString` writes |
| Numerals.ParseIntOfDigits | src/components/UserCharacter.tsx:166 | `parseInt` of a non-empty digit string is the digits' value |
| Numerals.DigitPrefix | src/components/UserCharacter.tsx:166 | `parseInt` reads the longest leading run of digits, stopping at the first non-digit |
| Hashing.WrappedHash | src/utils/bgm.ts:20-26 | the `& hash` loop keeps a 32-bit value after every step |
| Hashing.HashesAgreeModulo | scripts/fetch-comments.js:55-58 | for every string, the unwrapped hash wrapped to 32 bits equals the wrapped hash |
| Hashing.HashesAgreeWithoutOverflow | src/videos/SummaryVideo.tsx:494-499 | whenever the unwrapped hash stays in 32 bits, both hashes are equal |
| Hashing.SelectIndex | src/utils/bgm.ts:27 | `Math.abs(hash) % length` is a valid index |
| FetchComments.FetchedComments | scripts/fetch-comments.js:37-44 | one comment per thread, fields copied, and the user id is the author channel id or "" when it is missing |
| FetchComments.AvatarColor | scripts/fetch-comments.js:48-61 | the colour is always one of the fifteen palette entries |
| FetchComments.EmptyIdColor | scripts/fetch-comments.js:55-60 | the empty id gets the first palette colour |
| FetchComments.GenerateAvatarColor | scripts/fetch-comments.js:48-61 | the hash loop returns `AvatarColor(userId)`, a palette colour |
| CommentMerge.Put | scripts/fetch-comments.js:65-92 | `Map.set` updates the entry and appends the key only when it is new, so insertion order is kept |
| CommentMerge.ValuesOfUserMap | scripts/fetch-comments.js:95 | the values list each user once, in key order: the i-th entry belongs to the i-th key |
| CommentMerge.UserMap.Get | scripts/fetch-comments.js:80 | a user is found exactly when their id is among the keys, and then the stored entry is returned |
| CommentMerge.UserMap.Set | scripts/fetch-comments.js:69-91 | the map's new state is `Put` of the old state |
| CommentMerge.UserMap.ValuesArray | scripts/fetch-comments.js:95 | the loop over the keys returns `Values` of the map's state |
| CommentMerge.AddMorning | scripts/fetch-comments.js:68-76 | the morning loop leaves the map in state `AfterMorning(morning)` |
| CommentMerge.AddNight | scripts/fetch-comments.js:79-92 | the night loop leaves the map in state `AfterNight(old state, night)` |
| CommentMerge.NightUpdate | scripts/fetch-comments.js:80-91 | one night comment either updates an existing user's achievement or creates a night-only entry |
| CommentMerge.MergeComments | scripts/fetch-comments.js:64-105 | the method returns `Merged(morning, night)` |
| CommentMerge.MergedKeys | scripts/fetch-comments.js:64-92 | the map holds exactly the users of either list, each once, in order of first appearance |
| CommentMerge.MergedEntry | scripts/fetch-comments.js:68-92 | each user's entry: their own id and avatar colour, no avatar URL, the last morning comment as goal (and its username), and the last night comment as achievement; a night-only user gets no goal and the username of their first night comment |
| CommentMerge.MergedOnePerUser | scripts/fetch-comments.js:64-105 | the merged list has one entry per distinct user, and the sort keeps each group's order |
| CommentMerge.MergedUsers | scripts/fetch-comments.js:64-105 | a user is in the merged list iff they commented on either video |
| CommentMerge.SortBothFirstSpec | scripts/fetch-comments.js:95-102 | the sort is a permutation with both-commented users first, and each group keeps its original order |
| CommentMerge.TierPartition | scripts/fetch-comments.js:95-102 | the two groups together are exactly the input (as multisets) |
| CommentMerge.TierIdempotent | scripts/fetch-comments.js:95-102 | selecting a group again changes nothing, and the other group's selection of it is empty |
| CommentMerge.DedupOrder | scripts/fetch-comments.js:64-92 | duplicate-free keys keep the order of first appearance |
| CommentMerge.CountKindsAddUp | scripts/fetch-comments.js:143-146 | the three counted kinds plus entries with neither goal nor achievement make up the total |
| CommentMerge.StatsAddUp | scripts/fetch-comments.js:139-147 | when no comment is empty, `bothCommented + morningOnly + nightOnly == totalUsers` |
| CommentMerge.StatsMissEmptyComment | scripts/fetch-comments.js:139-147 | an empty morning comment counts as a user but in none of the three groups |
| Bgm.SeededIndex | src/utils/bgm.ts:20-28 | the index is in range, and it is missing (NaN in JavaScript) exactly for an empty list |
| Bgm.GetSeededRandomIndex | src/utils/bgm.ts:20-28 | the hash loop returns `SeededIndex(seed, arrayLength)` |
| Bgm.SeededIndexOfUnwrapped | src/utils/bgm.ts:20-28 | the bgm hash selects the same index as the avatar and praise hash, whenever that hash stays in 32 bits |
| Bgm.EmptySeedPicksFirst | src/utils/bgm.ts:20-28 | an empty seed selects index 0 |
| Bgm.OneCharSeed | src/utils/bgm.ts:20-28 | a one-character seed selects its code modulo the length |
| Bgm.GetMorningBgmPath | src/utils/bgm.ts:31-34 | the path is the pop folder followed by a file from the pop list |
| Bgm.GetNightBgmPath | src/utils/bgm.ts:37-40 | the path is the chill folder followed by a file from the chill list |
| Bgm.PopListMatchesFiles | src/utils/bgm.ts:2-8 | the static pop imports are the pop file list, in order |
| Bgm.ChillListMatchesFiles | src/utils/bgm.ts:11-16 | the static chill imports are the chill file list, in order |
| Bgm.SelectPopBgm | src/utils/bgm.ts:64-68 | the method returns the seeded entry of the pop import list |
| Bgm.SelectChillBgm | src/utils/bgm.ts:70-74 | the method returns the seeded entry of the chill import list |
| Bgm.PopSelectorsAgree | src/utils/bgm.ts:31-68 | for any seed, `selectPopBgm` and `getMorningBgmPath` pick the same track |
| Bgm.ChillSelectorsAgree | src/utils/bgm.ts:37-74 | for any seed, `selectChillBgm` and `getNightBgmPath` pick the same track |
| UserCharacter.ColorNumber | src/components/UserCharacter.tsx:166 | whatever the text, the bit operators see a 32-bit number |
| UserCharacter.Clamp | src/components/UserCharacter.tsx:167-169 | `min(255, max(0, x))` lies in 0..255: x itself when in range, and the nearer bound otherwise |
| UserCharacter.HexColorParts | src/components/UserCharacter.tsx:170 | `#` then two hex digits each for red, green and blue |
| UserCharacter.ChannelDigits | src/components/UserCharacter.tsx:170 | packing the clamped channels and padding to six digits gives the three channels' two-digit fields |
| UserCharacter.ChannelsOf | src/components/UserCharacter.tsx:167-169 | a 24-bit colour splits into three bytes that rebuild it |
| UserCharacter.ColorNumberOfDigits | src/components/UserCharacter.tsx:166 | "#" followed by up to six hex digits reads as their 24-bit value |
| UserCharacter.LongColorReadsNegative | src/components/UserCharacter.tsx:166-167 | eight hex digits starting at "8" or above read as a negative 32-bit number |
| UserCharacter.AdjustColorIdentity | src/components/UserCharacter.tsx:165-171 | adjusting a `#rrggbb` colour by 0 returns it, lower-cased |
| UserCharacter.AdjustedColorFormat | src/components/UserCharacter.tsx:170 | every result is `#` followed by six lower-case hex digits |
| UserCharacter.ChannelFields | src/components/UserCharacter.tsx:167-170 | each two-digit field of the result is that channel plus `amount`, clamped to 0..255 |
| UserCharacter.AdjustColorOutput | src/components/UserCharacter.tsx:165-171 | for any input string and amount the result is a well-formed `#rrggbb` |
| UserCharacter.HexColorExtremes | src/components/UserCharacter.tsx:170 | black and white print as "#000000" and "#ffffff" |
| UserCharacter.AdjustColorSaturates | src/components/UserCharacter.tsx:165-171 | for a 24-bit colour, an amount of -255 or less gives black and 255 or more gives white |
| UserCharacter.NegativeColorNotWhite | src/components/UserCharacter.tsx:165-171 | a colour that reads as negative never turns white, however large the amount |
| SummaryVideo.SectionsExclusive | src/videos/SummaryVideo.tsx:40-53 | the intro, list-view and outro flags never overlap, and none holds exactly while a user slot plays |
| SummaryVideo.UserIndexInRange | src/videos/SummaryVideo.tsx:112-122 | the user index is -1 exactly outside the user slots; otherwise it is a valid index, and the local frame is the offset inside its slot |
| SummaryVideo.FrameInSlot | src/videos/SummaryVideo.tsx:112-122 | every frame of user i's slot shows user i at the right local frame |
| SummaryVideo.EffectCues | src/videos/SummaryVideo.tsx:237-246 | one optional cue per comment |
| SummaryVideo.EffectSchedule | src/videos/SummaryVideo.tsx:237-246 | a 30-frame cue exists iff the user has both comments; it starts inside that user's slot, and at 12 fps or more it ends before the next slot |
| SummaryVideo.BadgesMatchStats | src/videos/SummaryVideo.tsx:206-219 | the three badges count what the stats count: goals = both + morning-only, achievements = both + night-only |
| SummaryVideo.BadgesBound | src/videos/SummaryVideo.tsx:206-219 | the both-badge is at most either other badge, and goals + achievements − both + neither = total |
| SummaryVideo.ListText | src/videos/SummaryVideo.tsx:338 | a cell shows at most 30 code units plus "..." |
| SummaryVideo.ListTextShape | src/videos/SummaryVideo.tsx:338 | short text is shown whole; longer text shows its first 30 code units followed by "..." |
| SummaryVideo.ListTextUnchanged | src/videos/SummaryVideo.tsx:338 | the cell equals the text iff it is at most 30 code units long or is already 30 units plus "..." |
| SummaryVideo.InterpolateBounds | src/videos/SummaryVideo.tsx:86-93 | the clamped interpolation stays between 0 and its end value |
| SummaryVideo.InterpolateMonotone | src/videos/SummaryVideo.tsx:86-93 | the clamped interpolation never decreases |
| SummaryVideo.ScrollBounds | src/videos/SummaryVideo.tsx:81-93 | the scroll is between 0 and the overflow height; it is 0 when there are at most six rows and during the first half second; it is complete from 4.5 s on |
| SummaryVideo.ScrollMonotone | src/videos/SummaryVideo.tsx:86-93 | the list only scrolls forward |
| SummaryVideo.PraiseMessage | src/videos/SummaryVideo.tsx:494-500 | the praise is always one of the fifteen messages |
| SummaryVideo.GetPraiseMessage | src/videos/SummaryVideo.tsx:494-500 | the hash loop returns `PraiseMessage(userId)` |
| SummaryVideo.EmptyIdPraise | src/videos/SummaryVideo.tsx:494-500 | the empty id gets the first message |
| SummaryVideo.PraiseMatchesAvatar | src/videos/SummaryVideo.tsx:476-500 | the praise and the avatar colour share one index: the same user always gets the same pairing |
| Root.ConfigConstants | src/Root.tsx:7-20 | shorts are 9:16 at 30 fps and 450 frames; the summary is 16:9 at 30 fps and 1800 frames, four times a short |
| Root.DurationFormula | src/Root.tsx:54-64 | the duration is 300 + 150 per comment, and 300 without comments |
| Root.DurationGrows | src/Root.tsx:54-64 | more comments give a strictly longer video |
| Root.TimelineAt30 | src/Root.tsx:54-64 | at 30 fps the list view starts at 120 + 180n and the outro at 270 + 180n, against a duration of 300 + 150n |
| Root.OutroReachedOnlyWithoutComments | src/Root.tsx:57-62 | the outro is reached iff there are no comments |
| Root.ListViewReachedBelowSix | src/Root.tsx:57-62 | the list view is reached iff there are fewer than six comments |
| Root.LastUserCut | src/Root.tsx:57-62 | the last user's slot plays in full iff n ≤ 6, and it starts at all iff n < 12 |
| Root.TimelineDurationShowsAll | src/videos/SummaryVideo.tsx:40-48 | with the timeline's length, every slot, the list view and the whole outro fit |
| Root.DurationShortOfTimeline | src/Root.tsx:57-62 | the computed duration falls short of the timeline by 90 + 30n frames |
| UploadYoutube.TypeOf | scripts/upload-youtube.js:70-74 | a config is found only for "morning", "night" and "summary" |
| UploadYoutube.TypeNameRoundTrip | scripts/upload-youtube.js:26-66 | each video type is found by its own name |
| UploadYoutube.TitleParts | scripts/upload-youtube.js:28-54 | the title is the date in 【】 followed by the type's suffix |
| UploadYoutube.TitleDetermines | scripts/upload-youtube.js:28-54 | titles of one type differ when the dates differ |
| UploadYoutube.UploadRequestFor | scripts/upload-youtube.js:70-104 | a request iff the type is known, with its title, category 22, public and not made for kids; otherwise an unknown-type error naming the input |
| UploadYoutube.UnknownTypeError | scripts/upload-youtube.js:70-74 | the unknown-type error is raised iff no config is found and the name is not one an object inherits (such as "toString", which passes `!config` and fails when its `title` is called) |
| UploadYoutube.ArgIndex | scripts/upload-youtube.js:111 | `indexOf` finds the first "--type", or -1 when there is none |
| UploadYoutube.LaunchCases | scripts/upload-youtube.js:109-136 | usage error iff "--type" is missing, last, or followed by ""; otherwise the upload of `<type>_<today>.mp4` for a known type, or an unknown-type error naming it |
| UploadYoutube.DatePart | scripts/upload-youtube.js:119 | `split("T")[0]` is the prefix before the first "T" |
| UploadYoutube.DatePartOfInstant | scripts/upload-youtube.js:119 | the date part of `date + "T" + time` is `date` |
| UploadYoutube.LineEnd | scripts/upload-youtube.js:154 | `.*` stops at the first line terminator |
| UploadYoutube.RemoveKeyLine | scripts/upload-youtube.js:154 | without the key, the content is unchanged |
| UploadYoutube.RemovedLine | scripts/upload-youtube.js:154 | the first match covers the key, the rest of its line without a line terminator, and at most one "\n"; it stops at the end of the text, after a "\n", or before another line terminator |
| UploadYoutube.EnvAfterUpload | scripts/upload-youtube.js:150-161 | the written file ends with "\n" and does not start with whitespace |
| UploadYoutube.RewriteEnvContent | scripts/upload-youtube.js:150-161 | the steps return `EnvAfterUpload(content, type, id)` |
| UploadYoutube.SummaryKeepsContent | scripts/upload-youtube.js:150-161 | a summary upload only trims the file and ends it with "\n" |
| UploadYoutube.KeysAreEnvKeys | scripts/upload-youtube.js:154-158 | both keys end in "=", hold no other "=" and no line break, and start with non-whitespace |
| UploadYoutube.RemovalLeavesNoKey | scripts/upload-youtube.js:154 | when the key occurs at most once, at a line start, no occurrence is left after the removal |
| UploadYoutube.AppendedLineHoldsKey | scripts/upload-youtube.js:155 | after appending the new line, the key occurs exactly once, on that line |
| UploadYoutube.TrimShiftsOccurrences | scripts/upload-youtube.js:161 | trimming keeps the single key occurrence, now counted from the trimmed start |
| UploadYoutube.UploadedKeyOccursOnce | scripts/upload-youtube.js:153-161 | after a morning or night upload, the file ends with `KEY=<id>\n` and holds the key exactly once |
| UploadYoutube.KeyInsideLine | scripts/upload-youtube.js:154-161 | a key found mid-line is removed with the rest of that line, joining it to the next line |
| UploadYoutube.MidLineRemoval | scripts/upload-youtube.js:154 | removing a mid-line key can make a new key occurrence out of the surrounding text |
| UploadYoutube.BlankLineAddedPerRun | scripts/upload-youtube.js:153-161 | when the key's line is last, each upload inserts one more blank line before it |
| UploadYoutube.StableRewrittenEnds | scripts/upload-youtube.js:153-161 | whatever the file held, the corrected rewrite ends with the new key line and one "\n" |
| UploadYoutube.StableKeyLine | scripts/upload-youtube.js:153-161 | with the corrected rewrite, a file whose last line is the key keeps its shape; only the id changes |
| DateUtil.JstWallClock | scripts/utils/date.js:9-17 | on every host the local getters read the JST wall clock (now + 9 h); on a Japan host nothing is shifted |
| DateUtil.JstIsoInstant | scripts/utils/date.js:23-29 | the shifted instant is now + 9 h iff the host runs in UTC |
| DateUtil.FormatDateRoundTrip | scripts/utils/date.js:13-17 | the `YYYY-MM-DD` text reads back as the year, `getMonth() + 1` and the day |
| DateUtil.FormatDateInjective | scripts/utils/date.js:13-17 | two dates give the same string iff they are the same day |
| DateUtil.FormatDateShape | scripts/utils/date.js:13-17 | for a four-digit year the date is ten characters, with digits and "-" at positions 4 and 7 |
| DateUtil.ParseDate | scripts/utils/date.js:17 | a read date has "-" at the two separator positions |
| DateUtil.JstIsoSuffix | scripts/utils/date.js:29 | the trailing "Z" of an ISO text becomes "+09:00", and the rest is kept |
| DateUtil.JstIsoWithoutZ | scripts/utils/date.js:29 | text without "Z" is returned unchanged |
| DateUtil.IsoStringInstant | scripts/utils/date.js:23-29 | the written ISO text means the current instant iff the host runs in UTC; on a Japan host it means 9 h earlier |
| DateUtil.CorrectedJstTime | scripts/utils/date.js:23-29 | shifting by nine hours whatever the host makes the "+09:00" text mean the current instant |
| DateUtil.CorrectedJstTimeAgrees | scripts/utils/date.js:9-29 | the corrected shift prints the wall clock `getJSTDate` reads, and matches the written shift only on a UTC host |

## Left out

- Network and OAuth: the YouTube calls (`commentThreads.list`, `videos.insert`) and `getAuthClient`. Their inputs and results are datatypes.
- File system: reading and writing `.env` and the comments JSON, `existsSync`, `path.join`, `path.resolve` and `mkdirSync`. A missing `.env` is the empty string.
- Process: `process.exit`, `console` output, environment variables such as `OUTPUT_DIR`, and the top-level `main()` control flow after the upload.
- Rendering:
  - React and Remotion components, styles, springs and particles.
  - Opacity curves other than the list scroll.
  - `Audio` and `Sequence` are modelled only as cue records.
- Clocks: `new Date()` is a parameter. The host's calendar getters (`getFullYear`, `getMonth`, `getDate`) are parameters of `FormatDate`. Daylight-saving changes of the host's zone are not modelled.
- `toLocaleDateString("ja-JP", …)` in `uploadVideo`: the formatted date is a parameter, since locale formatting is a library call.
- `date-fns` `format` in `SummaryVideo` is left out for the same reason.
- Floating point: frames and row heights are integers or Dafny reals. `Math.floor(fps * 3.5)` is computed exactly on rationals. The `amount` of `UserCharacter.AdjustColor` and the `fps` of `SummaryVideo` and `Root` are integers, so fractional values are not modelled; every call site passes integers (`-30`, an fps of 30).
- `Numerals.ParseInt`: the value is an exact integer, while JavaScript rounds it to a double. Past 2^53 the two differ, and a numeral too large for a double gives `Infinity` in JavaScript.
- `UserCharacter.ColorNumber`: inherits that gap. `adjustColor("#20000000000001", 0)` is "#000001" in the model but "#000000" in JavaScript, where the value rounds to 2^53. With 257 "f" digits JavaScript reads `Infinity`, which the bit operators turn into 0 and "#000000"; the model reads an exact number whose low 32 bits are -1, giving "#00ffff".
- `Hashing.UnwrappedHash`: the sum is an exact integer; JavaScript rounds it once it passes 2^53, which needs strings of millions of code units; only below that does JavaScript match what `HashesAgreeModulo` states.
- `Object.values` order: the static import objects are modelled as the ordered lists their literals give.
- `require` of audio files: each is modelled by its path.
- `Array.prototype.sort`: modelled by its result, a stable split into two groups. ECMAScript requires stability since 2019.
- `SummaryVideo.ListText`: `slice(0, 30)` counts UTF-16 code units and may cut a surrogate pair in half; the model keeps code units and does not decode them.
- `UserCharacter.AdjustColorSaturates`: stated only for colours that read as 24-bit numbers. Longer digit strings can read as negative numbers, and for those `NegativeColorNotWhite` shows that saturation fails.
- `UploadYoutube.UploadedKeyOccursOnce`: assumes that the key occurs at most once and at the start of a line. The regex is not anchored, and `KeyInsideLine` and `MidLineRemoval` show what happens otherwise.
- `UploadYoutube.RewriteEnvContent` models the `.env` rewrite as written. The corrected `StableRewritten` stands beside it, and the stable-shape property is proved only for it.
- `UploadYoutube.Launched`: `!args[i + 1]` is modelled as "past the end or empty", since command-line arguments are strings.
- `PromotionalSummaryVideo`, `MorningVideo`, `NightVideo`, `CommentBubble` and the render scripts are not part of this model.

## Findings

| source | as written | input that shows it | evidently intended | confidence | as-written member | corrected member |
|---|---|---|---|---|---|---|
| src/Root.tsx:57-62 | duration is 300 + 150·n frames | n = 1 gives 450 frames, and the outro starts at frame 450, so it is never shown; with n ≥ 6 the list view is cut, and with n ≥ 12 some users never appear | the timeline's own length, intro + 6 s per user + list view + outro (390 + 180·n at 30 fps) | not executed | Root.OutroReachedOnlyWithoutComments | Root.TimelineDurationShowsAll |
| scripts/upload-youtube.js:153-161 | removes the key line, then appends "\n" + key + id | "A=1\nMORNING_VIDEO_ID=x\n" becomes "A=1\n\nMORNING_VIDEO_ID=y\n", and each later upload adds one more blank line | the new line directly after the remaining content | not executed | UploadYoutube.BlankLineAddedPerRun | UploadYoutube.StableKeyLine |
| scripts/utils/date.js:23-29 | shifts by (host offset + 9 h) and relabels the UTC text "+09:00" | on a host in Japan, at 12:00 JST the text reads 03:00+09:00 | the JST wall clock followed by "+09:00" on any host | not executed | DateUtil.IsoStringInstant | DateUtil.CorrectedJstTime |
