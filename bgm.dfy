/**
 * src/utils/bgm.ts: deterministic background-music choice. A seed string (the
 * date) is hashed to a signed 32-bit value; its absolute value modulo the list
 * length picks a track. The same seed always picks the same track, and the path
 * helpers and the bundled-asset selectors pick the same position of lists that
 * name the same files in the same order.
 */
module Bgm {
  import opened Js
  import opened Hashing

  const PopBgmFiles: seq<string> := [
    "SUMMER_TRIANGLE.mp3",
    "さみしいおばけと東京の月.mp3",
    "サンタは中央線でやってくる.mp3",
    "ステラと塔の物語.mp3",
    "ヒダマリトロニカ.mp3"
  ]

  const ChillBgmFiles: seq<string> := [
    "カエルの勇者.mp3",
    "ローファイ少女は今日も寝不足.mp3",
    "宇宙飛行士が最後に見たもの.mp3",
    "神隠しの真相.mp3",
    "週末京都現実逃避.mp3"
  ]

  const PopFolder: string := "sounds/bgm/pop/"
  const ChillFolder: string := "sounds/bgm/chill/"

  /**
   * The index `getSeededRandomIndex(seed, length)` returns: `Math.abs(hash) %
   * length` over the wrapped hash of the seed's UTF-16 code units. For length 0
   * the JavaScript result is `NaN`, modelled as `None`.
   */
  function SeededIndex(seed: string, length: nat): (r: Option<nat>)
    ensures r.None? <==> length == 0
    ensures r.Some? ==> r.value < length
  {
    if length == 0 then None else Some(SelectIndex(WrappedHash(Utf16(seed)), length))
  }

  /** `getSeededRandomIndex`: the loop over `charCodeAt`, wrapping to 32 bits after each step. */
  method GetSeededRandomIndex(seed: string, arrayLength: nat) returns (index: Option<nat>)
    ensures index == SeededIndex(seed, arrayLength)
  {
    var units := Utf16(seed);
    var hash := 0;
    var i := 0;
    while i < |units|
      invariant 0 <= i <= |units|
      invariant IsInt32(hash) && hash == WrappedHash(units[..i])
    {
      WrappedHashStep(units, i);
      var code := units[i];
      hash := ShiftLeft5(hash) - hash + code;
      hash := ToInt32(hash);  // `hash & hash`
      i := i + 1;
    }
    assert units[..|units|] == units;
    if arrayLength == 0 {
      index := None;
    } else {
      index := Some(Abs(hash) % arrayLength);
    }
  }

  /**
   * The index is the unwrapped hash of the avatar and praise selectors, wrapped
   * to 32 bits once at the end; while that hash does not overflow, both pick the
   * same position of a list of the same length.
   */
  lemma SeededIndexOfUnwrapped(seed: string, length: nat)
    requires length > 0
    ensures SeededIndex(seed, length) == Some(SelectIndex(ToInt32(UnwrappedHash(Utf16(seed))), length))
    ensures IsInt32(UnwrappedHash(Utf16(seed))) ==>
      SeededIndex(seed, length) == Some(SelectIndex(UnwrappedHash(Utf16(seed)), length))
  {
    HashesAgreeModulo(Utf16(seed));
  }

  /** The empty seed picks the first entry. */
  lemma EmptySeedPicksFirst(length: nat)
    requires length > 0
    ensures SeededIndex("", length) == Some(0)
  {
  }

  /** A one-character seed from the Basic Multilingual Plane picks its code modulo the length. */
  lemma OneCharSeed(c: char, length: nat)
    requires length > 0 && c as int < 0x1_0000
    ensures SeededIndex([c], length) == Some(c as int % length)
  {
    assert Utf16([c]) == [c as int] by {
      assert [c][1..] == [];
    }
    assert WrappedHash([c as int]) == c as int by {
      assert [c as int][..0] == [];
    }
  }

  /** `getMorningBgmPath`: a file of the pop folder. */
  method GetMorningBgmPath(seed: string) returns (path: string)
    ensures path == PopFolder + PopBgmFiles[SeededIndex(seed, |PopBgmFiles|).value]
    ensures path[..|PopFolder|] == PopFolder && path[|PopFolder|..] in PopBgmFiles
  {
    var index := GetSeededRandomIndex(seed, |PopBgmFiles|);
    path := PopFolder + PopBgmFiles[index.value];
    assert path[|PopFolder|..] == PopBgmFiles[index.value];
  }

  /** `getNightBgmPath`: a file of the chill folder. */
  method GetNightBgmPath(seed: string) returns (path: string)
    ensures path == ChillFolder + ChillBgmFiles[SeededIndex(seed, |ChillBgmFiles|).value]
    ensures path[..|ChillFolder|] == ChillFolder && path[|ChillFolder|..] in ChillBgmFiles
  {
    var index := GetSeededRandomIndex(seed, |ChillBgmFiles|);
    path := ChillFolder + ChillBgmFiles[index.value];
    assert path[|ChillFolder|..] == ChillBgmFiles[index.value];
  }

  /** A bundled asset: what `require(path)` of a sound file resolves to. */
  datatype Asset = Required(path: string)

  /** The directories `require` resolves the sound files from, relative to src/utils/. */
  const PopAssetDir: string := "../../sounds/bgm/pop/"
  const ChillAssetDir: string := "../../sounds/bgm/chill/"

  /** `Object.values(POP_BGM)`: the entries in key insertion order. */
  const PopBgmList: seq<Asset> := [
    Required(PopAssetDir + "SUMMER_TRIANGLE.mp3"),
    Required(PopAssetDir + "さみしいおばけと東京の月.mp3"),
    Required(PopAssetDir + "サンタは中央線でやってくる.mp3"),
    Required(PopAssetDir + "ステラと塔の物語.mp3"),
    Required(PopAssetDir + "ヒダマリトロニカ.mp3")
  ]

  /** `Object.values(CHILL_BGM)`: the entries in key insertion order. */
  const ChillBgmList: seq<Asset> := [
    Required(ChillAssetDir + "カエルの勇者.mp3"),
    Required(ChillAssetDir + "ローファイ少女は今日も寝不足.mp3"),
    Required(ChillAssetDir + "宇宙飛行士が最後に見たもの.mp3"),
    Required(ChillAssetDir + "神隠しの真相.mp3"),
    Required(ChillAssetDir + "週末京都現実逃避.mp3")
  ]

  const DecisionButtonSound: Asset := Required("../../sounds/effect/決定ボタンを押す42.mp3")

  /** The bundled pop list names the files of the pop path list, position by position. */
  lemma PopListMatchesFiles()
    ensures |PopBgmList| == |PopBgmFiles|
    ensures forall i :: 0 <= i < |PopBgmList| ==> PopBgmList[i].path == "../../" + PopFolder + PopBgmFiles[i]
  {
    assert PopAssetDir == "../../" + PopFolder;
  }

  /** The bundled chill list names the files of the chill path list, position by position. */
  lemma ChillListMatchesFiles()
    ensures |ChillBgmList| == |ChillBgmFiles|
    ensures forall i :: 0 <= i < |ChillBgmList| ==> ChillBgmList[i].path == "../../" + ChillFolder + ChillBgmFiles[i]
  {
    assert ChillAssetDir == "../../" + ChillFolder;
  }

  /** `selectPopBgm` */
  method SelectPopBgm(seed: string) returns (asset: Asset)
    ensures asset == PopBgmList[SeededIndex(seed, |PopBgmList|).value]
  {
    var index := GetSeededRandomIndex(seed, |PopBgmList|);
    asset := PopBgmList[index.value];
  }

  /** `selectChillBgm` */
  method SelectChillBgm(seed: string) returns (asset: Asset)
    ensures asset == ChillBgmList[SeededIndex(seed, |ChillBgmList|).value]
  {
    var index := GetSeededRandomIndex(seed, |ChillBgmList|);
    asset := ChillBgmList[index.value];
  }

  /** For one seed, the morning path and the selected pop asset are the same file. */
  lemma PopSelectorsAgree(seed: string)
    ensures PopBgmList[SeededIndex(seed, |PopBgmList|).value].path
         == "../../" + PopFolder + PopBgmFiles[SeededIndex(seed, |PopBgmFiles|).value]
  {
    PopListMatchesFiles();
  }

  /** For one seed, the night path and the selected chill asset are the same file. */
  lemma ChillSelectorsAgree(seed: string)
    ensures ChillBgmList[SeededIndex(seed, |ChillBgmList|).value].path
         == "../../" + ChillFolder + ChillBgmFiles[SeededIndex(seed, |ChillBgmFiles|).value]
  {
    ChillListMatchesFiles();
  }
}
