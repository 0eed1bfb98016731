/**
 * scripts/fetch-comments.js, `mergeComments` and the `stats` block of `main`:
 * folding the morning and night comments into one entry per user id through a
 * JavaScript `Map`, then sorting users who posted both comments first.
 *
 * The `Map` is modelled by the class `UserMap`: its keys in insertion order and
 * its entries. `Set` on a key already present replaces the entry and keeps the
 * key where it was. The value-level fold `AfterMorning`/`AfterNight` is the
 * specification the imperative `MergeComments` is proved against; the lemmas
 * below relate that fold to reference definitions that do not mention the map.
 */
module CommentMerge {
  import opened Js
  import opened FetchComments

  /** One merged entry: the `UserComment` record the summary video reads. */
  datatype UserComment = UserComment(
    username: string,
    userId: string,
    morningGoal: Option<string>,
    nightAchievement: Option<string>,
    avatarColor: string,
    avatarUrl: Option<string>)

  /** `a.morningGoal && a.nightAchievement`, with JavaScript truthiness. */
  predicate HasBoth(e: UserComment)
  {
    Truthy(e.morningGoal) && Truthy(e.nightAchievement)
  }

  // ---------------------------------------------------------------------------
  // The Map, as a value and as an object

  /** The contents of a JavaScript `Map` from user id to entry. */
  datatype MapState = MapState(keys: seq<string>, entries: map<string, UserComment>)

  ghost predicate Distinct(ks: seq<string>)
  {
    forall i, j :: 0 <= i < j < |ks| ==> ks[i] != ks[j]
  }

  ghost predicate WellFormed(st: MapState)
  {
    Distinct(st.keys) && forall k :: k in st.entries <==> k in st.keys
  }

  const EmptyMap: MapState := MapState([], map[])

  /** `map.set(k, v)`: a new key goes last, an existing key keeps its position. */
  function Put(st: MapState, k: string, v: UserComment): (r: MapState)
    requires WellFormed(st)
    ensures WellFormed(r)
    ensures r.entries == st.entries[k := v]
    ensures k in st.entries ==> r.keys == st.keys
    ensures k !in st.entries ==> r.keys == st.keys + [k]
  {
    MapState(if k in st.entries then st.keys else st.keys + [k], st.entries[k := v])
  }

  /** `Array.from(map.values())`: the entries in key insertion order. */
  function Values(st: MapState): (vs: seq<UserComment>)
    requires WellFormed(st)
    ensures |vs| == |st.keys|
    ensures forall i :: 0 <= i < |vs| ==> vs[i] == st.entries[st.keys[i]]
  {
    seq(|st.keys|, i requires 0 <= i < |st.keys| => st.entries[st.keys[i]])
  }

  class UserMap {
    var keys: seq<string>
    var entries: map<string, UserComment>

    ghost function State(): MapState
      reads this
    {
      MapState(keys, entries)
    }

    ghost predicate Valid()
      reads this
    {
      WellFormed(State())
    }

    /** `new Map()` */
    constructor ()
      ensures Valid() && State() == EmptyMap
    {
      keys, entries := [], map[];
    }

    /**
     * `map.get(k)`: the entry, or `undefined`. A user is found exactly when
     * their id is among the keys in insertion order.
     */
    method Get(k: string) returns (v: Option<UserComment>)
      requires Valid()
      ensures v.Some? <==> k in keys
      ensures v.Some? ==> v.value == entries[k]
    {
      v := if k in entries then Some(entries[k]) else None;
    }

    /** `map.set(k, v)` */
    method Set(k: string, v: UserComment)
      requires Valid()
      modifies this
      ensures Valid() && State() == Put(old(State()), k, v)
    {
      if k !in entries {
        keys := keys + [k];
      }
      entries := entries[k := v];
    }

    /** `Array.from(map.values())` */
    method ValuesArray() returns (vs: seq<UserComment>)
      requires Valid()
      ensures vs == Values(State())
    {
      vs := [];
      var i := 0;
      while i < |keys|
        invariant 0 <= i <= |keys|
        invariant |vs| == i
        invariant forall j :: 0 <= j < i ==> vs[j] == entries[keys[j]]
      {
        vs := vs + [entries[keys[i]]];
        i := i + 1;
      }
    }
  }

  // ---------------------------------------------------------------------------
  // The fold the two loops perform

  /** The entry a morning comment writes (lines 69-75): no night field, no avatar URL. */
  function MorningEntry(c: Comment): UserComment
  {
    UserComment(c.username, c.userId, Some(c.content), None, AvatarColor(c.userId), None)
  }

  /** The entry a night comment creates for an id not seen yet (lines 84-90). */
  function NightEntry(c: Comment): UserComment
  {
    UserComment(c.username, c.userId, None, Some(c.content), AvatarColor(c.userId), None)
  }

  /** The map after the morning loop has processed `cs`. */
  function AfterMorning(cs: seq<Comment>): (st: MapState)
    ensures WellFormed(st)
  {
    if cs == [] then EmptyMap
    else
      var c := cs[|cs| - 1];
      Put(AfterMorning(cs[..|cs| - 1]), c.userId, MorningEntry(c))
  }

  /** One step of the night loop: set the achievement of an existing entry, or add a night-only entry. */
  function NightStep(st: MapState, c: Comment): (r: MapState)
    requires WellFormed(st)
    ensures WellFormed(r)
  {
    if c.userId in st.entries then
      Put(st, c.userId, st.entries[c.userId].(nightAchievement := Some(c.content)))
    else
      Put(st, c.userId, NightEntry(c))
  }

  /** The map after the night loop has processed `cs`, starting from `st0`. */
  function AfterNight(st0: MapState, cs: seq<Comment>): (st: MapState)
    requires WellFormed(st0)
    ensures WellFormed(st)
  {
    if cs == [] then st0
    else NightStep(AfterNight(st0, cs[..|cs| - 1]), cs[|cs| - 1])
  }

  function UserMapOf(morning: seq<Comment>, night: seq<Comment>): (st: MapState)
    ensures WellFormed(st)
  {
    AfterNight(AfterMorning(morning), night)
  }

  /**
   * The comparator of line 96: -1 when only `a` has both comments, 1 when only
   * `b` has, 0 otherwise.
   */
  function CompareBothFirst(a: UserComment, b: UserComment): int
  {
    if HasBoth(a) && !HasBoth(b) then -1
    else if !HasBoth(a) && HasBoth(b) then 1
    else 0
  }

  /** The entries of `vs` whose `HasBoth` is `both`, in their order in `vs`. */
  function Tier(vs: seq<UserComment>, both: bool): (r: seq<UserComment>)
    ensures |r| <= |vs|
  {
    if vs == [] then []
    else
      var last := vs[|vs| - 1];
      Tier(vs[..|vs| - 1], both) + (if HasBoth(last) == both then [last] else [])
  }

  /**
   * `comments.sort(CompareBothFirst)`: the built-in sort is stable, so with this
   * two-valued comparator its result is the entries with both comments, then the
   * others, each group in its original order.
   */
  function SortBothFirst(vs: seq<UserComment>): seq<UserComment>
  {
    Tier(vs, true) + Tier(vs, false)
  }

  /** What `mergeComments(morning, night)` returns. */
  function Merged(morning: seq<Comment>, night: seq<Comment>): seq<UserComment>
  {
    SortBothFirst(Values(UserMapOf(morning, night)))
  }

  /** `mergeComments`: two loops filling the map, then the sort. */
  method MergeComments(morning: seq<Comment>, night: seq<Comment>) returns (comments: seq<UserComment>)
    ensures comments == Merged(morning, night)
  {
    var userMap := new UserMap();
    AddMorning(userMap, morning);
    AddNight(userMap, night);
    var values := userMap.ValuesArray();
    comments := SortBothFirst(values);
  }

  /** The morning loop (lines 67-76): each comment overwrites the entry of its user id. */
  method AddMorning(userMap: UserMap, morning: seq<Comment>)
    requires userMap.Valid() && userMap.State() == EmptyMap
    modifies userMap
    ensures userMap.Valid() && userMap.State() == AfterMorning(morning)
  {
    var i := 0;
    while i < |morning|
      invariant 0 <= i <= |morning|
      invariant userMap.Valid() && userMap.State() == AfterMorning(morning[..i])
    {
      var comment := morning[i];
      var color := GenerateAvatarColor(comment.userId);
      var entry := UserComment(comment.username, comment.userId, Some(comment.content), None, color, None);
      assert entry == MorningEntry(comment);
      AfterMorningStep(morning, i);
      userMap.Set(comment.userId, entry);
      i := i + 1;
    }
    assert morning[..|morning|] == morning;
  }

  /** The night loop (lines 78-92), one `NightUpdate` per comment. */
  method AddNight(userMap: UserMap, night: seq<Comment>)
    requires userMap.Valid()
    modifies userMap
    ensures userMap.Valid() && userMap.State() == AfterNight(old(userMap.State()), night)
  {
    ghost var st0 := userMap.State();
    var j := 0;
    while j < |night|
      invariant 0 <= j <= |night|
      invariant userMap.Valid() && userMap.State() == AfterNight(st0, night[..j])
    {
      AfterNightStep(st0, night, j);
      NightUpdate(userMap, night[j]);
      j := j + 1;
    }
    assert night[..|night|] == night;
  }

  /**
   * One night comment: a known user id gets its achievement set (the source
   * mutates the entry object in place); an unknown one gets a new night-only entry.
   */
  method NightUpdate(userMap: UserMap, comment: Comment)
    requires userMap.Valid()
    modifies userMap
    ensures userMap.Valid() && userMap.State() == NightStep(old(userMap.State()), comment)
  {
    var existing := userMap.Get(comment.userId);
    if existing.Some? {
      userMap.Set(comment.userId, existing.value.(nightAchievement := Some(comment.content)));
    } else {
      var color := GenerateAvatarColor(comment.userId);
      var entry := UserComment(comment.username, comment.userId, None, Some(comment.content), color, None);
      assert entry == NightEntry(comment);
      userMap.Set(comment.userId, entry);
    }
  }

  lemma AfterMorningStep(ms: seq<Comment>, i: nat)
    requires i < |ms|
    ensures AfterMorning(ms[..i + 1]) == Put(AfterMorning(ms[..i]), ms[i].userId, MorningEntry(ms[i]))
  {
    assert ms[..i + 1][..i] == ms[..i];
  }

  lemma AfterNightStep(st0: MapState, ns: seq<Comment>, j: nat)
    requires WellFormed(st0) && j < |ns|
    ensures AfterNight(st0, ns[..j + 1]) == NightStep(AfterNight(st0, ns[..j]), ns[j])
  {
    assert ns[..j + 1][..j] == ns[..j];
  }

  // ---------------------------------------------------------------------------
  // Reference definitions that do not mention the map

  function Ids(cs: seq<Comment>): (ids: seq<string>)
    ensures |ids| == |cs|
    ensures forall i :: 0 <= i < |cs| ==> ids[i] == cs[i].userId
  {
    seq(|cs|, i requires 0 <= i < |cs| => cs[i].userId)
  }

  lemma IdsSnoc(cs: seq<Comment>)
    requires cs != []
    ensures Ids(cs) == Ids(cs[..|cs| - 1]) + [cs[|cs| - 1].userId]
  {
  }

  /** The last comment of `cs` written by `id`. */
  function LastWith(cs: seq<Comment>, id: string): (c: Comment)
    requires id in Ids(cs)
    ensures c in cs && c.userId == id
  {
    var last := cs[|cs| - 1];
    IdsSnoc(cs);
    if last.userId == id then last else LastWith(cs[..|cs| - 1], id)
  }

  /** The first comment of `cs` written by `id`. */
  function FirstWith(cs: seq<Comment>, id: string): (c: Comment)
    requires id in Ids(cs)
    ensures c in cs && c.userId == id
  {
    var p := cs[..|cs| - 1];
    IdsSnoc(cs);
    if id in Ids(p) then FirstWith(p, id) else cs[|cs| - 1]
  }

  /** The ids of `ids` in order of first appearance, each once. */
  function Dedup(ids: seq<string>): (r: seq<string>)
    ensures forall k :: k in r <==> k in ids
  {
    if ids == [] then []
    else
      var p, z := ids[..|ids| - 1], ids[|ids| - 1];
      assert ids == p + [z];
      var r := Dedup(p);
      if z in r then r else r + [z]
  }

  /** The position of the first appearance of `id` in `ids`. */
  function FirstIndex(ids: seq<string>, id: string): (i: nat)
    requires id in ids
    ensures i < |ids| && ids[i] == id
    ensures forall j :: 0 <= j < i ==> ids[j] != id
  {
    if ids[0] == id then 0 else 1 + FirstIndex(ids[1..], id)
  }

  lemma {:induction false} DedupDistinct(ids: seq<string>)
    ensures Distinct(Dedup(ids))
  {
    if ids != [] {
      DedupDistinct(ids[..|ids| - 1]);
    }
  }

  lemma FirstIndexPrefix(ids: seq<string>, k: string)
    requires ids != [] && k in ids[..|ids| - 1]
    ensures FirstIndex(ids, k) == FirstIndex(ids[..|ids| - 1], k)
  {
    var p := ids[..|ids| - 1];
    assert forall j :: 0 <= j < |p| ==> p[j] == ids[j];
  }

  /**
   * `Dedup` lists the ids in order of first appearance: of two ids in its
   * result, the earlier one appears first in `ids`.
   */
  lemma {:induction false} DedupOrder(ids: seq<string>)
    ensures forall i, j :: 0 <= i < j < |Dedup(ids)| ==>
      FirstIndex(ids, Dedup(ids)[i]) < FirstIndex(ids, Dedup(ids)[j])
  {
    if ids != [] {
      var p := ids[..|ids| - 1];
      var z := ids[|ids| - 1];
      var r := Dedup(ids);
      DedupOrder(p);
      forall k | k in p ensures FirstIndex(ids, k) == FirstIndex(p, k) {
        FirstIndexPrefix(ids, k);
      }
      if z !in Dedup(p) {
        assert z !in p;
        forall i | 0 <= i < |Dedup(p)| ensures FirstIndex(ids, r[i]) < |p| {
          assert r[i] in p;
        }
        assert FirstIndex(ids, z) == |p|;
      }
    }
  }

  /** Deduplicating `a + b` is deduplicating `a`, then appending the new ids of `b`. */
  lemma {:induction false} KeysAfterNight(st0: MapState, ns: seq<Comment>, ms: seq<string>)
    requires WellFormed(st0) && st0.keys == Dedup(ms)
    ensures AfterNight(st0, ns).keys == Dedup(ms + Ids(ns))
  {
    if ns == [] {
      assert ms + Ids(ns) == ms;
    } else {
      var p := ns[..|ns| - 1];
      var c := ns[|ns| - 1];
      KeysAfterNight(st0, p, ms);
      assert (ms + Ids(ns))[..|ms + Ids(ns)| - 1] == ms + Ids(p);
      assert (ms + Ids(ns))[|ms + Ids(ns)| - 1] == c.userId;
    }
  }

  lemma {:induction false} KeysAfterMorning(ms: seq<Comment>)
    ensures AfterMorning(ms).keys == Dedup(Ids(ms))
  {
    if ms != [] {
      KeysAfterMorning(ms[..|ms| - 1]);
      assert Ids(ms)[..|ms| - 1] == Ids(ms[..|ms| - 1]);
    }
  }

  /**
   * The map holds one key per distinct user id of both lists, in order of first
   * appearance: first the morning ids, then the ids seen only at night. The empty
   * id is a key like any other.
   */
  lemma MergedKeys(morning: seq<Comment>, night: seq<Comment>)
    ensures UserMapOf(morning, night).keys == Dedup(Ids(morning) + Ids(night))
    ensures Distinct(UserMapOf(morning, night).keys)
    ensures forall id :: id in UserMapOf(morning, night).keys <==> id in Ids(morning) || id in Ids(night)
  {
    KeysAfterMorning(morning);
    KeysAfterNight(AfterMorning(morning), night, Ids(morning));
    DedupDistinct(Ids(morning) + Ids(night));
  }

  lemma {:induction false} EntryAfterMorning(ms: seq<Comment>, id: string)
    ensures id in AfterMorning(ms).entries <==> id in Ids(ms)
    ensures id in Ids(ms) ==> AfterMorning(ms).entries[id] == MorningEntry(LastWith(ms, id))
  {
    if ms != [] {
      EntryAfterMorning(ms[..|ms| - 1], id);
      IdsSnoc(ms);
    }
  }

  /** What the night loop leaves in the entry of `id`, as a reference definition. */
  function NightOutcome(st0: MapState, ns: seq<Comment>, id: string): UserComment
    requires id in st0.entries || id in Ids(ns)
  {
    var night := if id in Ids(ns) then Some(LastWith(ns, id).content)
                 else st0.entries[id].nightAchievement;
    if id in st0.entries then st0.entries[id].(nightAchievement := night)
    else NightEntry(FirstWith(ns, id)).(nightAchievement := night)
  }

  lemma {:induction false} EntryAfterNight(st0: MapState, ns: seq<Comment>, id: string)
    requires WellFormed(st0)
    ensures id in AfterNight(st0, ns).entries <==> id in st0.entries || id in Ids(ns)
    ensures id in AfterNight(st0, ns).entries ==>
      AfterNight(st0, ns).entries[id] == NightOutcome(st0, ns, id)
  {
    if ns != [] {
      var p := ns[..|ns| - 1];
      var c := ns[|ns| - 1];
      EntryAfterNight(st0, p, id);
      IdsSnoc(ns);
      if id == c.userId {
        assert LastWith(ns, id) == c;
        if id !in st0.entries {
          if id in Ids(p) {
            assert FirstWith(ns, id) == FirstWith(p, id);
          } else {
            assert FirstWith(ns, id) == c;
          }
        }
      } else if id in Ids(ns) {
        assert id in Ids(p);
        assert LastWith(ns, id) == LastWith(p, id);
        assert FirstWith(ns, id) == FirstWith(p, id);
      }
    }
  }

  /**
   * The entry of every user id, stated without the map: the name and goal of the
   * last morning comment of that id (a night comment never changes them), or
   * else the name of its first night comment and no goal; the content of its last
   * night comment, if any; the colour of its id; never an avatar URL.
   */
  lemma MergedEntry(morning: seq<Comment>, night: seq<Comment>, id: string)
    requires id in Ids(morning) || id in Ids(night)
    ensures id in UserMapOf(morning, night).entries
    ensures UserMapOf(morning, night).entries[id].userId == id
    ensures UserMapOf(morning, night).entries[id].avatarColor == AvatarColor(id)
    ensures UserMapOf(morning, night).entries[id].avatarUrl == None
    ensures id in Ids(morning) ==>
      && UserMapOf(morning, night).entries[id].username == LastWith(morning, id).username
      && UserMapOf(morning, night).entries[id].morningGoal == Some(LastWith(morning, id).content)
    ensures id !in Ids(morning) ==>
      && UserMapOf(morning, night).entries[id].username == FirstWith(night, id).username
      && UserMapOf(morning, night).entries[id].morningGoal == None
    ensures UserMapOf(morning, night).entries[id].nightAchievement ==
      if id in Ids(night) then Some(LastWith(night, id).content) else None
  {
    EntryAfterMorning(morning, id);
    EntryAfterNight(AfterMorning(morning), night, id);
  }

  // ---------------------------------------------------------------------------
  // The sort

  lemma {:induction false} TierMembers(vs: seq<UserComment>, both: bool)
    ensures forall e :: e in Tier(vs, both) <==> e in vs && HasBoth(e) == both
  {
    if vs != [] {
      var p, last := vs[..|vs| - 1], vs[|vs| - 1];
      TierMembers(p, both);
      assert vs == p + [last];
    }
  }

  /** The two tiers split the entries between them, each entry as often as it occurs. */
  lemma {:induction false} TierPartition(vs: seq<UserComment>)
    ensures multiset(Tier(vs, true)) + multiset(Tier(vs, false)) == multiset(vs)
  {
    if vs != [] {
      var p, last := vs[..|vs| - 1], vs[|vs| - 1];
      TierPartition(p);
      assert vs == p + [last];
      var a, b := Tier(p, true), Tier(p, false);
      var x := if HasBoth(last) then [last] else [];
      var y := if HasBoth(last) then [] else [last];
      assert Tier(vs, true) == a + x && Tier(vs, false) == b + y;
      assert multiset(x) + multiset(y) == multiset([last]);
      assert multiset(a + x) + multiset(b + y) == (multiset(a) + multiset(b)) + (multiset(x) + multiset(y));
    }
  }

  lemma {:induction false} TierOfConcat(a: seq<UserComment>, b: seq<UserComment>, both: bool)
    ensures Tier(a + b, both) == Tier(a, both) + Tier(b, both)
  {
    if b != [] {
      TierOfConcat(a, b[..|b| - 1], both);
      assert (a + b)[..|a + b| - 1] == a + b[..|b| - 1];
    } else {
      assert a + b == a;
    }
  }

  lemma {:induction false} TierIdempotent(vs: seq<UserComment>, both: bool)
    ensures Tier(Tier(vs, both), both) == Tier(vs, both)
    ensures Tier(Tier(vs, both), !both) == []
  {
    if vs != [] {
      var p := vs[..|vs| - 1];
      var last := vs[|vs| - 1];
      TierIdempotent(p, both);
      TierOfConcat(Tier(p, both), if HasBoth(last) == both then [last] else [], both);
      TierOfConcat(Tier(p, both), if HasBoth(last) == both then [last] else [], !both);
      assert Tier([last], both) == (if HasBoth(last) == both then [last] else []) by {
        assert [last][..0] == [];
      }
      assert Tier([last], !both) == (if HasBoth(last) == !both then [last] else []) by {
        assert [last][..0] == [];
      }
    }
  }

  /**
   * The sort's result is a permutation of its input, in the comparator's order
   * (no entry with both comments after one without), and stable: each group
   * keeps the order it had.
   */
  lemma SortBothFirstSpec(vs: seq<UserComment>)
    ensures multiset(SortBothFirst(vs)) == multiset(vs)
    ensures forall i, j :: 0 <= i < j < |SortBothFirst(vs)| ==>
      CompareBothFirst(SortBothFirst(vs)[i], SortBothFirst(vs)[j]) <= 0
    ensures Tier(SortBothFirst(vs), true) == Tier(vs, true)
    ensures Tier(SortBothFirst(vs), false) == Tier(vs, false)
  {
    var r := SortBothFirst(vs);
    var a, b := Tier(vs, true), Tier(vs, false);
    TierMembers(vs, true);
    TierMembers(vs, false);
    TierPartition(vs);
    forall i, j | 0 <= i < j < |r| ensures CompareBothFirst(r[i], r[j]) <= 0 {
      if i < |a| {
        assert r[i] == a[i] && r[i] in a;
      } else {
        assert r[i] == b[i - |a|] && r[i] in b;
        assert r[j] == b[j - |a|] && r[j] in b;
      }
    }
    TierOfConcat(a, b, true);
    TierOfConcat(a, b, false);
    TierIdempotent(vs, true);
    TierIdempotent(vs, false);
  }

  /** The sort neither adds nor drops an entry. */
  lemma SortSameMembers(vs: seq<UserComment>)
    ensures forall e :: e in SortBothFirst(vs) <==> e in vs
  {
    TierMembers(vs, true);
    TierMembers(vs, false);
  }

  // ---------------------------------------------------------------------------
  // One entry per user

  ghost predicate DistinctUsers(vs: seq<UserComment>)
  {
    forall i, j :: 0 <= i < j < |vs| ==> vs[i].userId != vs[j].userId
  }

  lemma SameUserSameEntry(vs: seq<UserComment>, x: UserComment, y: UserComment)
    requires DistinctUsers(vs) && x in vs && y in vs
    ensures x.userId == y.userId ==> x == y
  {
    var p :| 0 <= p < |vs| && vs[p] == x;
    var q :| 0 <= q < |vs| && vs[q] == y;
    assert x.userId == y.userId ==> p == q;
  }

  lemma {:induction false} TierDistinct(vs: seq<UserComment>, both: bool)
    requires DistinctUsers(vs)
    ensures DistinctUsers(Tier(vs, both))
  {
    if vs != [] {
      var p, last := vs[..|vs| - 1], vs[|vs| - 1];
      assert DistinctUsers(p);
      TierDistinct(p, both);
      var t := Tier(p, both);
      assert Tier(vs, both) == t + (if HasBoth(last) == both then [last] else []);
      if HasBoth(last) == both {
        TierMembers(p, both);
        LastUserIsNew(vs);
        DistinctSnoc(t, last);
      }
    }
  }

  /** In a list of distinct users, the last entry's user appears nowhere before it. */
  lemma LastUserIsNew(vs: seq<UserComment>)
    requires DistinctUsers(vs) && vs != []
    ensures forall e :: e in vs[..|vs| - 1] ==> e.userId != vs[|vs| - 1].userId
  {
    forall e | e in vs[..|vs| - 1] ensures e.userId != vs[|vs| - 1].userId {
      var k :| 0 <= k < |vs| - 1 && vs[..|vs| - 1][k] == e;
      assert vs[k] == e;
    }
  }

  lemma DistinctSnoc(t: seq<UserComment>, last: UserComment)
    requires DistinctUsers(t) && forall e :: e in t ==> e.userId != last.userId
    ensures DistinctUsers(t + [last])
  {
    forall i, j | 0 <= i < j < |t + [last]| ensures (t + [last])[i].userId != (t + [last])[j].userId {
      if j == |t| {
        assert t[i] in t;
      }
    }
  }

  /** Sorting keeps the users distinct. */
  lemma SortKeepsDistinct(vs: seq<UserComment>)
    requires DistinctUsers(vs)
    ensures DistinctUsers(SortBothFirst(vs))
  {
    var r := SortBothFirst(vs);
    var a, b := Tier(vs, true), Tier(vs, false);
    TierDistinct(vs, true);
    TierDistinct(vs, false);
    TierMembers(vs, true);
    TierMembers(vs, false);
    forall i, j | 0 <= i < j < |r| ensures r[i].userId != r[j].userId {
      if i < |a| && j >= |a| {
        var x, y := a[i], b[j - |a|];
        assert x in a && y in b;
        SameUserSameEntry(vs, x, y);
      } else if i < |a| {
        assert r[i] == a[i] && r[j] == a[j];
      } else {
        assert r[i] == b[i - |a|] && r[j] == b[j - |a|];
      }
    }
  }

  /** Entry `i` of the map's values belongs to key `i`; so the values have distinct users. */
  lemma ValuesOfUserMap(morning: seq<Comment>, night: seq<Comment>)
    ensures forall i :: 0 <= i < |Values(UserMapOf(morning, night))| ==>
      Values(UserMapOf(morning, night))[i].userId == UserMapOf(morning, night).keys[i]
    ensures DistinctUsers(Values(UserMapOf(morning, night)))
  {
    var st := UserMapOf(morning, night);
    MergedKeys(morning, night);
    forall k | k in st.keys ensures st.entries[k].userId == k {
      MergedEntry(morning, night, k);
    }
  }

  /**
   * `mergeComments` returns exactly one entry per distinct user id of its two
   * inputs (all comments with the empty id share one entry), with users who
   * posted both comments first and each group in map insertion order.
   */
  lemma MergedOnePerUser(morning: seq<Comment>, night: seq<Comment>)
    ensures DistinctUsers(Merged(morning, night))
    ensures |Merged(morning, night)| == |Dedup(Ids(morning) + Ids(night))|
    ensures Tier(Merged(morning, night), true) == Tier(Values(UserMapOf(morning, night)), true)
    ensures Tier(Merged(morning, night), false) == Tier(Values(UserMapOf(morning, night)), false)
  {
    var vs := Values(UserMapOf(morning, night));
    var r := Merged(morning, night);
    MergedKeys(morning, night);
    ValuesOfUserMap(morning, night);
    SortKeepsDistinct(vs);
    SortBothFirstSpec(vs);
    assert |r| == |multiset(r)| == |multiset(vs)| == |vs|;
  }

  /** Every user id of the two inputs has an entry in the result, and no other id has. */
  lemma MergedUsers(morning: seq<Comment>, night: seq<Comment>, id: string)
    ensures (exists e :: e in Merged(morning, night) && e.userId == id)
        <==> id in Ids(morning) || id in Ids(night)
  {
    var st := UserMapOf(morning, night);
    var vs := Values(st);
    var r := Merged(morning, night);
    MergedKeys(morning, night);
    ValuesOfUserMap(morning, night);
    SortSameMembers(vs);
    if id in Ids(morning) || id in Ids(night) {
      var k :| 0 <= k < |st.keys| && st.keys[k] == id;
      assert vs[k] in vs;
    }
    if e :| e in r && e.userId == id {
      var k :| 0 <= k < |vs| && vs[k] == e;
      assert st.keys[k] == id;
    }
  }

  // ---------------------------------------------------------------------------
  // The stats block of `main`

  datatype Stats = Stats(totalUsers: nat, bothCommented: nat, morningOnly: nat, nightOnly: nat)

  /** How many entries have a truthy goal (if `goal`) or not, and a truthy achievement (if `achievement`) or not. */
  function CountKind(vs: seq<UserComment>, goal: bool, achievement: bool): (n: nat)
    ensures n <= |vs|
  {
    if vs == [] then 0
    else
      var last := vs[|vs| - 1];
      CountKind(vs[..|vs| - 1], goal, achievement)
        + (if Truthy(last.morningGoal) == goal && Truthy(last.nightAchievement) == achievement then 1 else 0)
  }

  /** The `stats` object written beside the merged comments (lines 142-147). */
  function StatsOf(comments: seq<UserComment>): Stats
  {
    Stats(|comments|, CountKind(comments, true, true), CountKind(comments, true, false),
          CountKind(comments, false, true))
  }

  /** Every entry falls in exactly one of the four kinds. */
  lemma {:induction false} CountKindsAddUp(vs: seq<UserComment>)
    ensures CountKind(vs, true, true) + CountKind(vs, true, false) + CountKind(vs, false, true)
          + CountKind(vs, false, false) == |vs|
  {
    if vs != [] {
      CountKindsAddUp(vs[..|vs| - 1]);
    }
  }

  lemma {:induction false} NoneOfKind(vs: seq<UserComment>)
    requires forall e :: e in vs ==> Truthy(e.morningGoal) || Truthy(e.nightAchievement)
    ensures CountKind(vs, false, false) == 0
  {
    if vs != [] {
      assert vs[|vs| - 1] in vs;
      NoneOfKind(vs[..|vs| - 1]);
    }
  }

  lemma EntryHasContent(morning: seq<Comment>, night: seq<Comment>, id: string)
    requires forall c :: c in morning ==> c.content != ""
    requires forall c :: c in night ==> c.content != ""
    requires id in Ids(morning) || id in Ids(night)
    ensures id in UserMapOf(morning, night).entries
    ensures Truthy(UserMapOf(morning, night).entries[id].morningGoal)
         || Truthy(UserMapOf(morning, night).entries[id].nightAchievement)
  {
    MergedEntry(morning, night, id);
    if id in Ids(morning) {
      assert LastWith(morning, id) in morning;
    } else {
      assert LastWith(night, id) in night;
    }
  }

  /**
   * When every comment has a non-empty content, the three counts of the stats
   * block add up to the number of users.
   */
  lemma StatsAddUp(morning: seq<Comment>, night: seq<Comment>)
    requires forall c :: c in morning ==> c.content != ""
    requires forall c :: c in night ==> c.content != ""
    ensures StatsOf(Merged(morning, night)).bothCommented
          + StatsOf(Merged(morning, night)).morningOnly
          + StatsOf(Merged(morning, night)).nightOnly
         == StatsOf(Merged(morning, night)).totalUsers
  {
    var st := UserMapOf(morning, night);
    var vs := Values(st);
    var r := Merged(morning, night);
    MergedKeys(morning, night);
    SortSameMembers(vs);
    forall e | e in r ensures Truthy(e.morningGoal) || Truthy(e.nightAchievement) {
      var k :| 0 <= k < |vs| && vs[k] == e;
      EntryHasContent(morning, night, st.keys[k]);
    }
    CountKindsAddUp(r);
    NoneOfKind(r);
  }

  lemma CountKindSingle(e: UserComment, goal: bool, achievement: bool)
    ensures CountKind([e], goal, achievement)
         == if Truthy(e.morningGoal) == goal && Truthy(e.nightAchievement) == achievement then 1 else 0
  {
    assert [e][..0] == [];
  }

  lemma TierSingle(e: UserComment, both: bool)
    ensures Tier([e], both) == if HasBoth(e) == both then [e] else []
  {
    assert [e][..0] == [];
  }

  lemma ValuesOfOne(k: string, e: UserComment)
    ensures WellFormed(MapState([k], map[k := e]))
    ensures Values(MapState([k], map[k := e])) == [e]
  {
  }

  lemma SortOne(e: UserComment)
    ensures SortBothFirst([e]) == [e]
  {
    TierSingle(e, true);
    TierSingle(e, false);
  }

  lemma AfterOneMorning(c: Comment)
    ensures AfterMorning([c]) == MapState([c.userId], map[c.userId := MorningEntry(c)])
  {
    AfterMorningStep([c], 0);
    assert [c][..0] == [] && [c][..1] == [c];
  }

  /** A single morning comment and no night comment give one morning-only entry. */
  lemma MergedOneMorning(c: Comment)
    ensures Merged([c], []) == [MorningEntry(c)]
  {
    var e := MorningEntry(c);
    AfterOneMorning(c);
    ValuesOfOne(c.userId, e);
    SortOne(e);
  }

  /** With an empty comment the counts fall short: its user is in none of the three. */
  lemma StatsMissEmptyComment(c: Comment)
    requires c.content == ""
    ensures StatsOf(Merged([c], [])).totalUsers == 1
    ensures StatsOf(Merged([c], [])).bothCommented + StatsOf(Merged([c], [])).morningOnly
          + StatsOf(Merged([c], [])).nightOnly == 0
  {
    var e := MorningEntry(c);
    MergedOneMorning(c);
    assert !Truthy(e.morningGoal) && !Truthy(e.nightAchievement);
    CountKindSingle(e, true, true);
    CountKindSingle(e, true, false);
    CountKindSingle(e, false, true);
  }
}
