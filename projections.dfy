/**
 * The two views derived from the published subject map:
 * `currentSubjectsByLevel` (practice-eligible subjects grouped by level and
 * ordered by SRS stage) and `voices` (the known voice actors).
 */
module Projections {
  import opened Wrappers
  import opened Subjects
  import opened KeyOrder
  import opened Seqs

  /** A subject kept by `currentSubjectsByLevel`: stage defined and at least 1, some audio. */
  predicate Eligible(s: Subject) {
    s.srsStage.Some? && s.srsStage.value >= 1 && |s.audio| != 0
  }

  /** The sort key `srsStage` (always defined on eligible subjects). */
  function Stage(s: Subject): int {
    s.srsStage.GetOr(0)
  }

  /** Non-decreasing in stage. */
  predicate SortedByStage(xs: seq<Subject>) {
    forall i, j :: 0 <= i < j < |xs| ==> Stage(xs[i]) <= Stage(xs[j])
  }

  /** The subsequence of `xs` whose stage is `v`; a stable sort keeps each of these. */
  function WithStage(xs: seq<Subject>, v: int): (r: seq<Subject>)
    ensures |r| <= |xs|
  {
    if xs == [] then [] else (if Stage(xs[0]) == v then [xs[0]] else []) + WithStage(xs[1..], v)
  }

  /** Insert `x` in front of the first element whose stage is not smaller. */
  function InsertByStage(x: Subject, ys: seq<Subject>): seq<Subject>
  {
    if ys == [] then [x]
    else if Stage(x) <= Stage(ys[0]) then [x] + ys
    else [ys[0]] + InsertByStage(x, ys[1..])
  }

  /** Inserting adds exactly `x`. */
  lemma {:induction false} InsertPermutes(x: Subject, ys: seq<Subject>)
    ensures multiset(InsertByStage(x, ys)) == multiset(ys) + multiset{x}
  {
    if ys != [] && Stage(x) > Stage(ys[0]) {
      assert ys == [ys[0]] + ys[1..];
      InsertPermutes(x, ys[1..]);
    }
  }

  /** Prepending an element no greater than all others keeps a sequence sorted. */
  lemma ConsSorted(y: Subject, rest: seq<Subject>)
    requires SortedByStage(rest)
    requires forall z :: z in rest ==> Stage(y) <= Stage(z)
    ensures SortedByStage([y] + rest)
  {
    var r := [y] + rest;
    forall i, j | 0 <= i < j < |r|
      ensures Stage(r[i]) <= Stage(r[j])
    {
      if i == 0 {
        assert r[j] == rest[j - 1];
      } else {
        assert r[i] == rest[i - 1] && r[j] == rest[j - 1];
      }
    }
  }

  lemma InsertMembers(x: Subject, ys: seq<Subject>, z: Subject)
    requires z in InsertByStage(x, ys)
    ensures z == x || z in ys
  {
    InsertPermutes(x, ys);
    assert z in multiset(InsertByStage(x, ys));
  }

  lemma {:induction false} InsertKeepsSorted(x: Subject, ys: seq<Subject>)
    requires SortedByStage(ys)
    ensures SortedByStage(InsertByStage(x, ys))
  {
    if ys == [] {
    } else if Stage(x) <= Stage(ys[0]) {
      forall z | z in ys
        ensures Stage(x) <= Stage(z)
      {
        var j :| 0 <= j < |ys| && ys[j] == z;
        assert j == 0 || Stage(ys[0]) <= Stage(ys[j]);
      }
      ConsSorted(x, ys);
    } else {
      var tail := ys[1..];
      assert SortedByStage(tail) by {
        forall i, j | 0 <= i < j < |tail| ensures Stage(tail[i]) <= Stage(tail[j]) {
          assert tail[i] == ys[i + 1] && tail[j] == ys[j + 1];
        }
      }
      InsertKeepsSorted(x, tail);
      var rest := InsertByStage(x, tail);
      forall z | z in rest
        ensures Stage(ys[0]) <= Stage(z)
      {
        InsertMembers(x, tail, z);
        if z != x {
          var j :| 0 <= j < |tail| && tail[j] == z;
          assert ys[j + 1] == z;
        }
      }
      ConsSorted(ys[0], rest);
    }
  }

  /** Inserting `x` puts it ahead of every element of the same stage, whose order is kept. */
  lemma {:induction false} InsertWithStage(x: Subject, ys: seq<Subject>, v: int)
    ensures WithStage(InsertByStage(x, ys), v) == (if Stage(x) == v then [x] else []) + WithStage(ys, v)
  {
    var mine := if Stage(x) == v then [x] else [];
    if ys == [] {
      assert WithStage([x], v) == mine + WithStage([], v);
    } else if Stage(x) <= Stage(ys[0]) {
      assert InsertByStage(x, ys) == [x] + ys;
      assert ([x] + ys)[1..] == ys;
      assert WithStage([x] + ys, v) == mine + WithStage(ys, v);
    } else {
      var rest := InsertByStage(x, ys[1..]);
      var head := if Stage(ys[0]) == v then [ys[0]] else [];
      assert InsertByStage(x, ys) == [ys[0]] + rest;
      InsertWithStage(x, ys[1..], v);
      assert ([ys[0]] + rest)[1..] == rest;
      assert WithStage([ys[0]] + rest, v) == head + (mine + WithStage(ys[1..], v));
      assert WithStage(ys, v) == head + WithStage(ys[1..], v);
      assert head == [] || mine == [];
    }
  }

  /**
   * `subjects.sort((a, b) => a.srsStage - b.srsStage)`: a stable sort by
   * stage (the sort of ES2019 and later is stable), written as insertion sort.
   */
  function SortByStage(xs: seq<Subject>): seq<Subject>
  {
    if xs == [] then [] else InsertByStage(xs[0], SortByStage(xs[1..]))
  }

  /** The sort returns a permutation of its input, non-decreasing in stage. */
  lemma {:induction false} SortIsSortedPermutation(xs: seq<Subject>)
    ensures multiset(SortByStage(xs)) == multiset(xs)
    ensures SortedByStage(SortByStage(xs))
  {
    if xs != [] {
      assert xs == [xs[0]] + xs[1..];
      SortIsSortedPermutation(xs[1..]);
      InsertPermutes(xs[0], SortByStage(xs[1..]));
      InsertKeepsSorted(xs[0], SortByStage(xs[1..]));
    }
  }

  /** The sort is stable: the subjects of each stage keep their relative order. */
  lemma {:induction false} SortIsStable(xs: seq<Subject>, v: int)
    ensures WithStage(SortByStage(xs), v) == WithStage(xs, v)
  {
    if xs != [] {
      SortIsStable(xs[1..], v);
      InsertWithStage(xs[0], SortByStage(xs[1..]), v);
    }
  }

  /** The subjects pushed onto `result[level]` while visiting `vs`, in visiting order. */
  function Group(vs: seq<Subject>, level: int): seq<Subject>
  {
    if vs == [] then []
    else
      var last := vs[|vs| - 1];
      Group(vs[..|vs| - 1], level) + (if Eligible(last) && last.level == level then [last] else [])
  }

  /** The group of `level` holds exactly the visited eligible subjects of that level. */
  lemma {:induction false} GroupMembers(vs: seq<Subject>, level: int, s: Subject)
    ensures s in Group(vs, level) <==> s in vs && Eligible(s) && s.level == level
  {
    if vs != [] {
      var last := vs[|vs| - 1];
      assert vs == vs[..|vs| - 1] + [last];
      GroupMembers(vs[..|vs| - 1], level, s);
    }
  }

  /** The levels that get a group: those of the eligible subjects visited. */
  function Levels(vs: seq<Subject>): set<int>
  {
    if vs == [] then {}
    else
      var last := vs[|vs| - 1];
      Levels(vs[..|vs| - 1]) + (if Eligible(last) then {last.level} else {})
  }

  /** A level gets a group exactly when some visited subject lands in it. */
  lemma {:induction false} LevelsIff(vs: seq<Subject>, l: int)
    ensures l in Levels(vs) <==> Group(vs, l) != []
  {
    if vs != [] {
      LevelsIff(vs[..|vs| - 1], l);
    }
  }

  lemma GroupSnoc(vs: seq<Subject>, s: Subject, level: int)
    ensures Group(vs + [s], level) == Group(vs, level) + (if Eligible(s) && s.level == level then [s] else [])
    ensures Levels(vs + [s]) == Levels(vs) + (if Eligible(s) then {s.level} else {})
  {
    DropLast(vs, s);
  }

  /** One visited subject: push it onto its level's group when it is eligible. */
  lemma GroupStep(result: map<int, seq<Subject>>, vs: seq<Subject>, s: Subject)
    requires result.Keys == Levels(vs)
    requires forall l :: l in result ==> result[l] == Group(vs, l)
    ensures var next := if !Eligible(s) then result
                        else result[s.level := (if s.level in result then result[s.level] else []) + [s]];
            && next.Keys == Levels(vs + [s])
            && forall l :: l in next ==> next[l] == Group(vs + [s], l)
  {
    GroupSnoc(vs, s, s.level);
    if Eligible(s) {
      var l0 := s.level;
      if l0 !in result {
        LevelsIff(vs, l0);
      }
      var next := result[l0 := (if l0 in result then result[l0] else []) + [s]];
      assert Levels(vs + [s]) == Levels(vs) + {l0};
      assert next.Keys == result.Keys + {l0};
      forall l | l in next
        ensures next[l] == Group(vs + [s], l)
      {
        GroupSnoc(vs, s, l);
      }
    } else {
      assert Levels(vs + [s]) == Levels(vs);
      forall l | l in result
        ensures result[l] == Group(vs + [s], l)
      {
        GroupSnoc(vs, s, l);
      }
    }
  }

  /** The value of `currentSubjectsByLevel` for the subjects visited in order `vs`. */
  function ByLevel(vs: seq<Subject>): map<int, seq<Subject>> {
    map l | l in Levels(vs) :: SortByStage(Group(vs, l))
  }

  /** The first loop of `currentSubjectsByLevel`: push each eligible subject onto its level. */
  method GroupByLevel(vs: seq<Subject>) returns (result: map<int, seq<Subject>>)
    ensures result.Keys == Levels(vs)
    ensures forall l :: l in result ==> result[l] == Group(vs, l)
  {
    result := map[];
    for i := 0 to |vs|
      invariant result.Keys == Levels(vs[..i])
      invariant forall l :: l in result ==> result[l] == Group(vs[..i], l)
    {
      var s := vs[i];
      TakeOneMore(vs, i);
      GroupStep(result, vs[..i], s);
      if s.srsStage.None? || s.srsStage.value < 1 || |s.audio| == 0 {
        assert !Eligible(s);
        continue;
      }
      if s.level !in result {
        result := result[s.level := []];
      }
      result := result[s.level := result[s.level] + [s]];
    }
    assert vs[..|vs|] == vs;
  }

  /** `groups` after the groups of the levels `ls`, in that order, have been sorted in place. */
  ghost function SortedOver(groups: map<int, seq<Subject>>, ls: seq<int>): map<int, seq<Subject>>
    requires forall j :: 0 <= j < |ls| ==> ls[j] in groups
  {
    if ls == [] then groups
    else
      var l := ls[|ls| - 1];
      SortedOver(groups, ls[..|ls| - 1])[l := SortByStage(groups[l])]
  }

  lemma {:induction false} SortedOverAt(groups: map<int, seq<Subject>>, ls: seq<int>, l: int)
    requires forall j :: 0 <= j < |ls| ==> ls[j] in groups
    ensures SortedOver(groups, ls).Keys == groups.Keys
    ensures l in groups ==> SortedOver(groups, ls)[l] == if l in ls then SortByStage(groups[l]) else groups[l]
  {
    if |ls| > 0 {
      var init := ls[..|ls| - 1];
      SortedOverAt(groups, init, l);
      assert l in ls <==> l in init || l == ls[|ls| - 1] by {
        assert ls == init + [ls[|ls| - 1]];
      }
    }
  }

  /** Sorting one more listed level extends `SortedOver` by that level's group. */
  lemma SortedOverStep(groups: map<int, seq<Subject>>, ls: seq<int>, i: nat)
    requires forall j :: 0 <= j < |ls| ==> ls[j] in groups
    requires i < |ls|
    ensures SortedOver(groups, ls[..i + 1]) == SortedOver(groups, ls[..i])[ls[i] := SortByStage(groups[ls[i]])]
  {
    var p := ls[..i + 1];
    assert p[..|p| - 1] == ls[..i];
    assert p[|p| - 1] == ls[i];
  }

  /** Once every level of `groups` is listed, every group is sorted and the keys are kept. */
  lemma SortedOverAll(groups: map<int, seq<Subject>>, ls: seq<int>)
    requires forall j :: 0 <= j < |ls| ==> ls[j] in groups
    requires forall l :: l in groups ==> l in ls
    ensures SortedOver(groups, ls).Keys == groups.Keys
    ensures forall l :: l in groups ==> SortedOver(groups, ls)[l] == SortByStage(groups[l])
  {
    SortedOverAt(groups, ls, 0);
    forall l | l in groups
      ensures SortedOver(groups, ls)[l] == SortByStage(groups[l])
    {
      SortedOverAt(groups, ls, l);
    }
  }

  /** The second loop of `currentSubjectsByLevel`: sort every group by stage. */
  method SortGroups(groups: map<int, seq<Subject>>) returns (result: map<int, seq<Subject>>)
    ensures result.Keys == groups.Keys
    ensures forall l :: l in result ==> result[l] == SortByStage(groups[l])
  {
    result := groups;
    var levels := SortedKeys(groups.Keys);
    forall j | 0 <= j < |levels| ensures levels[j] in groups {
      assert levels[j] in levels;
    }
    for i := 0 to |levels|
      invariant result == SortedOver(groups, levels[..i])
    {
      var l := levels[i];
      SortedOverStep(groups, levels, i);
      result := result[l := SortByStage(groups[l])];
    }
    assert levels[..|levels|] == levels;
    SortedOverAll(groups, levels);
  }

  /** The groups, once sorted, are the value of `ByLevel`. */
  lemma IsByLevel(vs: seq<Subject>, result: map<int, seq<Subject>>)
    requires result.Keys == Levels(vs)
    requires forall l :: l in result ==> result[l] == SortByStage(Group(vs, l))
    ensures result == ByLevel(vs)
  {
  }

  /** The `derived` callback of `currentSubjectsByLevel`. */
  method CurrentSubjectsByLevel(subjects: SubjectMap) returns (result: map<int, seq<Subject>>)
    ensures result == ByLevel(Values(subjects))
  {
    var vs := Values(subjects);
    var groups := GroupByLevel(vs);
    result := SortGroups(groups);
    IsByLevel(vs, result);
  }

  /**
   * A subject is shown under `level` exactly when it is in the map, its stage
   * is defined and at least 1, it has audio and its level is `level`; every
   * shown group is non-empty.
   */
  lemma ShownIff(m: SubjectMap, level: int, s: Subject)
    ensures var r := ByLevel(Values(m));
            (level in r && s in r[level]) <==>
              (exists k :: k in m && m[k] == s) && Eligible(s) && s.level == level
    ensures level in ByLevel(Values(m)) ==> ByLevel(Values(m))[level] != []
  {
    var vs := Values(m);
    LevelsIff(vs, level);
    GroupMembers(vs, level, s);
    SortIsSortedPermutation(Group(vs, level));
    if level in ByLevel(vs) {
      assert multiset(ByLevel(vs)[level]) == multiset(Group(vs, level));
      assert s in ByLevel(vs)[level] <==> s in multiset(Group(vs, level));
    }
  }

  /**
   * Each group is its members in visiting order (for `Object.values`,
   * ascending subject id), stably sorted by stage: a permutation of them,
   * non-decreasing in `srsStage`, and the members of each stage in their
   * original order.
   */
  lemma GroupOrder(vs: seq<Subject>, level: int)
    requires level in ByLevel(vs)
    ensures var g := ByLevel(vs)[level];
            var members := Group(vs, level);
            && multiset(g) == multiset(members)
            && (forall i :: 0 <= i < |g| ==> g[i].srsStage.Some? && g[i].srsStage.value >= 1)
            && (forall i, j :: 0 <= i < j < |g| ==> g[i].srsStage.value <= g[j].srsStage.value)
            && (forall v :: WithStage(g, v) == WithStage(members, v))
  {
    var members := Group(vs, level);
    assert ByLevel(vs)[level] == SortByStage(members);
    SortedGroupStages(vs, level);
    forall v ensures WithStage(SortByStage(members), v) == WithStage(members, v) {
      SortIsStable(members, v);
    }
  }

  /** The sorted group is a permutation of its members, all eligible, in non-decreasing stage. */
  lemma SortedGroupStages(vs: seq<Subject>, level: int)
    ensures var g := SortByStage(Group(vs, level));
            && multiset(g) == multiset(Group(vs, level))
            && (forall i :: 0 <= i < |g| ==> g[i].srsStage.Some? && g[i].srsStage.value >= 1)
            && (forall i, j :: 0 <= i < j < |g| ==> g[i].srsStage.value <= g[j].srsStage.value)
  {
    var members := Group(vs, level);
    var g := SortByStage(members);
    SortIsSortedPermutation(members);
    forall i | 0 <= i < |g|
      ensures g[i].srsStage.Some? && g[i].srsStage.value >= 1
    {
      assert g[i] in multiset(members);
      GroupMembers(vs, level, g[i]);
    }
  }

  /** One entry of `voices`. */
  datatype Voice = Voice(id: int, name: string)

  /** The audio items of the visited subjects, subject by subject. */
  function AllAudio(vs: seq<Subject>): seq<AudioItem>
  {
    if vs == [] then []
    else AllAudio(vs[..|vs| - 1]) + vs[|vs| - 1].audio
  }

  /** The items are those of the visited subjects' audio lists. */
  lemma {:induction false} AllAudioMembers(vs: seq<Subject>, a: AudioItem)
    ensures a in AllAudio(vs) <==> exists s :: s in vs && a in s.audio
  {
    if vs != [] {
      var last := vs[|vs| - 1];
      assert vs == vs[..|vs| - 1] + [last];
      AllAudioMembers(vs[..|vs| - 1], a);
    }
  }

  /** `result[a.voiceId] = a.voiceName` over all items: the last name seen for an id wins. */
  function VoiceNames(items: seq<AudioItem>): map<int, string>
  {
    if items == [] then map[]
    else
      var last := items[|items| - 1];
      VoiceNames(items[..|items| - 1])[last.voiceId := last.voiceName]
  }

  /** An id has a name exactly when some item carries it. */
  lemma {:induction false} VoiceNamesKeys(items: seq<AudioItem>, id: int)
    ensures id in VoiceNames(items) <==> exists i :: 0 <= i < |items| && items[i].voiceId == id
  {
    if items != [] {
      var prefix := items[..|items| - 1];
      VoiceNamesKeys(prefix, id);
      assert forall i :: 0 <= i < |prefix| ==> prefix[i] == items[i];
    }
  }

  /** The name kept for a voice id is the one of the last item with that id. */
  lemma {:induction false} VoiceNamesLastWins(items: seq<AudioItem>, i: nat)
    requires i < |items| && forall j :: i < j < |items| ==> items[j].voiceId != items[i].voiceId
    ensures items[i].voiceId in VoiceNames(items)
    ensures VoiceNames(items)[items[i].voiceId] == items[i].voiceName
  {
    VoiceNamesKeys(items, items[i].voiceId);
    if i < |items| - 1 {
      VoiceNamesLastWins(items[..|items| - 1], i);
    }
  }

  /** The nested loops of `voices`: record the name of every audio item's voice. */
  method CollectVoiceNames(vs: seq<Subject>) returns (result: map<int, string>)
    ensures result == VoiceNames(AllAudio(vs))
  {
    result := map[];
    for i := 0 to |vs|
      invariant result == VoiceNames(AllAudio(vs[..i]))
    {
      var s := vs[i];
      ghost var done := AllAudio(vs[..i]);
      for k := 0 to |s.audio|
        invariant done == AllAudio(vs[..i]) + s.audio[..k]
        invariant result == VoiceNames(done)
      {
        var a := s.audio[k];
        DropLast(done, a);
        result := result[a.voiceId := a.voiceName];
        done := done + [a];
        TakeOneMore(s.audio, k);
      }
      assert s.audio[..|s.audio|] == s.audio;
      TakeOneMore(vs, i);
      DropLast(vs[..i], s);
    }
    assert vs[..|vs|] == vs;
  }

  /** Pairs each id of `ids`, in order, with its name in `names`. */
  method PairNames(names: map<int, string>, ids: seq<int>) returns (voices: seq<Voice>)
    requires forall j :: 0 <= j < |ids| ==> ids[j] in names
    ensures |voices| == |ids|
    ensures forall j :: 0 <= j < |ids| ==> voices[j] == Voice(ids[j], names[ids[j]])
  {
    voices := [];
    for i := 0 to |ids|
      invariant |voices| == i
      invariant forall j :: 0 <= j < i ==> voices[j] == Voice(ids[j], names[ids[j]])
    {
      voices := voices + [Voice(ids[i], names[ids[i]])];
    }
  }

  /** `Object.entries(names)` mapped to voice records: ascending ids, each with its name. */
  method Entries(names: map<int, string>) returns (voices: seq<Voice>)
    ensures |voices| == |names|
    ensures forall i :: 0 <= i < |voices| ==> voices[i].id in names && voices[i].name == names[voices[i].id]
    ensures forall id :: id in names ==> exists i :: 0 <= i < |voices| && voices[i].id == id
    ensures forall i, j :: 0 <= i < j < |voices| ==> voices[i].id < voices[j].id
  {
    var ids := SortedKeys(names.Keys);
    forall j | 0 <= j < |ids| ensures ids[j] in names {
      assert ids[j] in ids;
    }
    voices := PairNames(names, ids);
    forall id | id in names
      ensures exists i :: 0 <= i < |voices| && voices[i].id == id
    {
      var i :| 0 <= i < |ids| && ids[i] == id;
      assert voices[i].id == id;
    }
    assert |names.Keys| == |names|;
  }

  /**
   * The `derived` callback of `voices`: one entry per distinct voice id, in
   * `Object.entries` order, each with the last name seen for that id.
   */
  method Voices(subjects: SubjectMap) returns (voices: seq<Voice>)
    ensures var names := VoiceNames(AllAudio(Values(subjects)));
            && |voices| == |names|
            && (forall i :: 0 <= i < |voices| ==> voices[i].id in names && voices[i].name == names[voices[i].id])
            && (forall id :: id in names ==> exists i :: 0 <= i < |voices| && voices[i].id == id)
            && (forall i, j :: 0 <= i < j < |voices| ==> voices[i].id < voices[j].id)
  {
    var names := CollectVoiceNames(Values(subjects));
    voices := Entries(names);
  }

  /** The voice ids listed are exactly the distinct `voiceId`s of the subjects' audio. */
  lemma VoiceIdsIff(m: SubjectMap, id: int)
    ensures id in VoiceNames(AllAudio(Values(m))) <==>
              exists k, a :: k in m && a in m[k].audio && a.voiceId == id
  {
    var items := AllAudio(Values(m));
    VoiceNamesKeys(items, id);
    if exists k, a :: k in m && a in m[k].audio && a.voiceId == id {
      var k, a :| k in m && a in m[k].audio && a.voiceId == id;
      assert m[k] in Values(m);
      AllAudioMembers(Values(m), a);
      var i :| 0 <= i < |items| && items[i] == a;
    }
    if id in VoiceNames(items) {
      var i :| 0 <= i < |items| && items[i].voiceId == id;
      AllAudioMembers(Values(m), items[i]);
    }
  }
}
