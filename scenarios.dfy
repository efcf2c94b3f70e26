/**
 * Two consecutive sync passes on one vocabulary subject, carried through to
 * the practice grouping: first the subject alone, then its assignment.
 */
module Scenarios {
  import opened Wrappers
  import opened WaniKaniApi
  import opened Subjects
  import opened Sync
  import opened KeyOrder
  import opened Projections
  import opened Intended

  /** Subject 7: level 3, no `readings` field, one primary meaning "dog", one audio. */
  const DogData := SubjectData(
    "https://www.wanikani.com/vocabulary/inu", "inu", 3,
    [PronunciationAudio("https://example.com/inu.mp3", AudioMetadata("inu", 1, "Kyoko"))],
    None,
    [Meaning("dog", true)])

  /** Its translation before any assignment. */
  const Dog := Subject(
    "https://www.wanikani.com/vocabulary/inu", 3, "inu",
    [AudioItem("https://example.com/inu.mp3", "inu", 1, "Kyoko")],
    ["inu"], "dog", [], None)

  const Fresh := Store(Some("key"), None, None, None, map[])

  /** A map of one subject is visited as that subject alone. */
  lemma ValuesOfOne(k: int, s: Subject)
    ensures Values(map[k := s]) == [s]
  {
    var ks := SortedKeys(map[k := s].Keys);
    assert |ks| == 1 && k in ks;
    assert ks[0] == k;
  }

  lemma DogTranslates()
    ensures Translate(DogData) == Some(Dog)
  {
    var audio := AudioItems(DogData.pronunciationAudios);
    assert audio == Dog.audio by {
      assert |audio| == 1;
    }
    assert DogData.meanings[0].primary;
    assert PrimaryMeaning(DogData.meanings) == Some("dog");
  }

  /** The records delivered by a single page are that page's records. */
  lemma OnePage<R>(rs: seq<R>, at: Option<string>)
    ensures Records([Page(rs, at)]) == rs
  {
    assert [Page(rs, at)][..0] == [];
  }

  lemma MergeDog()
    ensures Fetchers.MergeSubjects(map[], [SubjectRecord(7, DogData)]) == Some(map[7 := Dog])
  {
    DogTranslates();
    assert [SubjectRecord(7, DogData)][..0] == [];
  }

  lemma StageDog()
    ensures Fetchers.MergeStages(map[7 := Dog], [AssignmentRecord(AssignmentData(7, 2))]) ==
              Some(map[7 := Dog.(srsStage := Some(2))])
  {
    var asgs := [AssignmentRecord(AssignmentData(7, 2))];
    assert asgs[..0] == [];
    assert Fetchers.MergeStages(map[7 := Dog], asgs[..0]) == Some(map[7 := Dog]);
    assert map[7 := Dog][7 := Dog.(srsStage := Some(2))] == map[7 := Dog.(srsStage := Some(2))];
  }

  /** The stores after the first and after the second pass. */
  const First := Store(Some("key"), Some("t1"), Some("t1"), Some(map[7 := Dog]), map[7 := Dog])
  const Second := Store(Some("key"), Some("t1"), Some("t2"),
                        Some(map[7 := Dog.(srsStage := Some(2))]), map[7 := Dog.(srsStage := Some(2))])

  /** First pass: the subject is stored with its characters as its one reading and no stage. */
  lemma FirstPass()
    ensures SyncPass(Fresh, false,
                     Delivered([Page([SubjectRecord(7, DogData)], Some("t1"))]),
                     Delivered([Page([], Some("t1"))])) == First
  {
    var rs := [SubjectRecord(7, DogData)];
    var noAsgs: seq<AssignmentRecord> := [];
    OnePage(rs, Some("t1"));
    OnePage(noAsgs, Some("t1"));
    MergeDog();
    assert StartMap(Fresh, false) == map[];
    assert Fetchers.MergeStages(map[7 := Dog], noAsgs) == Some(map[7 := Dog]);
    assert Succeeds(Fresh, false, Delivered([Page(rs, Some("t1"))]), Delivered([Page(noAsgs, Some("t1"))]));
    assert LastCursor([Page(rs, Some("t1"))], None) == Some("t1");
    assert LastCursor([Page(noAsgs, Some("t1"))], None) == Some("t1");
  }

  /** Second pass, nothing new for subjects: the assignment sets stage 2. */
  lemma SecondPass()
    ensures SyncPass(First, false,
                     Delivered([Page([], None)]),
                     Delivered([Page([AssignmentRecord(AssignmentData(7, 2))], Some("t2"))])) == Second
  {
    OnePage<SubjectRecord>([], None);
    OnePage([AssignmentRecord(AssignmentData(7, 2))], Some("t2"));
    StageDog();
  }

  /** Without a stage nothing is eligible for practice. */
  lemma FirstGrouping()
    ensures ByLevel(Values(First.published)) == map[]
  {
    ValuesOfOne(7, Dog);
    assert Levels([Dog]) == {} by {
      assert [Dog][..0] == [];
    }
  }

  /** With stage 2 and one audio item, the subject is the whole group of level 3. */
  lemma SecondGrouping()
    ensures ByLevel(Values(Second.published)) == map[3 := [Dog.(srsStage := Some(2))]]
  {
    var vs := [Dog.(srsStage := Some(2))];
    ValuesOfOne(7, vs[0]);
    assert Levels(vs) == {3} by {
      assert vs[..0] == [];
    }
    assert SortByStage(Group(vs, 3)) == vs by {
      assert Group(vs, 3) == vs by {
        assert vs[..0] == [];
      }
      assert vs[1..] == [];
    }
  }

  /** A record whose `readings` is the empty array: as written it gets no readings, corrected it gets its characters. */
  lemma EmptyReadingsAsWritten()
    ensures Translate(DogData.(readings := Some([]))).Some?
    ensures Translate(DogData.(readings := Some([]))).value.readings == []
    ensures IntendedTranslate(DogData.(readings := Some([]))).value.readings == ["inu"]
  {
    assert DogData.meanings[0].primary;
  }

  /** A page that carries no records and reports no cursor. */
  lemma EmptyPage<R>(rs: seq<R>)
    requires rs == []
    ensures Records([Page(rs, None)]) == []
    ensures LastCursor([Page(rs, None)], None) == None
    ensures LastCursor([Page(rs, None)], Some("t1")) == Some("t1")
  {
    OnePage(rs, None);
  }

  /**
   * Two reset passes over the same empty pages: as written the stored cursor
   * depends on the store the pass started from, "t1" from `First` and the
   * text "null" from `Fresh`.
   */
  lemma ResetKeepsCursorAsWritten()
    ensures SyncPass(First, true, Delivered([Page([], None)]), Delivered([Page([], None)])).subjectsUpdated == Some("t1")
    ensures SyncPass(Fresh, true, Delivered([Page([], None)]), Delivered([Page([], None)])).subjectsUpdated == Some("null")
  {
    var none: seq<SubjectRecord> := [];
    var noAsgs: seq<AssignmentRecord> := [];
    EmptyPage(none);
    EmptyPage(noAsgs);
  }

  /** A first pass whose pages report no cursor: as written the text "null" is stored, though no page reported it. */
  lemma NullCursorAsWritten()
    ensures SyncPass(Fresh, false, Delivered([Page([], None)]), Delivered([Page([], None)])).subjectsUpdated == Some("null")
    ensures SyncPass(Fresh, false, Delivered([Page([], None)]), Delivered([Page([], None)])).asgsUpdated == Some("null")
  {
    var none: seq<SubjectRecord> := [];
    var noAsgs: seq<AssignmentRecord> := [];
    EmptyPage(none);
    EmptyPage(noAsgs);
  }

  lemma MergeDogInto(m: SubjectMap)
    ensures Fetchers.MergeSubjects(m, [SubjectRecord(7, DogData)]) == Some(m[7 := Dog])
  {
    DogTranslates();
    assert [SubjectRecord(7, DogData)][..0] == [];
  }

  /**
   * After `Second`, subject 7 is fetched again with no assignment update: as
   * written it loses stage 2.
   */
  lemma RefetchLosesStageAsWritten()
    ensures Second.published[7].srsStage == Some(2)
    ensures var st := SyncPass(Second, false, Delivered([Page([SubjectRecord(7, DogData)], Some("t3"))]),
                               Delivered([Page([], None)]));
            7 in st.published && st.published[7].srsStage == None
  {
    var noAsgs: seq<AssignmentRecord> := [];
    OnePage([SubjectRecord(7, DogData)], Some("t3"));
    EmptyPage(noAsgs);
    MergeDogInto(Second.cache.value);
    assert Second.cache.value[7 := Dog] == map[7 := Dog];
  }
}
