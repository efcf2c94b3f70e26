/**
 * Corrected definitions for four places where the sync code probably does
 * not do what it intends. The rest of the model follows the code as written;
 * these definitions sit beside it, each with the property the code misses
 * proved about it:
 * - an empty `readings` array falls back to `[characters]`;
 * - a subject fetched again keeps the stage it had;
 * - a pass with `reset` starts from no cursor;
 * - a missing cursor is not written as the text "null".
 */
module Intended {
  import opened Wrappers
  import opened WaniKaniApi
  import opened Subjects
  import opened Fetchers
  import opened Sync

  /** Readings decided by length: an empty array falls back to `[characters]`, as an absent field does. */
  function IntendedReadingsOf(d: SubjectData): (readings: seq<string>)
    ensures |readings| > 0
    ensures d.readings.Some? && |d.readings.value| > 0 ==> readings == ReadingsOf(d)
    ensures d.readings.None? || |d.readings.value| == 0 ==> readings == [d.characters]
  {
    match d.readings
    case Some(rs) => if |rs| > 0 then ReadingTexts(rs) else [d.characters]
    case None => [d.characters]
  }

  /** The translation with the corrected readings; every other field is as the code builds it. */
  function IntendedTranslate(d: SubjectData): (r: Option<Subject>)
    ensures r.Some? <==> Translate(d).Some?
    ensures r.Some? ==> r.value == Translate(d).value.(readings := IntendedReadingsOf(d))
    ensures r.Some? ==> |r.value.readings| > 0
  {
    match Translate(d)
    case None => None
    case Some(s) => Some(s.(readings := IntendedReadingsOf(d)))
  }

  /**
   * The subject fold with the entry rebuilt around the stage it already had:
   * a record for a subject in the map keeps that subject's `srsStage`.
   */
  function IntendedMergeSubjects(m: SubjectMap, rs: seq<SubjectRecord>): (r: Option<SubjectMap>)
    ensures r.Some? <==> forall x :: x in rs ==> Translate(x.data).Some?
    ensures r.Some? ==> r.value.Keys == m.Keys + Ids(rs)
  {
    if rs == [] then Some(m)
    else
      var last := rs[|rs| - 1];
      assert forall x :: x in rs ==> x in rs[..|rs| - 1] || x == last;
      IdsSnoc(rs);
      match IntendedMergeSubjects(m, rs[..|rs| - 1])
      case None => None
      case Some(prefix) =>
        match IntendedTranslate(last.data)
        case None => None
        case Some(s) =>
          var stage := if last.id in prefix then prefix[last.id].srsStage else None;
          Some(prefix[last.id := s.(srsStage := stage)])
  }

  /** Every subject of the start map keeps its stage through the corrected fold. */
  lemma {:induction false} IntendedMergeKeepsStage(m: SubjectMap, rs: seq<SubjectRecord>, k: int)
    requires IntendedMergeSubjects(m, rs).Some? && k in m
    ensures k in IntendedMergeSubjects(m, rs).value
    ensures IntendedMergeSubjects(m, rs).value[k].srsStage == m[k].srsStage
  {
    if rs != [] {
      var prefix := rs[..|rs| - 1];
      assert IntendedMergeSubjects(m, prefix).Some?;
      IntendedMergeKeepsStage(m, prefix, k);
    }
  }

  /** The cursor a pass starts from: none on `reset`, so that everything is fetched again. */
  function StartCursor(stored: Option<string>, reset: bool): (c: Option<string>)
    ensures reset ==> c.None?
    ensures !reset ==> c == stored
  {
    if reset then None else stored
  }

  /** Did the corrected subject fold and then the assignment fold both complete? */
  predicate IntendedSucceeds(st: Store, reset: bool, subjects: Response<SubjectRecord>, assignments: Response<AssignmentRecord>) {
    && HasKey(st.apiKey)
    && subjects.Delivered?
    && IntendedMergeSubjects(StartMap(st, reset), Records(subjects.pages)).Some?
    && assignments.Delivered?
    && MergeStages(IntendedMergeSubjects(StartMap(st, reset), Records(subjects.pages)).value, Records(assignments.pages)).Some?
  }

  /**
   * The corrected pass: the corrected fold, the start cursors of `StartCursor`,
   * and each cursor stored as it is, so that no cursor becomes the text "null".
   */
  function IntendedSyncPass(st: Store, reset: bool, subjects: Response<SubjectRecord>, assignments: Response<AssignmentRecord>): Store
  {
    if !IntendedSucceeds(st, reset, subjects, assignments) then st
    else
      var working := IntendedMergeSubjects(StartMap(st, reset), Records(subjects.pages)).value;
      var final := MergeStages(working, Records(assignments.pages)).value;
      st.(subjectsUpdated := LastCursor(subjects.pages, StartCursor(st.subjectsUpdated, reset)),
          asgsUpdated := LastCursor(assignments.pages, StartCursor(st.asgsUpdated, reset)),
          cache := Some(final),
          published := final)
  }

  /**
   * After a successful reset pass the stored cursors and the published map
   * depend only on this pass's pages: two stores with a credential end the
   * same way.
   */
  lemma ResetCursorFromPages(st1: Store, st2: Store, subjects: Response<SubjectRecord>, assignments: Response<AssignmentRecord>)
    requires HasKey(st2.apiKey) && IntendedSucceeds(st1, true, subjects, assignments)
    ensures IntendedSucceeds(st2, true, subjects, assignments)
    ensures IntendedSyncPass(st1, true, subjects, assignments).subjectsUpdated == LastCursor(subjects.pages, None)
    ensures IntendedSyncPass(st1, true, subjects, assignments).subjectsUpdated ==
            IntendedSyncPass(st2, true, subjects, assignments).subjectsUpdated
    ensures IntendedSyncPass(st1, true, subjects, assignments).asgsUpdated ==
            IntendedSyncPass(st2, true, subjects, assignments).asgsUpdated
    ensures IntendedSyncPass(st1, true, subjects, assignments).published ==
            IntendedSyncPass(st2, true, subjects, assignments).published
  {
    assert StartMap(st1, true) == StartMap(st2, true);
  }

  /**
   * The text "null" is stored as a cursor only when a page reported it or it
   * was stored already; from a store without it, only a page can bring it.
   */
  lemma NullOnlyIfReported(st: Store, reset: bool, subjects: Response<SubjectRecord>, assignments: Response<AssignmentRecord>)
    requires subjects.Delivered? && assignments.Delivered?
    ensures var st' := IntendedSyncPass(st, reset, subjects, assignments);
            st'.subjectsUpdated == Some("null") ==>
              st.subjectsUpdated == Some("null") ||
              exists i :: 0 <= i < |subjects.pages| && Reported(subjects.pages[i]) && subjects.pages[i].dataUpdatedAt == Some("null")
    ensures var st' := IntendedSyncPass(st, reset, subjects, assignments);
            st'.asgsUpdated == Some("null") ==>
              st.asgsUpdated == Some("null") ||
              exists i :: 0 <= i < |assignments.pages| && Reported(assignments.pages[i]) && assignments.pages[i].dataUpdatedAt == Some("null")
  {
    LastCursorOrigin(subjects.pages, StartCursor(st.subjectsUpdated, reset));
    LastCursorOrigin(assignments.pages, StartCursor(st.asgsUpdated, reset));
  }

  /**
   * A subject of the start map that no assignment of this pass names keeps
   * its stage, whether or not it was fetched again.
   */
  lemma RefetchKeepsStage(st: Store, reset: bool, subjects: Response<SubjectRecord>, assignments: Response<AssignmentRecord>, k: int)
    requires IntendedSucceeds(st, reset, subjects, assignments)
    requires k in StartMap(st, reset) && LastStage(Records(assignments.pages), k).None?
    ensures k in IntendedSyncPass(st, reset, subjects, assignments).published
    ensures IntendedSyncPass(st, reset, subjects, assignments).published[k].srsStage == StartMap(st, reset)[k].srsStage
  {
    var start := StartMap(st, reset);
    var working := IntendedMergeSubjects(start, Records(subjects.pages)).value;
    IntendedMergeKeepsStage(start, Records(subjects.pages), k);
    MergeStagesAt(working, Records(assignments.pages), k);
  }
}
