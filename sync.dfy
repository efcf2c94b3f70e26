/**
 * One sync pass (`getSubjects`): read the credential and the stored cursors,
 * start from an empty or the cached map, merge subjects and then assignments,
 * and on success persist both cursors and the map and publish the map.
 */
module Sync {
  import opened Wrappers
  import opened WaniKaniApi
  import opened Subjects
  import opened Fetchers

  /**
   * The state a sync pass reads and writes: the credential store, the two
   * stored cursors (`null` is `None`), the cached subject map (absent until
   * the first successful pass) and the published subject map.
   */
  datatype Store = Store(
    apiKey: Option<string>,
    subjectsUpdated: Option<string>,
    asgsUpdated: Option<string>,
    cache: Option<SubjectMap>,
    published: SubjectMap)

  /** `if (!key) return`: a credential that is `null` or empty disables syncing. */
  predicate HasKey(apiKey: Option<string>) {
    apiKey.Some? && apiKey.value != ""
  }

  /** The text `localStorage.setItem` stores for a cursor; `null` becomes the text "null". */
  function StoredText(cursor: Option<string>): (text: string)
    ensures cursor.Some? ==> text == cursor.value
    ensures cursor.None? ==> text == "null"
  {
    match cursor
    case Some(c) => c
    case None => "null"
  }

  /** `reset ? {} : (await getObject("subjects")) || {}`. */
  function StartMap(st: Store, reset: bool): (m: SubjectMap)
    ensures reset ==> m == map[]
    ensures !reset && st.cache.Some? ==> m == st.cache.value
    ensures !reset && st.cache.None? ==> m == map[]
  {
    if reset then map[] else st.cache.GetOr(map[])
  }

  /** Did the subject fold and then the assignment fold both complete? */
  predicate Succeeds(st: Store, reset: bool, subjects: Response<SubjectRecord>, assignments: Response<AssignmentRecord>) {
    && HasKey(st.apiKey)
    && subjects.Delivered?
    && MergeSubjects(StartMap(st, reset), Records(subjects.pages)).Some?
    && assignments.Delivered?
    && MergeStages(MergeSubjects(StartMap(st, reset), Records(subjects.pages)).value, Records(assignments.pages)).Some?
  }

  /**
   * The state after one pass. Any throw in either fetcher lands in the
   * `catch` and leaves the state as it was.
   */
  function SyncPass(st: Store, reset: bool, subjects: Response<SubjectRecord>, assignments: Response<AssignmentRecord>): Store
  {
    if !Succeeds(st, reset, subjects, assignments) then st
    else
      var working := MergeSubjects(StartMap(st, reset), Records(subjects.pages)).value;
      var final := MergeStages(working, Records(assignments.pages)).value;
      st.(subjectsUpdated := Some(StoredText(LastCursor(subjects.pages, st.subjectsUpdated))),
          asgsUpdated := Some(StoredText(LastCursor(assignments.pages, st.asgsUpdated))),
          cache := Some(final),
          published := final)
  }

  /** The module-level state of the sync pass. */
  class SyncService {
    var apiKey: Option<string>
    var subjectsUpdated: Option<string>
    var asgsUpdated: Option<string>
    var cache: Option<SubjectMap>
    var published: SubjectMap

    function State(): Store
      reads this
    {
      Store(apiKey, subjectsUpdated, asgsUpdated, cache, published)
    }

    /**
     * Module load: stored settings and cache as found, an empty published map,
     * then the startup pass `getSubjects(false)` with the server's answers given.
     */
    constructor (apiKey: Option<string>, subjectsUpdated: Option<string>, asgsUpdated: Option<string>,
                 cache: Option<SubjectMap>, subjects: Response<SubjectRecord>, assignments: Response<AssignmentRecord>)
      ensures State() == SyncPass(Store(apiKey, subjectsUpdated, asgsUpdated, cache, map[]), false, subjects, assignments)
    {
      this.apiKey := apiKey;
      this.subjectsUpdated := subjectsUpdated;
      this.asgsUpdated := asgsUpdated;
      this.cache := cache;
      this.published := map[];
      new;
      GetSubjects(false, subjects, assignments);
    }

    /** `getSubjects(reset)`, with the server's answers to its two fetch loops given. */
    method GetSubjects(reset: bool, subjects: Response<SubjectRecord>, assignments: Response<AssignmentRecord>)
      modifies this
      ensures State() == SyncPass(old(State()), reset, subjects, assignments)
    {
      if !HasKey(apiKey) {
        return;
      }
      var result := if reset then map[] else cache.GetOr(map[]);
      var ok, newSubjectsUpdated, newAsgsUpdated;
      ok, result, newSubjectsUpdated := FetchSubjects(subjects, result, subjectsUpdated);
      if !ok {
        return;
      }
      ok, result, newAsgsUpdated := FetchSrsStages(assignments, result, asgsUpdated);
      if !ok {
        return;
      }
      subjectsUpdated := Some(StoredText(newSubjectsUpdated));
      asgsUpdated := Some(StoredText(newAsgsUpdated));
      cache := Some(result);
      published := result;
    }

    /** `apiKey.set(newKey)`: store the new credential, then run a pass with `reset`. */
    method SetApiKey(newKey: string, subjects: Response<SubjectRecord>, assignments: Response<AssignmentRecord>)
      modifies this
      ensures State() == SyncPass(old(State()).(apiKey := Some(newKey)), true, subjects, assignments)
    {
      apiKey := Some(newKey);
      GetSubjects(true, subjects, assignments);
    }
  }

  /** Without a credential a pass changes nothing. */
  lemma NoKeyIsNoOp(st: Store, reset: bool, subjects: Response<SubjectRecord>, assignments: Response<AssignmentRecord>)
    requires !HasKey(st.apiKey)
    ensures SyncPass(st, reset, subjects, assignments) == st
  {
  }

  /**
   * A pass changes the state exactly when it succeeds: a failed request, a
   * subject without a primary meaning or an assignment for an unknown subject
   * leaves cursors, cache and published map untouched.
   */
  lemma FailedPassIsNoOp(st: Store, reset: bool, subjects: Response<SubjectRecord>, assignments: Response<AssignmentRecord>)
    requires subjects.Failed? || assignments.Failed?
          || (subjects.Delivered? && exists x :: x in Records(subjects.pages) && Translate(x.data).None?)
          || (subjects.Delivered? && assignments.Delivered?
              && MergeSubjects(StartMap(st, reset), Records(subjects.pages)).Some?
              && exists a :: a in Records(assignments.pages) &&
                   a.data.subjectId !in MergeSubjects(StartMap(st, reset), Records(subjects.pages)).value)
    ensures SyncPass(st, reset, subjects, assignments) == st
  {
  }

  /** The SRS merge fails exactly when an assignment names a subject that is neither fetched nor (incrementally) cached. */
  lemma UnknownSubjectFails(st: Store, reset: bool, subjects: Response<SubjectRecord>, assignments: Response<AssignmentRecord>)
    requires HasKey(st.apiKey) && subjects.Delivered? && assignments.Delivered?
    requires MergeSubjects(StartMap(st, reset), Records(subjects.pages)).Some?
    ensures Succeeds(st, reset, subjects, assignments) <==>
              forall a :: a in Records(assignments.pages) ==>
                a.data.subjectId in StartMap(st, reset) || a.data.subjectId in Ids(Records(subjects.pages))
  {
  }

  /**
   * The key set after a successful pass: the ids fetched in this pass, plus the
   * cached keys unless `reset`. So with `reset` only ids fetched now are published.
   */
  lemma PublishedKeys(st: Store, reset: bool, subjects: Response<SubjectRecord>, assignments: Response<AssignmentRecord>)
    requires Succeeds(st, reset, subjects, assignments)
    ensures reset ==> SyncPass(st, reset, subjects, assignments).published.Keys == Ids(Records(subjects.pages))
    ensures !reset ==> SyncPass(st, reset, subjects, assignments).published.Keys ==
                         st.cache.GetOr(map[]).Keys + Ids(Records(subjects.pages))
  {
  }

  /**
   * A successful pass persists the same map it publishes, and each cursor is
   * stored as the last `data_updated_at` its endpoint reported, or as the stored
   * cursor when no page reported one (even on `reset`); a cursor that is still
   * `null` is stored as the text "null".
   */
  lemma SuccessPersists(st: Store, reset: bool, subjects: Response<SubjectRecord>, assignments: Response<AssignmentRecord>)
    requires Succeeds(st, reset, subjects, assignments)
    ensures var st' := SyncPass(st, reset, subjects, assignments);
            && st'.cache == Some(st'.published)
            && st'.apiKey == st.apiKey
            && st'.subjectsUpdated == Some(StoredText(LastCursor(subjects.pages, st.subjectsUpdated)))
            && st'.asgsUpdated == Some(StoredText(LastCursor(assignments.pages, st.asgsUpdated)))
            && ((forall i :: 0 <= i < |subjects.pages| ==> !Reported(subjects.pages[i])) ==>
                  st'.subjectsUpdated == Some(StoredText(st.subjectsUpdated)))
            && ((forall i :: 0 <= i < |assignments.pages| ==> !Reported(assignments.pages[i])) ==>
                  st'.asgsUpdated == Some(StoredText(st.asgsUpdated)))
            && (LastCursor(subjects.pages, st.subjectsUpdated).None? ==> st'.subjectsUpdated == Some("null"))
            && (LastCursor(assignments.pages, st.asgsUpdated).None? ==> st'.asgsUpdated == Some("null"))
  {
    if forall i :: 0 <= i < |subjects.pages| ==> !Reported(subjects.pages[i]) {
      LastCursorUnreported(subjects.pages, st.subjectsUpdated);
    }
    if forall i :: 0 <= i < |assignments.pages| ==> !Reported(assignments.pages[i]) {
      LastCursorUnreported(assignments.pages, st.asgsUpdated);
    }
  }

  /**
   * Each published entry, with subjects merged before assignments: its fields
   * come from the last fetched record for its id (else the cached entry), and
   * its `srsStage` from the last assignment for it. A subject fetched again in
   * this pass without an assignment for it loses its stage.
   */
  lemma PublishedEntry(st: Store, reset: bool, subjects: Response<SubjectRecord>, assignments: Response<AssignmentRecord>, k: int)
    requires Succeeds(st, reset, subjects, assignments)
    requires k in SyncPass(st, reset, subjects, assignments).published
    ensures var s := SyncPass(st, reset, subjects, assignments).published[k];
            var base := match LastRecord(Records(subjects.pages), k)
                        case Some(d) => Translate(d).value
                        case None => StartMap(st, reset)[k];
            && s.(srsStage := base.srsStage) == base
            && (LastStage(Records(assignments.pages), k).Some? ==> s.srsStage == LastStage(Records(assignments.pages), k))
            && (LastStage(Records(assignments.pages), k).None? && LastRecord(Records(subjects.pages), k).Some? ==>
                  s.srsStage == None)
            && (LastStage(Records(assignments.pages), k).None? && LastRecord(Records(subjects.pages), k).None? ==>
                  s == StartMap(st, reset)[k])
  {
    var start := StartMap(st, reset);
    var rs := Records(subjects.pages);
    var working := MergeSubjects(start, rs).value;
    assert k in working;
    if LastRecord(rs, k).None? {
      assert k !in Ids(rs);
    }
    MergeSubjectsAt(start, rs, k);
    MergeStagesAt(working, Records(assignments.pages), k);
  }

  /**
   * Idempotence when the server has nothing new: with `reset` false and pages
   * that carry no records, the published map is the cached one, and a second
   * such pass publishes the same map again.
   */
  lemma NothingNewIsIdempotent(st: Store, subjects: Response<SubjectRecord>, assignments: Response<AssignmentRecord>)
    requires HasKey(st.apiKey) && subjects.Delivered? && assignments.Delivered?
    requires Records(subjects.pages) == [] && Records(assignments.pages) == []
    ensures SyncPass(st, false, subjects, assignments).published == st.cache.GetOr(map[])
    ensures var once := SyncPass(st, false, subjects, assignments);
            SyncPass(once, false, subjects, assignments).published == once.published
  {
  }
}
