/**
 * The two paginated fetchers of the sync pass. Each folds the records of the
 * delivered pages into a working subject map and returns the new cursor.
 * The map is owned by the one sync pass that created it, so the in-place
 * update of a JavaScript object is modelled as passing the map in and the
 * updated map out.
 */
module Fetchers {
  import opened Wrappers
  import opened WaniKaniApi
  import opened Subjects
  import opened Seqs

  /** The ids of a sequence of subject records. */
  function Ids(rs: seq<SubjectRecord>): (ids: set<int>)
    ensures forall i :: 0 <= i < |rs| ==> rs[i].id in ids
    ensures forall k :: k in ids ==> exists i :: 0 <= i < |rs| && rs[i].id == k
  {
    set i | 0 <= i < |rs| :: rs[i].id
  }

  lemma IdsSnoc(rs: seq<SubjectRecord>)
    requires rs != []
    ensures Ids(rs) == Ids(rs[..|rs| - 1]) + {rs[|rs| - 1].id}
  {
    var prefix := rs[..|rs| - 1];
    assert forall i :: 0 <= i < |prefix| ==> prefix[i] == rs[i];
  }

  /** The data of the last record with id `k`, the one whose write survives. */
  function LastRecord(rs: seq<SubjectRecord>, k: int): (r: Option<SubjectData>)
    ensures r.None? <==> forall x :: x in rs ==> x.id != k
    ensures r.Some? ==> exists x :: x in rs && x.id == k && x.data == r.value
  {
    if |rs| == 0 then None
    else if rs[|rs| - 1].id == k then Some(rs[|rs| - 1].data)
    else LastRecord(rs[..|rs| - 1], k)
  }

  /** The record found is one with id `k`, and no later record has that id. */
  lemma {:induction false} LastRecordWins(rs: seq<SubjectRecord>, k: int)
    ensures LastRecord(rs, k).Some? ==>
              exists i :: 0 <= i < |rs| && rs[i].id == k && rs[i].data == LastRecord(rs, k).value &&
                          forall j :: i < j < |rs| ==> rs[j].id != k
  {
    if |rs| > 0 {
      var n := |rs| - 1;
      var init := rs[..n];
      if rs[n].id != k {
        assert LastRecord(rs, k) == LastRecord(init, k);
        if LastRecord(init, k).Some? {
          LastRecordWins(init, k);
          var i :| 0 <= i < |init| && init[i].id == k && init[i].data == LastRecord(init, k).value &&
                   forall j :: i < j < |init| ==> init[j].id != k;
          assert rs[i] == init[i];
          forall j | i < j < |rs|
            ensures rs[j].id != k
          {
            if j < n {
              assert rs[j] == init[j];
            }
          }
        }
      }
    }
  }


  /**
   * `result[subject.id] = {...}` for every record in order, or `None` when a
   * record cannot be translated (the loop throws).
   */
  function MergeSubjects(m: SubjectMap, rs: seq<SubjectRecord>): (r: Option<SubjectMap>)
    ensures r.Some? <==> forall x :: x in rs ==> Translate(x.data).Some?
    ensures r.Some? ==> r.value.Keys == m.Keys + Ids(rs)
  {
    if rs == [] then Some(m)
    else
      var last := rs[|rs| - 1];
      assert forall x :: x in rs ==> x in rs[..|rs| - 1] || x == last;
      IdsSnoc(rs);
      match MergeSubjects(m, rs[..|rs| - 1])
      case None => None
      case Some(prefix) =>
        match Translate(last.data)
        case None => None
        case Some(s) => Some(prefix[last.id := s])
  }

  /** The entry for every id: the last fetched record wins; other keys keep their entry. */
  lemma {:induction false} MergeSubjectsAt(m: SubjectMap, rs: seq<SubjectRecord>, k: int)
    requires MergeSubjects(m, rs).Some?
    requires k in m || LastRecord(rs, k).Some?
    ensures k in MergeSubjects(m, rs).value
    ensures MergeSubjects(m, rs).value[k] ==
              match LastRecord(rs, k)
              case Some(d) => Translate(d).value
              case None => m[k]
  {
    if rs != [] {
      var last := rs[|rs| - 1];
      var prefix := rs[..|rs| - 1];
      var before := MergeSubjects(m, prefix).value;
      var s := Translate(last.data).value;
      assert MergeSubjects(m, rs) == Some(before[last.id := s]);
      if last.id == k {
        assert LastRecord(rs, k) == Some(last.data);
      } else {
        assert LastRecord(rs, k) == LastRecord(prefix, k);
        MergeSubjectsAt(m, prefix, k);
      }
    }
  }

  /** Entries for ids that no record carries are left exactly as they were. */
  lemma MergeSubjectsFrame(m: SubjectMap, rs: seq<SubjectRecord>, k: int)
    requires MergeSubjects(m, rs).Some?
    requires k in m && forall i :: 0 <= i < |rs| ==> rs[i].id != k
    ensures MergeSubjects(m, rs).value[k] == m[k]
  {
    MergeSubjectsAt(m, rs, k);
  }

  /** The stage of the last assignment for subject `k`, the one whose write survives. */
  function LastStage(asgs: seq<AssignmentRecord>, k: int): (r: Option<int>)
    ensures r.None? <==> forall a :: a in asgs ==> a.data.subjectId != k
    ensures r.Some? ==> exists a :: a in asgs && a.data.subjectId == k && a.data.srsStage == r.value
  {
    if |asgs| == 0 then None
    else if asgs[|asgs| - 1].data.subjectId == k then Some(asgs[|asgs| - 1].data.srsStage)
    else LastStage(asgs[..|asgs| - 1], k)
  }

  /** The stage found is that of an assignment for `k`, and no later assignment names `k`. */
  lemma {:induction false} LastStageWins(asgs: seq<AssignmentRecord>, k: int)
    ensures LastStage(asgs, k).Some? ==>
              exists i :: 0 <= i < |asgs| && asgs[i].data.subjectId == k &&
                          asgs[i].data.srsStage == LastStage(asgs, k).value &&
                          forall j :: i < j < |asgs| ==> asgs[j].data.subjectId != k
  {
    if |asgs| > 0 {
      var n := |asgs| - 1;
      var init := asgs[..n];
      if asgs[n].data.subjectId != k {
        assert LastStage(asgs, k) == LastStage(init, k);
        if LastStage(init, k).Some? {
          LastStageWins(init, k);
          var i :| 0 <= i < |init| && init[i].data.subjectId == k &&
                   init[i].data.srsStage == LastStage(init, k).value &&
                   forall j :: i < j < |init| ==> init[j].data.subjectId != k;
          assert asgs[i] == init[i];
          forall j | i < j < |asgs|
            ensures asgs[j].data.subjectId != k
          {
            if j < n {
              assert asgs[j] == init[j];
            }
          }
        }
      }
    }
  }


  /**
   * `subjects[asg.data.subject_id].srsStage = asg.data.srs_stage` for every
   * assignment in order, or `None` when one names a subject missing from the
   * map (the loop throws on `undefined.srsStage`).
   */
  function MergeStages(m: SubjectMap, asgs: seq<AssignmentRecord>): (r: Option<SubjectMap>)
    ensures r.Some? <==> forall a :: a in asgs ==> a.data.subjectId in m
    ensures r.Some? ==> r.value.Keys == m.Keys
  {
    if asgs == [] then Some(m)
    else
      var last := asgs[|asgs| - 1];
      assert forall a :: a in asgs ==> a in asgs[..|asgs| - 1] || a == last;
      match MergeStages(m, asgs[..|asgs| - 1])
      case None => None
      case Some(prefix) =>
        if last.data.subjectId in prefix then
          Some(prefix[last.data.subjectId := prefix[last.data.subjectId].(srsStage := Some(last.data.srsStage))])
        else None
  }

  /**
   * Only `srsStage` changes, and only on assigned subjects, where the last
   * assignment's stage wins.
   */
  lemma {:induction false} MergeStagesAt(m: SubjectMap, asgs: seq<AssignmentRecord>, k: int)
    requires MergeStages(m, asgs).Some? && k in m
    ensures k in MergeStages(m, asgs).value
    ensures MergeStages(m, asgs).value[k] ==
              match LastStage(asgs, k)
              case Some(stage) => m[k].(srsStage := Some(stage))
              case None => m[k]
  {
    if asgs != [] {
      MergeStagesAt(m, asgs[..|asgs| - 1], k);
    }
  }

  /** One more record: its write is applied on top of the writes before it. */
  lemma MergeSubjectsSnoc(m: SubjectMap, rs: seq<SubjectRecord>, x: SubjectRecord, prefix: SubjectMap, s: Subject)
    requires MergeSubjects(m, rs) == Some(prefix) && Translate(x.data) == Some(s)
    ensures MergeSubjects(m, rs + [x]) == Some(prefix[x.id := s])
  {
    assert (rs + [x])[..|rs|] == rs;
  }

  /** One more assignment: its write is applied on top of the writes before it. */
  lemma MergeStagesSnoc(m: SubjectMap, asgs: seq<AssignmentRecord>, a: AssignmentRecord, prefix: SubjectMap)
    requires MergeStages(m, asgs) == Some(prefix) && a.data.subjectId in prefix
    ensures MergeStages(m, asgs + [a]) ==
              Some(prefix[a.data.subjectId := prefix[a.data.subjectId].(srsStage := Some(a.data.srsStage))])
  {
    assert (asgs + [a])[..|asgs|] == asgs;
  }

  /** One more page: the cursor moves to its `data_updated_at` when it reports one. */
  lemma LastCursorSnoc<R>(pages: seq<Page<R>>, page: Page<R>, init: Option<string>)
    ensures LastCursor(pages + [page], init) == if Reported(page) then page.dataUpdatedAt else LastCursor(pages, init)
  {
    assert (pages + [page])[..|pages|] == pages;
  }

  /** `fetchSubjects`: fold every delivered page into `result` and return the cursor. */
  method FetchSubjects(response: Response<SubjectRecord>, result: SubjectMap, updatedAfter: Option<string>)
    returns (ok: bool, merged: SubjectMap, newUpdated: Option<string>)
    ensures ok <==> response.Delivered? && MergeSubjects(result, Records(response.pages)).Some?
    ensures ok ==> merged == MergeSubjects(result, Records(response.pages)).value
    ensures ok ==> newUpdated == LastCursor(response.pages, updatedAfter)
  {
    merged, newUpdated := result, updatedAfter;
    if response.Failed? {
      return false, merged, newUpdated;
    }
    var pages := response.pages;
    var p := 0;
    while p < |pages|
      invariant 0 <= p <= |pages|
      invariant MergeSubjects(result, Records(pages[..p])) == Some(merged)
      invariant newUpdated == LastCursor(pages[..p], updatedAfter)
    {
      var page := pages[p];
      ghost var done := Records(pages[..p]);
      for k := 0 to |page.data|
        invariant MergeSubjects(result, done) == Some(merged)
        invariant done == Records(pages[..p]) + page.data[..k]
      {
        var subject := page.data[k];
        var s := Translate(subject.data);
        if s.None? {
          InRecords(pages, p, k);
          return false, merged, newUpdated;
        }
        MergeSubjectsSnoc(result, done, subject, merged, s.value);
        merged := merged[subject.id := s.value];
        done := done + [subject];
        TakeOneMore(page.data, k);
      }
      assert page.data[..|page.data|] == page.data;
      TakeOneMore(pages, p);
      RecordsSnoc(pages[..p], page);
      LastCursorSnoc(pages[..p], page, updatedAfter);
      if Reported(page) {
        newUpdated := page.dataUpdatedAt;
      }
      p := p + 1;
    }
    assert pages[..|pages|] == pages;
    ok := true;
  }

  /** `fetchSrsStages`: set `srsStage` from every delivered assignment and return the cursor. */
  method FetchSrsStages(response: Response<AssignmentRecord>, subjects: SubjectMap, updatedAfter: Option<string>)
    returns (ok: bool, merged: SubjectMap, newUpdated: Option<string>)
    ensures ok <==> response.Delivered? && MergeStages(subjects, Records(response.pages)).Some?
    ensures ok ==> merged == MergeStages(subjects, Records(response.pages)).value
    ensures ok ==> newUpdated == LastCursor(response.pages, updatedAfter)
  {
    merged, newUpdated := subjects, updatedAfter;
    if response.Failed? {
      return false, merged, newUpdated;
    }
    var pages := response.pages;
    var p := 0;
    while p < |pages|
      invariant 0 <= p <= |pages|
      invariant MergeStages(subjects, Records(pages[..p])) == Some(merged)
      invariant newUpdated == LastCursor(pages[..p], updatedAfter)
    {
      var page := pages[p];
      ghost var done := Records(pages[..p]);
      for k := 0 to |page.data|
        invariant MergeStages(subjects, done) == Some(merged)
        invariant done == Records(pages[..p]) + page.data[..k]
      {
        var asg := page.data[k];
        if asg.data.subjectId !in merged {
          InRecords(pages, p, k);
          return false, merged, newUpdated;
        }
        MergeStagesSnoc(subjects, done, asg, merged);
        merged := merged[asg.data.subjectId := merged[asg.data.subjectId].(srsStage := Some(asg.data.srsStage))];
        done := done + [asg];
        TakeOneMore(page.data, k);
      }
      assert page.data[..|page.data|] == page.data;
      TakeOneMore(pages, p);
      RecordsSnoc(pages[..p], page);
      LastCursorSnoc(pages[..p], page, updatedAfter);
      if Reported(page) {
        newUpdated := page.dataUpdatedAt;
      }
      p := p + 1;
    }
    assert pages[..|pages|] == pages;
    ok := true;
  }
}
