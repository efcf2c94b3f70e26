/**
 * The already-parsed JSON shapes of the WaniKani API that the fetchers
 * consume: collection pages of subject records and of assignment records.
 */
module WaniKaniApi {
  import opened Wrappers
  import opened Seqs

  /** `pronunciation_audios[*].metadata` of a vocabulary subject. */
  datatype AudioMetadata = AudioMetadata(pronunciation: string, voiceActorId: int, voiceActorName: string)

  /** One entry of `pronunciation_audios`. */
  datatype PronunciationAudio = PronunciationAudio(url: string, metadata: AudioMetadata)

  /** One entry of `readings`. */
  datatype Reading = Reading(reading: string)

  /** One entry of `meanings`. */
  datatype Meaning = Meaning(meaning: string, primary: bool)

  /**
   * `subject.data`. `readings` is `None` when the field is absent (kana-only
   * vocabulary); an empty array is `Some([])`, which JavaScript treats as truthy.
   */
  datatype SubjectData = SubjectData(
    documentUrl: string,
    characters: string,
    level: int,
    pronunciationAudios: seq<PronunciationAudio>,
    readings: Option<seq<Reading>>,
    meanings: seq<Meaning>)

  /** `{ id, data }` of the subjects endpoint. */
  datatype SubjectRecord = SubjectRecord(id: int, data: SubjectData)

  /** `asg.data` of the assignments endpoint. */
  datatype AssignmentData = AssignmentData(subjectId: int, srsStage: int)

  /** `{ data }` of the assignments endpoint. */
  datatype AssignmentRecord = AssignmentRecord(data: AssignmentData)

  /** One collection page: its records and its `data_updated_at` (possibly null). */
  datatype Page<R> = Page(data: seq<R>, dataUpdatedAt: Option<string>)

  /**
   * What one run of a `while (url)` loop receives: the pages the `next_url`
   * chain delivered, or a rejected request (network error, abort, bad JSON).
   */
  datatype Response<R> = Delivered(pages: seq<Page<R>>) | Failed

  /** `if (json.data_updated_at)`: present and not the empty string. */
  predicate Reported<R>(page: Page<R>) {
    page.dataUpdatedAt.Some? && page.dataUpdatedAt.value != ""
  }

  /** All records of the pages, page by page, in delivery order. */
  function Records<R>(pages: seq<Page<R>>): (rs: seq<R>)
    ensures pages == [] ==> rs == []
  {
    if pages == [] then [] else Records(pages[..|pages| - 1]) + pages[|pages| - 1].data
  }

  lemma {:induction false} RecordsSnoc<R>(pages: seq<Page<R>>, page: Page<R>)
    ensures Records(pages + [page]) == Records(pages) + page.data
  {
    DropLast(pages, page);
  }

  /** Every record of every delivered page is among `Records(pages)`. */
  lemma {:induction false} InRecords<R>(pages: seq<Page<R>>, p: nat, k: nat)
    requires p < |pages| && k < |pages[p].data|
    ensures pages[p].data[k] in Records(pages)
  {
    if p < |pages| - 1 {
      InRecords(pages[..|pages| - 1], p, k);
    }
  }

  /**
   * The cursor a fetcher returns: `newUpdated` starts as the input cursor and
   * each page that reports a `data_updated_at` overwrites it.
   */
  function LastCursor<R>(pages: seq<Page<R>>, init: Option<string>): Option<string> {
    if |pages| == 0 then init
    else if Reported(pages[|pages| - 1]) then pages[|pages| - 1].dataUpdatedAt
    else LastCursor(pages[..|pages| - 1], init)
  }

  /** When no page reports a `data_updated_at`, the input cursor comes back unchanged. */
  lemma {:induction false} LastCursorUnreported<R>(pages: seq<Page<R>>, init: Option<string>)
    requires forall i :: 0 <= i < |pages| ==> !Reported(pages[i])
    ensures LastCursor(pages, init) == init
  {
    if |pages| > 0 {
      var prefix := pages[..|pages| - 1];
      assert forall i :: 0 <= i < |prefix| ==> prefix[i] == pages[i];
      LastCursorUnreported(prefix, init);
    }
  }

  /** The page that reports last decides the cursor. */
  lemma {:induction false} LastCursorLastReported<R>(pages: seq<Page<R>>, init: Option<string>, i: int)
    requires 0 <= i < |pages| && Reported(pages[i])
    requires forall j :: i < j < |pages| ==> !Reported(pages[j])
    ensures LastCursor(pages, init) == pages[i].dataUpdatedAt
  {
    if i < |pages| - 1 {
      var prefix := pages[..|pages| - 1];
      assert forall j :: 0 <= j < |prefix| ==> prefix[j] == pages[j];
      LastCursorLastReported(prefix, init, i);
    }
  }

  /** The cursor is the input cursor or the `data_updated_at` of some reporting page. */
  lemma {:induction false} LastCursorOrigin<R>(pages: seq<Page<R>>, init: Option<string>)
    ensures LastCursor(pages, init) == init ||
            exists i :: 0 <= i < |pages| && Reported(pages[i]) && LastCursor(pages, init) == pages[i].dataUpdatedAt
  {
    if |pages| > 0 && !Reported(pages[|pages| - 1]) {
      var prefix := pages[..|pages| - 1];
      LastCursorOrigin(prefix, init);
      if LastCursor(prefix, init) != init {
        var i :| 0 <= i < |prefix| && Reported(prefix[i]) && LastCursor(prefix, init) == prefix[i].dataUpdatedAt;
        assert prefix[i] == pages[i];
      }
    }
  }
}
