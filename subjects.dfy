/**
 * The flat Subject shape kept in the local cache and the translation of one
 * API subject record into it (the object literal built inside `fetchSubjects`).
 */
module Subjects {
  import opened Wrappers
  import opened WaniKaniApi

  /** One pronunciation recording. */
  datatype AudioItem = AudioItem(url: string, kana: string, voiceId: int, voiceName: string)

  /** One vocabulary entry; `srsStage` is `None` until an assignment sets it. */
  datatype Subject = Subject(
    url: string,
    level: int,
    characters: string,
    audio: seq<AudioItem>,
    readings: seq<string>,
    meaning: string,
    otherMeanings: seq<string>,
    srsStage: Option<int>)

  /** The subject map: subject id to Subject. */
  type SubjectMap = map<int, Subject>

  /** `pronunciation_audios.map(...)`: item by item, same length and order. */
  function AudioItems(items: seq<PronunciationAudio>): (audio: seq<AudioItem>)
    ensures |audio| == |items|
    ensures forall i :: 0 <= i < |items| ==>
              && audio[i].url == items[i].url
              && audio[i].kana == items[i].metadata.pronunciation
              && audio[i].voiceId == items[i].metadata.voiceActorId
              && audio[i].voiceName == items[i].metadata.voiceActorName
  {
    if items == [] then []
    else
      var item := items[0];
      [AudioItem(item.url, item.metadata.pronunciation, item.metadata.voiceActorId, item.metadata.voiceActorName)]
        + AudioItems(items[1..])
  }

  /** `readings.map((r) => r.reading)`. */
  function ReadingTexts(rs: seq<Reading>): (texts: seq<string>)
    ensures |texts| == |rs|
    ensures forall i :: 0 <= i < |rs| ==> texts[i] == rs[i].reading
  {
    if rs == [] then [] else [rs[0].reading] + ReadingTexts(rs[1..])
  }

  /** The readings of a translated subject: the API's, or `[characters]` when it gives none. */
  function ReadingsOf(d: SubjectData): (readings: seq<string>)
    ensures d.readings.Some? ==> |readings| == |d.readings.value|
    ensures d.readings.Some? ==> forall i :: 0 <= i < |readings| ==> readings[i] == d.readings.value[i].reading
    ensures d.readings.None? ==> readings == [d.characters]
  {
    match d.readings
    case Some(rs) => ReadingTexts(rs)
    case None => [d.characters]
  }

  /** `meanings.find((m) => m.primary)?.meaning`: the first meaning flagged primary. */
  function PrimaryMeaning(ms: seq<Meaning>): (r: Option<string>)
    ensures r.Some? <==> exists i :: 0 <= i < |ms| && ms[i].primary
    ensures r.Some? ==> exists i :: 0 <= i < |ms| && ms[i].primary && r.value == ms[i].meaning &&
                                    forall j :: 0 <= j < i ==> !ms[j].primary
  {
    if ms == [] then None
    else if ms[0].primary then Some(ms[0].meaning)
    else
      var r := PrimaryMeaning(ms[1..]);
      assert forall i :: 1 <= i < |ms| ==> ms[i] == ms[1..][i - 1];
      r
  }

  /** `meanings.filter((m) => !m.primary).map((m) => m.meaning)`. */
  function OtherMeanings(ms: seq<Meaning>): (others: seq<string>)
    ensures |others| <= |ms|
    ensures forall i :: 0 <= i < |ms| && !ms[i].primary ==> ms[i].meaning in others
    ensures forall x :: x in others ==> exists i :: 0 <= i < |ms| && !ms[i].primary && ms[i].meaning == x
  {
    if ms == [] then []
    else
      var rest := OtherMeanings(ms[1..]);
      assert forall i :: 1 <= i < |ms| ==> ms[i] == ms[1..][i - 1];
      if ms[0].primary then rest else [ms[0].meaning] + rest
  }

  /** The secondary meanings keep their relative order: filtering distributes over concatenation. */
  lemma {:induction false} OtherMeaningsAppend(a: seq<Meaning>, b: seq<Meaning>)
    ensures OtherMeanings(a + b) == OtherMeanings(a) + OtherMeanings(b)
  {
    if a == [] {
      assert a + b == b;
    } else {
      assert (a + b)[1..] == a[1..] + b;
      OtherMeaningsAppend(a[1..], b);
    }
  }

  /** Number of meanings flagged primary. */
  function PrimaryCount(ms: seq<Meaning>): nat {
    if ms == [] then 0 else (if ms[0].primary then 1 else 0) + PrimaryCount(ms[1..])
  }

  /** Every meaning is either primary or among the other meanings. */
  lemma {:induction false} OtherMeaningsCount(ms: seq<Meaning>)
    ensures |OtherMeanings(ms)| + PrimaryCount(ms) == |ms|
  {
    if ms != [] {
      OtherMeaningsCount(ms[1..]);
    }
  }

  /**
   * The Subject written for one record, or `None` when no meaning is flagged
   * primary (the source then throws a TypeError on `.meaning` of `undefined`).
   */
  function Translate(d: SubjectData): (r: Option<Subject>)
    ensures r.Some? <==> exists i :: 0 <= i < |d.meanings| && d.meanings[i].primary
    ensures r.Some? ==>
              && r.value.url == d.documentUrl
              && r.value.characters == d.characters
              && r.value.level == d.level
              && r.value.audio == AudioItems(d.pronunciationAudios)
              && r.value.readings == ReadingsOf(d)
              && Some(r.value.meaning) == PrimaryMeaning(d.meanings)
              && r.value.otherMeanings == OtherMeanings(d.meanings)
              && r.value.srsStage == None
  {
    match PrimaryMeaning(d.meanings)
    case None => None
    case Some(meaning) =>
      Some(Subject(
        d.documentUrl,
        d.level,
        d.characters,
        AudioItems(d.pronunciationAudios),
        ReadingsOf(d),
        meaning,
        OtherMeanings(d.meanings),
        None))
  }
}
