/**
 * One step of llama.py's main loop (llama.py:120-123): the model's reply to a
 * transcript is parsed, the transcript is looked up by its exact text, and the
 * parsed sections are stored only when the lookup gives a truthy key. The
 * reply is an input here; how it was produced is not part of the model.
 */
module Enrichment {
  import opened Common
  import opened Analysis
  import opened LectureParser
  import opened LectureFacts
  import opened TranscriptStore

  /**
   * How the step ends: the sections were stored; no transcript has this text
   * (or its key is falsy), so nothing was written; or the commit broke a
   * unique constraint, which in the source raises IntegrityError.
   */
  datatype Outcome = Stored | NoTranscript | Rejected

  /** Keys start at 1, so a transcript found by its text never has the falsy key 0. */
  lemma FoundKeyIsTruthy(rows: seq<Transcript>, next: nat, text: string)
    requires TranscriptKeysBelow(rows, next)
    ensures TranscriptByText(rows, text).Some? ==> TranscriptByText(rows, text).value.id != 0
  {
    var r := TranscriptByText(rows, text);
    if r.Some? {
      var i :| 0 <= i < |rows| && rows[i] == r.value;
    }
  }

  /**
   * `llama.py:120-123` for one file: parse the reply, look the transcript up by
   * its text, and insert the sections under its key when the key is truthy.
   */
  method EnrichTranscript(store: Store, text: string, reply: string) returns (outcome: Outcome, result: Lecture)
    requires store.Valid()
    modifies store
    ensures store.Valid()
    ensures result == Parse(reply)
    ensures outcome == NoTranscript <==> forall t :: t in old(store.transcripts) ==> t.transcription != text
    ensures outcome == Stored <==>
      var found := old(TranscriptByText(store.transcripts, text));
      found.Some? && old(store.Admits(found.value.id, Parse(reply)))
    ensures outcome != Stored ==>
      store.summaries == old(store.summaries) && store.conclusions == old(store.conclusions) &&
      store.theses == old(store.theses) && store.nextSummaryId == old(store.nextSummaryId) &&
      store.nextConclusionId == old(store.nextConclusionId) && store.nextThesisId == old(store.nextThesisId)
    ensures outcome == Stored ==>
      exists t :: t in old(store.transcripts) && t.transcription == text &&
        store.summaries == old(store.summaries) + Rows(old(store.nextSummaryId), t.id, [result[Summary].text]) &&
        store.conclusions == old(store.conclusions) + Rows(old(store.nextConclusionId), t.id, result[Conclusions].items) &&
        store.theses == old(store.theses) + Rows(old(store.nextThesisId), t.id, result[Theses].items)
    ensures store.transcripts == old(store.transcripts) && store.venues == old(store.venues)
    ensures store.days == old(store.days) && store.nextTranscriptId == old(store.nextTranscriptId)
  {
    result := ParseLecture(reply);
    var id := store.GetTranscriptIdByTranscription(text);
    FoundKeyIsTruthy(store.transcripts, store.nextTranscriptId, text);
    if id.Some? && id.value != 0 {
      var committed := store.InsertSummary(id.value, result);
      outcome := if committed == Committed then Stored else Rejected;
    } else {
      outcome := NoTranscript;
    }
  }

  /**
   * A reply without the conclusions header stores the conclusion "" (llama.py:95,
   * 103). Once such a row exists, every later reply without that header breaks
   * the unique constraint on conclusion texts (db.py:61) and is rejected.
   */
  lemma MissingConclusionsRepeat(conclusions: seq<TextRow>, next: nat, transcriptId: int, reply: string, k: nat)
    requires forall i: nat :: !IsAt(reply, i, ConclusionsHeader)
    requires k < |conclusions| && conclusions[k].text == ""
    ensures Parse(reply)[Conclusions] == Items([""])
    ensures !UniqueTexts(conclusions + Rows(next, transcriptId, Parse(reply)[Conclusions].items))
  {
    MissingHeader(reply, Conclusions);
    RepeatedTextRejected(conclusions, Rows(next, transcriptId, [""]), k, 0);
  }

  /**
   * Two replies for transcripts of the store, neither with a conclusions
   * header: when the first is stored, the second is rejected.
   */
  method MissingConclusionsTwice(store: Store, text1: string, reply1: string, text2: string, reply2: string)
    returns (first: Outcome, second: Outcome)
    requires store.Valid()
    requires forall i: nat :: !IsAt(reply1, i, ConclusionsHeader)
    requires forall i: nat :: !IsAt(reply2, i, ConclusionsHeader)
    modifies store
    ensures first == Stored ==> second != Stored
  {
    var r1, r2;
    first, r1 := EnrichTranscript(store, text1, reply1);
    if first == Stored {
      MissingHeader(reply1, Conclusions);
      ghost var t :| t in old(store.transcripts) && t.transcription == text1 &&
        store.conclusions == old(store.conclusions) + Rows(old(store.nextConclusionId), t.id, r1[Conclusions].items);
      ghost var k := |old(store.conclusions)|;
      assert store.conclusions[k] == Rows(old(store.nextConclusionId), t.id, [""])[0];
      ghost var found := TranscriptByText(store.transcripts, text2);
      if found.Some? {
        MissingConclusionsRepeat(store.conclusions, store.nextConclusionId, found.value.id, reply2, k);
      }
      second, r2 := EnrichTranscript(store, text2, reply2);
    } else {
      second, r2 := EnrichTranscript(store, text2, reply2);
    }
  }
}
