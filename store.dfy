/**
 * The transcript database of db.py as an in-memory relational store.
 *
 * Each table (db.py:19-71) is a sequence of rows in insertion order, and each
 * table has its own counter for the next primary key, starting at 1. The
 * unique constraints on the summary, conclusion and thesis texts (db.py:53,
 * 61, 69) are checked when a batch of rows is committed; a batch that breaks
 * one of them is rolled back as a whole.
 */
module TranscriptStore {
  import opened Common
  import opened Analysis

  /** A row of `transcripts` (db.py:19-32); `createdAt` is the timestamp the database filled in. */
  datatype Transcript = Transcript(
    id: nat,
    filename: string,
    transcription: string,
    createdAt: int,
    venueId: Option<int>,
    dayId: Option<int>)

  /** A row of `venues` (db.py:35-40). */
  datatype Venue = Venue(id: nat, name: string)

  /** A row of `days` (db.py:42-47). */
  datatype Day = Day(id: nat, name: string)

  /**
   * A row of `summary`, `conclusions` or `theses` (db.py:49-71): the three tables
   * have the same columns, a key, a transcript reference and one unique text.
   */
  datatype TextRow = TextRow(id: nat, transcriptId: int, text: string)

  /** One tuple of `get_all_transcripts` (db.py:91): filename, creation time and key. */
  datatype Listed = Listed(filename: string, createdAt: int, id: nat)

  /** How the single commit of `insert_summary` ends (db.py:157). */
  datatype Commit = Committed | IntegrityError

  // ---------------------------------------------------------------------------
  // Lookups: the first row a query's filter keeps, as `.first()` returns it
  // ---------------------------------------------------------------------------

  function TranscriptById(rows: seq<Transcript>, id: int): (r: Option<Transcript>)
    ensures r.Some? ==> r.value in rows && r.value.id == id
    ensures r.None? <==> forall t :: t in rows ==> t.id != id
  {
    if rows == [] then None
    else if rows[0].id == id then Some(rows[0])
    else TranscriptById(rows[1..], id)
  }

  function TranscriptByText(rows: seq<Transcript>, text: string): (r: Option<Transcript>)
    ensures r.Some? ==> r.value in rows && r.value.transcription == text
    ensures r.None? <==> forall t :: t in rows ==> t.transcription != text
  {
    if rows == [] then None
    else if rows[0].transcription == text then Some(rows[0])
    else TranscriptByText(rows[1..], text)
  }

  function VenueById(rows: seq<Venue>, id: int): (r: Option<Venue>)
    ensures r.Some? ==> r.value in rows && r.value.id == id
    ensures r.None? <==> forall v :: v in rows ==> v.id != id
  {
    if rows == [] then None
    else if rows[0].id == id then Some(rows[0])
    else VenueById(rows[1..], id)
  }

  function DayById(rows: seq<Day>, id: int): (r: Option<Day>)
    ensures r.Some? ==> r.value in rows && r.value.id == id
    ensures r.None? <==> forall d :: d in rows ==> d.id != id
  {
    if rows == [] then None
    else if rows[0].id == id then Some(rows[0])
    else DayById(rows[1..], id)
  }

  /** A nullable foreign key followed to its row: NULL and a dangling key both give None. */
  function VenueOf(venues: seq<Venue>, key: Option<int>): Option<Venue> {
    if key.None? then None else VenueById(venues, key.value)
  }

  function DayOf(days: seq<Day>, key: Option<int>): Option<Day> {
    if key.None? then None else DayById(days, key.value)
  }

  /** Looking a key up in a table after a row with a fresh key was appended. */
  lemma {:induction false} TranscriptByIdAppend(rows: seq<Transcript>, t: Transcript, id: int)
    requires forall u :: u in rows ==> u.id != t.id
    ensures TranscriptById(rows + [t], id) == if id == t.id then Some(t) else TranscriptById(rows, id)
  {
    if rows != [] {
      assert (rows + [t])[1..] == rows[1..] + [t];
      TranscriptByIdAppend(rows[1..], t, id);
    } else {
      assert rows + [t] == [t];
    }
  }

  /** With distinct keys, the row `.first()` finds is the one row with that key. */
  lemma TranscriptByIdUnique(rows: seq<Transcript>, i: nat)
    requires i < |rows|
    requires forall a, b :: 0 <= a < b < |rows| ==> rows[a].id != rows[b].id
    ensures TranscriptById(rows, rows[i].id) == Some(rows[i])
  {
    var r := TranscriptById(rows, rows[i].id);
    var k :| 0 <= k < |rows| && rows[k] == r.value;
    assert rows[k].id == rows[i].id;
  }

  // ---------------------------------------------------------------------------
  // get_all_transcripts: newest first
  // ---------------------------------------------------------------------------

  function Listing(rows: seq<Transcript>): (r: seq<Listed>)
    ensures |r| == |rows|
    ensures forall i :: 0 <= i < |rows| ==>
      r[i] == Listed(rows[i].filename, rows[i].createdAt, rows[i].id)
  {
    seq(|rows|, i requires 0 <= i < |rows| => Listed(rows[i].filename, rows[i].createdAt, rows[i].id))
  }

  /** Ordered by non-increasing creation time. */
  predicate NewestFirst(r: seq<Listed>) {
    forall i, j :: 0 <= i < j < |r| ==> r[i].createdAt >= r[j].createdAt
  }

  /** Places `x` after every entry at least as new and before every older one. */
  function InsertByDate(x: Listed, r: seq<Listed>): (s: seq<Listed>)
    requires NewestFirst(r)
    ensures NewestFirst(s)
    ensures multiset(s) == multiset(r) + multiset{x}
    ensures forall e :: e in s ==> e == x || e in r
  {
    if r == [] || r[0].createdAt <= x.createdAt then
      NewestFirstCons(x, r);
      [x] + r
    else
      NewestFirstTail(r);
      var rest := InsertByDate(x, r[1..]);
      InsertBehindHead(x, r, rest);
      [r[0]] + rest
  }

  /** The head of a newest-first list stays in front when `x` is older and went into the tail. */
  lemma InsertBehindHead(x: Listed, r: seq<Listed>, rest: seq<Listed>)
    requires NewestFirst(r) && r != [] && x.createdAt < r[0].createdAt
    requires NewestFirst(rest) && multiset(rest) == multiset(r[1..]) + multiset{x}
    requires forall e :: e in rest ==> e == x || e in r[1..]
    ensures var s := [r[0]] + rest;
      NewestFirst(s) && multiset(s) == multiset(r) + multiset{x} && forall e :: e in s ==> e == x || e in r
  {
    assert r == [r[0]] + r[1..];
    NoNewerThanHead(x, r, rest);
    NewestFirstCons(r[0], rest);
  }

  lemma NewestFirstTail(r: seq<Listed>)
    requires NewestFirst(r) && r != []
    ensures NewestFirst(r[1..]) && forall e :: e in r[1..] ==> e.createdAt <= r[0].createdAt
  {
    forall e | e in r[1..]
      ensures e.createdAt <= r[0].createdAt
    {
      var k :| 0 <= k < |r[1..]| && r[1..][k] == e;
      assert r[k + 1] == e;
    }
  }

  /** What goes behind the head of a newest-first list is no newer than the head. */
  lemma NoNewerThanHead(x: Listed, r: seq<Listed>, rest: seq<Listed>)
    requires NewestFirst(r) && r != [] && x.createdAt < r[0].createdAt
    requires forall e :: e in rest ==> e == x || e in r[1..]
    ensures forall e :: e in rest ==> e.createdAt <= r[0].createdAt
  {
    NewestFirstTail(r);
  }

  /** An entry at least as new as everything after it can go in front. */
  lemma NewestFirstCons(x: Listed, r: seq<Listed>)
    requires NewestFirst(r)
    requires forall e :: e in r ==> e.createdAt <= x.createdAt
    ensures NewestFirst([x] + r)
  {
    var s := [x] + r;
    forall i, j | 0 <= i < j < |s|
      ensures s[i].createdAt >= s[j].createdAt
    {
      assert s[j] == r[j - 1];
      if i > 0 {
        assert s[i] == r[i - 1];
      }
    }
  }

  /** The ORDER BY created_at DESC of db.py:91, as an insertion sort. */
  function SortNewestFirst(r: seq<Listed>): (s: seq<Listed>)
    ensures NewestFirst(s)
    ensures multiset(s) == multiset(r)
  {
    if r == [] then []
    else
      assert r == [r[0]] + r[1..];
      InsertByDate(r[0], SortNewestFirst(r[1..]))
  }

  // ---------------------------------------------------------------------------
  // The unique text columns and the rows one insert_summary stages
  // ---------------------------------------------------------------------------

  /** No two rows of a table share their text: the unique constraint of db.py:53, 61, 69. */
  predicate UniqueTexts(rows: seq<TextRow>) {
    forall i, j :: 0 <= i < j < |rows| ==> rows[i].text != rows[j].text
  }

  /** Row keys grow in insertion order and stay below the table's next key. */
  predicate KeysBelow(rows: seq<TextRow>, next: nat) {
    1 <= next &&
    (forall i :: 0 <= i < |rows| ==> 1 <= rows[i].id < next) &&
    (forall i, j :: 0 <= i < j < |rows| ==> rows[i].id < rows[j].id)
  }

  /** One row per text, all referencing `transcriptId`, keys numbered from `first`. */
  function Rows(first: nat, transcriptId: int, texts: seq<string>): (r: seq<TextRow>)
    ensures |r| == |texts|
    ensures forall i :: 0 <= i < |texts| ==> r[i] == TextRow(first + i, transcriptId, texts[i])
  {
    seq(|texts|, i requires 0 <= i < |texts| => TextRow(first + i, transcriptId, texts[i]))
  }

  /** Appending a batch numbered from the table's next key keeps the keys in order. */
  lemma KeysBelowAppend(rows: seq<TextRow>, next: nat, transcriptId: int, texts: seq<string>)
    requires KeysBelow(rows, next)
    ensures KeysBelow(rows + Rows(next, transcriptId, texts), next + |texts|)
  {
    var c := rows + Rows(next, transcriptId, texts);
    forall i, j | 0 <= i < j < |c|
      ensures c[i].id < c[j].id
    {
      if j >= |rows| {
        assert c[j].id == next + (j - |rows|);
      }
    }
  }

  /**
   * A table with a batch appended keeps its texts unique exactly when the table
   * and the batch each do and no text of the batch is already in the table.
   */
  lemma UniqueAppend(a: seq<TextRow>, b: seq<TextRow>)
    ensures UniqueTexts(a + b) <==>
      UniqueTexts(a) && UniqueTexts(b) &&
      forall i, j :: 0 <= i < |a| && 0 <= j < |b| ==> a[i].text != b[j].text
  {
    var c := a + b;
    if UniqueTexts(a) && UniqueTexts(b) && forall i, j :: 0 <= i < |a| && 0 <= j < |b| ==> a[i].text != b[j].text {
      forall i, j | 0 <= i < j < |c|
        ensures c[i].text != c[j].text
      {
        if j >= |a| {
          assert c[j] == b[j - |a|];
          if i >= |a| {
            assert c[i] == b[i - |a|];
          }
        }
      }
    }
    if UniqueTexts(c) {
      forall i, j | 0 <= i < j < |a|
        ensures a[i].text != a[j].text
      {
        assert c[i] == a[i] && c[j] == a[j];
      }
      forall i, j | 0 <= i < j < |b|
        ensures b[i].text != b[j].text
      {
        assert c[|a| + i] == b[i] && c[|a| + j] == b[j];
      }
      forall i, j | 0 <= i < |a| && 0 <= j < |b|
        ensures a[i].text != b[j].text
      {
        assert c[i] == a[i] && c[|a| + j] == b[j];
      }
    }
  }

  /** A text that is already in the table makes the batch that repeats it fail. */
  lemma RepeatedTextRejected(table: seq<TextRow>, batch: seq<TextRow>, i: nat, j: nat)
    requires i < |table| && j < |batch| && table[i].text == batch[j].text
    ensures !UniqueTexts(table + batch)
  {
    UniqueAppend(table, batch);
  }

  /** A batch that holds the same text twice fails whatever the table holds. */
  lemma DuplicateInBatchRejected(table: seq<TextRow>, batch: seq<TextRow>, i: nat, j: nat)
    requires i < j < |batch| && batch[i].text == batch[j].text
    ensures !UniqueTexts(table + batch)
  {
    UniqueAppend(table, batch);
  }

  /**
   * Nothing ties a summary to one transcript: a second summary row for a
   * transcript that already has one is admitted when its text is new.
   */
  lemma SecondSummaryAllowed(summaries: seq<TextRow>, id: nat, transcriptId: int, text: string, k: nat)
    requires UniqueTexts(summaries)
    requires k < |summaries| && summaries[k].transcriptId == transcriptId
    requires forall r :: r in summaries ==> r.text != text
    ensures UniqueTexts(summaries + [TextRow(id, transcriptId, text)])
  {
    var added := TextRow(id, transcriptId, text);
    UniqueAppend(summaries, [added]);
    forall i | 0 <= i < |summaries|
      ensures summaries[i].text != added.text
    {
      assert summaries[i] in summaries;
    }
  }

  /** Transcript keys grow in insertion order and stay below the next key. */
  predicate TranscriptKeysBelow(rows: seq<Transcript>, next: nat) {
    1 <= next &&
    (forall i :: 0 <= i < |rows| ==> 1 <= rows[i].id < next) &&
    (forall i, j :: 0 <= i < j < |rows| ==> rows[i].id < rows[j].id)
  }

  /** Venue keys and names are unique (db.py:36-38). */
  predicate VenuesDistinct(rows: seq<Venue>) {
    forall i, j :: 0 <= i < j < |rows| ==> rows[i].id != rows[j].id && rows[i].name != rows[j].name
  }

  /** Day keys and names are unique (db.py:43-45). */
  predicate DaysDistinct(rows: seq<Day>) {
    forall i, j :: 0 <= i < j < |rows| ==> rows[i].id != rows[j].id && rows[i].name != rows[j].name
  }

  /**
   * The loops of db.py:151-156: one row per element, in order, each
   * referencing `transcriptId`, keys taken from `first` onwards.
   */
  method Stage(first: nat, transcriptId: int, texts: seq<string>) returns (rows: seq<TextRow>)
    ensures |rows| == |texts|
    ensures forall i :: 0 <= i < |texts| ==> rows[i] == TextRow(first + i, transcriptId, texts[i])
    ensures rows == Rows(first, transcriptId, texts)
  {
    rows := [];
    for i := 0 to |texts|
      invariant |rows| == i
      invariant forall k :: 0 <= k < i ==> rows[k] == TextRow(first + k, transcriptId, texts[k])
    {
      rows := rows + [TextRow(first + i, transcriptId, texts[i])];
    }
  }

  // ---------------------------------------------------------------------------
  // The database
  // ---------------------------------------------------------------------------

  class Store {
    var transcripts: seq<Transcript>
    var venues: seq<Venue>
    var days: seq<Day>
    var summaries: seq<TextRow>
    var conclusions: seq<TextRow>
    var theses: seq<TextRow>
    var nextTranscriptId: nat
    var nextSummaryId: nat
    var nextConclusionId: nat
    var nextThesisId: nat

    /** The constraints the schema of db.py:19-71 keeps on every committed state. */
    predicate Valid()
      reads this
    {
      TranscriptKeysBelow(transcripts, nextTranscriptId) && VenuesDistinct(venues) && DaysDistinct(days) &&
      KeysBelow(summaries, nextSummaryId) && UniqueTexts(summaries) &&
      KeysBelow(conclusions, nextConclusionId) && UniqueTexts(conclusions) &&
      KeysBelow(theses, nextThesisId) && UniqueTexts(theses)
    }

    /**
     * Whether the unique constraints let `insert_summary(transcriptId, result)`
     * commit: each text table stays free of repeated texts once the staged rows
     * are added.
     */
    predicate Admits(transcriptId: int, result: Lecture)
      reads this
      requires WellFormed(result)
    {
      UniqueTexts(summaries + Rows(nextSummaryId, transcriptId, [result[Summary].text])) &&
      UniqueTexts(conclusions + Rows(nextConclusionId, transcriptId, result[Conclusions].items)) &&
      UniqueTexts(theses + Rows(nextThesisId, transcriptId, result[Theses].items))
    }

    /**
     * A database whose venues and days were filled in beforehand (db.py has no
     * operation that adds them) and whose other tables are empty.
     */
    constructor (venues: seq<Venue>, days: seq<Day>)
      requires VenuesDistinct(venues) && DaysDistinct(days)
      ensures Valid()
      ensures this.venues == venues && this.days == days
      ensures transcripts == [] && summaries == [] && conclusions == [] && theses == []
    {
      transcripts, this.venues, this.days := [], venues, days;
      summaries, conclusions, theses := [], [], [];
      nextTranscriptId, nextSummaryId, nextConclusionId, nextThesisId := 1, 1, 1, 1;
    }

    /**
     * `insert_transcript` (db.py:79-86): adds one row, stamped with `now`, and
     * returns its key, which no earlier row has.
     */
    method InsertTranscript(filename: string, transcription: string, venueId: Option<int>, dayId: Option<int>, now: int)
      returns (id: nat)
      requires Valid()
      modifies this
      ensures Valid()
      ensures forall t :: t in old(transcripts) ==> t.id != id
      ensures transcripts == old(transcripts) + [Transcript(id, filename, transcription, now, venueId, dayId)]
      ensures TranscriptById(transcripts, id) == Some(Transcript(id, filename, transcription, now, venueId, dayId))
      ensures forall k :: k != id ==> TranscriptById(transcripts, k) == TranscriptById(old(transcripts), k)
      ensures venues == old(venues) && days == old(days)
      ensures summaries == old(summaries) && conclusions == old(conclusions) && theses == old(theses)
      ensures nextSummaryId == old(nextSummaryId) && nextConclusionId == old(nextConclusionId)
      ensures nextThesisId == old(nextThesisId)
    {
      id := nextTranscriptId;
      var row := Transcript(id, filename, transcription, now, venueId, dayId);
      forall t | t in transcripts
        ensures t.id != id
      {
        var i :| 0 <= i < |transcripts| && transcripts[i] == t;
      }
      forall k: int
        ensures TranscriptById(transcripts + [row], k) == if k == id then Some(row) else TranscriptById(transcripts, k)
      {
        TranscriptByIdAppend(transcripts, row, k);
      }
      transcripts := transcripts + [row];
      nextTranscriptId := nextTranscriptId + 1;
    }

    /** `get_all_transcripts` (db.py:89-93): every transcript, newest first. */
    method GetAllTranscripts() returns (r: seq<Listed>)
      ensures NewestFirst(r)
      ensures multiset(r) == multiset(Listing(transcripts))
    {
      r := SortNewestFirst(Listing(transcripts));
    }

    /** `get_transcript_by_id` (db.py:95-99). */
    method GetTranscriptById(id: int) returns (r: Option<Transcript>)
      ensures r.Some? ==> r.value in transcripts && r.value.id == id
      ensures r.None? <==> forall t :: t in transcripts ==> t.id != id
      ensures r == TranscriptById(transcripts, id)
    {
      var i := 0;
      while i < |transcripts| && transcripts[i].id != id
        invariant 0 <= i <= |transcripts|
        invariant TranscriptById(transcripts, id) == TranscriptById(transcripts[i..], id)
      {
        assert transcripts[i..][1..] == transcripts[i + 1..];
        i := i + 1;
      }
      r := if i < |transcripts| then Some(transcripts[i]) else None;
    }

    /**
     * `get_transcript_id_by_transcription` (db.py:161-170): the key of the first
     * transcript whose text is exactly `text`.
     */
    method GetTranscriptIdByTranscription(text: string) returns (r: Option<nat>)
      ensures r.Some? ==> exists t :: t in transcripts && t.id == r.value && t.transcription == text
      ensures r.None? <==> forall t :: t in transcripts ==> t.transcription != text
      ensures r == (var t := TranscriptByText(transcripts, text); if t.Some? then Some(t.value.id) else None)
    {
      var i := 0;
      while i < |transcripts| && transcripts[i].transcription != text
        invariant 0 <= i <= |transcripts|
        invariant TranscriptByText(transcripts, text) == TranscriptByText(transcripts[i..], text)
      {
        assert transcripts[i..][1..] == transcripts[i + 1..];
        i := i + 1;
      }
      r := if i < |transcripts| then Some(transcripts[i].id) else None;
    }

    /**
     * `get_venue_by_transcript_id` (db.py:115-124): None when the transcript does
     * not exist, otherwise its venue, which may itself be absent.
     */
    method GetVenueByTranscriptId(id: int) returns (r: Option<Venue>)
      ensures TranscriptById(transcripts, id).None? ==> r.None?
      ensures TranscriptById(transcripts, id).Some? ==> r == VenueOf(venues, TranscriptById(transcripts, id).value.venueId)
      ensures r.Some? ==>
        r.value in venues && exists t :: t in transcripts && t.id == id && t.venueId == Some(r.value.id)
    {
      var t := GetTranscriptById(id);
      if t.Some? {
        r := GetVenueById(t.value.venueId);
      } else {
        r := None;
      }
    }

    /** `get_day_by_transcript_id` (db.py:127-136): as for the venue, through `day_id`. */
    method GetDayByTranscriptId(id: int) returns (r: Option<Day>)
      ensures TranscriptById(transcripts, id).None? ==> r.None?
      ensures TranscriptById(transcripts, id).Some? ==> r == DayOf(days, TranscriptById(transcripts, id).value.dayId)
      ensures r.Some? ==>
        r.value in days && exists t :: t in transcripts && t.id == id && t.dayId == Some(r.value.id)
    {
      var t := GetTranscriptById(id);
      if t.Some? {
        r := GetDayById(t.value.dayId);
      } else {
        r := None;
      }
    }

    /** The venue a nullable key names, if any (the venue half of db.py:141). */
    method GetVenueById(key: Option<int>) returns (r: Option<Venue>)
      ensures r == VenueOf(venues, key)
      ensures r.Some? ==> r.value in venues && key == Some(r.value.id)
      ensures r.None? <==> key.None? || forall v :: v in venues ==> v.id != key.value
    {
      r := None;
      if key.Some? {
        var i := 0;
        while i < |venues| && venues[i].id != key.value
          invariant 0 <= i <= |venues|
          invariant VenueById(venues, key.value) == VenueById(venues[i..], key.value)
        {
          assert venues[i..][1..] == venues[i + 1..];
          i := i + 1;
        }
        r := if i < |venues| then Some(venues[i]) else None;
      }
    }

    /** The day a nullable key names, if any (the day half of db.py:142). */
    method GetDayById(key: Option<int>) returns (r: Option<Day>)
      ensures r == DayOf(days, key)
      ensures r.Some? ==> r.value in days && key == Some(r.value.id)
      ensures r.None? <==> key.None? || forall d :: d in days ==> d.id != key.value
    {
      r := None;
      if key.Some? {
        var i := 0;
        while i < |days| && days[i].id != key.value
          invariant 0 <= i <= |days|
          invariant DayById(days, key.value) == DayById(days[i..], key.value)
        {
          assert days[i..][1..] == days[i + 1..];
          i := i + 1;
        }
        r := if i < |days| then Some(days[i]) else None;
      }
    }

    /**
     * `get_venue_day_by_id` (db.py:139-144): the venue and the day looked up
     * independently, each possibly absent. A NULL key (a transcript's
     * `venue_id` or `day_id` may be NULL) filters on `id IS NULL`, which no row
     * meets.
     */
    method GetVenueDayById(venueId: Option<int>, dayId: Option<int>) returns (venue: Option<Venue>, day: Option<Day>)
      ensures venue == VenueOf(venues, venueId) && day == DayOf(days, dayId)
      ensures venue.Some? ==> venue.value in venues && venueId == Some(venue.value.id)
      ensures day.Some? ==> day.value in days && dayId == Some(day.value.id)
      ensures venue.None? <==> venueId.None? || forall v :: v in venues ==> v.id != venueId.value
      ensures day.None? <==> dayId.None? || forall d :: d in days ==> d.id != dayId.value
    {
      venue := GetVenueById(venueId);
      day := GetDayById(dayId);
    }

    /**
     * `insert_summary` (db.py:147-159): stages one summary row and one row per
     * conclusion and thesis, all referencing `transcriptId`, and commits them
     * together. The commit succeeds exactly when every text table keeps its
     * texts unique; otherwise nothing is written.
     */
    method InsertSummary(transcriptId: int, result: Lecture) returns (outcome: Commit)
      requires Valid() && WellFormed(result)
      modifies this
      ensures Valid()
      ensures outcome == Committed <==> old(Admits(transcriptId, result))
      ensures outcome == Committed ==>
        summaries == old(summaries) + Rows(old(nextSummaryId), transcriptId, [result[Summary].text]) &&
        conclusions == old(conclusions) + Rows(old(nextConclusionId), transcriptId, result[Conclusions].items) &&
        theses == old(theses) + Rows(old(nextThesisId), transcriptId, result[Theses].items)
      ensures outcome == IntegrityError ==>
        summaries == old(summaries) && conclusions == old(conclusions) && theses == old(theses) &&
        nextSummaryId == old(nextSummaryId) && nextConclusionId == old(nextConclusionId) &&
        nextThesisId == old(nextThesisId)
      ensures transcripts == old(transcripts) && venues == old(venues) && days == old(days)
      ensures nextTranscriptId == old(nextTranscriptId)
    {
      var summary := Stage(nextSummaryId, transcriptId, [result[Summary].text]);
      var newConclusions := Stage(nextConclusionId, transcriptId, result[Conclusions].items);
      var newTheses := Stage(nextThesisId, transcriptId, result[Theses].items);
      KeysBelowAppend(summaries, nextSummaryId, transcriptId, [result[Summary].text]);
      KeysBelowAppend(conclusions, nextConclusionId, transcriptId, result[Conclusions].items);
      KeysBelowAppend(theses, nextThesisId, transcriptId, result[Theses].items);
      if UniqueTexts(summaries + summary) && UniqueTexts(conclusions + newConclusions) && UniqueTexts(theses + newTheses) {
        Write(summary, newConclusions, newTheses);
        outcome := Committed;
      } else {
        outcome := IntegrityError;
      }
    }

    /** A commit the unique constraints admit: every staged row is written and the keys move on. */
    method Write(s: seq<TextRow>, c: seq<TextRow>, t: seq<TextRow>)
      requires Valid()
      requires KeysBelow(summaries + s, nextSummaryId + |s|) && UniqueTexts(summaries + s)
      requires KeysBelow(conclusions + c, nextConclusionId + |c|) && UniqueTexts(conclusions + c)
      requires KeysBelow(theses + t, nextThesisId + |t|) && UniqueTexts(theses + t)
      modifies this
      ensures Valid()
      ensures summaries == old(summaries) + s && conclusions == old(conclusions) + c && theses == old(theses) + t
      ensures nextSummaryId == old(nextSummaryId) + |s| && nextConclusionId == old(nextConclusionId) + |c|
      ensures nextThesisId == old(nextThesisId) + |t|
      ensures transcripts == old(transcripts) && venues == old(venues) && days == old(days)
      ensures nextTranscriptId == old(nextTranscriptId)
    {
      summaries, conclusions, theses := summaries + s, conclusions + c, theses + t;
      nextSummaryId, nextConclusionId, nextThesisId := nextSummaryId + |s|, nextConclusionId + |c|, nextThesisId + |t|;
    }
  }
}
