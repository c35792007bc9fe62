# Lecture summaries: reply parser and transcript store

This project models the two working parts of a small pipeline that writes
summaries of lecture transcripts (Russian-language lectures, stored in a
relational database) and proves properties of the model.

* **The reply parser** (`llama.py`). A language model answers with free text
  that should hold three sections: "Краткое содержание:" (the summary),
  "Выводы лекции:" (conclusions) and "Тезисы лекции:" (theses).
  `parse_lecture` cuts each section out with a regular expression. It removes
  markdown `*` and `#` characters, squeezes blank lines and strips the block.
  Then `clean_whitespace` normalises each line: whitespace runs become one
  space and one leading `-` bullet is dropped. The result is a dictionary: a
  string under `summary` and lists of lines under `conclusions` and `theses`.
  The model covers the Python built-ins the parser relies on (`str.isspace`,
  `strip`, `split`, `join`), with the same 29 whitespace code points as
  CPython. It also covers every regular expression: `\s+`, `^\s*-\s*`,
  `[*#]+`, `\n\s*\n`, and the non-greedy capture up to a lookahead, which is
  read as "first occurrence of the header, up to the earliest following stop
  marker or the end of the text".
* **The transcript store** (`db.py`). It is modelled as a class `Store`. Each
  table is a sequence of rows. The transcripts, summaries, conclusions and
  theses tables each have a counter for their next key; the venues and days
  tables have none, because db.py never adds to them.
  The methods mirror `insert_transcript`, the lookups, `get_all_transcripts`
  and `insert_summary`. `insert_summary` stages one summary row plus one row
  per conclusion and per thesis. It commits them all together, or none of them
  when a unique constraint on the texts would break.
* **The enrichment step** (`llama.py:120-123`). The model's reply is an input.
  The step parses the reply, looks the transcript up by its exact text, and
  stores the parsed result when the key it finds is truthy.

Modules: `Common` (Option), `PyText` (Python string built-ins), `Analysis` (the
dictionary `parse_lecture` returns), `LectureParser` (the parser itself),
`LectureFacts` (properties of the parser), `TranscriptStore` (db.py) and
`Enrichment` (the main-loop step).

In these places the code does something other than one might expect, and the
model follows the code:

* Sections do not simply run "until the next header":
  * the summary stops at "Выводы лекции:" or "Тезисы лекции:";
  * the conclusions stop at "Тезисы лекции:" or at "Краткое содержание" without its colon;
  * the theses stop at "Краткое содержание" or "Выводы лекции:";
  * no section stops at a repeat of its own header (`OwnHeaderNeverStops`).
* "At most one summary per transcript" is not enforced. Only the summary
  *text* is unique (db.py:52-53), so the summaries table admits a second
  summary with a new text (`SecondSummaryAllowed`). It is stored when the
  conclusion and thesis texts of the same insert are new as well
  (`Store.Admits`).
* A failed model call does not skip the file. `get_context` returns None, and
  `parse_lecture(None)` raises at llama.py:94. The model only takes replies
  that are strings.
* An `IntegrityError` from `insert_summary` is not caught in the main loop. The
  model reports it as the outcome `Rejected`, with nothing written.

## Model

| member | source | states |
|---|---|---|
| PyText.StripSpec | llama.py:79 | `str.strip()`: the result neither starts nor ends with whitespace; it is empty exactly when the input is all whitespace; it is the contiguous part of the input between a whitespace prefix and a whitespace suffix |
| PyText.StripFixes | llama.py:81 | strip leaves a string unchanged exactly when it neither starts nor ends with whitespace |
| PyText.StripPadded | llama.py:95 | stripping whitespace padding from around a core whose ends are not whitespace gives the core back |
| PyText.StripKeepsVisible | llama.py:79 | strip removes whitespace only: the sequence of non-whitespace characters is unchanged |
| PyText.StripAvoids | llama.py:81 | strip introduces no character that was not in its input |
| PyText.SplitSpec | llama.py:76 | `split('\n')` gives one more part than there are line breaks, and no part holds a line break |
| PyText.JoinSplit | llama.py:82 | `'\n'.join(s.split('\n'))` is `s` |
| PyText.SplitJoin | llama.py:103 | splitting the join of parts that hold no separator gives the parts back |
| PyText.SplitWithout | llama.py:103 | a text without a separator splits into the text alone |
| PyText.SplitAfter | llama.py:76 | splitting `a + sep + t`, where `a` holds no separator, gives `a` followed by the parts of `t` |
| PyText.SplitAvoids | llama.py:76 | a character absent from the text is absent from every part of its split |
| PyText.JoinAvoids | llama.py:82 | a character that is not the separator and is in no part is absent from the join |
| PyText.VisibleInPadding | llama.py:95 | whitespace padding adds no non-whitespace character |
| PyText.LeadingSpacesSpec | llama.py:79 | the leading whitespace count covers only whitespace and stops before the first non-whitespace character |
| PyText.ContentEndSpec | llama.py:79 | everything from the content end on is whitespace, and the character before it is not |
| LectureParser.CollapseSpec | llama.py:79 | after `re.sub(r'\s+', ' ', ...)` the only whitespace left is plain spaces and no two whitespace characters are adjacent |
| LectureParser.CollapseEnds | llama.py:79 | collapsing keeps a text empty exactly when it was, and starting or ending with whitespace exactly when it did |
| LectureParser.CollapseKeepsVisible | llama.py:79 | collapsing changes whitespace only: the non-whitespace characters are kept in order |
| LectureParser.CollapseChars | llama.py:79 | every character after collapsing is an input character or a plain space |
| LectureParser.CollapseAppend | llama.py:79 | collapsing works piece by piece: when the left part is empty or ends in a non-whitespace character, the collapse of the concatenation is the concatenation of the collapses |
| LectureParser.CollapseRunBefore | llama.py:79 | a leading whitespace run of any length, up to a non-whitespace character or the end, becomes exactly one space and the rest is collapsed on its own |
| LectureParser.CollapseGap | llama.py:79 | a whitespace run between two non-whitespace characters (or the ends of the text) becomes exactly one space, with the text on either side collapsed on its own |
| LectureParser.CollapseRun | llama.py:79 | a non-empty text made only of whitespace collapses to a single space |
| LectureParser.CollapseTwoBlanks | llama.py:79 | `"a  b"` collapses to `"a b"` |
| LectureParser.TrimStartKeepsVisible | llama.py:80 | dropping leading whitespace keeps every non-whitespace character |
| LectureParser.RemoveBulletSpec | llama.py:80 | `re.sub(r'^\s*-\s*', '', ...)` leaves a suffix: the whole line when it does not start with whitespace and a dash; otherwise the part after that dash and the whitespace on both sides of it, which starts with a non-whitespace character |
| LectureParser.BulletStep | llama.py:80-81 | on a collapsed, stripped line the bullet step and the final strip keep the line clean and remove at most one leading dash and the space after it |
| LectureParser.CleanSuffix | llama.py:80-81 | cutting a clean line just before a non-whitespace character leaves a clean line |
| LectureParser.PlainHasNoNewline | llama.py:79 | a line whose whitespace is only plain spaces holds no line break |
| LectureParser.CleanLineSpec | llama.py:79-81 | every line `clean_whitespace` emits has no leading or trailing whitespace, no whitespace run of two or more, no line break, and has lost at most one leading `-` bullet with the whitespace after it |
| LectureParser.CleanTextLines | llama.py:76-82 | `clean_whitespace` keeps the number and order of lines: the lines of its result are the cleaned input lines, one for one |
| LectureParser.CleanWhitespace | llama.py:75-82 | the loop builds `'\n'.join` of the cleaned lines, and the split of its result is the cleaned input lines one for one |
| LectureParser.RemoveMarkupSpec | llama.py:97 | `re.sub(r"[*#]+", "", ...)` leaves no `*` or `#`, and keeps every other character as often as it occurred |
| LectureParser.RemoveMarkupChars | llama.py:97 | removing markup adds no character |
| LectureParser.RemoveMarkupFixes | llama.py:97 | a text without `*` or `#` is left unchanged |
| LectureParser.RemoveMarkupAppend | llama.py:97 | removing markup works piece by piece: the result for a concatenation is the concatenation of the results, so each kept character stays in its place |
| LectureParser.RemoveMarkupExample | llama.py:97 | `"*ab"` becomes `"ab"` |
| LectureParser.AfterLastNewlineSpec | llama.py:99 | the greedy `\s*` of `\n\s*\n` backs off to just after the last line break of the whitespace run |
| LectureParser.BlankLinesSpec | llama.py:99 | `\n\s*\n` matches at a position exactly when a line break is followed by whitespace that holds another line break; the match is whitespace from one line break to the last one in the run |
| LectureParser.SqueezeSpec | llama.py:99 | squeezing blank lines removes only whitespace and adds no character |
| LectureParser.NoBlankLinesCons | llama.py:99 | a text has no blank-line match anywhere exactly when its head has none and its tail has none |
| LectureParser.BreakWithoutGap | llama.py:99 | a line break followed by whitespace without a line break is not a blank-line match |
| LectureParser.SqueezeLead | llama.py:99 | squeezing keeps a text's leading whitespace free of line breaks when it was |
| LectureParser.SqueezeLeavesNoBlankLines | llama.py:99 | after the substitution no `\n\s*\n` match is left anywhere |
| LectureParser.SqueezeFixes | llama.py:99 | a text with no blank-line match is left unchanged |
| LectureParser.NonBlankFrom | llama.py:99 | every line kept as non-blank is a line of the input and is not whitespace only |
| LectureParser.NonBlankAppend | llama.py:99 | keeping the non-blank lines of two runs of lines one after the other keeps the non-blank lines of each |
| LectureParser.SqueezedNonBlankEnds | llama.py:99 | when the first and the last line are not whitespace only, the lines left are exactly the non-blank lines, in order |
| LectureParser.SqueezeLines | llama.py:99 | the lines of the result of `re.sub(r"\n\s*\n", "\n", s)` are the first and the last line of `s` with, between them, the lines of `s` that are not whitespace only, each unchanged and in order: each gap becomes exactly one line break |
| LectureParser.FindFromSpec | llama.py:94 | the header search returns the first position from the start where the header occurs, and fails exactly when it occurs nowhere after the start |
| LectureParser.StopFromSpec | llama.py:87-89 | the lookahead `(?=A\|B\|\Z)` ends the group at the earliest later position where a stop marker occurs, or at the end of the text |
| LectureParser.FirstOccurrenceUnique | llama.py:94 | the first occurrence of a header is unique |
| LectureParser.EarliestStopUnique | llama.py:87-89 | the end of a group is unique |
| LectureParser.FindFirst | llama.py:94 | searching from the start finds the first occurrence of the header, and fails exactly when it never occurs |
| LectureParser.SearchFails | llama.py:94 | `re.search` finds no match exactly when the header never occurs in the text |
| LectureParser.SearchGroup | llama.py:87-89 | when the header first occurs at `i` and the earliest stop after it is at `e`, `match.group(1)` is the text between the end of the header and `e` |
| LectureParser.ParseField | llama.py:93-103 | one loop pass computes the field of its key from that key's pattern |
| LectureParser.ParseWellFormed | llama.py:92-104 | the result has exactly the keys summary, conclusions and theses; the summary is a string; the other two are lists of at least one line |
| LectureParser.ParsedStep | llama.py:93-103 | each loop pass adds the field of the next key in dictionary order |
| LectureParser.ParsedAll | llama.py:92-104 | after the pass over all three patterns the dictionary is the full result |
| LectureParser.ParseLecture | llama.py:84-104 | the loop over the three patterns returns the parse of the reply, always with the three keys, and the two lists are never empty |
| LectureFacts.CollapseFixes | llama.py:79 | collapsing leaves a line unchanged exactly when its only whitespace is single plain spaces |
| LectureFacts.CleanLineFixes | llama.py:79-81 | cleaning leaves a line unchanged exactly when it is already clean and does not start with `-` |
| LectureFacts.CleanLineBullet | llama.py:80 | cleaning `"- " + s` gives `s` for a clean non-empty `s` |
| LectureFacts.OneBulletPerLine | llama.py:80 | only one bullet goes per line: `"- - a"` becomes `"- a"` |
| LectureFacts.FieldLines | llama.py:99-103 | the lines of each field are the cleaned lines of its squeezed block, as many as the block has, each clean, without a line break, and with at most one bullet lost |
| LectureFacts.CleanLineAvoids | llama.py:79-81 | cleaning a line introduces no character other than a space |
| LectureFacts.CleanTextAvoids | llama.py:75-82 | `clean_whitespace` introduces no character other than a space or a line break |
| LectureFacts.BlockHasNoMarkup | llama.py:95-99 | the processed block holds no `*` or `#` |
| LectureFacts.ParseHasNoMarkup | llama.py:97 | neither the summary nor any conclusion or thesis contains `*` or `#` |
| LectureFacts.MissingHeader | llama.py:95 | when a header occurs nowhere in the reply, its field is `""` for the summary and `[""]` for the conclusions or the theses |
| LectureFacts.MarkersShaped | llama.py:87-89 | each header and stop marker starts with its own initial, К, В or Т, which occurs nowhere else in the marker |
| LectureFacts.PatternMarkers | llama.py:86-90 | every header and stop marker of the three patterns is one of the four markers |
| LectureFacts.HeadersDiffer | llama.py:87-89 | the three headers start with different letters |
| LectureFacts.OwnHeaderNeverStops | llama.py:87-89 | no section stops at a repeat of its own header |
| LectureFacts.OtherHeaderStops | llama.py:87-89 | every section stops at the header of each other section |
| LectureFacts.SectionClear | llama.py:87-89 | after a header, a body without markers and a marker start, no marker can start inside the header or the body |
| LectureFacts.SectionGroup | llama.py:87-89 | a header, then a body without markers, then another section's header or the end of the text: the section's group is exactly the body |
| LectureFacts.SectionSkipped | llama.py:94 | another section's header cannot occur inside a section whose body holds no markers |
| LectureFacts.LayoutHead | llama.py:87-89 | a reply built from sections starts with the first section's header |
| LectureFacts.LayoutSearch | llama.py:86-95 | in a reply made of distinct sections in any order, with bodies that hold no markers, each section's group is exactly its body |
| LectureFacts.LayoutWithout | llama.py:94 | the header of a section left out of such a reply occurs nowhere in it |
| LectureFacts.LayoutAbsent | llama.py:94-95 | a section left out of such a reply is not found |
| LectureFacts.SearchNone | llama.py:94 | a header that never occurs gives no match |
| LectureFacts.ShortIsMarkerFree | llama.py:87-89 | a body shorter than 14 characters cannot hold a marker |
| LectureFacts.NoBreakNoBlankLines | llama.py:99 | a text without a line break has no blank-line match |
| LectureFacts.OneLineField | llama.py:95-103 | a body that is one clean line padded with whitespace gives that line, cleaned, as the summary or as the one list item |
| LectureFacts.PlainLineField | llama.py:95-103 | a body holding one plain line between two line breaks gives that line |
| LectureFacts.BulletLineField | llama.py:95-103 | a body holding one bulleted line gives that line without its bullet |
| LectureFacts.ListSqueeze | llama.py:99 | squeezing the join of lines that hold no line break, the first not starting and the last not ending with whitespace, gives the join of their non-blank lines |
| LectureFacts.ListBlock | llama.py:94-99 | a body of several lines padded with whitespace, without markup, its first and last lines not starting or ending with whitespace, becomes the join of its non-blank lines, whose split gives those lines back |
| LectureFacts.ListField | llama.py:95-103 | such a body gives its non-blank lines, each cleaned, in order: joined as the summary, or as the list of conclusions or theses |
| LectureFacts.BlankLineBetweenItems | llama.py:95-103 | two bulleted lines with a blank line between them give a list of exactly two items, each without its bullet |
| LectureFacts.ExampleLayout | llama.py:84-104 | the worked reply is its three sections in order |
| LectureFacts.ExampleSearches | llama.py:87-94 | in a reply of three short sections in prompt order, each group is its body |
| LectureFacts.ParseFrom | llama.py:92-104 | the parse is the dictionary of the three fields its loop computes |
| LectureFacts.OneLineReplyParses | llama.py:84-104 | a reply with one short line per section, the lists bulleted, parses to that summary line and the two one-item lists without bullets |
| LectureFacts.WorkedExample | llama.py:84-104 | the reply "Краткое содержание:\nО теме X.\nВыводы лекции:\n- Вывод А\nТезисы лекции:\n- Тезис Б" parses to the summary "О теме X.", the conclusions ["Вывод А"] and the theses ["Тезис Б"] |
| TranscriptStore.TranscriptById | db.py:97 | `filter_by(id=...).first()`: a row with that key from the table, and none exactly when no row has the key |
| TranscriptStore.TranscriptByText | db.py:165-167 | a row whose transcription equals the text exactly, and none exactly when no row matches |
| TranscriptStore.VenueById | db.py:141 | a venue with that key, and none exactly when no venue has the key |
| TranscriptStore.DayById | db.py:142 | a day with that key, and none exactly when no day has the key |
| TranscriptStore.TranscriptByIdAppend | db.py:79-99 | after a row with a fresh key is appended, looking up that key gives the row and looking up any other key gives what it gave before |
| TranscriptStore.TranscriptByIdUnique | db.py:21 | with unique keys, looking up a row's key gives that row |
| TranscriptStore.InsertByDate | db.py:91 | inserting one tuple into a list ordered newest first keeps it ordered and adds exactly that tuple |
| TranscriptStore.NewestFirstCons | db.py:91 | a tuple at least as new as every tuple of an ordered list can go in front |
| TranscriptStore.SortNewestFirst | db.py:91 | `ORDER BY created_at DESC`: the result is ordered by non-increasing creation time and is a permutation of the input |
| TranscriptStore.KeysBelowAppend | db.py:51 | rows numbered on from the table's next key keep the keys increasing and below the new next key |
| TranscriptStore.UniqueAppend | db.py:53 | a table with a batch added keeps its texts unique exactly when the table and the batch each do and no text is in both |
| TranscriptStore.RepeatedTextRejected | db.py:61 | a batch that repeats a text already in the table breaks the unique constraint |
| TranscriptStore.DuplicateInBatchRejected | db.py:151-157 | a batch holding the same text twice breaks the unique constraint whatever the table holds |
| TranscriptStore.SecondSummaryAllowed | db.py:52-53 | a second summary row for a transcript that already has one is admitted when its text is new: only the text is unique |
| TranscriptStore.Stage | db.py:151-156 | the loops stage one row per element, in order, each referencing the transcript, with consecutive keys |
| TranscriptStore.Store.constructor | db.py:19-71 | an empty database over given venues and days satisfies the schema constraints |
| TranscriptStore.Store.InsertTranscript | db.py:79-86 | appends exactly one transcript row with the given fields and timestamp, returns its key, which no earlier row has; the key then looks up that row, other keys look up what they did before, and no other table changes |
| TranscriptStore.Store.GetAllTranscripts | db.py:89-93 | returns `(filename, created_at, id)` for every transcript, each once, ordered by non-increasing creation time |
| TranscriptStore.Store.GetTranscriptById | db.py:95-99 | returns a transcript with the key, or None exactly when no transcript has the key |
| TranscriptStore.Store.GetTranscriptIdByTranscription | db.py:161-170 | returns the key of a transcript whose text equals the argument exactly, or None exactly when no transcript matches |
| TranscriptStore.Store.GetVenueByTranscriptId | db.py:115-124 | None when the transcript does not exist; otherwise its venue, which is None when the transcript has no venue or the venue is missing |
| TranscriptStore.Store.GetDayByTranscriptId | db.py:127-136 | None when the transcript does not exist; otherwise its day, which may itself be absent |
| TranscriptStore.Store.GetVenueById | db.py:141 | the venue a nullable key names, or None exactly when the key is NULL or no venue has it |
| TranscriptStore.Store.GetDayById | db.py:142 | the day a nullable key names, or None exactly when the key is NULL or no day has it |
| TranscriptStore.Store.GetVenueDayById | db.py:139-144 | the venue and the day are looked up independently from nullable keys, each None exactly when its key is NULL or no row has it |
| TranscriptStore.Store.InsertSummary | db.py:147-159 | commits exactly when the summary, conclusion and theses tables all keep unique texts with the staged rows; it then adds one summary row, one row per conclusion and one per thesis, all referencing the transcript; otherwise nothing changes; the transcripts, venues and days never change |
| TranscriptStore.Store.Write | db.py:157 | an admitted commit appends the staged rows, moves the key counters on, and keeps the schema constraints |
| Enrichment.FoundKeyIsTruthy | llama.py:122 | a key found by text lookup is never the falsy 0, because keys start at 1 |
| Enrichment.EnrichTranscript | llama.py:120-123 | the result is the parse of the reply; the outcome is NoTranscript exactly when no transcript has the text; nothing is written unless the outcome is Stored; the sections are stored exactly when a transcript matches and the unique constraints admit its rows, and then they are stored under that transcript's key; the transcripts, venues and days never change |
| Enrichment.MissingConclusionsRepeat | llama.py:101-103 | a reply without the conclusions header yields the conclusion `""`; once such a row exists, the rows of another such reply break the unique constraint |
| Enrichment.MissingConclusionsTwice | llama.py:120-123 | of two replies without a conclusions header, if the first is stored then the second is not |

## Left out

- `get_context` (llama.py:57-73): tokenizer, truncation to 7192 tokens, and the text-generation pipeline. These are calls into libraries. The reply is a parameter of `EnrichTranscript`.
- Module setup in llama.py:9-26 (environment, login, device, model loading) and the prompt text at llama.py:28-54.
- `get_all_files` and the file loop (llama.py:106-124): file-system I/O and printing. Only one pass of the loop body is modelled.
- `parse_lecture(None)`: when the model call fails, the TypeError it raises at llama.py:94 is outside the model. Replies are strings.
- gigachat_file.py: a script of LangChain prompt templating, a network call and JSON parsing. It holds no logic of the repository's own.
- db.py:12-17 and 76-77: the engine, the session factory and `init_db`. Each method of `Store` stands for one session and its commit.
- `get_all_venues` and `get_all_days` (db.py:101-111): each returns a whole table, which is the `venues` or `days` field. db.py has no operation that adds venues or days, so the constructor takes them.
- Foreign keys on `venue_id`, `day_id` and `transcript_id`: whether they are enforced depends on the database behind `DB_URL`, so the model does not enforce them.
- Key values: keys come from per-table counters starting at 1. A real database may skip values, for example after a rolled-back insert.
- `created_at` (db.py:24): the wall clock is the parameter `now` of `InsertTranscript`.
- The order of rows that `.first()` and `ORDER BY created_at DESC` leave open. Among rows with the same text, the lookup returns the first one inserted. Ties in `created_at` may come back in any order that keeps the tuples sorted.
- Concurrency between sessions: every operation runs alone.
- The ORM objects and lazy relationships (db.py:27-32, 40, 47, 55, 63, 71): lookups return row values, and the relationship attributes are the key lookups they stand for.
- Enrichment.EnrichTranscript: the source lets an IntegrityError escape and end the main loop. The model returns `Rejected` instead, and stops there.
