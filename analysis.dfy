/**
 * The dictionary `parse_lecture` returns and `insert_summary` consumes
 * (llama.py:92-104, db.py:147-159): three fixed keys, a string under
 * "summary" and lists of strings under "conclusions" and "theses".
 */
module Analysis {

  datatype Key = Summary | Conclusions | Theses

  /** A value of the dictionary: a single string or a list of strings. */
  datatype Field = Text(text: string) | Items(items: seq<string>)

  type Lecture = map<Key, Field>

  const AllKeys: set<Key> := {Summary, Conclusions, Theses}

  /** What `insert_summary` reads of its argument without raising a `KeyError` or iterating over a string. */
  predicate WellFormed(r: Lecture) {
    r.Keys == AllKeys && r[Summary].Text? && r[Conclusions].Items? && r[Theses].Items?
  }
}
