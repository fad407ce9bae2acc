/** The tables of the `simtooreal` database, as in-memory rows. Every table
    has a serial first column. A table is a sequence in insertion order, and
    the model assumes a SELECT without ORDER BY returns its rows in that
    order; PostgreSQL does not promise this. */
module Store {
  import opened Wrappers

  /** A row of `public.robots` or `public.items`: (serial id, name). */
  datatype NamedRow = NamedRow(id: nat, name: string)

  type Timestamp = int

  /** A row of `public.picks`, in the positional order of its INSERT:
      (default, current_timestamp, item id, robot id). */
  datatype PickRow = PickRow(id: nat, pickedAt: Timestamp, itemId: nat, robotId: nat)

  /** A row of `public.questions`: (serial id, question_text, question_topic). */
  datatype QuestionRow = QuestionRow(id: nat, text: string, topic: string)

  /** The serial ids of a table grow with each insert and stay below the
      sequence's next value. */
  predicate NamedIdsBelow(rows: seq<NamedRow>, next: nat) {
    && (forall i :: 0 <= i < |rows| ==> rows[i].id < next)
    && (forall i :: 0 < i < |rows| ==> rows[i - 1].id < rows[i].id)
  }

  predicate PickIdsBelow(rows: seq<PickRow>, next: nat) {
    && (forall i :: 0 <= i < |rows| ==> rows[i].id < next)
    && (forall i :: 0 < i < |rows| ==> rows[i - 1].id < rows[i].id)
  }

  predicate QuestionIdsBelow(rows: seq<QuestionRow>, next: nat) {
    && (forall i :: 0 <= i < |rows| ==> rows[i].id < next)
    && (forall i :: 0 < i < |rows| ==> rows[i - 1].id < rows[i].id)
  }

  /** Appending a row that takes the sequence's next value keeps the ids
      increasing and below the advanced sequence. */
  lemma NamedAppend(rows: seq<NamedRow>, next: nat, name: string)
    requires NamedIdsBelow(rows, next)
    ensures NamedIdsBelow(rows + [NamedRow(next, name)], next + 1)
  {
  }

  lemma PickAppend(rows: seq<PickRow>, row: PickRow, next: nat)
    requires PickIdsBelow(rows, next) && row.id == next
    ensures PickIdsBelow(rows + [row], next + 1)
  {
  }

  lemma QuestionAppend(rows: seq<QuestionRow>, row: QuestionRow, next: nat)
    requires QuestionIdsBelow(rows, next) && row.id == next
    ensures QuestionIdsBelow(rows + [row], next + 1)
  {
  }

  /** `SELECT * ... WHERE name = %s` followed by `fetchone()`: the index of
      the first row carrying `name`, or None when no row does. */
  function FirstNamed(rows: seq<NamedRow>, name: string): (r: Option<nat>)
    ensures r.Some? ==> r.value < |rows| && rows[r.value].name == name
    ensures r.Some? ==> forall j :: 0 <= j < r.value ==> rows[j].name != name
    ensures r.None? <==> forall j :: 0 <= j < |rows| ==> rows[j].name != name
  {
    if rows == [] then None
    else if rows[0].name == name then Some(0)
    else match FirstNamed(rows[1..], name)
      case None => None
      case Some(k) => Some(k + 1)
  }

  /** No two rows of a robots or items table carry the same name. */
  predicate DistinctNames(rows: seq<NamedRow>) {
    forall i, j :: 0 <= i < j < |rows| ==> rows[i].name != rows[j].name
  }

  /** The row that `fetchone()` returns. */
  function Lookup(rows: seq<NamedRow>, name: string): (r: Option<NamedRow>) {
    match FirstNamed(rows, name)
    case None => None
    case Some(i) => Some(rows[i])
  }

  /** With distinct names, whichever row carries the name is the row the
      lookup returns, so the order in which `fetchone()` sees the rows does
      not matter. */
  lemma LookupUnique(rows: seq<NamedRow>, i: nat)
    requires DistinctNames(rows) && i < |rows|
    ensures Lookup(rows, rows[i].name) == Some(rows[i])
  {
    assert FirstNamed(rows, rows[i].name).Some?;
  }

  /** Appending a row whose name no row carries keeps the names distinct. */
  lemma DistinctAppend(rows: seq<NamedRow>, row: NamedRow)
    requires DistinctNames(rows) && Lookup(rows, row.name).None?
    ensures DistinctNames(rows + [row])
  {
    var s := rows + [row];
    forall i, j | 0 <= i < j < |s|
      ensures s[i].name != s[j].name
    {
      if j == |rows| {
        assert s[i] == rows[i];
      } else {
        assert s[i] == rows[i] && s[j] == rows[j];
      }
    }
  }

  /** After inserting a row for a name that had none, the lookup finds exactly
      that row. */
  lemma LookupAppendMissing(rows: seq<NamedRow>, row: NamedRow)
    requires Lookup(rows, row.name).None?
    ensures Lookup(rows + [row], row.name) == Some(row)
  {
    var s := rows + [row];
    assert s[|rows|] == row;
    assert forall j :: 0 <= j < |rows| ==> s[j] == rows[j];
  }

  /** `SELECT question_text FROM public.questions`, one value per row. */
  function QuestionTexts(rows: seq<QuestionRow>): (texts: seq<string>)
    ensures |texts| == |rows| && forall i :: 0 <= i < |rows| ==> texts[i] == rows[i].text
  {
    seq(|rows|, i requires 0 <= i < |rows| => rows[i].text)
  }

  /** `SELECT question_topic FROM public.questions`, one value per row. */
  function QuestionTopics(rows: seq<QuestionRow>): (topics: seq<string>)
    ensures |topics| == |rows| && forall i :: 0 <= i < |rows| ==> topics[i] == rows[i].topic
  {
    seq(|rows|, i requires 0 <= i < |rows| => rows[i].topic)
  }
}
