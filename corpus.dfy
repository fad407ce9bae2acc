/** The training corpus of the retraining loop: the seed texts and topics read
    from topics.csv, combined with the rows fetched from the questions table.
    A pandas Series is a sequence of (index, value) entries. */
module Corpus {
  import opened Wrappers
  import opened Store

  datatype Entry<T> = Entry(index: int, value: T)

  type Series<T> = seq<Entry<T>>

  function Values<T>(s: Series<T>): (vs: seq<T>)
    ensures |vs| == |s| && forall i :: 0 <= i < |s| ==> vs[i] == s[i].value
  {
    seq(|s|, i requires 0 <= i < |s| => s[i].value)
  }

  /** The default RangeIndex: entry i carries index i. */
  predicate HasRangeIndex<T>(s: Series<T>) {
    forall i :: 0 <= i < |s| ==> s[i].index == i
  }

  /** A Series built from a list with the default RangeIndex, as
      `pandas.DataFrame(rows)` and `read_csv` build them. */
  function FromList<T>(vs: seq<T>): (s: Series<T>) {
    seq(|vs|, i requires 0 <= i < |vs| => Entry(i, vs[i]))
  }

  function Flatten<T>(objs: seq<Series<T>>): (s: Series<T>) {
    if objs == [] then [] else objs[0] + Flatten(objs[1..])
  }

  /** `ignore_index=True`: the result is relabelled 0..n-1. */
  function Renumber<T>(s: Series<T>): (r: Series<T>) {
    seq(|s|, i requires 0 <= i < |s| => Entry(i, s[i].value))
  }

  function Min(a: nat, b: nat): (m: nat) {
    if a <= b then a else b
  }

  /** `pandas.concat(objs, ignore_index=True, keys=keys)`. When keys are
      given, pandas pairs them with the objects by `zip`, so only the first
      `|keys|` objects take part. With nothing left to concatenate pandas
      raises, which callers rule out by passing at least one object and key. */
  function Concat<T>(objs: seq<Series<T>>, keys: Option<seq<string>>): (r: Series<T>)
    requires |objs| > 0 && (keys.Some? ==> |keys.value| > 0)
  {
    var kept := if keys.Some? then objs[..Min(|keys.value|, |objs|)] else objs;
    Renumber(Flatten(kept))
  }

  /** Line 160 (and 176 for topics) as written:
      `pandas.concat([train, DataFrame(rows)], ignore_index=True, keys=[key])`. */
  function CombineAsWritten<T>(train: Series<T>, rows: seq<T>, key: string): (r: Series<T>) {
    Concat([train, FromList(rows)], Some([key]))
  }

  /** The intended combination: the seed entries followed by the fetched rows,
      relabelled 0..n-1 (the same call without `keys`). */
  function Merge<T>(train: Series<T>, rows: seq<T>): (merged: Series<T>) {
    Concat([train, FromList(rows)], None)
  }

  /** As written, the single key keeps only the seed Series: the fetched rows
      never reach the training set. */
  lemma {:induction false} CombineAsWrittenDropsRows<T>(train: Series<T>, rows: seq<T>, key: string)
    ensures Values(CombineAsWritten(train, rows, key)) == Values(train)
    ensures HasRangeIndex(CombineAsWritten(train, rows, key))
    ensures |rows| > 0 ==> Values(CombineAsWritten(train, rows, key)) != Values(train) + rows
  {
    var objs := [train, FromList(rows)];
    assert objs[..Min(1, |objs|)] == [train];
    assert Flatten([train]) == train + Flatten([]);
    assert Flatten([train]) == train;
    if |rows| > 0 {
      assert |Values(train) + rows| != |Values(train)|;
    }
  }

  /** The merged values are the seed values followed by the fetched rows,
      entry by entry, under a fresh 0..n-1 index. */
  lemma {:induction false} MergeValues<T>(train: Series<T>, rows: seq<T>)
    ensures var merged := Merge(train, rows);
            && Values(merged) == Values(train) + rows
            && |merged| == |train| + |rows|
            && HasRangeIndex(merged)
            && (forall i :: 0 <= i < |train| ==> merged[i].value == train[i].value)
            && (forall i :: 0 <= i < |rows| ==> merged[|train| + i].value == rows[i])
  {
    var live := FromList(rows);
    assert Flatten([live]) == live + Flatten([]);
    assert [train, live][1..] == [live];
    assert Flatten([train, live]) == train + live;
    var merged := Merge(train, rows);
    assert forall i :: 0 <= i < |train| ==> merged[i].value == train[i].value;
    assert forall i :: 0 <= i < |rows| ==> merged[|train| + i].value == rows[i];
    assert Values(merged) == Values(train) + rows;
  }

  /** An empty fetch leaves a seed Series with its default index unchanged. */
  lemma MergeEmpty<T>(train: Series<T>)
    requires HasRangeIndex(train)
    ensures Merge(train, []) == train
  {
    MergeValues(train, []);
    var merged := Merge(train, []);
    assert |merged| == |train|;
    forall i | 0 <= i < |train|
      ensures merged[i] == train[i]
    {
      assert merged[i].index == i == train[i].index;
    }
  }

  /** Parity: with seed texts and topics of equal length and fetched columns
      of equal length, the merged texts and topics have equal length and
      entry i of one belongs with entry i of the other. */
  lemma MergeParity(seedTexts: Series<string>, seedTopics: Series<string>,
                    liveTexts: seq<string>, liveTopics: seq<string>)
    requires |seedTexts| == |seedTopics| && |liveTexts| == |liveTopics|
    ensures var texts := Merge(seedTexts, liveTexts);
            var topics := Merge(seedTopics, liveTopics);
            && |texts| == |topics| == |seedTexts| + |liveTexts|
            && (forall i :: 0 <= i < |seedTexts| ==>
                  (texts[i].value, topics[i].value) == (seedTexts[i].value, seedTopics[i].value))
            && (forall i :: |seedTexts| <= i < |texts| ==>
                  (texts[i].value, topics[i].value)
                  == (liveTexts[i - |seedTexts|], liveTopics[i - |seedTexts|]))
  {
    MergeValues(seedTexts, liveTexts);
    MergeValues(seedTopics, liveTopics);
    var texts := Merge(seedTexts, liveTexts);
    var topics := Merge(seedTopics, liveTopics);
    forall i | |seedTexts| <= i < |texts|
      ensures (texts[i].value, topics[i].value)
              == (liveTexts[i - |seedTexts|], liveTopics[i - |seedTexts|])
    {
      var k := i - |seedTexts|;
      assert texts[|seedTexts| + k].value == liveTexts[k];
      assert topics[|seedTopics| + k].value == liveTopics[k];
    }
  }

  /** When both columns are read from the same questions table in the same row
      order, every row of the table lands at the same position in both merged
      Series, with its own text and topic. */
  lemma MergeStoreRows(seedTexts: Series<string>, seedTopics: Series<string>,
                       table: seq<QuestionRow>)
    requires |seedTexts| == |seedTopics|
    ensures var texts := Merge(seedTexts, QuestionTexts(table));
            var topics := Merge(seedTopics, QuestionTopics(table));
            && |texts| == |topics| == |seedTexts| + |table|
            && forall k :: 0 <= k < |table| ==>
                 texts[|seedTexts| + k].value == table[k].text
                 && topics[|seedTexts| + k].value == table[k].topic
  {
    MergeParity(seedTexts, seedTopics, QuestionTexts(table), QuestionTopics(table));
    MergeValues(seedTexts, QuestionTexts(table));
    MergeValues(seedTopics, QuestionTopics(table));
  }
}
