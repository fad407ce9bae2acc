/** The parse expression of the `/feedback` route: a submitted string
    `"... question: <text> category: <topic>"` is cut into the question text
    and the topic label with `str.split` and list indexing. */
module Feedback {
  import opened Wrappers
  import opened Strings

  const QuestionMarker: string := "question: "
  const CategoryMarker: string := "category: "

  /** The two values the route inserts into the questions table. */
  datatype Labeled = Labeled(text: string, topic: string)

  /** Python raises IndexError when `split(marker)` yields a single part and
      `[1]` is taken. The topic is evaluated first (it is the first entry of
      the dict display), so a submission lacking both markers fails on the
      category marker. */
  datatype ParseError = MissingCategory | MissingQuestion

  /** `topic = s.split("category: ")[1]` and
      `text = s.split("question: ")[1].split("category: ")[0]`. */
  function Parse(s: string): (r: Result<Labeled, ParseError>)
    ensures r == Failure(MissingCategory) <==> !Contains(s, CategoryMarker)
    ensures r == Failure(MissingQuestion) <==>
              Contains(s, CategoryMarker) && !Contains(s, QuestionMarker)
    ensures r.Success? ==>
              && !Contains(r.value.topic, CategoryMarker)
              && !Contains(r.value.text, CategoryMarker)
              && !Contains(r.value.text, QuestionMarker)
  {
    SplitSingle(s, CategoryMarker);
    SplitSingle(s, QuestionMarker);
    var byCategory := Split(s, CategoryMarker);
    if |byCategory| < 2 then Failure(MissingCategory)
    else
      var byQuestion := Split(s, QuestionMarker);
      if |byQuestion| < 2 then Failure(MissingQuestion)
      else
        var afterQuestion := byQuestion[1];
        var text := Split(afterQuestion, CategoryMarker)[0];
        SplitPartsFree(s, CategoryMarker);
        SplitPartsFree(s, QuestionMarker);
        SplitPartsFree(afterQuestion, CategoryMarker);
        assert !Contains(text, QuestionMarker) by {
          SplitHead(afterQuestion, CategoryMarker);
          PrefixFree(afterQuestion, |text|, QuestionMarker);
        }
        Success(Labeled(text, byCategory[1]))
  }

  /** The first part of a split is the prefix that ends at the first occurrence
      of the separator, or the whole string when there is none. */
  lemma SplitHead(x: string, sep: string)
    requires |sep| > 0
    ensures var h := Split(x, sep)[0];
            && |h| <= |x| && h == x[..|h|]
            && (forall m :: 0 <= m < |h| ==> !Occurs(x, sep, m))
            && (|h| == |x| || Occurs(x, sep, |h|))
  {
    match Find(x, sep)
    case None =>
    case Some(i) =>
      SplitAt(x, sep, i);
  }

  /** The second part of a split starts right after the first occurrence. */
  lemma SplitSecond(s: string, sep: string)
    requires |sep| > 0 && Contains(s, sep)
    ensures Find(s, sep).Some?
    ensures Split(s, sep)[1] == Split(s[Find(s, sep).value + |sep|..], sep)[0]
  {
    match Find(s, sep)
    case None =>
      assert false;
    case Some(i) =>
      SplitAt(s, sep, i);
  }

  lemma PrefixFree(x: string, n: nat, sep: string)
    requires n <= |x| && !Contains(x, sep)
    ensures !Contains(x[..n], sep)
  {
    forall j | 0 <= j <= n
      ensures !Occurs(x[..n], sep, j)
    {
      if j + |sep| <= n {
        assert x[..n][j..j + |sep|] == x[j..j + |sep|];
        assert !Occurs(x, sep, j);
      }
    }
  }

  /** The topic is the text between the first "category: " and the next one
      (or the end of the string); whatever follows a second "category: " is
      dropped. */
  lemma {:induction false} TopicIsSegment(s: string)
    requires Parse(s).Success?
    ensures Find(s, CategoryMarker).Some?
    ensures var i := Find(s, CategoryMarker).value;
            var rest := s[i + |CategoryMarker|..];
            var topic := Parse(s).value.topic;
            && Occurs(s, CategoryMarker, i)
            && (forall m :: 0 <= m < i ==> !Occurs(s, CategoryMarker, m))
            && |topic| <= |rest| && topic == rest[..|topic|]
            && (forall m :: 0 <= m < |topic| ==> !Occurs(rest, CategoryMarker, m))
            && (|topic| == |rest| || Occurs(rest, CategoryMarker, |topic|))
  {
    SplitSecond(s, CategoryMarker);
    var i := Find(s, CategoryMarker).value;
    SplitHead(s[i + |CategoryMarker|..], CategoryMarker);
  }

  /** The text is what follows the first "question: ", cut at the first
      "question: " or "category: " after it (or at the end of the string).
      Whitespace before a marker stays in the text. */
  lemma {:induction false} TextIsSegment(s: string)
    requires Parse(s).Success?
    ensures Find(s, QuestionMarker).Some?
    ensures var i := Find(s, QuestionMarker).value;
            var rest := s[i + |QuestionMarker|..];
            var text := Parse(s).value.text;
            && Occurs(s, QuestionMarker, i)
            && (forall m :: 0 <= m < i ==> !Occurs(s, QuestionMarker, m))
            && |text| <= |rest| && text == rest[..|text|]
            && (forall m :: 0 <= m < |text| ==>
                  !Occurs(rest, QuestionMarker, m) && !Occurs(rest, CategoryMarker, m))
            && (|text| == |rest| || Occurs(rest, QuestionMarker, |text|)
                                 || Occurs(rest, CategoryMarker, |text|))
  {
    SplitSecond(s, QuestionMarker);
    var i := Find(s, QuestionMarker).value;
    TextCut(s[i + |QuestionMarker|..]);
  }

  /** What the text expression keeps of the string that follows the first
      "question: ". */
  lemma TextCut(rest: string)
    ensures var text := Split(Split(rest, QuestionMarker)[0], CategoryMarker)[0];
            && |text| <= |rest| && text == rest[..|text|]
            && (forall m :: 0 <= m < |text| ==>
                  !Occurs(rest, QuestionMarker, m) && !Occurs(rest, CategoryMarker, m))
            && (|text| == |rest| || Occurs(rest, QuestionMarker, |text|)
                                 || Occurs(rest, CategoryMarker, |text|))
  {
    TextCutShape(rest);
    TextCutFree(rest);
  }

  /** The text is a prefix of `rest` that ends at the end of `rest` or where a
      marker starts. */
  lemma TextCutShape(rest: string)
    ensures var seg := Split(rest, QuestionMarker)[0];
            var text := Split(seg, CategoryMarker)[0];
            && |text| <= |seg| <= |rest| && seg == rest[..|seg|] && text == rest[..|text|]
            && (forall m :: 0 <= m < |seg| ==> !Occurs(rest, QuestionMarker, m))
            && (|text| == |rest| || Occurs(rest, QuestionMarker, |text|)
                                 || Occurs(rest, CategoryMarker, |text|))
  {
    var seg := Split(rest, QuestionMarker)[0];
    var text := Split(seg, CategoryMarker)[0];
    SplitHead(rest, QuestionMarker);
    SplitHead(seg, CategoryMarker);
    if |text| < |seg| {
      SliceOfPrefix(rest, |seg|, |text|, |text| + |CategoryMarker|);
    }
  }

  /** No "category: " starts inside the text: one starting there would run
      into the marker or the end that stops the text. */
  lemma TextCutFree(rest: string)
    ensures var text := Split(Split(rest, QuestionMarker)[0], CategoryMarker)[0];
            |text| <= |rest| &&
            forall m :: 0 <= m < |text| ==> !Occurs(rest, CategoryMarker, m)
  {
    var seg := Split(rest, QuestionMarker)[0];
    var text := Split(seg, CategoryMarker)[0];
    TextCutShape(rest);
    SplitPartsFree(seg, CategoryMarker);
    assert !Contains(rest[..|text|], CategoryMarker);
    if |text| < |rest| {
      StopChar(rest, |text|);
    }
    FreeBeforeStop(rest, |text|, CategoryMarker);
  }

  /** Where either marker starts, the character there cannot continue a
      "category: " begun earlier. */
  lemma StopChar(rest: string, n: nat)
    requires Occurs(rest, QuestionMarker, n) || Occurs(rest, CategoryMarker, n)
    ensures n < |rest| && rest[n] !in CategoryMarker[1..]
  {
    if Occurs(rest, QuestionMarker, n) {
      assert rest[n] == rest[n..n + |QuestionMarker|][0] == QuestionMarker[0];
    } else {
      assert rest[n] == rest[n..n + |CategoryMarker|][0] == CategoryMarker[0];
    }
    MarkersSelfFree();
    MarkersCrossFree();
  }

  /** Neither marker's first character recurs later in that marker. */
  lemma MarkersSelfFree()
    ensures QuestionMarker[0] !in QuestionMarker[1..] && CategoryMarker[0] !in CategoryMarker[1..]
  {
  }

  /** Neither marker's first character occurs in the other marker. */
  lemma MarkersCrossFree()
    ensures QuestionMarker[0] !in CategoryMarker && CategoryMarker[0] !in QuestionMarker
  {
  }

  /** Both markers end in a space, and neither has a space elsewhere. */
  lemma MarkersEndInSpace()
    ensures QuestionMarker[|QuestionMarker| - 1] == CategoryMarker[|CategoryMarker| - 1] == ' '
    ensures ' ' !in QuestionMarker[..|QuestionMarker| - 1]
    ensures ' ' !in CategoryMarker[..|CategoryMarker| - 1]
  {
  }

  lemma TopicOfPlaced(prefix: string, text: string, topic: string)
    requires !Contains(prefix, CategoryMarker)
    requires !Contains(text, CategoryMarker) && !Contains(topic, CategoryMarker)
    ensures Split(prefix + QuestionMarker + text + CategoryMarker + topic, CategoryMarker)
            == [prefix + QuestionMarker + text, topic]
  {
    BeforeTopicFree(prefix, text);
    MarkersSelfFree();
    SplitPlaced(prefix + QuestionMarker + text, CategoryMarker, topic);
  }

  /** Joining category-free pieces around "question: " creates no "category: ". */
  lemma BeforeTopicFree(prefix: string, text: string)
    requires !Contains(prefix, CategoryMarker) && !Contains(text, CategoryMarker)
    ensures !Contains(prefix + QuestionMarker + text, CategoryMarker)
  {
    MarkersCrossFree();
    LacksFirstChar(QuestionMarker, CategoryMarker);
    ConcatFreeByHead(prefix, QuestionMarker, CategoryMarker);
    if |text| > 0 {
      MarkersEndInSpace();
      assert (prefix + QuestionMarker)[|prefix + QuestionMarker| - 1] == ' ';
      ConcatFreeByTail(prefix + QuestionMarker, text, CategoryMarker);
    } else {
      assert prefix + QuestionMarker + text == prefix + QuestionMarker;
    }
  }

  lemma QuestionOfPlaced(prefix: string, text: string, topic: string)
    requires !Contains(prefix, QuestionMarker)
    requires !Contains(text, QuestionMarker) && !Contains(topic, QuestionMarker)
    ensures Split(prefix + QuestionMarker + text + CategoryMarker + topic, QuestionMarker)
            == [prefix, text + CategoryMarker + topic]
  {
    AfterQuestionFree(text, topic);
    MarkersSelfFree();
    SplitPlaced(prefix, QuestionMarker, text + CategoryMarker + topic);
    assert prefix + QuestionMarker + text + CategoryMarker + topic
        == prefix + QuestionMarker + (text + CategoryMarker + topic);
  }

  /** Joining question-free pieces around "category: " creates no "question: ". */
  lemma AfterQuestionFree(text: string, topic: string)
    requires !Contains(text, QuestionMarker) && !Contains(topic, QuestionMarker)
    ensures !Contains(text + CategoryMarker + topic, QuestionMarker)
  {
    MarkersCrossFree();
    LacksFirstChar(CategoryMarker, QuestionMarker);
    if |topic| > 0 {
      MarkersEndInSpace();
      ConcatFreeByTail(CategoryMarker, topic, QuestionMarker);
    } else {
      assert CategoryMarker + topic == CategoryMarker;
    }
    ConcatFreeByHead(text, CategoryMarker + topic, QuestionMarker);
    assert text + CategoryMarker + topic == text + (CategoryMarker + topic);
  }

  lemma TextOfPlaced(text: string, topic: string)
    requires !Contains(text, CategoryMarker)
    ensures Split(text + CategoryMarker + topic, CategoryMarker)[0] == text
  {
    var rest := text + CategoryMarker + topic;
    MarkersSelfFree();
    FindPlaced(text, CategoryMarker, topic);
    SplitAt(rest, CategoryMarker, |text|);
    assert rest[..|text|] == text;
  }

  /** Building a submission from fresh parts and parsing it gives the parts back. */
  lemma ParseRoundTrip(prefix: string, text: string, topic: string)
    requires !Contains(prefix, QuestionMarker) && !Contains(prefix, CategoryMarker)
    requires !Contains(text, QuestionMarker) && !Contains(text, CategoryMarker)
    requires !Contains(topic, QuestionMarker) && !Contains(topic, CategoryMarker)
    ensures Parse(prefix + QuestionMarker + text + CategoryMarker + topic)
            == Success(Labeled(text, topic))
  {
    TopicOfPlaced(prefix, text, topic);
    QuestionOfPlaced(prefix, text, topic);
    TextOfPlaced(text, topic);
  }

  lemma SliceOfPrefix(x: string, n: nat, i: nat, j: nat)
    requires i <= j <= n <= |x|
    ensures x[..n][i..j] == x[i..j]
  {
  }

  const ExampleSubmission: string := "foo question: What time do you open? category: Hours"

  /** The example submission is the round trip's shape with the prefix
      "foo ", the text "What time do you open? " and the topic "Hours". */
  lemma ExampleParts()
    ensures ExampleSubmission
            == "foo " + QuestionMarker + "What time do you open? " + CategoryMarker + "Hours"
  {
    ExampleHead();
    ExampleText();
    ExampleCategory();
    ExampleTopic();
  }

  lemma ExampleHead()
    ensures "foo " + QuestionMarker == "foo question: "
  {
  }

  lemma ExampleText()
    ensures "foo question: " + "What time do you open? " == "foo question: What time do you open? "
  {
  }

  lemma ExampleCategory()
    ensures "foo question: What time do you open? " + CategoryMarker
            == "foo question: What time do you open? category: "
  {
  }

  lemma ExampleTopic()
    ensures "foo question: What time do you open? category: " + "Hours" == ExampleSubmission
  {
  }

  lemma ExamplePartsFree()
    ensures !Contains("foo ", QuestionMarker) && !Contains("foo ", CategoryMarker)
    ensures !Contains("What time do you open? ", QuestionMarker)
    ensures !Contains("What time do you open? ", CategoryMarker)
    ensures !Contains("Hours", QuestionMarker) && !Contains("Hours", CategoryMarker)
  {
    LacksFirstChar("foo ", QuestionMarker);
    LacksFirstChar("foo ", CategoryMarker);
    LacksFirstChar("What time do you open? ", QuestionMarker);
    LacksFirstChar("What time do you open? ", CategoryMarker);
    LacksFirstChar("Hours", QuestionMarker);
    LacksFirstChar("Hours", CategoryMarker);
  }

  /** An example submission: the space before "category: " stays
      in the text. */
  lemma TrailingSpaceKept()
    ensures Parse(ExampleSubmission) == Success(Labeled("What time do you open? ", "Hours"))
  {
    ExampleParts();
    ExamplePartsFree();
    ParseRoundTrip("foo ", "What time do you open? ", "Hours");
  }
}
