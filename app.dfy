/** The state-changing parts of the web app: recording a pick
    (`find_ids_and_insert_picks`) and storing a feedback submission
    (`feedback`), over the database's tables held in one object. */
module App {
  import opened Wrappers
  import opened Store
  import opened Feedback

  /** The robots or items table after the get-or-create step: unchanged when
      the name is present, otherwise extended by one row that takes the
      table's next serial id. */
  function GetOrCreate(rows: seq<NamedRow>, next: nat, name: string): (after: seq<NamedRow>) {
    if Lookup(rows, name).Some? then rows else rows + [NamedRow(next, name)]
  }

  lemma {:induction false} GetOrCreateFinds(rows: seq<NamedRow>, next: nat, name: string)
    requires NamedIdsBelow(rows, next)
    ensures var after := GetOrCreate(rows, next, name);
            && Lookup(after, name).Some?
            && (Lookup(rows, name).Some? ==> after == rows && Lookup(after, name) == Lookup(rows, name))
            && (Lookup(rows, name).None? ==>
                  && after == rows + [NamedRow(next, name)]
                  && Lookup(after, name) == Some(NamedRow(next, name))
                  && forall i :: 0 <= i < |rows| ==> rows[i].id != next)
  {
    if Lookup(rows, name).None? {
      LookupAppendMissing(rows, NamedRow(next, name));
    }
  }

  /** Get-or-create keeps the names of a table distinct. */
  lemma GetOrCreateDistinct(rows: seq<NamedRow>, next: nat, name: string)
    requires DistinctNames(rows)
    ensures DistinctNames(GetOrCreate(rows, next, name))
  {
    if Lookup(rows, name).None? {
      DistinctAppend(rows, NamedRow(next, name));
    }
  }

  function RobotNotice(robotName: string): (notice: string) {
    "There were no robots with the name " + robotName + " so we created it\n"
  }

  function ItemNotice(itemName: string): (notice: string) {
    "There were no items with the name " + itemName + " so we created it\n"
  }

  function SuccessLine(robotName: string, itemName: string): (line: string) {
    robotName + " has successfully picked " + itemName
  }

  /** The notices `result` collects, in the order the two lookups run. */
  function Notices(robotName: string, itemName: string, robotCreated: bool, itemCreated: bool): (notices: string) {
    (if robotCreated then RobotNotice(robotName) else "")
      + (if itemCreated then ItemNotice(itemName) else "")
  }

  /** The last step of a pick: the success line, preceded by the collected
      notices and "<br>" when there are any. */
  function Reply(result: string, robotName: string, itemName: string): (reply: string) {
    if result == "" then SuccessLine(robotName, itemName)
    else result + "<br>" + SuccessLine(robotName, itemName)
  }

  function PickMessage(robotName: string, itemName: string, robotCreated: bool, itemCreated: bool): (m: string) {
    Reply(Notices(robotName, itemName, robotCreated, itemCreated), robotName, itemName)
  }

  /** The reply of a pick is the success line alone exactly when both names
      were already known; otherwise it starts with the first notice and ends
      with "<br>" and the success line. */
  lemma PickMessageShape(robotName: string, itemName: string, robotCreated: bool, itemCreated: bool)
    ensures var m := PickMessage(robotName, itemName, robotCreated, itemCreated);
            var line := SuccessLine(robotName, itemName);
            && (m == line <==> !robotCreated && !itemCreated)
            && |line| <= |m| && m[|m| - |line|..] == line
            && (robotCreated || itemCreated ==>
                  var before := m[..|m| - |line|];
                  |before| >= 4 && before[|before| - 4..] == "<br>")
            && (robotCreated ==>
                  |RobotNotice(robotName)| <= |m| && m[..|RobotNotice(robotName)|] == RobotNotice(robotName))
            && (!robotCreated && itemCreated ==>
                  |ItemNotice(itemName)| <= |m| && m[..|ItemNotice(itemName)|] == ItemNotice(itemName))
  {
    var notices := Notices(robotName, itemName, robotCreated, itemCreated);
    var line := SuccessLine(robotName, itemName);
    var m := PickMessage(robotName, itemName, robotCreated, itemCreated);
    NoticesEmpty(robotName, itemName, robotCreated, itemCreated);
    if notices != "" {
      assert m == notices + "<br>" + line;
      assert m[|m| - |line|..] == line;
      assert m[..|m| - |line|] == notices + "<br>";
      assert (notices + "<br>")[|notices|..] == "<br>";
      if robotCreated {
        assert notices == RobotNotice(robotName) + (if itemCreated then ItemNotice(itemName) else "");
        assert m[..|RobotNotice(robotName)|] == RobotNotice(robotName);
      } else {
        assert notices == ItemNotice(itemName);
        assert m[..|ItemNotice(itemName)|] == ItemNotice(itemName);
      }
    }
  }

  lemma NoticesEmpty(robotName: string, itemName: string, robotCreated: bool, itemCreated: bool)
    ensures Notices(robotName, itemName, robotCreated, itemCreated) == "" <==> !robotCreated && !itemCreated
  {
    assert |RobotNotice(robotName)| > 0 && |ItemNotice(itemName)| > 0;
  }

  /** The `result` string of a pick, built step by step: empty at first, one
      notice appended for each name that had to be created (robot first), and
      the success line appended at the end, after "<br>" when a notice was
      appended. */
  method Compose(robotName: string, itemName: string, robotCreated: bool, itemCreated: bool)
    returns (message: string)
    ensures message == PickMessage(robotName, itemName, robotCreated, itemCreated)
  {
    var result := "";
    if robotCreated {
      result := result + RobotNotice(robotName);
    }
    if itemCreated {
      result := result + ItemNotice(itemName);
    }
    assert result == Notices(robotName, itemName, robotCreated, itemCreated);
    if result == "" {
      message := SuccessLine(robotName, itemName);
    } else {
      message := result + "<br>" + SuccessLine(robotName, itemName);
    }
  }

  /** The database `simtooreal`: four tables and the serial sequences that
      number their rows. */
  class Database {
    var robots: seq<NamedRow>
    var items: seq<NamedRow>
    var picks: seq<PickRow>
    var questions: seq<QuestionRow>
    var nextRobotId: nat
    var nextItemId: nat
    var nextPickId: nat
    var nextQuestionId: nat

    ghost predicate Valid()
      reads this
    {
      && NamedIdsBelow(robots, nextRobotId) && DistinctNames(robots)
      && NamedIdsBelow(items, nextItemId) && DistinctNames(items)
      && PickIdsBelow(picks, nextPickId)
      && QuestionIdsBelow(questions, nextQuestionId)
    }

    /** Empty tables; serial sequences start at 1. */
    constructor ()
      ensures Valid()
      ensures robots == [] && items == [] && picks == [] && questions == []
      ensures nextRobotId == 1 && nextItemId == 1 && nextPickId == 1 && nextQuestionId == 1
    {
      robots, items, picks, questions := [], [], [], [];
      nextRobotId, nextItemId, nextPickId, nextQuestionId := 1, 1, 1, 1;
    }

    /** Lines 53-64: look the robot up by name and insert it when missing;
        `created` says whether the INSERT ran. */
    method SelectOrInsertRobot(robotName: string) returns (robotId: nat, created: bool)
      requires Valid()
      modifies this`robots, this`nextRobotId
      ensures Valid()
      ensures created == Lookup(old(robots), robotName).None?
      ensures robots == GetOrCreate(old(robots), old(nextRobotId), robotName)
      ensures nextRobotId == old(nextRobotId) + (if created then 1 else 0)
      ensures Lookup(robots, robotName) == Some(NamedRow(robotId, robotName))
    {
      var row := Lookup(robots, robotName);
      created := row.None?;
      if row.None? {
        LookupAppendMissing(robots, NamedRow(nextRobotId, robotName));
        DistinctAppend(robots, NamedRow(nextRobotId, robotName));
        NamedAppend(robots, nextRobotId, robotName);
        robots := robots + [NamedRow(nextRobotId, robotName)];
        nextRobotId := nextRobotId + 1;
        row := Lookup(robots, robotName);
      }
      robotId := row.value.id;
    }

    /** Lines 67-77: the same for the item. */
    method SelectOrInsertItem(itemName: string) returns (itemId: nat, created: bool)
      requires Valid()
      modifies this`items, this`nextItemId
      ensures Valid()
      ensures created == Lookup(old(items), itemName).None?
      ensures items == GetOrCreate(old(items), old(nextItemId), itemName)
      ensures nextItemId == old(nextItemId) + (if created then 1 else 0)
      ensures Lookup(items, itemName) == Some(NamedRow(itemId, itemName))
    {
      var row := Lookup(items, itemName);
      created := row.None?;
      if row.None? {
        LookupAppendMissing(items, NamedRow(nextItemId, itemName));
        DistinctAppend(items, NamedRow(nextItemId, itemName));
        NamedAppend(items, nextItemId, itemName);
        items := items + [NamedRow(nextItemId, itemName)];
        nextItemId := nextItemId + 1;
        row := Lookup(items, itemName);
      }
      itemId := row.value.id;
    }

    /** Lines 79-87: the INSERT into the picks table. */
    method InsertPick(now: Timestamp, itemId: nat, robotId: nat)
      requires Valid()
      modifies this`picks, this`nextPickId
      ensures Valid()
      ensures picks == old(picks) + [PickRow(old(nextPickId), now, itemId, robotId)]
      ensures nextPickId == old(nextPickId) + 1
    {
      PickAppend(picks, PickRow(nextPickId, now, itemId, robotId), nextPickId);
      picks := picks + [PickRow(nextPickId, now, itemId, robotId)];
      nextPickId := nextPickId + 1;
    }

    /** `find_ids_and_insert_picks(robot_name, item_name)` at time `now`. */
    method RecordPick(robotName: string, itemName: string, now: Timestamp) returns (message: string)
      requires Valid()
      modifies this`robots, this`items, this`picks, this`nextRobotId, this`nextItemId, this`nextPickId
      ensures Valid()
      ensures robots == GetOrCreate(old(robots), old(nextRobotId), robotName)
      ensures items == GetOrCreate(old(items), old(nextItemId), itemName)
      ensures nextRobotId == old(nextRobotId) + (if Lookup(old(robots), robotName).Some? then 0 else 1)
      ensures nextItemId == old(nextItemId) + (if Lookup(old(items), itemName).Some? then 0 else 1)
      ensures Lookup(robots, robotName).Some? && Lookup(items, itemName).Some?
      ensures picks == old(picks) + [PickRow(old(nextPickId), now,
                                             Lookup(items, itemName).value.id,
                                             Lookup(robots, robotName).value.id)]
      ensures nextPickId == old(nextPickId) + 1
      ensures message == PickMessage(robotName, itemName,
                                     Lookup(old(robots), robotName).None?,
                                     Lookup(old(items), itemName).None?)
    {
      var robotId, robotCreated := SelectOrInsertRobot(robotName);
      var itemId, itemCreated := SelectOrInsertItem(itemName);
      InsertPick(now, itemId, robotId);
      message := Compose(robotName, itemName, robotCreated, itemCreated);
    }

    /** The POST branch of `feedback()`: parse the submission and insert it
        into the questions table; a parse failure raises before the INSERT, so
        nothing changes. */
    method SubmitFeedback(submission: string) returns (r: Result<string, ParseError>)
      requires Valid()
      modifies this
      ensures Valid()
      ensures robots == old(robots) && items == old(items) && picks == old(picks)
      ensures nextRobotId == old(nextRobotId) && nextItemId == old(nextItemId)
      ensures nextPickId == old(nextPickId)
      ensures match Parse(submission)
              case Success(q) =>
                && r == Success("submitted " + submission)
                && questions == old(questions) + [QuestionRow(old(nextQuestionId), q.text, q.topic)]
                && nextQuestionId == old(nextQuestionId) + 1
              case Failure(e) =>
                && r == Failure(e)
                && questions == old(questions)
                && nextQuestionId == old(nextQuestionId)
    {
      var text := "submitted " + submission;
      var parsed := Parse(submission);
      if parsed.Failure? {
        return Failure(parsed.error);
      }
      var row := QuestionRow(nextQuestionId, parsed.value.text, parsed.value.topic);
      QuestionAppend(questions, row, nextQuestionId);
      questions := questions + [row];
      nextQuestionId := nextQuestionId + 1;
      r := Success(text);
    }
  }
}
