/**
 * The tracker window's roster: the list of students behind the table, the
 * add, edit and delete dialogs, the class summary, and the students file
 * read at start-up and written by "Save & Exit".
 *
 * The dialogs are replaced by their answers: whether the user pressed OK
 * (or Yes), and the text left in the name and grade fields. The selected
 * table row is a parameter, -1 when nothing is selected. The students file
 * is the sequence of its lines, and whether it exists.
 */
module Tracker {
  import opened JavaLang
  import opened StudentRecord
  import opened GradeText

  /** What the user sees after a button of the window. */
  datatype Notice =
    | Done            // the roster changed and the table was redrawn
    | Cancelled       // the dialog was cancelled, or the deletion not confirmed
    | NoSelection     // "Select a student to edit." / "Select a student to delete."
    | InvalidGrades   // "Invalid grade input."
    | RowOutOfRange   // IndexOutOfBoundsException from the list; the table never selects such a row

  /** How reading the students file ended. */
  datatype LoadOutcome =
    | NoFile                     // there is no file; nothing is read
    | Loaded                     // every line became a student
    | Stopped(error: Exception)  // a line could not be read; the earlier ones stay loaded

  /** The students read from a file, and the exception that stopped the reading, if any. */
  datatype Decoded = Decoded(loaded: seq<Student>, failure: Option<Exception>)

  /** Every grade of every student, student after student. */
  function AllGrades(ss: seq<Student>): seq<int>
  {
    if |ss| == 0 then [] else AllGrades(ss[..|ss| - 1]) + ss[|ss| - 1].grades
  }

  /** The class average: the mean of all grades together, 0 when there are none. */
  function ClassAverage(ss: seq<Student>): real
  {
    Average(AllGrades(ss))
  }

  /**
   * The successes that lead a sequence of results, and the failure that ends
   * them, if any.
   */
  function TakeOk(rs: seq<Result<Student>>): (r: Decoded)
    ensures |r.loaded| <= |rs|
    ensures forall i :: 0 <= i < |r.loaded| ==> rs[i] == Ok(r.loaded[i])
    ensures r.failure.None? <==> |r.loaded| == |rs|
    ensures r.failure.Some? ==> rs[|r.loaded|] == Fail(r.failure.value)
  {
    if |rs| == 0 then
      Decoded([], None)
    else
      match rs[0]
      case Fail(e) => Decoded([], Some(e))
      case Ok(s) =>
        var rest := TakeOk(rs[1..]);
        Decoded([s] + rest.loaded, rest.failure)
  }

  /**
   * Reading lines one at a time with `fromFileString` until one fails: the
   * students read are the decoded leading lines, and the reading stops at
   * the first line that does not decode, with its exception.
   */
  function DecodeAll(lines: seq<string>): (r: Decoded)
    ensures |r.loaded| <= |lines|
    ensures forall i :: 0 <= i < |r.loaded| ==> Decode(lines[i]) == Ok(r.loaded[i])
    ensures r.failure.None? <==> |r.loaded| == |lines|
    ensures r.failure.Some? ==> Decode(lines[|r.loaded|]) == Fail(r.failure.value)
  {
    TakeOk(seq(|lines|, i requires 0 <= i < |lines| => Decode(lines[i])))
  }

  /** The leading lines decode, one by one, to the given students. */
  ghost predicate DecodesTo(lines: seq<string>, ss: seq<Student>)
  {
    |ss| <= |lines| && forall i :: 0 <= i < |ss| ==> Decode(lines[i]) == Ok(ss[i])
  }

  /** One more line that decodes extends the students read. */
  lemma DecodesToSnoc(lines: seq<string>, ss: seq<Student>, s: Student)
    requires DecodesTo(lines, ss)
    requires |ss| < |lines| && Decode(lines[|ss|]) == Ok(s)
    ensures DecodesTo(lines, ss + [s])
  {
    assert forall i :: 0 <= i < |ss| ==> (ss + [s])[i] == ss[i];
  }

  /** The characterisation of `DecodeAll`: it is the only result with those properties. */
  lemma DecodeAllIs(lines: seq<string>, ss: seq<Student>)
    requires DecodesTo(lines, ss)
    requires |ss| < |lines| ==> Decode(lines[|ss|]).Fail?
    ensures DecodeAll(lines).loaded == ss
    ensures DecodeAll(lines).failure == if |ss| < |lines| then Some(Decode(lines[|ss|]).error) else None
  {
    var r := DecodeAll(lines);
    var n := |r.loaded|;
    assert n == |ss|;
    assert r.loaded == ss by {
      forall i | 0 <= i < n
        ensures r.loaded[i] == ss[i]
      {
        assert Decode(lines[i]) == Ok(r.loaded[i]);
      }
    }
  }

  class GradeTracker {
    /** The roster, in table order. */
    var students: seq<Student>

    /** Every grade held is a Java `int`: each came out of `parseInt`. */
    ghost predicate Valid()
      reads this
    {
      forall i :: 0 <= i < |students| ==> JavaInts(students[i].grades)
    }

    /** The window starts with an empty roster. */
    constructor ()
      ensures Valid()
      ensures students == []
    {
      students := [];
    }

    /**
     * "Add Student": on OK, the trimmed name and the parsed grades become a
     * new last student; grades that do not parse leave the roster as it was.
     */
    method AddStudent(confirmed: bool, nameText: string, gradesText: string) returns (notice: Notice)
      requires Valid()
      modifies this
      ensures Valid()
      ensures notice == if !confirmed then Cancelled
                        else if GradesFromText(gradesText).Fail? then InvalidGrades
                        else Done
      ensures notice == Done ==> students == old(students) + [Student(Trim(nameText), GradesFromText(gradesText).value)]
      ensures notice != Done ==> students == old(students)
    {
      if !confirmed {
        return Cancelled;
      }
      var name := Trim(nameText);
      var grades := ParseGrades(gradesText);
      if grades.Fail? {
        return InvalidGrades;
      }
      students := students + [Student(name, grades.value)];
      notice := Done;
    }

    /** What the edit dialog opens with: the selected student's name and grade display text. */
    method EditFields(row: int) returns (fields: Option<(string, string)>)
      ensures 0 <= row < |students| ==> fields == Some((students[row].name, Joined(students[row].grades)))
      ensures !(0 <= row < |students|) ==> fields == None
    {
      if 0 <= row < |students| {
        var s := students[row];
        var text := JoinGrades(s.grades);
        fields := Some((s.name, text));
      } else {
        fields := None;
      }
    }

    /**
     * "Edit Student": the selected row is checked first, then the student is
     * fetched (which fails outside the list), then the dialog is answered; on
     * OK with grades that parse, exactly that row is replaced.
     */
    method EditStudent(row: int, confirmed: bool, nameText: string, gradesText: string) returns (notice: Notice)
      requires Valid()
      modifies this
      ensures Valid()
      ensures notice == if row == -1 then NoSelection
                        else if !(0 <= row < |old(students)|) then RowOutOfRange
                        else if !confirmed then Cancelled
                        else if GradesFromText(gradesText).Fail? then InvalidGrades
                        else Done
      ensures notice == Done ==>
                students == old(students)[row := Student(Trim(nameText), GradesFromText(gradesText).value)]
      ensures notice != Done ==> students == old(students)
    {
      if row == -1 {
        return NoSelection;
      }
      if !(0 <= row < |students|) {
        return RowOutOfRange;
      }
      if !confirmed {
        return Cancelled;
      }
      var name := Trim(nameText);
      var grades := ParseGrades(gradesText);
      if grades.Fail? {
        return InvalidGrades;
      }
      students := students[row := Student(name, grades.value)];
      notice := Done;
    }

    /**
     * "Delete Student": on Yes, the selected student is removed and every
     * later student moves up one row.
     */
    method DeleteStudent(row: int, confirmed: bool) returns (notice: Notice)
      requires Valid()
      modifies this
      ensures Valid()
      ensures notice == if row == -1 then NoSelection
                        else if !confirmed then Cancelled
                        else if !(0 <= row < |old(students)|) then RowOutOfRange
                        else Done
      ensures notice == Done ==>
                && |students| == |old(students)| - 1
                && (forall i :: 0 <= i < row ==> students[i] == old(students)[i])
                && (forall i :: row <= i < |students| ==> students[i] == old(students)[i + 1])
      ensures notice != Done ==> students == old(students)
    {
      if row == -1 {
        return NoSelection;
      }
      if !confirmed {
        return Cancelled;
      }
      if !(0 <= row < |students|) {
        return RowOutOfRange;
      }
      students := students[..row] + students[row + 1..];
      notice := Done;
    }

    /**
     * "Show Summary": no figure for an empty roster; otherwise the total of
     * all grades over their number, or 0 when no student has a grade.
     */
    method ShowSummary() returns (avg: Option<real>)
      ensures |students| == 0 ==> avg == None
      ensures |students| > 0 ==> avg == Some(ClassAverage(students))
    {
      if |students| == 0 {
        return None;
      }
      var total := 0;
      var count := 0;
      for i := 0 to |students|
        invariant total == Sum(AllGrades(students[..i]))
        invariant count == |AllGrades(students[..i])|
      {
        var g := students[i].grades;
        assert students[..i + 1] == students[..i] + [students[i]];
        AllGradesAppend(students[..i], students[i]);
        assert AllGrades(students[..i]) + g[..0] == AllGrades(students[..i]);
        for j := 0 to |g|
          invariant total == Sum(AllGrades(students[..i]) + g[..j])
          invariant count == |AllGrades(students[..i])| + j
        {
          assert g[..j + 1] == g[..j] + [g[j]];
          SumAppend(AllGrades(students[..i]) + g[..j], [g[j]]);
          assert AllGrades(students[..i]) + g[..j + 1] == AllGrades(students[..i]) + g[..j] + [g[j]];
          total := total + g[j];
          count := count + 1;
        }
        assert g[..|g|] == g;
      }
      assert students[..|students|] == students;
      avg := Some(if count > 0 then total as real / count as real else 0.0);
    }

    /** "Save & Exit": one line per student, in table order. */
    method SaveToFile() returns (lines: seq<string>)
      ensures |lines| == |students|
      ensures forall i :: 0 <= i < |students| ==> lines[i] == FileLine(students[i])
    {
      lines := [];
      for i := 0 to |students|
        invariant |lines| == i
        invariant forall k :: 0 <= k < i ==> lines[k] == FileLine(students[k])
      {
        var line := ToFileString(students[i]);
        lines := lines + [line];
      }
    }

    /**
     * Start-up reading of the students file: each line in turn is decoded and
     * appended; the first line that fails ends the reading and the students
     * already appended stay.
     */
    method LoadFromFile(fileExists: bool, lines: seq<string>) returns (outcome: LoadOutcome)
      requires Valid()
      modifies this
      ensures Valid()
      ensures !fileExists ==> outcome == NoFile && students == old(students)
      ensures fileExists ==> students == old(students) + DecodeAll(lines).loaded
      ensures fileExists ==> outcome == match DecodeAll(lines).failure
                                        case None => Loaded
                                        case Some(e) => Stopped(e)
    {
      if !fileExists {
        return NoFile;
      }
      ghost var loaded: seq<Student> := [];
      var i := 0;
      while i < |lines|
        invariant 0 <= i <= |lines|
        invariant |loaded| == i
        invariant DecodesTo(lines, loaded)
        invariant students == old(students) + loaded
        invariant Valid()
      {
        var r := FromFileString(lines[i]);
        if r.Fail? {
          DecodeAllIs(lines, loaded);
          return Stopped(r.error);
        }
        DecodesToSnoc(lines, loaded, r.value);
        students := students + [r.value];
        loaded := loaded + [r.value];
        i := i + 1;
      }
      DecodeAllIs(lines, loaded);
      outcome := Loaded;
    }
  }

  /**
   * Accepting the edit dialog as it opened leaves the student as it was,
   * provided the student has a grade and a name without surrounding blanks.
   */
  method EditWithoutChanges(t: GradeTracker, row: int) returns (notice: Notice)
    requires t.Valid()
    requires 0 <= row < |t.students|
    requires |t.students[row].grades| > 0
    requires Trim(t.students[row].name) == t.students[row].name
    modifies t
    ensures notice == Done
    ensures t.students == old(t.students)
  {
    var fields := t.EditFields(row);
    JoinedRoundTrip(t.students[row].grades);
    notice := t.EditStudent(row, true, fields.value.0, fields.value.1);
  }

  /**
   * The lines "Save & Exit" writes are read back at the next start as the
   * same roster, when no name holds a comma.
   */
  lemma SaveThenLoad(ss: seq<Student>, lines: seq<string>)
    requires forall i :: 0 <= i < |ss| ==> NoComma(ss[i].name) && JavaInts(ss[i].grades)
    requires |lines| == |ss|
    requires forall i :: 0 <= i < |ss| ==> lines[i] == FileLine(ss[i])
    ensures DecodeAll(lines) == Decoded(ss, None)
  {
    forall i | 0 <= i < |ss|
      ensures Decode(lines[i]) == Ok(ss[i])
    {
      FileLineRoundTrip(ss[i]);
    }
    DecodeAllIs(lines, ss);
  }

  /**
   * A student named "," is saved as the line ",", which splits to nothing:
   * reading it back raises the ArrayIndexOutOfBoundsException that the
   * loader does not catch.
   */
  lemma CommaNameBreaksReload()
    ensures FileLine(Student(",", [])) == ","
    ensures DecodeAll([","]) == Decoded([], Some(ArrayIndexOutOfBounds))
  {
    AllCommasSplitToNothing(",");
  }

  /**
   * A name holding a comma is cut at the comma when read back: what follows
   * the comma is taken for a grade and, starting with a blank as in
   * "Doe, Jane", fails to parse.
   */
  lemma CommaNameFailsReload(first: string, second: string)
    requires NoComma(first) && NoComma(second)
    requires |second| > 0 && second[0] == ' '
    ensures FileLine(Student(first + [Comma] + second, [])) == first + [Comma] + second
    ensures Decode(first + [Comma] + second) == Fail(NumberFormat)
  {
    var name := first + [Comma] + second;
    assert Split(name) == [first, second] by {
      RawSplitNoComma(first);
      RawSplitSnoc(first, second);
      SplitKeepsPieces(name);
    }
    assert ParseInt(second) == None;
  }

  /** The class average lies between the lowest and the highest grade of the class. */
  lemma ClassAverageBounds(ss: seq<Student>)
    ensures Lowest(AllGrades(ss)) as real <= ClassAverage(ss) <= Highest(AllGrades(ss)) as real
  {
    AverageBounds(AllGrades(ss));
  }

  /** Adding a student puts that student's grades after those of the class. */
  lemma {:induction false} AllGradesAppend(ss: seq<Student>, s: Student)
    ensures AllGrades(ss + [s]) == AllGrades(ss) + s.grades
  {
    assert (ss + [s])[..|ss|] == ss;
  }
}
