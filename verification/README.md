# Student Grade Tracker: a verified model

The Student Grade Tracker is a Swing window that keeps a roster of students.
Each student has a name and a list of integer grades. The table shows each
student's average, highest and lowest grade. Five buttons add, edit or delete
a student, show the class average, and save and exit. The roster is stored in
`students.txt`, one line `name,g1,...,gN` per student. The file is read when
the window opens and written by "Save & Exit".

This project models the program's core in Dafny and proves what it promises:

- **`JavaLang`**: the Java platform behaviour the core depends on, written as
  functions.
  - `String.split(",")` keeps a comma-free string whole, so `""` gives `[""]`.
    Otherwise it cuts at every comma and drops trailing empty pieces, so `","`
    gives `[]`.
  - `String.trim()` removes characters up to `' '` from both ends.
  - `Integer.parseInt` takes an optional sign, then at least one digit, and
    needs a value that fits in an `int`.
  - `Integer.toString` writes the decimal text of an `int`.
- **`StudentRecord`**: the `Student` record.
  - `getAverage`, `getHighest` and `getLowest` are loops proved against the
    functions `Average`, `Highest` and `Lowest`.
  - `toFileString` and `fromFileString` are loops proved against `FileLine`
    and `Decode`.
- **`GradeText`**: the grade text of the dialogs. `parseGrades` reads what the
  user typed and `joinGrades` writes the display string. Both are loops proved
  against `GradesFromText` and `Joined`.
- **`Tracker`**: the window's roster, as the class `GradeTracker` with a
  `seq<Student>` field. Its methods add, edit, delete, summarise, save and
  load. Each states the whole new roster and the message the user sees.
  `Valid()` holds throughout: every grade in the roster is a Java `int`.

The dialogs are replaced by their answers: whether OK (or Yes) was pressed,
and the text in the fields. The selected table row is a parameter, -1 when no
row is selected. The students file is a sequence of lines plus a flag saying
whether the file exists.

In these cases the model follows the code as written:

- **Partial load.** When a line of the file fails to parse, the students read
  before it stay in the roster. The reading is not undone.
- **Empty lines.** An empty line is not skipped: it loads as a student with an
  empty name and no grades.
- **Out-of-range rows.** Only row -1 is reported as "no selection". A row
  outside the list would make `ArrayList.get` or `remove` throw.
  - In the edit dialog, `get` runs before the dialog opens.
  - When deleting, `remove` runs after the confirmation.

  The table never produces such a row.
- **Lines with no tokens.** A line made only of commas splits into no tokens.
  `parts[0]` then throws `ArrayIndexOutOfBoundsException`, which the loader
  does not catch, so that exception ends the start-up read. The model returns
  `Stopped(ArrayIndexOutOfBounds)` with the students read so far.

## Model

| member | source | states |
|---|---|---|
| JavaLang.Split | codealphaa/StudentGradeTrackerGUI/StudentGradeTrackerGUI.java:48 | `split(",")`: a string without a comma is one token, itself; otherwise the tokens are a prefix of the comma-separated pieces, every piece dropped is empty and the last token kept is not |
| JavaLang.RawSplit | codealphaa/StudentGradeTrackerGUI/StudentGradeTrackerGUI.java:48 | the comma-separated pieces of a string: at least one piece, none holding a comma |
| JavaLang.DropTrailingEmpty | codealphaa/StudentGradeTrackerGUI/StudentGradeTrackerGUI.java:48 | what `split` keeps is a prefix of the pieces; everything dropped is empty and the last piece kept is not |
| JavaLang.RawSplitConcat | codealphaa/StudentGradeTrackerGUI/StudentGradeTrackerGUI.java:48 | splitting at a comma splits the two sides independently |
| JavaLang.RawSplitNoComma | codealphaa/StudentGradeTrackerGUI/StudentGradeTrackerGUI.java:48 | a string without a comma is one piece |
| JavaLang.SplitKeepsPieces | codealphaa/StudentGradeTrackerGUI/StudentGradeTrackerGUI.java:48 | when the last piece is not empty, `split` keeps every piece |
| JavaLang.RawSplitJoin | codealphaa/StudentGradeTrackerGUI/StudentGradeTrackerGUI.java:41-48 | comma-free tokens joined with commas split back into exactly those tokens |
| JavaLang.SplitJoin | codealphaa/StudentGradeTrackerGUI/StudentGradeTrackerGUI.java:41-48 | the same through `split`, when the last token is not empty |
| JavaLang.AllCommasSplitToNothing | codealphaa/StudentGradeTrackerGUI/StudentGradeTrackerGUI.java:48-49 | a non-empty string of commas splits to no tokens at all |
| JavaLang.AllCommasRawSplit | codealphaa/StudentGradeTrackerGUI/StudentGradeTrackerGUI.java:48 | n commas give n + 1 empty pieces, all of which `split` drops |
| JavaLang.JoinWith | codealphaa/StudentGradeTrackerGUI/StudentGradeTrackerGUI.java:227-234 | joining gives "" for no tokens; otherwise its length is that of all the tokens plus one separator between each two |
| JavaLang.JoinWithSnoc | codealphaa/StudentGradeTrackerGUI/StudentGradeTrackerGUI.java:43 | appending one more token adds the separator and the token to the end |
| JavaLang.TrimStartShape | codealphaa/StudentGradeTrackerGUI/StudentGradeTrackerGUI.java:112 | trimming the start removes a prefix made only of blanks and leaves a non-blank first character |
| JavaLang.TrimEndShape | codealphaa/StudentGradeTrackerGUI/StudentGradeTrackerGUI.java:112 | trimming the end removes a suffix made only of blanks and leaves a non-blank last character |
| JavaLang.Trim | codealphaa/StudentGradeTrackerGUI/StudentGradeTrackerGUI.java:222 | `trim()` is a slice of its input: everything before and after the slice is blank, and a non-empty result starts and ends with a non-blank character |
| JavaLang.TrimUntouched | codealphaa/StudentGradeTrackerGUI/StudentGradeTrackerGUI.java:222 | a string that starts and ends with a non-blank character is unchanged by `trim()` |
| JavaLang.TrimLeadingSpace | codealphaa/StudentGradeTrackerGUI/StudentGradeTrackerGUI.java:222 | `trim()` removes the blank that `joinGrades` puts after each comma |
| JavaLang.DigitChar | codealphaa/StudentGradeTrackerGUI/StudentGradeTrackerGUI.java:43 | the character for digit d is a digit whose value is d |
| JavaLang.NatToDigits | codealphaa/StudentGradeTrackerGUI/StudentGradeTrackerGUI.java:43 | the decimal text of n is non-empty, all digits, without a leading zero, and its value is n |
| JavaLang.IntToString | codealphaa/StudentGradeTrackerGUI/StudentGradeTrackerGUI.java:43 | the text of an int starts with '-' exactly when the int is negative; the rest is the digits of its magnitude, without a leading zero |
| JavaLang.DigitsPositive | codealphaa/StudentGradeTrackerGUI/StudentGradeTrackerGUI.java:43 | digits that do not start with '0' have a positive value |
| JavaLang.NatToDigitsUnique | codealphaa/StudentGradeTrackerGUI/StudentGradeTrackerGUI.java:43 | the decimal text without leading zeros is the only one for its value |
| JavaLang.ParseInt | codealphaa/StudentGradeTrackerGUI/StudentGradeTrackerGUI.java:52 | `Integer.parseInt` only ever returns a Java `int` |
| JavaLang.ParseIntToString | codealphaa/StudentGradeTrackerGUI/StudentGradeTrackerGUI.java:43-52 | `parseInt` reads back what `toString` writes, for every Java `int` |
| JavaLang.IntToStringShape | codealphaa/StudentGradeTrackerGUI/StudentGradeTrackerGUI.java:43 | the text of an int holds no comma and has no blank at either end |
| StudentRecord.Highest | codealphaa/StudentGradeTrackerGUI/StudentGradeTrackerGUI.java:27-32 | the highest grade is one of the grades and no grade exceeds it; 0 with no grades |
| StudentRecord.Lowest | codealphaa/StudentGradeTrackerGUI/StudentGradeTrackerGUI.java:34-39 | the lowest grade is one of the grades and no grade undercuts it; 0 with no grades |
| StudentRecord.SumAppend | codealphaa/StudentGradeTrackerGUI/StudentGradeTrackerGUI.java:22-23 | the sum of two runs of grades is the sum of their sums |
| StudentRecord.SumBounds | codealphaa/StudentGradeTrackerGUI/StudentGradeTrackerGUI.java:22-23 | n grades in [lo, hi] add up to between n * lo and n * hi |
| StudentRecord.QuotientBounds | codealphaa/StudentGradeTrackerGUI/StudentGradeTrackerGUI.java:24 | dividing by a positive count keeps the bounds |
| StudentRecord.MeanBounds | codealphaa/StudentGradeTrackerGUI/StudentGradeTrackerGUI.java:20-25 | grades in [lo, hi] have their average in [lo, hi] |
| StudentRecord.AverageBounds | codealphaa/StudentGradeTrackerGUI/StudentGradeTrackerGUI.java:20-39 | lowest <= average <= highest, for every grade list including the empty one |
| StudentRecord.GetAverage | codealphaa/StudentGradeTrackerGUI/StudentGradeTrackerGUI.java:20-25 | `getAverage` returns the sum over the count, 0 with no grades, and lies between lowest and highest |
| StudentRecord.GetHighest | codealphaa/StudentGradeTrackerGUI/StudentGradeTrackerGUI.java:27-32 | `getHighest` returns a grade that no grade exceeds, 0 with no grades |
| StudentRecord.GetLowest | codealphaa/StudentGradeTrackerGUI/StudentGradeTrackerGUI.java:34-39 | `getLowest` returns a grade that no grade undercuts, 0 with no grades |
| StudentRecord.ParseInts | codealphaa/StudentGradeTrackerGUI/StudentGradeTrackerGUI.java:51-53 | every token parsed in order; succeeds exactly when every token is an integer, and then gives each token's value, else NumberFormatException |
| StudentRecord.ParseIntsFailsAt | codealphaa/StudentGradeTrackerGUI/StudentGradeTrackerGUI.java:51-53 | one token that does not parse makes the whole parse fail |
| StudentRecord.ParseIntsAll | codealphaa/StudentGradeTrackerGUI/StudentGradeTrackerGUI.java:51-53 | tokens that each parse to their value give those values |
| StudentRecord.Decode | codealphaa/StudentGradeTrackerGUI/StudentGradeTrackerGUI.java:47-55 | `fromFileString`: a comma-free line is a name with no grades; it fails exactly when there are no tokens (ArrayIndexOutOfBounds) or a later token is not an integer; otherwise the name is token 0 and grade i is token i + 1 |
| StudentRecord.GradeTextsShape | codealphaa/StudentGradeTrackerGUI/StudentGradeTrackerGUI.java:43 | every grade's text is non-empty and comma-free |
| StudentRecord.ParseGradeTexts | codealphaa/StudentGradeTrackerGUI/StudentGradeTrackerGUI.java:43-52 | the grades' texts parse back to the grades |
| StudentRecord.ParseIntsSnoc | codealphaa/StudentGradeTrackerGUI/StudentGradeTrackerGUI.java:51-53 | parsing one more token that reads as v appends v to the values |
| StudentRecord.NameThenTextsShape | codealphaa/StudentGradeTrackerGUI/StudentGradeTrackerGUI.java:41-44 | the name followed by the grades' texts is a list of comma-free tokens whose last one is not empty |
| StudentRecord.FileLineRoundTrip | codealphaa/StudentGradeTrackerGUI/StudentGradeTrackerGUI.java:41-55 | `fromFileString(toFileString(s))` gives `s` back when the name has no comma |
| StudentRecord.GradeTextsSnoc | codealphaa/StudentGradeTrackerGUI/StudentGradeTrackerGUI.java:43 | one more grade adds its text at the end |
| StudentRecord.FileLinePrefixSnoc | codealphaa/StudentGradeTrackerGUI/StudentGradeTrackerGUI.java:43 | each step of `toFileString` appends "," and the grade's text |
| StudentRecord.ToFileString | codealphaa/StudentGradeTrackerGUI/StudentGradeTrackerGUI.java:41-45 | `toFileString` writes the name and each grade, separated by commas, with no trailing comma |
| StudentRecord.FromFileString | codealphaa/StudentGradeTrackerGUI/StudentGradeTrackerGUI.java:47-55 | `fromFileString` returns what `Decode` states, error cases included |
| GradeText.TrimAll | codealphaa/StudentGradeTrackerGUI/StudentGradeTrackerGUI.java:222 | every token trimmed, in order |
| GradeText.GradesFromText | codealphaa/StudentGradeTrackerGUI/StudentGradeTrackerGUI.java:218-225 | `parseGrades`: succeeds exactly when every trimmed token is an integer, then with one grade per token in order; otherwise NumberFormatException |
| GradeText.ParseGrades | codealphaa/StudentGradeTrackerGUI/StudentGradeTrackerGUI.java:218-225 | the array loop of `parseGrades` computes `GradesFromText` |
| GradeText.JoinedPrefixSnoc | codealphaa/StudentGradeTrackerGUI/StudentGradeTrackerGUI.java:229-232 | each step of `joinGrades` appends ", " (except before the first grade) and the grade's text |
| GradeText.JoinGrades | codealphaa/StudentGradeTrackerGUI/StudentGradeTrackerGUI.java:227-234 | `joinGrades` writes the grades with ", " only between them |
| GradeText.JoinWithCommaSpace | codealphaa/StudentGradeTrackerGUI/StudentGradeTrackerGUI.java:231 | joining with ", " is joining with "," after a blank before each later token |
| GradeText.SpacedShape | codealphaa/StudentGradeTrackerGUI/StudentGradeTrackerGUI.java:231 | putting a blank before each later token keeps every token non-empty and comma-free |
| GradeText.SplitJoined | codealphaa/StudentGradeTrackerGUI/StudentGradeTrackerGUI.java:219-231 | the display string splits into the grades' texts, each but the first after a blank |
| GradeText.TrimSpacedTexts | codealphaa/StudentGradeTrackerGUI/StudentGradeTrackerGUI.java:222-231 | trimming those pieces gives the grades' texts |
| GradeText.JoinedRoundTrip | codealphaa/StudentGradeTrackerGUI/StudentGradeTrackerGUI.java:218-234 | `parseGrades(joinGrades(g)) == g` for every non-empty list of Java ints |
| GradeText.NoGradesDoNotRoundTrip | codealphaa/StudentGradeTrackerGUI/StudentGradeTrackerGUI.java:218-234 | no grades display as "", and `parseGrades("")` fails |
| GradeText.OnlyCommasGiveNoGrades | codealphaa/StudentGradeTrackerGUI/StudentGradeTrackerGUI.java:218-225 | a text of commas only parses to no grades, without error |
| Tracker.TakeOk | codealphaa/StudentGradeTrackerGUI/StudentGradeTrackerGUI.java:210-213 | the leading successes of a run of results and the first failure, if any |
| Tracker.DecodeAll | codealphaa/StudentGradeTrackerGUI/StudentGradeTrackerGUI.java:208-215 | the students read are the decoded leading lines; the reading stops only at the first line that does not decode, with its exception |
| Tracker.DecodesToSnoc | codealphaa/StudentGradeTrackerGUI/StudentGradeTrackerGUI.java:210-211 | one more line that decodes extends the students read |
| Tracker.DecodeAllIs | codealphaa/StudentGradeTrackerGUI/StudentGradeTrackerGUI.java:208-215 | any leading run of decoded lines that ends at the file's end or at a failing line is exactly what `DecodeAll` gives |
| Tracker.GradeTracker.constructor | codealphaa/StudentGradeTrackerGUI/StudentGradeTrackerGUI.java:59 | the roster starts empty |
| Tracker.GradeTracker.AddStudent | codealphaa/StudentGradeTrackerGUI/StudentGradeTrackerGUI.java:109-118 | on OK with grades that parse, the trimmed name and the grades become the new last student; cancel or bad grades leave the roster unchanged |
| Tracker.GradeTracker.EditFields | codealphaa/StudentGradeTrackerGUI/StudentGradeTrackerGUI.java:129-131 | the edit dialog opens with the student's name and the grades' display string |
| Tracker.GradeTracker.EditStudent | codealphaa/StudentGradeTrackerGUI/StudentGradeTrackerGUI.java:123-148 | row -1 reports no selection; an out-of-range row throws before the dialog; on OK with good grades only that row is replaced; otherwise nothing changes |
| Tracker.GradeTracker.DeleteStudent | codealphaa/StudentGradeTrackerGUI/StudentGradeTrackerGUI.java:152-162 | row -1 reports no selection; on Yes, only that student goes and the later ones move up a row; otherwise nothing changes |
| Tracker.GradeTracker.ShowSummary | codealphaa/StudentGradeTrackerGUI/StudentGradeTrackerGUI.java:165-179 | no figure for an empty roster; otherwise the total of all grades over their count, 0 when there are no grades |
| Tracker.GradeTracker.SaveToFile | codealphaa/StudentGradeTrackerGUI/StudentGradeTrackerGUI.java:196-198 | one line per student in roster order, each that student's `toFileString` |
| Tracker.GradeTracker.LoadFromFile | codealphaa/StudentGradeTrackerGUI/StudentGradeTrackerGUI.java:204-216 | no file leaves the roster unchanged; otherwise the decoded leading lines are appended, and the outcome names the exception that stopped the reading, if any |
| Tracker.EditWithoutChanges | codealphaa/StudentGradeTrackerGUI/StudentGradeTrackerGUI.java:129-143 | accepting the edit dialog as it opened leaves the roster unchanged, for a student with a grade and a name with no blank at either end |
| Tracker.SaveThenLoad | codealphaa/StudentGradeTrackerGUI/StudentGradeTrackerGUI.java:196-212 | the saved lines load back as the same roster, with no failure, when no name holds a comma |
| Tracker.CommaNameBreaksReload | codealphaa/StudentGradeTrackerGUI/StudentGradeTrackerGUI.java:41-49 | a student named "," is saved as ",", and reading it back fails at `parts[0]` |
| Tracker.CommaNameFailsReload | codealphaa/StudentGradeTrackerGUI/StudentGradeTrackerGUI.java:41-52 | a name like "Doe, Jane" is cut at its comma on reload, and the rest fails as a grade |
| Tracker.ClassAverageBounds | codealphaa/StudentGradeTrackerGUI/StudentGradeTrackerGUI.java:171-179 | the class average lies between the class's lowest and highest grade |
| Tracker.AllGradesAppend | codealphaa/StudentGradeTrackerGUI/StudentGradeTrackerGUI.java:172-177 | another student's grades come after those of the students before it |

## Left out

- The Swing window itself is not modelled: the table model, buttons, dialogs, `refreshTable` and window layout. The dialogs' answers and the selected row are parameters.
- The messages shown to the user are the `Notice` and `LoadOutcome` values, not their text. `String.format("%.2f", …)` is not modelled, and averages are exact reals rather than doubles.
- File I/O is a sequence of lines plus a flag for whether the file exists. `FileWriter`, `FileReader`, how `readLine` splits at line terminators and `IOException` (for example "Error saving file.") are not modelled.
- After an uncaught `ArrayIndexOutOfBoundsException` at start-up the window is never shown. The model only reports the exception and the students read up to that point.
- `System.exit` after "Save & Exit" and the Swing event thread are not modelled.
- StudentRecord.GetAverage: the running `int` sum is unbounded in the model; the 32-bit wrap-around of `sum += g` on very large grades is not modelled.
- Tracker.GradeTracker.ShowSummary: the `int` accumulators `total` and `count` are unbounded in the model; their 32-bit wrap-around is not modelled.
- JavaLang.ParseInt: `Integer.parseInt` also accepts non-ASCII Unicode digits; the model accepts only '0' to '9'.
- JavaLang.Trim: `trim()` works on UTF-16 code units; here a string is a sequence of Dafny characters.
