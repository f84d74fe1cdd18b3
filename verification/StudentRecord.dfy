/**
 * The `Student` record: a name and a list of integer grades, the statistics
 * derived from them (average, highest, lowest), and the flat-file line
 * `name,g1,...,gN` that stores one record.
 */
module StudentRecord {
  import opened JavaLang

  datatype Student = Student(name: string, grades: seq<int>)

  /** Every grade fits in a Java `int`, as every grade that `parseInt` produced does. */
  predicate JavaInts(g: seq<int>) {
    forall i :: 0 <= i < |g| ==> InIntRange(g[i])
  }

  // ---------------------------------------------------------------------------
  // Statistics: specification
  // ---------------------------------------------------------------------------

  /** The sum of the grades, added up from the first to the last. */
  function Sum(g: seq<int>): int
  {
    if |g| == 0 then 0 else Sum(g[..|g| - 1]) + g[|g| - 1]
  }

  /** The arithmetic mean, as an exact real; 0 when there are no grades. */
  function Average(g: seq<int>): real
  {
    if |g| == 0 then 0.0 else Sum(g) as real / |g| as real
  }

  /** The largest grade; 0 when there are no grades. */
  function Highest(g: seq<int>): (h: int)
    ensures |g| == 0 ==> h == 0
    ensures |g| > 0 ==> h in g && forall i :: 0 <= i < |g| ==> g[i] <= h
  {
    if |g| <= 1 then (if |g| == 0 then 0 else g[0])
    else
      var m := Highest(g[..|g| - 1]);
      if g[|g| - 1] > m then g[|g| - 1] else m
  }

  /** The smallest grade; 0 when there are no grades. */
  function Lowest(g: seq<int>): (l: int)
    ensures |g| == 0 ==> l == 0
    ensures |g| > 0 ==> l in g && forall i :: 0 <= i < |g| ==> l <= g[i]
  {
    if |g| <= 1 then (if |g| == 0 then 0 else g[0])
    else
      var m := Lowest(g[..|g| - 1]);
      if g[|g| - 1] < m then g[|g| - 1] else m
  }

  lemma SumAppend(a: seq<int>, b: seq<int>)
    ensures Sum(a + b) == Sum(a) + Sum(b)
  {
    if |b| > 0 {
      assert (a + b)[..|a + b| - 1] == a + b[..|b| - 1];
      SumAppend(a, b[..|b| - 1]);
    } else {
      assert a + b == a;
    }
  }

  /** Grades that all lie in [lo, hi] add up to between n * lo and n * hi. */
  lemma {:induction false} SumBounds(g: seq<int>, lo: int, hi: int)
    requires forall i :: 0 <= i < |g| ==> lo <= g[i] <= hi
    ensures |g| * lo <= Sum(g) <= |g| * hi
  {
    if |g| > 0 {
      var n := |g|;
      SumBounds(g[..n - 1], lo, hi);
      assert n * lo == (n - 1) * lo + lo;
      assert n * hi == (n - 1) * hi + hi;
    }
  }

  /** Converting to reals keeps products and order. */
  lemma ProductAsReal(n: int, x: int)
    ensures (n * x) as real == n as real * x as real
  {
  }

  /** Dividing by a positive count keeps both bounds: n * lo <= s <= n * hi gives lo <= s / n <= hi. */
  lemma QuotientBounds(s: real, n: real, lo: real, hi: real)
    requires n > 0.0 && n * lo <= s <= n * hi
    ensures lo <= s / n <= hi
  {
    var q := s / n;
    assert q * n == s;
    assert n * (q - lo) >= 0.0;
    assert n * (hi - q) >= 0.0;
  }

  /** Grades that all lie in [lo, hi] have their mean in [lo, hi]. */
  lemma MeanBounds(g: seq<int>, lo: int, hi: int)
    requires |g| > 0
    requires forall i :: 0 <= i < |g| ==> lo <= g[i] <= hi
    ensures lo as real <= Average(g) <= hi as real
  {
    SumBounds(g, lo, hi);
    ProductAsReal(|g|, lo);
    ProductAsReal(|g|, hi);
    QuotientBounds(Sum(g) as real, |g| as real, lo as real, hi as real);
  }

  /** The average lies between the lowest and the highest grade. */
  lemma AverageBounds(g: seq<int>)
    ensures Lowest(g) <= Highest(g)
    ensures Lowest(g) as real <= Average(g) <= Highest(g) as real
  {
    if |g| > 0 {
      MeanBounds(g, Lowest(g), Highest(g));
    }
  }

  // ---------------------------------------------------------------------------
  // Statistics: the loops of getAverage, getHighest and getLowest
  // ---------------------------------------------------------------------------

  /** `getAverage`: 0 with no grades, else the running sum divided by the count. */
  method GetAverage(s: Student) returns (avg: real)
    ensures avg == Average(s.grades)
    ensures Lowest(s.grades) as real <= avg <= Highest(s.grades) as real
  {
    AverageBounds(s.grades);
    var g := s.grades;
    if |g| == 0 {
      return 0.0;
    }
    var sum := 0;
    for i := 0 to |g|
      invariant sum == Sum(g[..i])
    {
      assert g[..i + 1][..i] == g[..i];
      sum := sum + g[i];
    }
    assert g[..|g|] == g;
    avg := sum as real / |g| as real;
  }

  /** `getHighest`: 0 with no grades, else a grade no other grade exceeds. */
  method GetHighest(s: Student) returns (max: int)
    ensures |s.grades| == 0 ==> max == 0
    ensures |s.grades| > 0 ==> max in s.grades && forall i :: 0 <= i < |s.grades| ==> s.grades[i] <= max
    ensures max == Highest(s.grades)
  {
    var g := s.grades;
    if |g| == 0 {
      return 0;
    }
    max := g[0];
    for i := 0 to |g|
      invariant max in g
      invariant forall k :: 0 <= k < i ==> g[k] <= max
    {
      if g[i] > max {
        max := g[i];
      }
    }
    assert Highest(g) <= max && max <= Highest(g);
  }

  /** `getLowest`: 0 with no grades, else a grade no other grade undercuts. */
  method GetLowest(s: Student) returns (min: int)
    ensures |s.grades| == 0 ==> min == 0
    ensures |s.grades| > 0 ==> min in s.grades && forall i :: 0 <= i < |s.grades| ==> min <= s.grades[i]
    ensures min == Lowest(s.grades)
  {
    var g := s.grades;
    if |g| == 0 {
      return 0;
    }
    min := g[0];
    for i := 0 to |g|
      invariant min in g
      invariant forall k :: 0 <= k < i ==> min <= g[k]
    {
      if g[i] < min {
        min := g[i];
      }
    }
    assert Lowest(g) <= min && min <= Lowest(g);
  }

  // ---------------------------------------------------------------------------
  // The flat-file line: specification
  // ---------------------------------------------------------------------------

  /** The decimal text of every grade, in order. */
  function GradeTexts(g: seq<int>): seq<string>
  {
    seq(|g|, i requires 0 <= i < |g| => IntToString(g[i]))
  }

  /** The line `toFileString` writes: the name and each grade's text, separated by commas. */
  function FileLine(s: Student): string
  {
    JoinWith([Comma], [s.name] + GradeTexts(s.grades))
  }

  /**
   * `Integer.parseInt` of every token, in order; fails as a whole when any
   * token is not an integer.
   */
  function ParseInts(toks: seq<string>): (r: Result<seq<int>>)
    ensures r.Ok? || r == Fail(NumberFormat)
    ensures r.Ok? <==> forall i :: 0 <= i < |toks| ==> ParseInt(toks[i]).Some?
    ensures r.Ok? ==> |r.value| == |toks| && forall i :: 0 <= i < |toks| ==> ParseInt(toks[i]) == Some(r.value[i])
    ensures r.Ok? ==> JavaInts(r.value)
  {
    if |toks| == 0 then Ok([])
    else
      match ParseInts(toks[..|toks| - 1])
      case Fail(e) => Fail(e)
      case Ok(init) =>
        match ParseInt(toks[|toks| - 1])
        case None => Fail(NumberFormat)
        case Some(v) => Ok(init + [v])
  }

  lemma ParseIntsFailsAt(toks: seq<string>, i: nat)
    requires i < |toks| && ParseInt(toks[i]).None?
    ensures ParseInts(toks) == Fail(NumberFormat)
  {
  }

  /** One more token that parses extends the parsed prefix by its value. */
  lemma ParseIntsSnoc(toks: seq<string>, i: nat, g: seq<int>, v: int)
    requires i < |toks| && ParseInts(toks[..i]) == Ok(g) && ParseInt(toks[i]) == Some(v)
    ensures ParseInts(toks[..i + 1]) == Ok(g + [v])
  {
    assert toks[..i + 1][..i] == toks[..i];
  }

  lemma ParseIntsAll(toks: seq<string>, g: seq<int>)
    requires |g| == |toks| && forall k :: 0 <= k < |toks| ==> ParseInt(toks[k]) == Some(g[k])
    ensures ParseInts(toks) == Ok(g)
  {
    assert ParseInts(toks).value == g;
  }

  /**
   * What `fromFileString` produces for a line: the first comma-separated token
   * is the name and every later token a grade. A line with no tokens (only
   * commas) fails on `parts[0]`; a token that is not an integer fails with
   * NumberFormatException.
   */
  function Decode(line: string): (r: Result<Student>)
    ensures NoComma(line) ==> r == Ok(Student(line, []))
    ensures r.Fail? <==> |Split(line)| == 0 || exists i :: 1 <= i < |Split(line)| && ParseInt(Split(line)[i]).None?
    ensures r == Fail(ArrayIndexOutOfBounds) <==> |Split(line)| == 0
    ensures r.Ok? ==> r.value.name == Split(line)[0] && |r.value.grades| == |Split(line)| - 1
    ensures r.Ok? ==> forall i :: 0 <= i < |r.value.grades| ==> ParseInt(Split(line)[i + 1]) == Some(r.value.grades[i])
    ensures r.Ok? ==> JavaInts(r.value.grades)
  {
    var parts := Split(line);
    if |parts| == 0 then Fail(ArrayIndexOutOfBounds)
    else
      match ParseInts(parts[1..])
      case Fail(e) => Fail(e)
      case Ok(g) => Ok(Student(parts[0], g))
  }

  /** The text of every grade is non-empty and comma-free. */
  lemma GradeTextsShape(g: seq<int>)
    ensures forall i :: 0 <= i < |g| ==> GradeTexts(g)[i] != "" && NoComma(GradeTexts(g)[i])
  {
    forall i | 0 <= i < |g|
      ensures GradeTexts(g)[i] != "" && NoComma(GradeTexts(g)[i])
    {
      IntToStringShape(g[i]);
    }
  }

  /** A comma-free name before non-empty comma-free texts gives comma-free pieces, the last one non-empty. */
  lemma NameThenTextsShape(name: string, texts: seq<string>)
    requires NoComma(name) && |texts| > 0
    requires forall i :: 0 <= i < |texts| ==> texts[i] != "" && NoComma(texts[i])
    ensures forall i :: 0 <= i < |texts| + 1 ==> NoComma(([name] + texts)[i])
    ensures ([name] + texts)[|texts|] != ""
  {
    assert forall i :: 1 <= i < |texts| + 1 ==> ([name] + texts)[i] == texts[i - 1];
  }

  /** Parsing the decimal texts of Java ints gives the ints back. */
  lemma ParseGradeTexts(g: seq<int>)
    requires JavaInts(g)
    ensures ParseInts(GradeTexts(g)) == Ok(g)
  {
    forall i | 0 <= i < |g|
      ensures ParseInt(GradeTexts(g)[i]) == Some(g[i])
    {
      ParseIntToString(g[i]);
    }
    ParseIntsAll(GradeTexts(g), g);
  }

  /**
   * Reading back a written line gives the same record, provided the name has
   * no comma (the format has no escaping) and the grades are Java ints.
   */
  lemma FileLineRoundTrip(s: Student)
    requires NoComma(s.name)
    requires JavaInts(s.grades)
    ensures Decode(FileLine(s)) == Ok(s)
  {
    var g := s.grades;
    var pieces := [s.name] + GradeTexts(g);
    if |g| == 0 {
      assert FileLine(s) == s.name;
    } else {
      assert Split(FileLine(s)) == pieces by {
        GradeTextsShape(g);
        NameThenTextsShape(s.name, GradeTexts(g));
        SplitJoin(pieces);
      }
      assert pieces[1..] == GradeTexts(g);
      ParseGradeTexts(g);
    }
  }

  // ---------------------------------------------------------------------------
  // The flat-file line: the loops of toFileString and fromFileString
  // ---------------------------------------------------------------------------

  /** One more grade adds its text to the end of the texts. */
  lemma GradeTextsSnoc(g: seq<int>, i: nat)
    requires i < |g|
    ensures GradeTexts(g[..i + 1]) == GradeTexts(g[..i]) + [IntToString(g[i])]
  {
    var longer, shorter := GradeTexts(g[..i + 1]), GradeTexts(g[..i]);
    forall k | 0 <= k < i
      ensures longer[k] == shorter[k]
    {
      assert g[..i + 1][k] == g[..i][k];
    }
  }

  /** The line written so far grows by a comma and the next grade's text. */
  lemma FileLinePrefixSnoc(name: string, g: seq<int>, i: nat)
    requires i < |g|
    ensures JoinWith([Comma], [name] + GradeTexts(g[..i + 1]))
         == JoinWith([Comma], [name] + GradeTexts(g[..i])) + [Comma] + IntToString(g[i])
  {
    GradeTextsSnoc(g, i);
    assert [name] + GradeTexts(g[..i + 1]) == ([name] + GradeTexts(g[..i])) + [IntToString(g[i])];
    JoinWithSnoc([Comma], [name] + GradeTexts(g[..i]), IntToString(g[i]));
  }

  /** `toFileString`: starts from the name and appends "," and each grade. */
  method ToFileString(s: Student) returns (line: string)
    ensures line == FileLine(s)
  {
    var g := s.grades;
    var sb := s.name;
    for i := 0 to |g|
      invariant sb == JoinWith([Comma], [s.name] + GradeTexts(g[..i]))
    {
      FileLinePrefixSnoc(s.name, g, i);
      sb := sb + [Comma] + IntToString(g[i]);
    }
    assert g[..|g|] == g;
    line := sb;
  }

  /**
   * `fromFileString`: splits the line, takes `parts[0]` as the name and fills a
   * fresh array with `parseInt(parts[i])` for every later part.
   */
  method FromFileString(line: string) returns (r: Result<Student>)
    ensures r == Decode(line)
  {
    var parts := Split(line);
    if |parts| == 0 {
      return Fail(ArrayIndexOutOfBounds);
    }
    var name := parts[0];
    var grades := new int[|parts| - 1];
    for i := 1 to |parts|
      invariant forall k :: 0 <= k < i - 1 ==> ParseInt(parts[k + 1]) == Some(grades[k])
    {
      var p := ParseInt(parts[i]);
      if p.None? {
        ParseIntsFailsAt(parts[1..], i - 1);
        return Fail(NumberFormat);
      }
      grades[i - 1] := p.value;
    }
    forall k | 0 <= k < |parts| - 1
      ensures ParseInt(parts[1..][k]) == Some(grades[k])
    {
      assert parts[1..][k] == parts[k + 1];
    }
    ParseIntsAll(parts[1..], grades[..]);
    r := Ok(Student(name, grades[..]));
  }
}
