/**
 * The grade text of the add and edit dialogs: `parseGrades` reads what the
 * user typed ("90, 85,77") and `joinGrades` writes the display string
 * ("90, 85, 77") that the table and the edit dialog show.
 */
module GradeText {
  import opened JavaLang
  import opened StudentRecord

  /** Every token with `trim()` applied. */
  function TrimAll(parts: seq<string>): (r: seq<string>)
    ensures |r| == |parts| && forall i :: 0 <= i < |parts| ==> r[i] == Trim(parts[i])
  {
    seq(|parts|, i requires 0 <= i < |parts| => Trim(parts[i]))
  }

  /**
   * What `parseGrades` returns: split on commas, trim each token and parse it;
   * NumberFormatException as soon as one token is not an integer.
   */
  function GradesFromText(text: string): (r: Result<seq<int>>)
    ensures r.Ok? || r == Fail(NumberFormat)
    ensures r.Ok? <==> forall i :: 0 <= i < |Split(text)| ==> ParseInt(Trim(Split(text)[i])).Some?
    ensures r.Ok? ==> |r.value| == |Split(text)|
    ensures r.Ok? ==> forall i :: 0 <= i < |r.value| ==> ParseInt(Trim(Split(text)[i])) == Some(r.value[i])
    ensures r.Ok? ==> JavaInts(r.value)
  {
    ParseInts(TrimAll(Split(text)))
  }

  /** The display string: the grades' decimal texts with ", " between them. */
  function Joined(g: seq<int>): string
  {
    JoinWith(", ", GradeTexts(g))
  }

  /**
   * `parseGrades`: fills a fresh array of `parts.length` ints with the parsed,
   * trimmed tokens.
   */
  method ParseGrades(text: string) returns (r: Result<seq<int>>)
    ensures r == GradesFromText(text)
  {
    var parts := Split(text);
    ghost var tokens := TrimAll(parts);
    var grades := new int[|parts|];
    for i := 0 to |parts|
      invariant ParseInts(tokens[..i]) == Ok(grades[..i])
    {
      var p := ParseInt(Trim(parts[i]));
      if p.None? {
        ParseIntsFailsAt(tokens, i);
        return Fail(NumberFormat);
      }
      ghost var done := grades[..i];
      assert ParseInts(tokens[..i + 1]) == Ok(done + [p.value]) by {
        ParseIntsSnoc(tokens, i, done, p.value);
      }
      grades[i] := p.value;
      assert grades[..i + 1] == done + [p.value];
    }
    assert ParseInts(tokens) == Ok(grades[..]) by {
      assert tokens[..|parts|] == tokens;
      assert grades[..|parts|] == grades[..];
    }
    r := Ok(grades[..]);
  }

  /** The display string so far grows by the next grade's text, after ", " unless it is the first. */
  lemma JoinedPrefixSnoc(g: seq<int>, i: nat)
    requires i < |g|
    ensures Joined(g[..i + 1]) == Joined(g[..i]) + (if i > 0 then ", " else "") + IntToString(g[i])
  {
    GradeTextsSnoc(g, i);
    if i > 0 {
      JoinWithSnoc(", ", GradeTexts(g[..i]), IntToString(g[i]));
    }
  }

  /** `joinGrades`: appends each grade, and ", " after every grade but the last. */
  method JoinGrades(g: seq<int>) returns (text: string)
    ensures text == Joined(g)
  {
    var sb := "";
    for i := 0 to |g|
      invariant sb == Joined(g[..i]) + (if 0 < i < |g| then ", " else "")
    {
      JoinedPrefixSnoc(g, i);
      sb := sb + IntToString(g[i]);
      if i < |g| - 1 {
        sb := sb + ", ";
      }
    }
    assert g[..|g|] == g;
    text := sb;
  }

  /** The tokens, each but the first preceded by one space. */
  function Spaced(toks: seq<string>): seq<string>
  {
    seq(|toks|, i requires 0 <= i < |toks| => if i == 0 then toks[i] else " " + toks[i])
  }

  /** Joining with ", " is joining with "," after putting a space before every later token. */
  lemma {:induction false} JoinWithCommaSpace(toks: seq<string>)
    ensures JoinWith(", ", toks) == JoinWith([Comma], Spaced(toks))
  {
    if |toks| > 1 {
      var init := toks[..|toks| - 1];
      JoinWithCommaSpace(init);
      assert Spaced(toks)[..|toks| - 1] == Spaced(init);
    }
  }

  /** The display string of some grades splits into their texts, each but the first after a blank. */
  lemma SplitJoined(g: seq<int>)
    requires |g| > 0
    ensures Split(Joined(g)) == Spaced(GradeTexts(g))
  {
    var texts := GradeTexts(g);
    JoinWithCommaSpace(texts);
    GradeTextsShape(g);
    SpacedShape(texts);
    SplitJoin(Spaced(texts));
  }

  /** Putting blanks in front keeps tokens comma-free and non-empty. */
  lemma SpacedShape(toks: seq<string>)
    requires forall i :: 0 <= i < |toks| ==> toks[i] != "" && NoComma(toks[i])
    ensures forall i :: 0 <= i < |toks| ==> Spaced(toks)[i] != "" && NoComma(Spaced(toks)[i])
  {
    forall i | 0 <= i < |toks|
      ensures Spaced(toks)[i] != "" && NoComma(Spaced(toks)[i])
    {
      if i > 0 {
        assert forall k :: 0 < k < |Spaced(toks)[i]| ==> Spaced(toks)[i][k] == toks[i][k - 1];
      }
    }
  }

  /** Trimming the spaced texts of grades gives the texts back. */
  lemma TrimSpacedTexts(g: seq<int>)
    ensures TrimAll(Spaced(GradeTexts(g))) == GradeTexts(g)
  {
    var texts := GradeTexts(g);
    var pieces := Spaced(texts);
    forall i | 0 <= i < |g|
      ensures Trim(pieces[i]) == texts[i]
    {
      IntToStringShape(g[i]);
      if i == 0 {
        TrimUntouched(texts[i]);
      } else {
        TrimLeadingSpace(texts[i]);
      }
    }
  }

  /**
   * What the edit dialog pre-fills, `parseGrades` reads back, for every
   * non-empty list of Java ints.
   */
  lemma JoinedRoundTrip(g: seq<int>)
    requires |g| > 0
    requires JavaInts(g)
    ensures GradesFromText(Joined(g)) == Ok(g)
  {
    SplitJoined(g);
    TrimSpacedTexts(g);
    ParseGradeTexts(g);
  }

  /**
   * A student with no grades is shown as "", and "" splits to the single
   * empty token, which is not an integer: accepting the edit dialog unchanged
   * is rejected.
   */
  lemma NoGradesDoNotRoundTrip()
    ensures Joined([]) == ""
    ensures GradesFromText(Joined([])) == Fail(NumberFormat)
  {
    assert Split("") == [""];
    assert ParseInt(Trim("")) == None;
  }

  /** Text made only of commas splits to no tokens and parses to no grades at all. */
  lemma OnlyCommasGiveNoGrades(text: string)
    requires |text| > 0 && forall i :: 0 <= i < |text| ==> text[i] == Comma
    ensures GradesFromText(text) == Ok([])
  {
    AllCommasSplitToNothing(text);
  }
}
