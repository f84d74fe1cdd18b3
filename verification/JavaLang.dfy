/**
 * The parts of the Java platform that the grade tracker relies on, stated as
 * functions: `String.split(",")`, `String.trim()`, `Integer.parseInt` and the
 * decimal text that `StringBuilder.append(int)` writes (`Integer.toString`).
 * Also the Option and Result types used for Java's exceptions.
 */
module JavaLang {

  datatype Option<+T> = None | Some(value: T)

  /** The unchecked exceptions the tracker's parsing code can raise. */
  datatype Exception =
    | NumberFormat            // java.lang.NumberFormatException from Integer.parseInt
    | ArrayIndexOutOfBounds   // java.lang.ArrayIndexOutOfBoundsException from parts[0]

  datatype Result<+T> = Ok(value: T) | Fail(error: Exception)

  const Comma: char := ','

  /** Range of a Java `int`. */
  const MinInt: int := -0x8000_0000
  const MaxInt: int := 0x7fff_ffff

  predicate InIntRange(n: int) {
    MinInt <= n <= MaxInt
  }

  predicate NoComma(s: string) {
    forall i :: 0 <= i < |s| ==> s[i] != Comma
  }

  // ---------------------------------------------------------------------------
  // String.split(",")
  // ---------------------------------------------------------------------------

  /**
   * The pieces of `s` between commas, including empty ones: a string with n
   * commas has n + 1 pieces.
   */
  function RawSplit(s: string): (r: seq<string>)
    ensures |r| >= 1
    ensures forall i :: 0 <= i < |r| ==> NoComma(r[i])
  {
    if |s| == 0 then [""] else PushChar(s[0], RawSplit(s[1..]))
  }

  /**
   * The pieces of `[c] + t` from those of `t`: a comma starts a new empty
   * first piece, any other character joins the first piece.
   */
  function PushChar(c: char, pieces: seq<string>): (r: seq<string>)
    requires |pieces| >= 1
    ensures |r| >= 1
  {
    if c == Comma then [""] + pieces else [[c] + pieces[0]] + pieces[1..]
  }

  /** Putting a character in front only touches the first pieces. */
  lemma PushCharAppend(c: char, left: seq<string>, right: seq<string>)
    requires |left| >= 1
    ensures PushChar(c, left + right) == PushChar(c, left) + right
  {
    if c != Comma {
      assert (left + right)[0] == left[0];
      assert (left + right)[1..] == left[1..] + right;
    }
  }

  /** Drops the empty strings at the end of `ts`, as `split` with limit 0 does. */
  function DropTrailingEmpty(ts: seq<string>): (r: seq<string>)
    ensures |r| <= |ts| && r == ts[..|r|]
    ensures forall i :: |r| <= i < |ts| ==> ts[i] == ""
    ensures |r| > 0 ==> r[|r| - 1] != ""
  {
    if |ts| > 0 && ts[|ts| - 1] == "" then DropTrailingEmpty(ts[..|ts| - 1]) else ts
  }

  /**
   * `s.split(",")`: a string without a comma is returned whole (so "" gives
   * [""]); otherwise the pieces between commas, with trailing empty pieces
   * removed (so "," gives []).
   */
  function Split(s: string): (r: seq<string>)
    ensures NoComma(s) ==> r == [s]
    ensures !NoComma(s) ==>
              && |r| <= |RawSplit(s)| && r == RawSplit(s)[..|r|]
              && (forall i :: |r| <= i < |RawSplit(s)| ==> RawSplit(s)[i] == "")
              && (|r| > 0 ==> r[|r| - 1] != "")
  {
    if NoComma(s) then [s] else DropTrailingEmpty(RawSplit(s))
  }

  /** Splitting at one comma splits the two sides independently. */
  lemma {:induction false} RawSplitConcat(a: string, b: string)
    ensures RawSplit(a + [Comma] + b) == RawSplit(a) + RawSplit(b)
  {
    if |a| == 0 {
      assert a + [Comma] + b == [Comma] + b;
      assert ([Comma] + b)[1..] == b;
    } else {
      var s := a + [Comma] + b;
      assert s[0] == a[0] && s[1..] == a[1..] + [Comma] + b;
      calc {
        RawSplit(s);
        PushChar(a[0], RawSplit(a[1..] + [Comma] + b));
        { RawSplitConcat(a[1..], b); }
        PushChar(a[0], RawSplit(a[1..]) + RawSplit(b));
        { PushCharAppend(a[0], RawSplit(a[1..]), RawSplit(b)); }
        PushChar(a[0], RawSplit(a[1..])) + RawSplit(b);
        RawSplit(a) + RawSplit(b);
      }
    }
  }

  /** Appending a comma and a comma-free piece appends that piece. */
  lemma RawSplitSnoc(prefix: string, piece: string)
    requires NoComma(piece)
    ensures RawSplit(prefix + [Comma] + piece) == RawSplit(prefix) + [piece]
  {
    RawSplitConcat(prefix, piece);
    RawSplitNoComma(piece);
  }

  /** A string without commas is a single piece. */
  lemma {:induction false} RawSplitNoComma(a: string)
    requires NoComma(a)
    ensures RawSplit(a) == [a]
  {
    if |a| > 0 {
      RawSplitNoComma(a[1..]);
      assert [a[0]] + a[1..] == a;
    }
  }

  /** When the last piece is not empty, `split` keeps every piece. */
  lemma SplitKeepsPieces(s: string)
    requires RawSplit(s)[|RawSplit(s)| - 1] != ""
    ensures Split(s) == RawSplit(s)
  {
    if NoComma(s) {
      RawSplitNoComma(s);
    }
  }

  /**
   * The tokens with `sep` between consecutive ones and nowhere else, as a
   * StringBuilder loop lays them out; no tokens give "".
   */
  function JoinWith(sep: string, toks: seq<string>): (r: string)
    ensures |toks| == 0 ==> r == ""
    ensures |toks| > 0 ==> |r| == TotalLength(toks) + (|toks| - 1) * |sep|
  {
    if |toks| == 0 then ""
    else if |toks| == 1 then toks[0]
    else
      var n := |toks|;
      assert (n - 1) * |sep| == (n - 2) * |sep| + |sep|;
      JoinWith(sep, toks[..n - 1]) + sep + toks[n - 1]
  }

  /** The number of characters in all the tokens together. */
  function TotalLength(toks: seq<string>): nat
  {
    if |toks| == 0 then 0 else TotalLength(toks[..|toks| - 1]) + |toks[|toks| - 1]|
  }

  /** Appending a token to a non-empty list appends the separator and the token. */
  lemma JoinWithSnoc(sep: string, toks: seq<string>, t: string)
    requires |toks| > 0
    ensures JoinWith(sep, toks + [t]) == JoinWith(sep, toks) + sep + t
  {
    assert (toks + [t])[..|toks|] == toks;
  }

  /** Comma-free tokens joined with commas split back into the same pieces. */
  lemma {:induction false} RawSplitJoin(toks: seq<string>)
    requires |toks| > 0 && forall i :: 0 <= i < |toks| ==> NoComma(toks[i])
    ensures RawSplit(JoinWith([Comma], toks)) == toks
  {
    if |toks| == 1 {
      RawSplitNoComma(toks[0]);
    } else {
      var init := toks[..|toks| - 1];
      RawSplitJoin(init);
      RawSplitSnoc(JoinWith([Comma], init), toks[|toks| - 1]);
    }
  }

  /**
   * `split(",")` inverts joining with commas, provided no token holds a comma
   * and the last token is not empty (it would be dropped).
   */
  lemma SplitJoin(toks: seq<string>)
    requires |toks| > 0 && forall i :: 0 <= i < |toks| ==> NoComma(toks[i])
    requires toks[|toks| - 1] != ""
    ensures Split(JoinWith([Comma], toks)) == toks
  {
    RawSplitJoin(toks);
    SplitKeepsPieces(JoinWith([Comma], toks));
  }

  /** A non-empty string made only of commas splits to no tokens at all. */
  lemma AllCommasSplitToNothing(s: string)
    requires |s| > 0 && forall i :: 0 <= i < |s| ==> s[i] == Comma
    ensures Split(s) == []
  {
    assert s[0] == Comma;
    AllCommasRawSplit(s);
  }

  lemma {:induction false} AllCommasRawSplit(s: string)
    requires forall i :: 0 <= i < |s| ==> s[i] == Comma
    ensures |RawSplit(s)| == |s| + 1
    ensures forall i :: 0 <= i < |RawSplit(s)| ==> RawSplit(s)[i] == ""
    ensures DropTrailingEmpty(RawSplit(s)) == []
  {
    if |s| > 0 {
      AllCommasRawSplit(s[1..]);
    }
  }

  // ---------------------------------------------------------------------------
  // String.trim()
  // ---------------------------------------------------------------------------

  /** Java's trim removes every character up to and including U+0020 at both ends. */
  predicate IsTrimmed(c: char) {
    c <= ' '
  }

  function TrimStart(s: string): string
  {
    if |s| > 0 && IsTrimmed(s[0]) then TrimStart(s[1..]) else s
  }

  function TrimEnd(s: string): string
  {
    if |s| > 0 && IsTrimmed(s[|s| - 1]) then TrimEnd(s[..|s| - 1]) else s
  }

  /**
   * `s.trim()`: a slice `s[a..b]` such that everything before `a` and from
   * `b` on is a space or control character, and the slice neither starts nor
   * ends with one.
   */
  function Trim(s: string): (r: string)
    ensures exists a, b :: 0 <= a <= b <= |s| && r == s[a..b] && Blank(s[..a]) && Blank(s[b..])
    ensures |r| > 0 ==> !IsTrimmed(r[0]) && !IsTrimmed(r[|r| - 1])
  {
    var t := TrimStart(s);
    TrimStartShape(s);
    TrimEndShape(t);
    var a := |s| - |t|;
    var b := a + |TrimEnd(t)|;
    assert TrimEnd(t) == s[a..b];
    assert Blank(s[..a]) && Blank(s[b..]);
    TrimEnd(t)
  }

  /** Every character of `s` is a space or control character. */
  predicate Blank(s: string) {
    forall i :: 0 <= i < |s| ==> IsTrimmed(s[i])
  }

  /** TrimStart drops exactly the leading run of space and control characters. */
  lemma {:induction false} TrimStartShape(s: string)
    ensures |TrimStart(s)| <= |s| && TrimStart(s) == s[|s| - |TrimStart(s)|..]
    ensures |TrimStart(s)| > 0 ==> !IsTrimmed(TrimStart(s)[0])
    ensures forall i :: 0 <= i < |s| - |TrimStart(s)| ==> IsTrimmed(s[i])
  {
    if |s| > 0 && IsTrimmed(s[0]) {
      TrimStartShape(s[1..]);
    }
  }

  /** TrimEnd drops exactly the trailing run of space and control characters. */
  lemma {:induction false} TrimEndShape(s: string)
    ensures |TrimEnd(s)| <= |s| && TrimEnd(s) == s[..|TrimEnd(s)|]
    ensures |TrimEnd(s)| > 0 ==> !IsTrimmed(TrimEnd(s)[|TrimEnd(s)| - 1])
    ensures forall i :: |TrimEnd(s)| <= i < |s| ==> IsTrimmed(s[i])
  {
    if |s| > 0 && IsTrimmed(s[|s| - 1]) {
      TrimEndShape(s[..|s| - 1]);
    }
  }

  /** Trimming leaves a string alone when neither end is a space or control character. */
  lemma TrimUntouched(s: string)
    requires |s| > 0 && !IsTrimmed(s[0]) && !IsTrimmed(s[|s| - 1])
    ensures Trim(s) == s
  {
  }

  /** The space that joinGrades writes after each comma is trimmed away again. */
  lemma TrimLeadingSpace(s: string)
    requires |s| > 0 && !IsTrimmed(s[0]) && !IsTrimmed(s[|s| - 1])
    ensures Trim([' '] + s) == s
  {
    assert ([' '] + s)[1..] == s;
    assert TrimStart([' '] + s) == TrimStart(s) == s;
  }

  // ---------------------------------------------------------------------------
  // Integer.toString and Integer.parseInt
  // ---------------------------------------------------------------------------

  predicate IsDigit(c: char) {
    '0' <= c <= '9'
  }

  predicate AllDigits(s: string) {
    forall i :: 0 <= i < |s| ==> IsDigit(s[i])
  }

  function DigitChar(d: nat): (c: char)
    requires d < 10
    ensures IsDigit(c) && c as int - '0' as int == d
  {
    (d + '0' as int) as char
  }

  /** The value of a string of decimal digits, most significant first. */
  function DigitsValue(s: string): nat
    requires AllDigits(s)
  {
    if |s| == 0 then 0
    else DigitsValue(s[..|s| - 1]) * 10 + (s[|s| - 1] as int - '0' as int)
  }

  /** The decimal digits of `n`, without leading zeros. */
  function NatToDigits(n: nat): (r: string)
    ensures |r| > 0 && AllDigits(r) && DigitsValue(r) == n
    ensures |r| > 1 ==> r[0] != '0'
  {
    if n < 10 then [DigitChar(n)]
    else
      var r := NatToDigits(n / 10) + [DigitChar(n % 10)];
      assert r[..|r| - 1] == NatToDigits(n / 10);
      r
  }

  /** `Integer.toString(n)`: a minus sign exactly when n < 0, then the digits of |n|. */
  function IntToString(n: int): (r: string)
    ensures |r| > 0
    ensures forall i :: 0 <= i < |r| ==> r[i] == '-' || IsDigit(r[i])
    ensures (r[0] == '-') == (n < 0)
    ensures var d := if n < 0 then r[1..] else r;
            && |d| > 0 && AllDigits(d)
            && DigitsValue(d) == (if n < 0 then -n else n)
            && (|d| > 1 ==> d[0] != '0')
  {
    if n < 0 then
      var r := "-" + NatToDigits(-n);
      assert r[1..] == NatToDigits(-n);
      r
    else
      NatToDigits(n)
  }

  /**
   * `Integer.parseInt(s)`: an optional '+' or '-', then one or more digits,
   * whose value must fit in an `int`; None stands for NumberFormatException.
   */
  function ParseInt(s: string): (r: Option<int>)
    ensures r.Some? ==> InIntRange(r.value)
  {
    if |s| == 0 then None
    else
      var digits := if s[0] == '-' || s[0] == '+' then s[1..] else s;
      if |digits| == 0 || !AllDigits(digits) then None
      else
        var v: int := if s[0] == '-' then -(DigitsValue(digits) as int) else DigitsValue(digits);
        if InIntRange(v) then Some(v) else None
  }

  /** A digit string whose first digit is not 0 has a positive value. */
  lemma {:induction false} DigitsPositive(s: string)
    requires |s| > 0 && AllDigits(s) && s[0] != '0'
    ensures DigitsValue(s) > 0
  {
    if |s| > 1 {
      DigitsPositive(s[..|s| - 1]);
    }
  }

  /**
   * The decimal text without leading zeros is unique: any digit string with
   * value n and no leading zero is the text `NatToDigits` gives.
   */
  lemma {:induction false} NatToDigitsUnique(n: nat, s: string)
    requires |s| > 0 && AllDigits(s) && DigitsValue(s) == n
    requires |s| > 1 ==> s[0] != '0'
    ensures s == NatToDigits(n)
  {
    var init, last := s[..|s| - 1], s[|s| - 1];
    if |s| > 1 {
      assert init[0] == s[0];
      DigitsPositive(init);
      assert n / 10 == DigitsValue(init) && n % 10 == last as int - '0' as int;
      NatToDigitsUnique(n / 10, init);
      assert s == init + [last];
    }
  }

  /** What toString writes, parseInt reads back. */
  lemma ParseIntToString(n: int)
    requires InIntRange(n)
    ensures ParseInt(IntToString(n)) == Some(n)
  {
    var s := IntToString(n);
    if n < 0 {
      assert s[1..] == NatToDigits(-n);
    } else {
      assert IsDigit(s[0]);
    }
  }

  /** The text of a number holds no comma and has no space or control character at either end. */
  lemma IntToStringShape(n: int)
    ensures NoComma(IntToString(n))
    ensures !IsTrimmed(IntToString(n)[0]) && !IsTrimmed(IntToString(n)[|IntToString(n)| - 1])
  {
    var s := IntToString(n);
    assert s[0] == '-' || IsDigit(s[0]);
    assert s[|s| - 1] == '-' || IsDigit(s[|s| - 1]);
  }
}
