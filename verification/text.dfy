/** The two text templates of the UI: the line shown for a job
    (`"[%8s] %s"` with the status upper-cased) and the permanent text of the
    status bar (`"Progress: %d %%"`). Each comes with a reader that recovers
    its arguments, and the round trip between the two is proved. */
module UiText {

  datatype Option<T> = None | Some(value: T)

  /** Width of the status column of a job line. */
  const StatusWidth: nat := 8

  // ---------------------------------------------------------------------
  // Upper-casing (ASCII letters only)
  // ---------------------------------------------------------------------

  predicate IsLower(c: char) { 'a' <= c <= 'z' }

  function UpperChar(c: char): (r: char)
  {
    if IsLower(c) then (c as int - 32) as char else c
  }

  /** The string with every lower-case ASCII letter replaced by its capital. */
  function Upper(s: string): (r: string)
    ensures |r| == |s|
  {
    seq(|s|, i requires 0 <= i < |s| => UpperChar(s[i]))
  }

  /** Upper-casing keeps the length, leaves no lower-case letter, and only
      touches lower-case letters. */
  lemma UpperSpec(s: string)
    ensures |Upper(s)| == |s|
    ensures forall i :: 0 <= i < |s| ==> !IsLower(Upper(s)[i])
    ensures forall i :: 0 <= i < |s| && !IsLower(s[i]) ==> Upper(s)[i] == s[i]
    ensures forall i :: 0 <= i < |s| && IsLower(s[i]) ==> Upper(s)[i] as int + 32 == s[i] as int
  {
  }

  // ---------------------------------------------------------------------
  // Right-aligned field (the width of a `%Ns` verb)
  // ---------------------------------------------------------------------

  function Spaces(n: nat): (r: string)
    ensures |r| == n && forall i :: 0 <= i < n ==> r[i] == ' '
  {
    seq(n, _ => ' ')
  }

  /** `s` right-aligned in a field of `width` characters: spaces are put in
      front when it is shorter, nothing is cut when it is longer. */
  function LeftPad(s: string, width: nat): (r: string)
    ensures |r| == if |s| < width then width else |s|
    ensures r[|r| - |s|..] == s
    ensures forall i :: 0 <= i < |r| - |s| ==> r[i] == ' '
  {
    if |s| < width then Spaces(width - |s|) + s else s
  }

  function TrimLeadingSpaces(s: string): (r: string)
  {
    if s != [] && s[0] == ' ' then TrimLeadingSpaces(s[1..]) else s
  }

  // ---------------------------------------------------------------------
  // Job line
  // ---------------------------------------------------------------------

  /** The text of a job's label: the upper-cased status right-aligned in an
      eight-character bracketed column, a space, then the description. */
  function PrepareJobDescription(status: string, text: string): (r: string)
    ensures |r| >= StatusWidth + 3 + |text|
    ensures r[0] == '[' && r[|r| - |text|..] == text
  {
    "[" + LeftPad(Upper(status), StatusWidth) + "] " + text
  }

  /** Reads a job line back into its trimmed status column and its text. */
  function ParseJobLine(line: string): (r: Option<(string, string)>)
  {
    if |line| >= StatusWidth + 3 && line[0] == '[' && line[StatusWidth + 1..StatusWidth + 3] == "] "
    then Some((TrimLeadingSpaces(line[1..StatusWidth + 1]), line[StatusWidth + 3..]))
    else None
  }

  /** A status of at most eight characters keeps the column eight wide, so
      the description always starts at the same column. */
  lemma JobLineLayout(status: string, text: string)
    requires |status| <= StatusWidth
    ensures var line := PrepareJobDescription(status, text);
      && |line| == StatusWidth + 3 + |text|
      && line[0] == '['
      && line[1..StatusWidth + 1] == Spaces(StatusWidth - |status|) + Upper(status)
      && line[StatusWidth + 1..StatusWidth + 3] == "] "
      && line[StatusWidth + 3..] == text
  {
    var field := LeftPad(Upper(status), StatusWidth);
    LeftPadUpper(status);
    var line := PrepareJobDescription(status, text);
    assert line == "[" + field + ("] " + text);
    ThreeParts("[", field, "] " + text);
    ThreeParts("] ", [], text);
  }

  lemma LeftPadUpper(status: string)
    requires |status| <= StatusWidth
    ensures LeftPad(Upper(status), StatusWidth) == Spaces(StatusWidth - |status|) + Upper(status)
  {
    UpperSpec(status);
  }

  /** Where the three parts of a concatenation sit in it. */
  lemma ThreeParts(a: string, b: string, c: string)
    ensures (a + b + c)[..|a|] == a
    ensures (a + b + c)[|a|..|a| + |b|] == b
    ensures (a + b + c)[|a| + |b|..] == c
  {
  }

  /** A job that has no status yet shows a blank column. */
  lemma BlankStatusLine(text: string)
    ensures PrepareJobDescription("", text) == "[        ] " + text
  {
    assert Upper("") == "";
    assert LeftPad("", StatusWidth) == "        ";
  }

  lemma {:induction false} TrimAfterSpaces(n: nat, s: string)
    requires s == [] || s[0] != ' '
    ensures TrimLeadingSpaces(Spaces(n) + s) == s
  {
    if n > 0 {
      assert (Spaces(n) + s)[1..] == Spaces(n - 1) + s;
      TrimAfterSpaces(n - 1, s);
    }
  }

  /** The job line loses nothing: the status (upper-cased) and the
      description are read back from it, provided the status fits in the
      column and does not itself start with a space. */
  lemma JobLineRoundTrip(status: string, text: string)
    requires |status| <= StatusWidth
    requires status == [] || status[0] != ' '
    ensures ParseJobLine(PrepareJobDescription(status, text)) == Some((Upper(status), text))
  {
    JobLineLayout(status, text);
    UpperSpec(status);
    TrimAfterSpaces(StatusWidth - |status|, Upper(status));
  }

  // ---------------------------------------------------------------------
  // Decimal numbers (the `%d` verb)
  // ---------------------------------------------------------------------

  predicate IsDigit(c: char) { '0' <= c <= '9' }

  function DigitChar(d: nat): (c: char)
    requires d < 10
  {
    "0123456789"[d]
  }

  function DigitValue(c: char): (r: nat)
    requires IsDigit(c)
  {
    c as int - '0' as int
  }

  /** The decimal digits of `n`, most significant first, without leading zeros. */
  function NatDigits(n: nat): (r: string)
    ensures |r| >= 1 && AllDigits(r)
    decreases n
  {
    if n < 10 then [DigitChar(n)] else NatDigits(n / 10) + [DigitChar(n % 10)]
  }

  /** `v` written in decimal, with a minus sign when it is negative. */
  function Decimal(v: int): (r: string)
    ensures |r| >= 1
    ensures r[0] == '-' <==> v < 0
    ensures v >= 0 ==> AllDigits(r)
  {
    if v < 0 then "-" + NatDigits(-v) else NatDigits(v)
  }

  predicate AllDigits(s: string)
  {
    forall i :: 0 <= i < |s| ==> IsDigit(s[i])
  }

  /** The number a string of decimal digits stands for. */
  function DigitsValue(s: string): (r: nat)
    requires AllDigits(s)
  {
    if s == [] then 0 else DigitsValue(s[..|s| - 1]) * 10 + DigitValue(s[|s| - 1])
  }

  /** Reads an optionally negative decimal number; anything else is `None`. */
  function ParseDecimal(s: string): (r: Option<int>)
  {
    if |s| > 1 && s[0] == '-' && AllDigits(s[1..]) then Some(0 - DigitsValue(s[1..]) as int)
    else if |s| > 0 && AllDigits(s) then Some(DigitsValue(s))
    else None
  }

  lemma DigitCharValue(d: nat)
    requires d < 10
    ensures IsDigit(DigitChar(d)) && DigitValue(DigitChar(d)) == d
  {
  }

  /** The digits of `n` are digits, there is at least one, the first is not
      a zero unless `n` is zero, and they stand for `n`. */
  lemma {:induction false} NatDigitsRoundTrip(n: nat)
    ensures |NatDigits(n)| >= 1 && AllDigits(NatDigits(n))
    ensures NatDigits(n)[0] != '0' || n == 0
    ensures DigitsValue(NatDigits(n)) == n
    decreases n
  {
    DigitCharValue(n % 10);
    if n >= 10 {
      NatDigitsRoundTrip(n / 10);
      var s := NatDigits(n);
      assert s == NatDigits(n / 10) + [DigitChar(n % 10)];
      assert s[..|s| - 1] == NatDigits(n / 10);
      assert s[0] == NatDigits(n / 10)[0];
      assert DigitsValue(s) == (n / 10) * 10 + n % 10;
    } else {
      assert "0123456789"[0] == '0';
    }
  }

  /** Every integer is read back from its decimal form. */
  lemma DecimalRoundTrip(v: int)
    ensures ParseDecimal(Decimal(v)) == Some(v)
  {
    var n: nat := if v < 0 then -v else v;
    var digits := NatDigits(n);
    NatDigitsRoundTrip(n);
    assert IsDigit(digits[0]);
    if v < 0 {
      var d := Decimal(v);
      assert d == "-" + digits;
      assert d[1..] == digits;
    } else {
      assert Decimal(v) == digits;
    }
  }

  // ---------------------------------------------------------------------
  // Status-bar progress text
  // ---------------------------------------------------------------------

  const ProgressPrefix: string := "Progress: "
  const ProgressSuffix: string := " %"

  /** The permanent status-bar text for an overall progress value. */
  function PrepareProgressText(value: int): (r: string)
    ensures |r| > |ProgressPrefix| + |ProgressSuffix|
    ensures r[..|ProgressPrefix|] == ProgressPrefix
    ensures r[|r| - |ProgressSuffix|..] == ProgressSuffix
  {
    ProgressPrefix + Decimal(value) + ProgressSuffix
  }

  /** Reads the progress value back out of a status-bar text. */
  function ParseProgressText(s: string): (r: Option<int>)
  {
    if |s| >= |ProgressPrefix| + |ProgressSuffix|
       && s[..|ProgressPrefix|] == ProgressPrefix
       && s[|s| - |ProgressSuffix|..] == ProgressSuffix
    then ParseDecimal(s[|ProgressPrefix|..|s| - |ProgressSuffix|])
    else None
  }

  /** The status-bar text determines the value it was made from. */
  lemma ProgressTextRoundTrip(value: int)
    ensures ParseProgressText(PrepareProgressText(value)) == Some(value)
  {
    var d := Decimal(value);
    var s := PrepareProgressText(value);
    assert s[..|ProgressPrefix|] == ProgressPrefix;
    assert s[|s| - |ProgressSuffix|..] == ProgressSuffix;
    assert s[|ProgressPrefix|..|s| - |ProgressSuffix|] == d;
    DecimalRoundTrip(value);
  }

  /** Distinct progress values give distinct status-bar texts. */
  lemma ProgressTextInjective(a: int, b: int)
    requires PrepareProgressText(a) == PrepareProgressText(b)
    ensures a == b
  {
    ProgressTextRoundTrip(a);
    ProgressTextRoundTrip(b);
  }

  /** The text the status bar starts with is the one for progress zero. */
  lemma InitialProgressText()
    ensures PrepareProgressText(0) == "Progress: 0 %"
  {
    assert Decimal(0) == "0";
  }

  /** The text the status bar ends on once every job is done. */
  lemma CompleteProgressText()
    ensures PrepareProgressText(100) == "Progress: 100 %"
  {
    assert NatDigits(100) == NatDigits(10) + [DigitChar(0)];
    assert NatDigits(10) == "10";
  }
}
