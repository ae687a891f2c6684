/** The survey's "is the government doing enough" answer as submitted
    (submit in app.py): the form field is optional and, when present, is
    read with Python's int() and then taken as a truth value. */
module GovField {
  import opened Basics

  /** The ASCII characters int() skips around a number: space and 9-13
      (tab, line feed, vertical tab, form feed, carriage return). The
      separators 28-31, which str.isspace() accepts, are not among them. */
  predicate IsSpace(c: char)
  {
    c == ' ' || 9 <= c as int <= 13
  }

  predicate IsDigit(c: char)
  {
    '0' <= c <= '9'
  }

  predicate IsNonzeroDigit(c: char)
  {
    '1' <= c <= '9'
  }

  function DropLeadingSpaces(s: string): string
  {
    if s != [] && IsSpace(s[0]) then DropLeadingSpaces(s[1..]) else s
  }

  function DropTrailingSpaces(s: string): string
  {
    if s != [] && IsSpace(s[|s| - 1]) then DropTrailingSpaces(s[..|s| - 1]) else s
  }

  /** s without surrounding whitespace. */
  function Strip(s: string): string
  {
    DropTrailingSpaces(DropLeadingSpaces(s))
  }

  /** s[i] is an underscore between two digits. */
  predicate JoinsDigits(s: string, i: int)
  {
    0 < i < |s| - 1 && s[i] == '_' && IsDigit(s[i - 1]) && IsDigit(s[i + 1])
  }

  /** One or more digits, with single underscores allowed between two
      digits. */
  predicate DigitGroups(s: string)
  {
    && |s| > 0
    && forall i :: 0 <= i < |s| ==> IsDigit(s[i]) || JoinsDigits(s, i)
  }

  predicate DigitsOrUnderscores(s: string)
  {
    forall i :: 0 <= i < |s| ==> IsDigit(s[i]) || s[i] == '_'
  }

  /** s with its underscores removed. */
  function Digits(s: string): (d: string)
    ensures DigitsOrUnderscores(s) ==> forall i :: 0 <= i < |d| ==> IsDigit(d[i])
  {
    if s == [] then []
    else
      var init := Digits(s[..|s| - 1]);
      var c := s[|s| - 1];
      if c == '_' then init else init + [c]
  }

  function DigitValue(c: char): nat
    requires IsDigit(c)
  {
    c as int - '0' as int
  }

  /** The number a string of decimal digits denotes. */
  function DecimalValue(ds: string): nat
    requires forall i :: 0 <= i < |ds| ==> IsDigit(ds[i])
  {
    if ds == [] then 0
    else DecimalValue(ds[..|ds| - 1]) * 10 + DigitValue(ds[|ds| - 1])
  }

  /** The magnitude int() reads after the sign, if the text is well formed. */
  function ParseUnsigned(body: string): Option<nat>
  {
    if DigitGroups(body) then
      assert DigitsOrUnderscores(body);
      Some(DecimalValue(Digits(body)))
    else None
  }

  /** int(s) for a decimal string: None where Python raises ValueError. */
  function ParseInt(s: string): Option<int>
  {
    var t := Strip(s);
    if |t| > 0 && t[0] == '-' then
      match ParseUnsigned(t[1..])
      case None => None
      case Some(v) => Some(-(v as int))
    else if |t| > 0 && t[0] == '+' then
      match ParseUnsigned(t[1..])
      case None => None
      case Some(v) => Some(v)
    else
      match ParseUnsigned(t)
      case None => None
      case Some(v) => Some(v)
  }

  /** A gov field that int() rejects. */
  datatype GovError = NotAnInteger(text: string)

  /** bool(int(request.form.get('gov', 0))). */
  function ParseGov(field: Option<string>): (r: Result<bool, GovError>)
    ensures field.None? ==> r == Ok(false)
    ensures field.Some? ==> (r.Err? <==> ParseInt(field.value).None?)
  {
    match field
    case None => Ok(false)
    case Some(text) =>
      match ParseInt(text)
      case None => Err(NotAnInteger(text))
      case Some(n) => Ok(n != 0)
  }

  /** str(n) for a natural number. */
  function DigitString(n: nat): (s: string)
    ensures |s| > 0 && forall i :: 0 <= i < |s| ==> IsDigit(s[i])
  {
    var d := ['0' + (n % 10) as char];
    if n < 10 then d else DigitString(n / 10) + d
  }

  /** str(n) for an integer. */
  function IntToString(n: int): string
  {
    if n < 0 then "-" + DigitString(-n) else DigitString(n)
  }

  predicate HasNonzeroDigit(s: string)
  {
    exists i :: 0 <= i < |s| && IsNonzeroDigit(s[i])
  }

  lemma {:induction false} DecimalValueOfDigitString(n: nat)
    ensures DecimalValue(DigitString(n)) == n
  {
    if n >= 10 {
      DecimalValueOfDigitString(n / 10);
      var s := DigitString(n);
      assert s[..|s| - 1] == DigitString(n / 10);
    }
  }

  lemma {:induction false} DigitsWithoutUnderscores(s: string)
    requires forall i :: 0 <= i < |s| ==> IsDigit(s[i])
    ensures Digits(s) == s
  {
    if s != [] {
      DigitsWithoutUnderscores(s[..|s| - 1]);
    }
  }

  lemma StripOfTrimmed(s: string)
    requires |s| > 0 && !IsSpace(s[0]) && !IsSpace(s[|s| - 1])
    ensures Strip(s) == s
  {
  }

  lemma DigitGroupsOfDigits(ds: string)
    requires |ds| > 0 && forall i :: 0 <= i < |ds| ==> IsDigit(ds[i])
    ensures DigitGroups(ds) && Digits(ds) == ds
  {
    DigitsWithoutUnderscores(ds);
  }

  lemma ParseUnsignedOfDigits(ds: string)
    requires |ds| > 0 && forall i :: 0 <= i < |ds| ==> IsDigit(ds[i])
    ensures ParseUnsigned(ds) == Some(DecimalValue(ds))
  {
    DigitGroupsOfDigits(ds);
  }

  lemma ParseIntOfDigits(ds: string)
    requires |ds| > 0 && forall i :: 0 <= i < |ds| ==> IsDigit(ds[i])
    ensures ParseInt(ds) == Some(DecimalValue(ds))
  {
    StripOfTrimmed(ds);
    ParseUnsignedOfDigits(ds);
  }

  lemma ParseIntOfNegated(s: string)
    requires |s| > 1 && s[0] == '-' && forall i :: 1 <= i < |s| ==> IsDigit(s[i])
    ensures ParseInt(s) == Some(-(DecimalValue(s[1..]) as int))
  {
    StripOfTrimmed(s);
    ParseUnsignedOfDigits(s[1..]);
  }

  /** Reading back the decimal text of any integer gives the integer. */
  lemma ParseIntOfString(n: int)
    ensures ParseInt(IntToString(n)) == Some(n)
  {
    if n < 0 {
      DecimalValueOfDigitString(-n);
      var s := IntToString(n);
      assert s[1..] == DigitString(-n);
      ParseIntOfNegated(s);
    } else {
      DecimalValueOfDigitString(n);
      ParseIntOfDigits(DigitString(n));
    }
  }

  /** So a submitted integer is recorded as true exactly when it is not 0. */
  lemma GovOfIntegerText(n: int)
    ensures ParseGov(Some(IntToString(n))) == Ok(n != 0)
  {
    ParseIntOfString(n);
  }

  lemma HasNonzeroDigitConcat(a: string, b: string)
    ensures HasNonzeroDigit(a + b) <==> HasNonzeroDigit(a) || HasNonzeroDigit(b)
  {
    if HasNonzeroDigit(a + b) {
      var i :| 0 <= i < |a + b| && IsNonzeroDigit((a + b)[i]);
      if i >= |a| {
        assert b[i - |a|] == (a + b)[i];
      }
    }
    if HasNonzeroDigit(a) {
      var i :| 0 <= i < |a| && IsNonzeroDigit(a[i]);
      assert (a + b)[i] == a[i];
    }
    if HasNonzeroDigit(b) {
      var i :| 0 <= i < |b| && IsNonzeroDigit(b[i]);
      assert (a + b)[|a| + i] == b[i];
    }
  }

  lemma {:induction false} DecimalValueZero(ds: string)
    requires forall i :: 0 <= i < |ds| ==> IsDigit(ds[i])
    ensures DecimalValue(ds) == 0 <==> !HasNonzeroDigit(ds)
  {
    if ds != [] {
      var init := ds[..|ds| - 1];
      DecimalValueZero(init);
      HasNonzeroDigitConcat(init, [ds[|ds| - 1]]);
      assert ds == init + [ds[|ds| - 1]];
    }
  }

  lemma {:induction false} DigitsKeepNonzero(s: string)
    ensures HasNonzeroDigit(Digits(s)) <==> HasNonzeroDigit(s)
  {
    if s != [] {
      var init := s[..|s| - 1];
      var c := s[|s| - 1];
      DigitsKeepNonzero(init);
      assert s == init + [c];
      HasNonzeroDigitConcat(init, [c]);
      if c != '_' {
        HasNonzeroDigitConcat(Digits(init), [c]);
      }
    }
  }

  lemma {:induction false} DropLeadingKeepsNonzero(s: string)
    ensures HasNonzeroDigit(DropLeadingSpaces(s)) <==> HasNonzeroDigit(s)
  {
    if s != [] && IsSpace(s[0]) {
      DropLeadingKeepsNonzero(s[1..]);
      assert s == [s[0]] + s[1..];
      HasNonzeroDigitConcat([s[0]], s[1..]);
    }
  }

  lemma {:induction false} DropTrailingKeepsNonzero(s: string)
    ensures HasNonzeroDigit(DropTrailingSpaces(s)) <==> HasNonzeroDigit(s)
  {
    if s != [] && IsSpace(s[|s| - 1]) {
      var init := s[..|s| - 1];
      DropTrailingKeepsNonzero(init);
      assert s == init + [s[|s| - 1]];
      HasNonzeroDigitConcat(init, [s[|s| - 1]]);
    }
  }

  /** A submitted text int() accepts is recorded as true exactly when one of
      its digits is not 0, whatever its sign, padding or underscores. */
  lemma GovTrueIffNonzeroDigit(s: string)
    requires ParseInt(s).Some?
    ensures ParseGov(Some(s)) == Ok(true) <==> HasNonzeroDigit(s)
  {
    var t := Strip(s);
    var signed := |t| > 0 && (t[0] == '+' || t[0] == '-');
    var body := if signed then t[1..] else t;
    DropLeadingKeepsNonzero(s);
    DropTrailingKeepsNonzero(DropLeadingSpaces(s));
    if signed {
      assert t == [t[0]] + body;
      HasNonzeroDigitConcat([t[0]], body);
    }
    assert ParseUnsigned(body).Some?;
    assert DigitsOrUnderscores(body);
    DigitsKeepNonzero(body);
    DecimalValueZero(Digits(body));
  }

  /** A 1 is recorded as true; padding and a sign are accepted around a 0,
      which is recorded as false. */
  lemma GovAcceptsIntegers()
    ensures ParseGov(Some("1")) == Ok(true)
    ensures ParseGov(Some(" -0 ")) == Ok(false)
  {
    ParseIntOfDigits("1");
    assert DecimalValue("1") == 1 by { assert "1"[..0] == []; }
    assert Strip(" -0 ") == "-0";
    ParseIntOfNegated("-0");
    assert "-0"[1..] == "0";
    assert DecimalValue("0") == 0 by { assert "0"[..0] == []; }
  }

  /** Empty text, a word, a trailing underscore and a digit after a file
      separator (character 28) are rejected. */
  lemma GovRejectsNonIntegers()
    ensures ParseGov(Some("")).Err?
    ensures ParseGov(Some("on")).Err?
    ensures ParseGov(Some("1_")).Err?
    ensures ParseGov(Some([28 as char, '1'])).Err?
  {
    StripOfTrimmed([28 as char, '1']);
    assert !DigitGroups([28 as char, '1']) by { assert !IsDigit([28 as char, '1'][0]); }
    StripOfTrimmed("on");
    assert !DigitGroups("on") by { assert "on"[0] == 'o'; }
    StripOfTrimmed("1_");
    assert !DigitGroups("1_") by { assert !JoinsDigits("1_", 1); }
  }
}
