/**
 * The "Add New Student" form: its four text fields, the per-field checks of
 * `validateForm`, and the form state that `handleChange` and `handleSubmit`
 * update.
 */
module StudentForm {
  import opened Records
  import opened Text

  datatype Field = NameField | EmailField | SubjectField | MarksField

  /** The form's inputs, all held as the text the user typed. */
  datatype FormData = FormData(name: string, email: string, subject: string, marks: string)

  const EmptyForm: FormData := FormData("", "", "", "")

  const NameRequired: string := "Name is required"
  const EmailRequired: string := "Email is required"
  const EmailInvalid: string := "Email is invalid"
  const SubjectRequired: string := "Subject is required"
  const MarksRequired: string := "Marks are required"
  const MarksOutOfRange: string := "Marks must be a number between 0 and 100"

  function ValueOf(f: FormData, field: Field): string {
    match field
    case NameField => f.name
    case EmailField => f.email
    case SubjectField => f.subject
    case MarksField => f.marks
  }

  // ---------------------------------------------------------------------------
  // The email pattern \S+@\S+\.\S+ (searched for anywhere in the text)

  /**
   * The pattern matches with its '@' at index i and its '.' at index j:
   * a non-space before the '@', one or more non-spaces between the two, and a
   * non-space after the '.'.
   */
  ghost predicate EmailAt(s: string, i: int, j: int) {
    1 <= i && i + 1 < j && j + 1 < |s|
    && s[i] == '@' && s[j] == '.'
    && !IsWhitespace(s[i - 1]) && !IsWhitespace(s[j + 1])
    && forall k :: i < k < j ==> !IsWhitespace(s[k])
  }

  ghost predicate EmailShape(s: string) {
    exists i, j :: EmailAt(s, i, j)
  }

  /** t starts with one or more non-spaces followed by '.', and the '.' at index j is followed by a non-space. */
  ghost predicate DotAt(t: string, j: int) {
    1 <= j && j + 1 < |t| && t[j] == '.' && !IsWhitespace(t[j + 1])
    && forall k :: 0 <= k < j ==> !IsWhitespace(t[k])
  }

  /** Decides the part \S+\.\S+ of the pattern at the start of t. */
  function HasDotTail(t: string): bool {
    |t| >= 3 && !IsWhitespace(t[0])
    && ((t[1] == '.' && !IsWhitespace(t[2])) || HasDotTail(t[1..]))
  }

  lemma {:induction false} HasDotTailCorrect(t: string)
    ensures HasDotTail(t) <==> exists j :: DotAt(t, j)
  {
    if |t| >= 3 && !IsWhitespace(t[0]) {
      HasDotTailCorrect(t[1..]);
      if t[1] == '.' && !IsWhitespace(t[2]) {
        assert DotAt(t, 1);
      } else if HasDotTail(t[1..]) {
        var j :| DotAt(t[1..], j);
        assert DotAt(t, j + 1);
      }
      forall j | DotAt(t, j) ensures HasDotTail(t) {
        if j > 1 {
          assert DotAt(t[1..], j - 1);
        }
      }
    } else {
      assert forall j :: !DotAt(t, j);
    }
  }

  /** Looks for a match whose '@' is at index i or later. */
  function ScanFrom(s: string, i: nat): bool
    decreases |s| - i
  {
    if i >= |s| then false
    else (i >= 1 && s[i] == '@' && !IsWhitespace(s[i - 1]) && HasDotTail(s[i + 1..]))
         || ScanFrom(s, i + 1)
  }

  lemma {:induction false} ScanFromCorrect(s: string, i: nat)
    ensures ScanFrom(s, i) <==> exists a, j :: i <= a && EmailAt(s, a, j)
    decreases |s| - i
  {
    if i < |s| {
      ScanFromCorrect(s, i + 1);
      var t := s[i + 1..];
      HasDotTailCorrect(t);
      if i >= 1 && s[i] == '@' && !IsWhitespace(s[i - 1]) && HasDotTail(t) {
        var j :| DotAt(t, j);
        assert EmailAt(s, i, i + 1 + j);
      }
      forall a, j | i <= a && EmailAt(s, a, j) ensures ScanFrom(s, i) {
        if a == i {
          assert DotAt(t, j - i - 1);
        }
      }
    }
  }

  /** `/\S+@\S+\.\S+/.test(s)`. */
  function MatchesEmailPattern(s: string): (r: bool)
    ensures r <==> EmailShape(s)
  {
    ScanFromCorrect(s, 0);
    ScanFrom(s, 0)
  }

  // ---------------------------------------------------------------------------
  // Marks: whole numbers, optionally signed, where `isNaN` and `parseInt` agree

  predicate IsDigit(c: char) { '0' <= c <= '9' }

  predicate AllDigits(d: string) { forall k :: 0 <= k < |d| ==> IsDigit(d[k]) }

  /** t without its leading sign, if it has one. */
  function Unsigned(t: string): string {
    if |t| > 0 && (t[0] == '+' || t[0] == '-') then t[1..] else t
  }

  /** The trimmed text is a sign (optional) and one or more decimal digits. */
  predicate IsIntegerText(t: string) {
    |Unsigned(t)| > 0 && AllDigits(Unsigned(t))
  }

  /** The value of a string of decimal digits. */
  function DigitsValue(d: string): (n: nat)
    requires AllDigits(d)
  {
    if d == [] then 0 else DigitsValue(d[..|d| - 1]) * 10 + (d[|d| - 1] as int - '0' as int)
  }

  /** The whole number the trimmed marks text denotes, or None when it is not one. */
  function WholeNumberValue(s: string): Option<int> {
    var t := Trim(s);
    if IsIntegerText(t) then
      var n := DigitsValue(Unsigned(t));
      Some(if t[0] == '-' then -(n as int) else n)
    else None
  }

  function DigitChar(n: nat): char
    requires n < 10
  {
    ('0' as int + n) as char
  }

  /** The decimal numeral of n, as the number input would hold it. */
  function Decimal(n: nat): (d: string)
    ensures |d| > 0 && AllDigits(d)
  {
    if n < 10 then [DigitChar(n)] else Decimal(n / 10) + [DigitChar(n % 10)]
  }

  lemma {:induction false} DigitsValueOfDecimal(n: nat)
    ensures DigitsValue(Decimal(n)) == n
  {
    if n >= 10 {
      DigitsValueOfDecimal(n / 10);
      var d := Decimal(n);
      assert d[..|d| - 1] == Decimal(n / 10);
    }
  }

  /** Parsing the numeral of a number, with or without a minus sign, gives the number back. */
  lemma ParseDecimal(n: nat)
    ensures WholeNumberValue(Decimal(n)) == Some(n)
    ensures WholeNumberValue("-" + Decimal(n)) == Some(-(n as int))
  {
    var d := Decimal(n);
    assert IsDigit(d[0]) && IsDigit(d[|d| - 1]);
    TrimNoPadding(d);
    DigitsValueOfDecimal(n);
    var m := "-" + d;
    TrimNoPadding(m);
    assert Unsigned(m) == d;
  }

  // ---------------------------------------------------------------------------
  // Marks as the source checks them: `isNaN` on the decimal number syntax, then
  // `parseInt`, which reads only the leading digits

  /** The end of the run of decimal digits that starts at i. */
  function DigitRun(t: string, i: nat): (j: nat)
    requires i <= |t|
    ensures i <= j <= |t|
    ensures forall k :: i <= k < j ==> IsDigit(t[k])
    ensures j < |t| ==> !IsDigit(t[j])
    decreases |t| - i
  {
    if i < |t| && IsDigit(t[i]) then DigitRun(t, i + 1) else i
  }

  predicate IsSign(c: char) { c == '+' || c == '-' }

  /** Where the digits start: after a leading sign, if there is one. */
  function SignEnd(t: string): (i: nat)
    ensures i <= |t|
  {
    if |t| > 0 && IsSign(t[0]) then 1 else 0
  }

  /**
   * The trimmed text is a decimal number literal: a sign (optional), digits
   * with an optional fraction (at least one digit in all), and an optional
   * exponent. On such text, and only there among decimal texts, `isNaN` is false.
   */
  predicate IsNumberText(t: string) {
    var i := SignEnd(t);
    var a := DigitRun(t, i);
    var b := if a < |t| && t[a] == '.' then DigitRun(t, a + 1) else a;
    (a > i || b > a + 1) && (b == |t| || IsExponent(t, b))
  }

  /** From b on, t is an exponent: `e` or `E`, a sign (optional) and one or more digits. */
  predicate IsExponent(t: string, b: nat)
    requires b <= |t|
  {
    b < |t| && (t[b] == 'e' || t[b] == 'E')
    && var c := if b + 1 < |t| && IsSign(t[b + 1]) then b + 2 else b + 1;
       DigitRun(t, c) > c && DigitRun(t, c) == |t|
  }

  /** `parseInt(s)`: the leading digits after white space and a sign; None for NaN. */
  function ParseLeadingInt(s: string): (r: Option<int>)
    ensures r.Some? <==> var u := TrimStart(s); DigitRun(u, SignEnd(u)) > SignEnd(u)
  {
    var u := TrimStart(s);
    var i := SignEnd(u);
    var a := DigitRun(u, i);
    if a == i then None
    else
      var n := DigitsValue(u[i..a]);
      Some(if i == 1 && u[0] == '-' then -(n as int) else n)
  }

  /**
   * The marks check of `validateForm` as written: a number literal passes when
   * its `parseInt` is in range, and also when `parseInt` is NaN, because every
   * comparison with NaN is false.
   */
  function MarksErrorAsWritten(s: string): (e: Option<string>)
    ensures e == None <==>
      (!IsBlank(s) && IsNumberText(Trim(s))
       && (ParseLeadingInt(s).Some? ==> 0 <= ParseLeadingInt(s).value <= 100))
  {
    if IsBlank(s) then Some(MarksRequired)
    else if !IsNumberText(Trim(s)) then Some(MarksOutOfRange)
    else match ParseLeadingInt(s)
      case None => None
      case Some(m) => if m < 0 || m > 100 then Some(MarksOutOfRange) else None
  }

  lemma DigitRunOfDigits(t: string, i: nat, j: nat)
    requires i <= j <= |t|
    requires forall k :: i <= k < j ==> IsDigit(t[k])
    requires j < |t| ==> !IsDigit(t[j])
    ensures DigitRun(t, i) == j
    decreases j - i
  {
    if i < j {
      DigitRunOfDigits(t, i + 1, j);
    }
  }

  /** On whole numbers, with or without a sign, the check as written and the whole-number check agree. */
  lemma MarksCheckAgreesOnIntegers(s: string)
    requires IsIntegerText(Trim(s))
    ensures IsNumberText(Trim(s))
    ensures ParseLeadingInt(s) == WholeNumberValue(s)
    ensures MarksErrorAsWritten(s) == MarksError(s)
  {
    var t, u := Trim(s), TrimStart(s);
    TrimEndIsPrefix(u);
    var i := SignEnd(t);
    assert SignEnd(u) == i by {
      assert u[0] == t[0];
    }
    assert Unsigned(t) == t[i..];
    forall k | i <= k < |t| ensures IsDigit(t[k]) && IsDigit(u[k]) {
      assert t[k] == Unsigned(t)[k - i];
      assert u[k] == t[k];
    }
    if |t| < |u| {
      assert IsWhitespace(u[|t|]);
    }
    DigitRunOfDigits(t, i, |t|);
    DigitRunOfDigits(u, i, |t|);
    assert u[i..|t|] == Unsigned(t);
    assert !IsBlank(s);
  }

  lemma {:induction false} TrimStartOfPadded(w: string, u: string)
    requires forall k :: 0 <= k < |w| ==> IsWhitespace(w[k])
    requires u == [] || !IsWhitespace(u[0])
    ensures TrimStart(w + u) == u
  {
    if w == [] {
      assert w + u == u;
    } else {
      assert (w + u)[0] == w[0];
      assert (w + u)[1..] == w[1..] + u;
      TrimStartOfPadded(w[1..], u);
    }
  }

  /** A sign (optional), a numeral, then no digit: the digits start after the sign and end after the numeral. */
  lemma SignedNumeralDigits(u: string, i: nat, d: string)
    requires i <= 1 && i + |d| <= |u| && u[i..i + |d|] == d
    requires i == 1 ==> IsSign(u[0])
    requires |d| > 0 && AllDigits(d)
    requires i + |d| < |u| ==> !IsDigit(u[i + |d|])
    ensures !IsWhitespace(u[0]) && SignEnd(u) == i && DigitRun(u, i) == i + |d|
  {
    var j := i + |d|;
    forall k | i <= k < j ensures IsDigit(u[k]) {
      assert u[k] == u[i..j][k - i];
    }
    DigitRunOfDigits(u, i, j);
  }

  /**
   * `parseInt` reads only the leading digits: after white space and a sign
   * (optional), the numeral of n followed by anything that is not a digit
   * parses to n, or to -n after a minus sign.
   */
  lemma ParseLeadingIntReadsLeadingDigits(w: string, sign: string, n: nat, tail: string)
    requires forall k :: 0 <= k < |w| ==> IsWhitespace(w[k])
    requires sign == "" || sign == "+" || sign == "-"
    requires tail == [] || !IsDigit(tail[0])
    ensures ParseLeadingInt(w + sign + Decimal(n) + tail) == Some(if sign == "-" then -(n as int) else n)
  {
    var d := Decimal(n);
    var u := sign + d + tail;
    assert w + sign + d + tail == w + u;
    assert u[0] == if sign == "" then d[0] else sign[0];
    TrimStartOfPadded(w, u);
    ParseSignedNumeral(w + u, sign, d, tail);
    DigitsValueOfDecimal(n);
  }

  /** When the text after white space is a sign (optional), the digits d and no further digit, `parseInt` gives their value. */
  lemma ParseSignedNumeral(s: string, sign: string, d: string, tail: string)
    requires TrimStart(s) == sign + d + tail
    requires sign == "" || sign == "+" || sign == "-"
    requires |d| > 0 && AllDigits(d)
    requires tail == [] || !IsDigit(tail[0])
    ensures ParseLeadingInt(s) == Some(if sign == "-" then -(DigitsValue(d) as int) else DigitsValue(d))
  {
    var u, i := sign + d + tail, |sign|;
    assert u[i..i + |d|] == d;
    assert i == 1 ==> u[0] == sign[0];
    assert i + |d| < |u| ==> u[i + |d|] == tail[0];
    SignedNumeralDigits(u, i, d);
  }

  /**
   * "5e1" is the number 50, so it meets the marks input's own constraints
   * (a number from 0 to 100 in steps of 1) and the check as written lets it
   * through, yet `parseInt` submits 5. The whole-number check refuses it.
   */
  lemma ExponentSlipsThrough()
    ensures MarksErrorAsWritten("5e1") == None && ParseLeadingInt("5e1") == Some(5)
    ensures MarksError("5e1") == Some(MarksOutOfRange)
  {
    assert Decimal(5) == "5";
    ParseLeadingIntReadsLeadingDigits("", "", 5, "e1");
    assert "" + "" + "5" + "e1" == "5e1";
    ExponentText();
  }

  /** "5e1" has no padding, is a number literal, and is not a whole-number text. */
  lemma ExponentText()
    ensures Trim("5e1") == "5e1" && IsNumberText("5e1") && !IsIntegerText("5e1")
  {
    var x := "5e1";
    TrimNoPadding(x);
    assert DigitRun(x, 2) == 3 by {
      assert DigitRun(x, 3) == 3;
    }
    assert !IsDigit(Unsigned(x)[1]);
  }

  /**
   * "50.0" passes the check as written and submits 50, while the
   * whole-number check used by the form's error map reports it.
   */
  lemma DecimalPointDiffers()
    ensures MarksErrorAsWritten("50.0") == None && ParseLeadingInt("50.0") == Some(50)
    ensures MarksError("50.0") == Some(MarksOutOfRange)
  {
    assert Decimal(50) == "50";
    ParseLeadingIntReadsLeadingDigits("", "", 50, ".0");
    assert "" + "" + "50" + ".0" == "50.0";
    FractionText();
  }

  /** "50.0" has no padding, is a number literal, and is not a whole-number text. */
  lemma FractionText()
    ensures Trim("50.0") == "50.0" && IsNumberText("50.0") && !IsIntegerText("50.0")
  {
    var x := "50.0";
    TrimNoPadding(x);
    assert DigitRun(x, 3) == 4 by {
      assert DigitRun(x, 4) == 4;
    }
    assert !IsDigit(Unsigned(x)[2]);
  }

  /**
   * ".0" is the number 0, so it too meets the marks input's constraints. The
   * check as written lets it through but `parseInt` finds no digit, so the
   * submitted marks are NaN. The whole-number check refuses it.
   */
  lemma NaNSlipsThrough()
    ensures MarksErrorAsWritten(".0") == None && ParseLeadingInt(".0") == None
    ensures MarksError(".0") == Some(MarksOutOfRange)
  {
    var x := ".0";
    TrimNoPadding(x);
    assert TrimStart(x) == x;
    assert DigitRun(x, 0) == 0;
    assert DigitRun(x, 1) == 2 by {
      assert DigitRun(x, 2) == 2;
    }
    assert !IsDigit(Unsigned(x)[0]);
  }

  // ---------------------------------------------------------------------------
  // Per-field checks

  /** The name is reported missing exactly when it is all white space. */
  function NameError(s: string): (r: Option<string>)
    ensures r.Some? <==> forall i :: 0 <= i < |s| ==> IsWhitespace(s[i])
    ensures r.Some? ==> r.value == NameRequired
  {
    BlankIffAllWhitespace(s);
    if IsBlank(s) then Some(NameRequired) else None
  }

  /** Missing when all white space; otherwise invalid exactly when it is not of the shape local@domain.tld. */
  function EmailError(s: string): (r: Option<string>)
    ensures r == Some(EmailRequired) <==> forall i :: 0 <= i < |s| ==> IsWhitespace(s[i])
    ensures r == Some(EmailInvalid) <==> !IsBlank(s) && !EmailShape(s)
    ensures r == None <==> !IsBlank(s) && EmailShape(s)
  {
    BlankIffAllWhitespace(s);
    if IsBlank(s) then Some(EmailRequired)
    else if !MatchesEmailPattern(s) then Some(EmailInvalid)
    else None
  }

  /** The subject is reported missing exactly when it is all white space. */
  function SubjectError(s: string): (r: Option<string>)
    ensures r.Some? <==> forall i :: 0 <= i < |s| ==> IsWhitespace(s[i])
    ensures r.Some? ==> r.value == SubjectRequired
  {
    BlankIffAllWhitespace(s);
    if IsBlank(s) then Some(SubjectRequired) else None
  }

  /**
   * The marks check with the whole-number reading of the text: the message
   * promises a number from 0 to 100 and the submission keeps `parseInt` of it,
   * so only whole numbers in that range pass (MarksErrorAsWritten is the
   * check as the source writes it).
   */
  function MarksError(s: string): (r: Option<string>)
    ensures r == Some(MarksRequired) <==> forall i :: 0 <= i < |s| ==> IsWhitespace(s[i])
    ensures r == None <==> WholeNumberValue(s).Some? && 0 <= WholeNumberValue(s).value <= 100
    ensures r.Some? ==> r.value == MarksRequired || r.value == MarksOutOfRange
  {
    BlankIffAllWhitespace(s);
    if IsBlank(s) then Some(MarksRequired)
    else match WholeNumberValue(s)
      case None => Some(MarksOutOfRange)
      case Some(m) => if m < 0 || m > 100 then Some(MarksOutOfRange) else None
  }

  /** The check of field, which looks at that field's text only. */
  function FieldError(field: Field, s: string): Option<string> {
    match field
    case NameField => NameError(s)
    case EmailField => EmailError(s)
    case SubjectField => SubjectError(s)
    case MarksField => MarksError(s)
  }

  /** m with the message of a failing check recorded under field. */
  function WithError(m: map<Field, string>, field: Field, e: Option<string>): map<Field, string> {
    if e.Some? then m[field := e.value] else m
  }

  /** The error map `validateForm` builds: the messages of the failing checks, by field. */
  function Errors(f: FormData): (r: map<Field, string>)
    ensures NameField in r ==> r[NameField] == NameRequired
    ensures EmailField in r ==> r[EmailField] == EmailRequired || r[EmailField] == EmailInvalid
    ensures SubjectField in r ==> r[SubjectField] == SubjectRequired
    ensures MarksField in r ==> r[MarksField] == MarksRequired || r[MarksField] == MarksOutOfRange
  {
    var m1 := WithError(map[], NameField, NameError(f.name));
    var m2 := WithError(m1, EmailField, EmailError(f.email));
    var m3 := WithError(m2, SubjectField, SubjectError(f.subject));
    WithError(m3, MarksField, MarksError(f.marks))
  }

  /** `validateForm`: the four checks run one after another, none skipping another. */
  method ValidateForm(f: FormData) returns (errors: map<Field, string>, valid: bool)
    ensures errors == Errors(f)
    ensures valid <==> errors == map[]
  {
    valid := true;
    errors := map[];
    if IsBlank(f.name) {
      errors := errors[NameField := NameRequired];
      valid := false;
      assert NameField in errors;
    }
    assert errors == WithError(map[], NameField, NameError(f.name));
    assert valid <==> errors == map[];
    ghost var m1 := errors;
    if IsBlank(f.email) {
      errors := errors[EmailField := EmailRequired];
      valid := false;
      assert EmailField in errors;
    } else if !MatchesEmailPattern(f.email) {
      errors := errors[EmailField := EmailInvalid];
      valid := false;
      assert EmailField in errors;
    }
    assert errors == WithError(m1, EmailField, EmailError(f.email));
    assert valid <==> errors == map[];
    ghost var m2 := errors;
    if IsBlank(f.subject) {
      errors := errors[SubjectField := SubjectRequired];
      valid := false;
      assert SubjectField in errors;
    }
    assert errors == WithError(m2, SubjectField, SubjectError(f.subject));
    assert valid <==> errors == map[];
    ghost var m3 := errors;
    if IsBlank(f.marks) {
      errors := errors[MarksField := MarksRequired];
      valid := false;
      assert MarksField in errors;
    } else {
      var m := WholeNumberValue(f.marks);
      if m.None? || m.value < 0 || m.value > 100 {
        errors := errors[MarksField := MarksOutOfRange];
        valid := false;
        assert MarksField in errors;
      }
    }
    assert errors == WithError(m3, MarksField, MarksError(f.marks));
    assert valid <==> errors == map[];
  }

  // ---------------------------------------------------------------------------
  // What the checks promise

  /** A field's entry in the error map depends on that field's text alone. */
  lemma ErrorsAreIndependent(f: FormData, g: FormData, field: Field)
    requires ValueOf(f, field) == ValueOf(g, field)
    ensures field in Errors(f) <==> field in Errors(g)
    ensures field in Errors(f) ==> Errors(f)[field] == Errors(g)[field]
  {
    ErrorsEntry(f, field);
    ErrorsEntry(g, field);
  }

  /** A field is in the error map exactly when its check fails, with that check's message. */
  lemma ErrorsEntry(f: FormData, field: Field)
    ensures field in Errors(f) <==> FieldError(field, ValueOf(f, field)).Some?
    ensures field in Errors(f) ==> Errors(f)[field] == FieldError(field, ValueOf(f, field)).value
  {
  }

  /** A form passes exactly when no field fails its check. */
  lemma ValidIffEveryFieldPasses(f: FormData)
    ensures Errors(f) == map[] <==>
      NameError(f.name).None? && EmailError(f.email).None?
      && SubjectError(f.subject).None? && MarksError(f.marks).None?
  {
    ErrorsEntry(f, NameField);
    ErrorsEntry(f, EmailField);
    ErrorsEntry(f, SubjectField);
    ErrorsEntry(f, MarksField);
    if NameError(f.name).None? && EmailError(f.email).None?
      && SubjectError(f.subject).None? && MarksError(f.marks).None? {
      forall field ensures field !in Errors(f) {
        ErrorsEntry(f, field);
      }
      assert Errors(f).Keys == {};
    }
  }

  /** The record a valid form submits: its texts as typed, its marks parsed. */
  function Submission(f: FormData): (r: Student)
    requires WholeNumberValue(f.marks).Some?
    ensures r.name == f.name && r.email == f.email && r.subject == f.subject
    ensures Some(r.marks) == WholeNumberValue(f.marks)
    ensures MarksError(f.marks) == None ==> 0 <= r.marks <= 100
  {
    Student(f.name, f.email, f.subject, WholeNumberValue(f.marks).value)
  }

  /**
   * A form with no errors submits a record with a non-blank name and subject,
   * an email of the shape local@domain.tld and marks in [0, 100].
   */
  lemma ValidFormGivesWellFormedRecord(f: FormData)
    requires Errors(f) == map[]
    ensures WholeNumberValue(f.marks).Some?
    ensures IsIntegerText(Trim(f.marks)) && Some(Submission(f).marks) == WholeNumberValue(f.marks)
    ensures var st := Submission(f);
      !IsBlank(st.name) && EmailShape(st.email) && !IsBlank(st.subject) && 0 <= st.marks <= 100
  {
    ValidIffEveryFieldPasses(f);
  }

  /** A name of white space only is reported as missing. */
  lemma WhitespaceNameIsRequired(f: FormData)
    requires forall i :: 0 <= i < |f.name| ==> IsWhitespace(f.name[i])
    ensures NameField in Errors(f) && Errors(f)[NameField] == NameRequired
  {
    BlankIffAllWhitespace(f.name);
  }

  /** Marks 150 are out of range; marks 50 are fine. */
  lemma MarksExamples()
    ensures MarksError("150") == Some(MarksOutOfRange)
    ensures MarksError("50") == None
  {
    assert Decimal(150) == "150" && Decimal(50) == "50";
    ParseDecimal(150);
    ParseDecimal(50);
  }

  /** "a@b.com" is a valid email and "Math" a valid subject. */
  lemma ValidFieldExamples()
    ensures EmailError("a@b.com") == None
    ensures SubjectError("Math") == None
  {
    var e, s := "a@b.com", "Math";
    assert EmailAt(e, 1, 3);
    assert !IsWhitespace(e[0]) && !IsWhitespace(e[6]);
    TrimNoPadding(e);
    assert !IsWhitespace(s[0]) && !IsWhitespace(s[3]);
    TrimNoPadding(s);
  }

  /** An empty name with every other field valid blocks submission with one error, on the name. */
  lemma MissingNameExample()
    ensures Errors(FormData("", "a@b.com", "Math", "50")) == map[NameField := NameRequired]
  {
    ValidFieldExamples();
    MarksExamples();
    assert NameError("") == Some(NameRequired);
    ErrorsOfName(FormData("", "a@b.com", "Math", "50"));
  }

  lemma ErrorsOfName(f: FormData)
    requires NameError(f.name) == Some(NameRequired) && EmailError(f.email) == None
    requires SubjectError(f.subject) == None && MarksError(f.marks) == None
    ensures Errors(f) == map[NameField := NameRequired]
  {
  }

  /** "A" is a valid name; "bad", which has no '@', is an invalid email. */
  lemma InvalidEmailExample()
    ensures NameError("A") == None
    ensures EmailError("bad") == Some(EmailInvalid)
  {
    var e := "bad";
    assert !IsWhitespace(e[0]);
    BlankIffAllWhitespace(e);
    assert !EmailShape(e);
  }

  /** An email without '@' and marks of 150 are both reported. */
  lemma BadEmailAndMarksExample()
    ensures Errors(FormData("A", "bad", "Math", "150")) == map[EmailField := EmailInvalid, MarksField := MarksOutOfRange]
  {
    InvalidEmailExample();
    ValidFieldExamples();
    MarksExamples();
    ErrorsOfEmailAndMarks(FormData("A", "bad", "Math", "150"));
  }

  lemma ErrorsOfEmailAndMarks(f: FormData)
    requires NameError(f.name) == None && EmailError(f.email) == Some(EmailInvalid)
    requires SubjectError(f.subject) == None && MarksError(f.marks) == Some(MarksOutOfRange)
    ensures Errors(f) == map[EmailField := EmailInvalid, MarksField := MarksOutOfRange]
  {
  }

  // ---------------------------------------------------------------------------
  // Form state

  /** `{...prev, [field]: value}`. */
  function WithField(f: FormData, field: Field, value: string): (r: FormData)
    ensures ValueOf(r, field) == value
    ensures forall other :: other != field ==> ValueOf(r, other) == ValueOf(f, other)
  {
    match field
    case NameField => f.(name := value)
    case EmailField => f.(email := value)
    case SubjectField => f.(subject := value)
    case MarksField => f.(marks := value)
  }

  class RecordForm {
    var formData: FormData
    var errors: map<Field, string>

    constructor ()
      ensures formData == EmptyForm && errors == map[]
    {
      formData := EmptyForm;
      errors := map[];
    }

    /** `handleChange`: one input changed; the others and the shown errors stay. */
    method HandleChange(field: Field, value: string)
      modifies this
      ensures formData == WithField(old(formData), field, value)
      ensures errors == old(errors)
    {
      formData := WithField(formData, field, value);
    }

    /**
     * `handleSubmit`: validates, shows the errors, and when there are none hands
     * the record to the submit callback (the result) and empties the form;
     * otherwise nothing is submitted and the typed values stay.
     */
    method HandleSubmit() returns (submitted: Option<Student>)
      modifies this
      ensures errors == Errors(old(formData))
      ensures errors == map[] ==>
        WholeNumberValue(old(formData).marks).Some?
        && submitted == Some(Submission(old(formData))) && formData == EmptyForm
      ensures errors != map[] ==> submitted == None && formData == old(formData)
    {
      var newErrors, valid := ValidateForm(formData);
      errors := newErrors;
      if valid {
        ValidIffEveryFieldPasses(formData);
        submitted := Some(Submission(formData));
        formData := EmptyForm;
      } else {
        submitted := None;
      }
    }
  }
}
