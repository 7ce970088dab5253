/** The field formats of `Validators.patterns` (scripts/validators.js), each regular expression written
    out as a predicate that follows its structure, and the three record-level validators built on them. */
module Validators {
  import opened Text
  import opened Wrappers
  import opened JsValues

  // ---------------------------------------------------------------------------------------------
  // patterns.title = /^\S(?:.*\S)?$/

  predicate NoLineTerminator(s: string) {
    forall i | 0 <= i < |s| :: !IsLineTerminator(s[i])
  }

  /** One non-space character, then optionally any run of characters `.` matches and a final
      non-space character. */
  predicate TitleMatches(s: string)
    ensures TitleMatches(s) <==>
      s != [] && !IsSpace(s[0]) && !IsSpace(s[|s| - 1]) && NoLineTerminator(s)
  {
    |s| >= 1 && !IsSpace(s[0])
    && (|s| == 1 || (NoLineTerminator(s[1..|s| - 1]) && !IsSpace(s[|s| - 1])))
  }

  /** The title format accepts exactly the non-empty single-line strings that `trim` leaves unchanged. */
  lemma TitleMatchesTrimmed(s: string)
    ensures TitleMatches(s) <==> s != [] && Trim(s) == s && NoLineTerminator(s)
  {
    if TitleMatches(s) {
      TrimOfTrimmed(s);
    }
  }

  // ---------------------------------------------------------------------------------------------
  // patterns.duration = /^(0|[1-9]\d*)(\.[0-9]{1,2})?$/

  /** `(0|[1-9]\d*)` */
  predicate IntegerPart(t: string) {
    t == "0" || (|t| >= 1 && '1' <= t[0] <= '9' && AllDigits(t[1..]))
  }

  /** `(\.[0-9]{1,2})?` */
  predicate FractionPart(u: string) {
    u == [] || (2 <= |u| <= 3 && u[0] == '.' && AllDigits(u[1..]))
  }

  /** The whole string splits into an integer part and an optional fraction. */
  predicate DurationMatches(s: string) {
    exists p | 0 <= p <= |s| :: IntegerPart(s[..p]) && FractionPart(s[p..])
  }

  /** Length of the run of digits `s` starts with. */
  function LeadingDigits(s: string): (n: nat)
    ensures n <= |s|
    ensures forall i | 0 <= i < n :: IsDigit(s[i])
    ensures n < |s| ==> !IsDigit(s[n])
  {
    if s != [] && IsDigit(s[0]) then 1 + LeadingDigits(s[1..]) else 0
  }

  /** The only split the duration pattern can use is at the end of the leading digits: the integer
      part is "0" or has no leading zero, and what follows is empty or '.' and one or two digits. */
  lemma DurationSplit(s: string)
    ensures DurationMatches(s) <==>
      IntegerPart(s[..LeadingDigits(s)]) && FractionPart(s[LeadingDigits(s)..])
  {
    if DurationMatches(s) {
      var p :| 0 <= p <= |s| && IntegerPart(s[..p]) && FractionPart(s[p..]);
      SplitIsLeadingDigits(s, p);
    }
  }

  /** A split of the duration pattern falls at the end of the leading digits. */
  lemma SplitIsLeadingDigits(s: string, p: int)
    requires 0 <= p <= |s| && IntegerPart(s[..p]) && FractionPart(s[p..])
    ensures p == LeadingDigits(s)
  {
    forall i | 0 <= i < p ensures IsDigit(s[i]) {
      assert s[..p][i] == s[i];
      assert i > 0 ==> s[..p][1..][i - 1] == s[i];
    }
    assert p < |s| ==> s[p..][0] == s[p];
  }

  lemma DurationAccepted()
    ensures DurationMatches("2.5") && DurationMatches("0") && DurationMatches("120") && DurationMatches("0.75")
  {
    assert IntegerPart("2.5"[..1]) && FractionPart("2.5"[1..]);
    assert IntegerPart("0"[..1]) && FractionPart("0"[1..]);
    assert IntegerPart("120"[..3]) && FractionPart("120"[3..]);
    assert IntegerPart("0.75"[..1]) && FractionPart("0.75"[1..]);
  }

  lemma DurationRefused()
    ensures !DurationMatches("02") && !DurationMatches("1.") && !DurationMatches("1.234") && !DurationMatches("-1")
  {
    DurationSplit("02");
    assert LeadingDigits("02") == 2;
    DurationSplit("1.");
    assert LeadingDigits("1.") == 1;
    DurationSplit("1.234");
    assert LeadingDigits("1.234") == 1;
    DurationSplit("-1");
    assert LeadingDigits("-1") == 0;
  }

  // ---------------------------------------------------------------------------------------------
  // patterns.date = /^\d{4}-(0[1-9]|1[0-2])-(0[1-9]|[12]\d|3[01])$/

  function TwoDigitValue(t: string): int
    requires |t| == 2
  {
    (t[0] as int - '0' as int) * 10 + (t[1] as int - '0' as int)
  }

  /** `(0[1-9]|1[0-2])`: two digits spelling 01 to 12. */
  predicate MonthMatches(m: string)
    ensures MonthMatches(m) <==> |m| == 2 && AllDigits(m) && 1 <= TwoDigitValue(m) <= 12
  {
    |m| == 2 && ((m[0] == '0' && '1' <= m[1] <= '9') || (m[0] == '1' && '0' <= m[1] <= '2'))
  }

  /** `(0[1-9]|[12]\d|3[01])`: two digits spelling 01 to 31. */
  predicate DayMatches(d: string)
    ensures DayMatches(d) <==> |d| == 2 && AllDigits(d) && 1 <= TwoDigitValue(d) <= 31
  {
    |d| == 2
    && ((d[0] == '0' && '1' <= d[1] <= '9') || ('1' <= d[0] <= '2' && IsDigit(d[1])) || (d[0] == '3' && '0' <= d[1] <= '1'))
  }

  /** Four digits, '-', a month, '-', a day; no check that the day exists in that month. */
  predicate DateMatches(s: string) {
    |s| == 10 && AllDigits(s[..4]) && s[4] == '-' && MonthMatches(s[5..7]) && s[7] == '-' && DayMatches(s[8..])
  }

  lemma DateExamples()
    ensures DateMatches("2025-02-30") && DateMatches("2025-03-10")
    ensures !DateMatches("2025-13-40") && !DateMatches("2025-00-10") && !DateMatches("2025-3-10")
  {
    assert "2025-02-30"[5..7] == "02" && "2025-02-30"[8..] == "30";
    assert "2025-03-10"[5..7] == "03" && "2025-03-10"[8..] == "10";
    assert "2025-13-40"[5..7] == "13";
    assert "2025-00-10"[5..7] == "00";
  }

  // ---------------------------------------------------------------------------------------------
  // patterns.tag = /^[A-Za-z]+(?:[ -][A-Za-z]+)*$/

  predicate IsTagSeparator(c: char) { c == ' ' || c == '-' }

  /** What may follow once a word has begun: more letters, or one separator and the first letter of
      the next word. */
  predicate TagTail(t: string)
    decreases |t|
  {
    t == []
    || (IsAsciiLetter(t[0]) && TagTail(t[1..]))
    || (|t| >= 2 && IsTagSeparator(t[0]) && IsAsciiLetter(t[1]) && TagTail(t[2..]))
  }

  predicate TagMatches(s: string) {
    s != [] && IsAsciiLetter(s[0]) && TagTail(s[1..])
  }

  /** Every character is a letter or a separator, and every separator is followed by a letter. */
  predicate LettersAndSingleSeparators(t: string) {
    forall i | 0 <= i < |t| :: IsAsciiLetter(t[i]) || (IsTagSeparator(t[i]) && i + 1 < |t| && IsAsciiLetter(t[i + 1]))
  }

  lemma {:induction false} TagTailIff(t: string)
    ensures TagTail(t) <==> LettersAndSingleSeparators(t)
    decreases |t|
  {
    if t == [] {
    } else if IsAsciiLetter(t[0]) {
      TagTailIff(t[1..]);
      if LettersAndSingleSeparators(t[1..]) {
        forall i | 0 <= i < |t|
          ensures IsAsciiLetter(t[i]) || (IsTagSeparator(t[i]) && i + 1 < |t| && IsAsciiLetter(t[i + 1]))
        {
          if i > 0 { assert t[i] == t[1..][i - 1]; }
          if i > 0 && i + 1 < |t| { assert t[i + 1] == t[1..][i]; }
        }
      }
      if LettersAndSingleSeparators(t) {
        forall i | 0 <= i < |t| - 1
          ensures IsAsciiLetter(t[1..][i]) || (IsTagSeparator(t[1..][i]) && i + 1 < |t| - 1 && IsAsciiLetter(t[1..][i + 1]))
        {
          assert t[1..][i] == t[i + 1];
        }
      }
    } else if |t| >= 2 && IsTagSeparator(t[0]) && IsAsciiLetter(t[1]) {
      TagTailIff(t[2..]);
      assert !IsAsciiLetter(t[0]);
      if LettersAndSingleSeparators(t[2..]) {
        forall i | 0 <= i < |t|
          ensures IsAsciiLetter(t[i]) || (IsTagSeparator(t[i]) && i + 1 < |t| && IsAsciiLetter(t[i + 1]))
        {
          if i > 1 { assert t[i] == t[2..][i - 2]; }
          if i > 1 && i + 1 < |t| { assert t[i + 1] == t[2..][i - 1]; }
        }
      }
      if LettersAndSingleSeparators(t) {
        forall i | 0 <= i < |t| - 2
          ensures IsAsciiLetter(t[2..][i]) || (IsTagSeparator(t[2..][i]) && i + 1 < |t| - 2 && IsAsciiLetter(t[2..][i + 1]))
        {
          assert t[2..][i] == t[i + 2];
        }
      }
    } else {
      assert !TagTail(t);
      assert !(IsAsciiLetter(t[0]) || (IsTagSeparator(t[0]) && 1 < |t| && IsAsciiLetter(t[1])));
    }
  }

  /** The tag format accepts exactly one or more letter words joined by single spaces or hyphens:
      it starts with a letter, holds only letters and separators, and each separator is followed by
      a letter (so none is leading, trailing or doubled). */
  lemma TagMatchesIff(s: string)
    ensures TagMatches(s) <==> s != [] && IsAsciiLetter(s[0]) && LettersAndSingleSeparators(s)
  {
    if s != [] && IsAsciiLetter(s[0]) {
      TagTailIff(s[1..]);
      if LettersAndSingleSeparators(s[1..]) {
        forall i | 0 <= i < |s|
          ensures IsAsciiLetter(s[i]) || (IsTagSeparator(s[i]) && i + 1 < |s| && IsAsciiLetter(s[i + 1]))
        {
          if i > 0 { assert s[i] == s[1..][i - 1]; }
          if i > 0 && i + 1 < |s| { assert s[i + 1] == s[1..][i]; }
        }
      }
      if LettersAndSingleSeparators(s) {
        forall i | 0 <= i < |s| - 1
          ensures IsAsciiLetter(s[1..][i]) || (IsTagSeparator(s[1..][i]) && i + 1 < |s| - 1 && IsAsciiLetter(s[1..][i + 1]))
        {
          assert s[1..][i] == s[i + 1];
        }
      }
    }
  }

  // ---------------------------------------------------------------------------------------------
  // patterns.duplicateWords = /\b(\w+)\s+\1\b/   (no `i` flag: case-sensitive)

  predicate IsWordAt(s: string, i: int) {
    0 <= i < |s| && IsWordChar(s[i])
  }

  /** `\b` at position p: a word character on exactly one side. */
  predicate WordBoundary(s: string, p: int) {
    IsWordAt(s, p - 1) != IsWordAt(s, p)
  }

  /** A match with the group at s[i..j], the whitespace at s[j..k] and the repetition at
      s[k..k + (j - i)]. */
  predicate RepeatedWordAt(s: string, i: int, j: int, k: int) {
    0 <= i < j < k && k + (j - i) <= |s|
    && WordBoundary(s, i)
    && (forall m | i <= m < j :: IsWordChar(s[m]))
    && (forall m | j <= m < k :: IsSpace(s[m]))
    && s[k..k + (j - i)] == s[i..j]
    && WordBoundary(s, k + (j - i))
  }

  /** `patterns.duplicateWords.test(s)`: the unanchored pattern matches somewhere. */
  predicate HasDuplicateWords(s: string) {
    exists i, j, k | 0 <= i < j < k <= |s| :: RepeatedWordAt(s, i, j, k)
  }

  /** In a string made of a word zone s[..a], a whitespace zone s[a..b] and a word zone s[b..], the
      only match of the duplicate-words pattern is the whole string, split at a and b. */
  lemma {:induction false} RepeatPositions(s: string, a: int, b: int, i: int, j: int, k: int)
    requires 0 < a < b < |s|
    requires forall m | 0 <= m < a :: IsWordChar(s[m])
    requires forall m | a <= m < b :: IsSpace(s[m])
    requires forall m | b <= m < |s| :: IsWordChar(s[m])
    requires RepeatedWordAt(s, i, j, k)
    ensures i == 0 && j == a && k == b && k + (j - i) == |s|
  {
    assert IsSpace(s[j]) && IsWordChar(s[j - 1]);
    assert IsWordAt(s, i) && !IsWordAt(s, i - 1);
    assert IsWordAt(s, b) && forall m | j <= m < k :: !IsWordAt(s, m);
    assert IsWordChar(s[k]) by { assert s[k..k + (j - i)][0] == s[k] && s[i..j][0] == s[i]; }
    var l := k + (j - i);
    assert l < |s| ==> IsWordAt(s, l - 1) && IsWordAt(s, l);
  }

  /** Two words separated by whitespace are flagged exactly when they are the same word, compared
      case-sensitively. */
  lemma TwoWords(w1: string, sp: string, w2: string)
    requires w1 != [] && w2 != [] && sp != []
    requires AllWordChars(w1) && AllWordChars(w2) && AllSpace(sp)
    ensures HasDuplicateWords(w1 + sp + w2) <==> w1 == w2
  {
    var s := w1 + sp + w2;
    var a, b := |w1|, |w1| + |sp|;
    assert s[..a] == w1 && s[b..] == w2;
    assert forall m | 0 <= m < a :: s[m] == w1[m];
    assert forall m | a <= m < b :: s[m] == sp[m - a];
    assert forall m | b <= m < |s| :: s[m] == w2[m - b];
    if w1 == w2 {
      assert RepeatedWordAt(s, 0, a, b);
    } else if HasDuplicateWords(s) {
      var i, j, k :| 0 <= i < j < k <= |s| && RepeatedWordAt(s, i, j, k);
      RepeatPositions(s, a, b, i, j, k);
    }
  }

  /** A single word, with no whitespace in it, never holds a repeated word. */
  lemma OneWord(w: string)
    requires AllWordChars(w)
    ensures !HasDuplicateWords(w)
  {
    forall i, j, k | 0 <= i < j < k <= |w|
      ensures !RepeatedWordAt(w, i, j, k)
    {
      assert !IsSpace(w[j]);
    }
  }

  lemma RepeatedWordFlagged()
    ensures HasDuplicateWords("Study Study")
  {
    assert "Study" + " " + "Study" == "Study Study";
    TwoWords("Study", " ", "Study");
  }

  /** The comparison is case-sensitive, and on whole words only. */
  lemma DifferentWordsNotFlagged()
    ensures !HasDuplicateWords("Study study")
    ensures !HasDuplicateWords("the theme")
  {
    assert "Study" + " " + "study" == "Study study";
    TwoWords("Study", " ", "study");
    assert "the" + " " + "theme" == "the theme";
    TwoWords("the", " ", "theme");
  }

  // ---------------------------------------------------------------------------------------------
  // validateTaskForm

  datatype Field = TitleField | DurationField | DueDateField | TagField

  datatype FormReport = FormReport(isValid: bool, errors: map<Field, string>)

  const TitleRequired := "Title is required"
  const TitleSpacing := "Title cannot have leading or trailing spaces"
  const TitleDuplicate := "Title contains duplicate words"
  const DurationRequired := "Duration is required"
  const DurationInvalid := "Duration must be a valid number"
  const DueDateRequired := "Due date is required"
  const DueDateInvalid := "Due date must be in YYYY-MM-DD format"
  const TagInvalid := "Tag must contain only letters, spaces, and hyphens"

  /** The title's message, the first that applies of required, format, duplicate words. */
  function TitleError(title: string): (e: Option<string>)
    ensures e.None? <==> title != [] && TitleMatches(title) && !HasDuplicateWords(title)
    ensures title == [] <==> e == Some(TitleRequired)
    ensures title != [] && !TitleMatches(title) ==> e == Some(TitleSpacing)
    ensures title != [] && TitleMatches(title) && HasDuplicateWords(title) ==> e == Some(TitleDuplicate)
    ensures e == Some(TitleDuplicate) ==> TitleMatches(title) && HasDuplicateWords(title)
  {
    if title == [] then Some(TitleRequired)
    else if !TitleMatches(title) then Some(TitleSpacing)
    else if HasDuplicateWords(title) then Some(TitleDuplicate)
    else None
  }

  function DurationError(duration: string): (e: Option<string>)
    ensures e.None? <==> DurationMatches(duration)
    ensures duration == [] <==> e == Some(DurationRequired)
    ensures duration != [] && !DurationMatches(duration) ==> e == Some(DurationInvalid)
  {
    if duration == [] then Some(DurationRequired)
    else if !DurationMatches(duration) then Some(DurationInvalid)
    else None
  }

  function DueDateError(dueDate: string): (e: Option<string>)
    ensures e.None? <==> DateMatches(dueDate)
    ensures dueDate == [] <==> e == Some(DueDateRequired)
    ensures dueDate != [] && !DateMatches(dueDate) ==> e == Some(DueDateInvalid)
  {
    if dueDate == [] then Some(DueDateRequired)
    else if !DateMatches(dueDate) then Some(DueDateInvalid)
    else None
  }

  /** The tag is optional: an empty tag is never an error. */
  function TagError(tag: string): (e: Option<string>)
    ensures e.None? <==> tag == [] || TagMatches(tag)
    ensures e.Some? ==> e.value == TagInvalid
  {
    if tag != [] && !TagMatches(tag) then Some(TagInvalid) else None
  }

  function RecordError(errors: map<Field, string>, f: Field, e: Option<string>): map<Field, string> {
    if e.Some? then errors[f := e.value] else errors
  }

  /** Each field is checked on its own and contributes at most one message; the form is valid
      exactly when no field has one. */
  function ValidateTaskForm(title: string, duration: string, dueDate: string, tag: string): (r: FormReport)
    ensures TitleField in r.errors <==> TitleError(title).Some?
    ensures DurationField in r.errors <==> DurationError(duration).Some?
    ensures DueDateField in r.errors <==> DueDateError(dueDate).Some?
    ensures TagField in r.errors <==> TagError(tag).Some?
    ensures TitleField in r.errors ==> r.errors[TitleField] == TitleError(title).value
    ensures DurationField in r.errors ==> r.errors[DurationField] == DurationError(duration).value
    ensures DueDateField in r.errors ==> r.errors[DueDateField] == DueDateError(dueDate).value
    ensures TagField in r.errors ==> r.errors[TagField] == TagError(tag).value
    ensures r.isValid <==> r.errors == map[]
    ensures r.isValid <==>
      title != [] && TitleMatches(title) && !HasDuplicateWords(title)
      && DurationMatches(duration) && DateMatches(dueDate) && (tag == [] || TagMatches(tag))
  {
    var e1 := RecordError(map[], TitleField, TitleError(title));
    var e2 := RecordError(e1, DurationField, DurationError(duration));
    var e3 := RecordError(e2, DueDateField, DueDateError(dueDate));
    var e4 := RecordError(e3, TagField, TagError(tag));
    FormReport(|e4| == 0, e4)
  }

  /** A word written twice, one space apart, is a well-formed title that gets the duplicate-word
      message. */
  lemma DuplicateTitle(w: string)
    requires w != [] && AllWordChars(w)
    ensures TitleError(w + " " + w) == Some(TitleDuplicate)
  {
    var s := w + " " + w;
    TwoWords(w, " ", w);
    assert s[0] == w[0] && s[|s| - 1] == w[|w| - 1];
    forall i | 0 <= i < |s| ensures !IsLineTerminator(s[i]) {
      assert i < |w| ==> s[i] == w[i];
      assert i > |w| ==> s[i] == w[i - |w| - 1];
    }
  }

  lemma PlainTitle()
    ensures TitleError("Study") == None
  {
    OneWord("Study");
  }

  lemma SpacedTitle()
    ensures TitleError(" Study") == Some(TitleSpacing)
  {
  }

  lemma DurationFieldExamples()
    ensures DurationError("2") == None && DurationError("2.5") == None
  {
    DurationAccepted();
    assert IntegerPart("2"[..1]) && FractionPart("2"[1..]);
  }

  lemma DateFieldExamples()
    ensures DueDateError("2025-03-10") == None
    ensures DueDateError("2025-13-40") == Some(DueDateInvalid)
  {
    DateExamples();
  }

  lemma FieldExamples()
    ensures TitleError("Study Study") == Some(TitleDuplicate)
    ensures TitleError("Study") == None
    ensures TitleError(" Study") == Some(TitleSpacing)
    ensures DurationError("2") == None && DurationError("2.5") == None
    ensures DueDateError("2025-03-10") == None
    ensures DueDateError("2025-13-40") == Some(DueDateInvalid)
  {
    DuplicateTitle("Study");
    assert "Study" + " " + "Study" == "Study Study";
    PlainTitle();
    SpacedTitle();
    DurationFieldExamples();
    DateFieldExamples();
  }

  /** Two form submissions: a title with a repeated word, and a date with month 13. */
  lemma FormExamples()
    ensures ValidateTaskForm("Study Study", "2", "2025-03-10", "")
         == FormReport(false, map[TitleField := TitleDuplicate])
    ensures ValidateTaskForm("Study", "2.5", "2025-13-40", "")
         == FormReport(false, map[DueDateField := DueDateInvalid])
  {
    FieldExamples();
  }

  // ---------------------------------------------------------------------------------------------
  // validateTaskObject

  /** The required-field test of `validateTaskObject`: an object whose `id`, `title` and `dueDate`
      are truthy and whose `duration` is merely defined (so 0 is allowed). */
  predicate HasRequiredFields(task: JsValue) {
    IsObject(task)
    && Truthy(Get(task, "id")) && Truthy(Get(task, "title"))
    && Get(task, "duration") != Undefined && Truthy(Get(task, "dueDate"))
  }

  /** Import check on one parsed record: the required fields, then the title, duration, date and,
      when truthy, tag formats applied in that order to the values' string forms. A field whose
      string conversion throws, once it is reached, makes the whole check throw. The duplicate-word
      rule is not applied. */
  function ValidateTaskObject(task: JsValue): (r: Outcome<bool>)
    ensures var title, duration, dueDate, tag := Get(task, "title"), Get(task, "duration"), Get(task, "dueDate"), Get(task, "tag");
      r == Returns(true) <==>
        HasRequiredFields(task)
        && !ConversionThrows(title) && TitleMatches(ToStr(title).value)
        && !ConversionThrows(duration) && DurationMatches(ToStr(duration).value)
        && !ConversionThrows(dueDate) && DateMatches(ToStr(dueDate).value)
        && (Truthy(tag) ==> !ConversionThrows(tag) && TagMatches(ToStr(tag).value))
    ensures var title, duration, dueDate, tag := Get(task, "title"), Get(task, "duration"), Get(task, "dueDate"), Get(task, "tag");
      r == TypeError <==>
        HasRequiredFields(task)
        && (ConversionThrows(title)
            || (TitleMatches(ToStr(title).value)
                && (ConversionThrows(duration)
                    || (DurationMatches(ToStr(duration).value)
                        && (ConversionThrows(dueDate)
                            || (DateMatches(ToStr(dueDate).value) && Truthy(tag) && ConversionThrows(tag)))))))
  {
    if !Truthy(task) || !IsObject(task) then Returns(false)
    else if !HasRequiredFields(task) then Returns(false)
    else
      var title := ToStr(Get(task, "title"));
      if title.TypeError? then TypeError
      else if !TitleMatches(title.value) then Returns(false)
      else
        var duration := ToStr(Get(task, "duration"));
        if duration.TypeError? then TypeError
        else if !DurationMatches(duration.value) then Returns(false)
        else
          var dueDate := ToStr(Get(task, "dueDate"));
          if dueDate.TypeError? then TypeError
          else if !DateMatches(dueDate.value) then Returns(false)
          else if Truthy(Get(task, "tag")) then
            var tag := ToStr(Get(task, "tag"));
            if tag.TypeError? then TypeError else Returns(TagMatches(tag.value))
          else Returns(true)
  }

  /** The record a valid form would produce (all fields as strings, as a JSON file may hold them). */
  function FormRecord(id: string, title: string, duration: string, dueDate: string, tag: string): JsValue {
    Obj(map["id" := Str(id), "title" := Str(title), "duration" := Str(duration),
            "dueDate" := Str(dueDate), "tag" := Str(tag)])
  }

  /** Import validation is weaker than form validation: whatever passes the form passes the import
      check once it has an id. */
  lemma FormValidImpliesObjectValid(id: string, title: string, duration: string, dueDate: string, tag: string)
    requires id != []
    requires ValidateTaskForm(title, duration, dueDate, tag).isValid
    ensures ValidateTaskObject(FormRecord(id, title, duration, dueDate, tag)) == Returns(true)
  {
    var rec := FormRecord(id, title, duration, dueDate, tag);
    assert Get(rec, "duration") == Str(duration);
  }

  /** A record with string fields passes the import check exactly when its id, title and date are
      non-empty and the title, duration, date and (non-empty) tag have the right formats. */
  lemma FormRecordIff(id: string, title: string, duration: string, dueDate: string, tag: string)
    ensures ValidateTaskObject(FormRecord(id, title, duration, dueDate, tag)) != TypeError
    ensures ValidateTaskObject(FormRecord(id, title, duration, dueDate, tag)) == Returns(true) <==>
      id != [] && TitleMatches(title) && DurationMatches(duration) && DateMatches(dueDate)
      && (tag != [] ==> TagMatches(tag))
  {
    var rec := FormRecord(id, title, duration, dueDate, tag);
    assert Get(rec, "id") == Str(id) && Get(rec, "title") == Str(title);
    assert Get(rec, "duration") == Str(duration) && Get(rec, "dueDate") == Str(dueDate);
    assert Get(rec, "tag") == Str(tag);
  }

  /** The asymmetry between the two validators: a title with a repeated word is refused by the form
      and accepted on import. */
  lemma ObjectSkipsDuplicateRule()
    ensures !ValidateTaskForm("Study Study", "2", "2025-03-10", "").isValid
    ensures ValidateTaskObject(FormRecord("task_1", "Study Study", "2", "2025-03-10", "")) == Returns(true)
  {
    FieldExamples();
    FormRecordIff("task_1", "Study Study", "2", "2025-03-10", "");
  }

  /** On import `duration` only has to be present: a record with well-formed fields passes with the
      number 0 as its duration, which the form's "is required" check would treat as missing. */
  lemma ObjectDurationZero(id: string, title: string, dueDate: string)
    requires id != [] && TitleMatches(title) && DateMatches(dueDate)
    ensures ValidateTaskObject(Obj(map["id" := Str(id), "title" := Str(title),
                                       "duration" := Num("0"), "dueDate" := Str(dueDate)])) == Returns(true)
  {
    var rec := Obj(map["id" := Str(id), "title" := Str(title), "duration" := Num("0"), "dueDate" := Str(dueDate)]);
    assert Get(rec, "id") == Str(id) && Get(rec, "title") == Str(title);
    assert Get(rec, "duration") == Num("0") && Get(rec, "dueDate") == Str(dueDate);
    assert Get(rec, "tag") == Undefined;
    assert ToStr(Num("0")) == Returns("0");
    assert DurationMatches("0") by { assert IntegerPart("0"[..1]) && FractionPart("0"[1..]); }
  }

  /** The same record with no `duration` at all is refused. */
  lemma ObjectDurationMissing(id: string, title: string, dueDate: string)
    ensures ValidateTaskObject(Obj(map["id" := Str(id), "title" := Str(title), "dueDate" := Str(dueDate)])) == Returns(false)
  {
    var missing := Obj(map["id" := Str(id), "title" := Str(title), "dueDate" := Str(dueDate)]);
    assert Get(missing, "duration") == Undefined;
  }

  /** A parsed title such as `{"toString": 1}` is truthy, but its string conversion throws, so the
      check throws instead of answering; the same object inside an array duration throws through
      `join`. The tests run in order: a title that already fails its format answers false before
      the throwing duration is converted. */
  lemma ObjectConversionThrows(id: string, dueDate: string)
    requires id != [] && dueDate != []
    ensures var bad := Obj(map["toString" := Num("1")]);
      ValidateTaskObject(Obj(map["id" := Str(id), "title" := bad,
                                 "duration" := Num("0"), "dueDate" := Str(dueDate)])) == TypeError
    ensures var bad := Obj(map["toString" := Num("1")]);
      ValidateTaskObject(Obj(map["id" := Str(id), "title" := Str("Study"),
                                 "duration" := Arr([Num("1"), bad]), "dueDate" := Str(dueDate)])) == TypeError
    ensures var bad := Obj(map["toString" := Num("1")]);
      ValidateTaskObject(Obj(map["id" := Str(id), "title" := Str(" Study"),
                                 "duration" := bad, "dueDate" := Str(dueDate)])) == Returns(false)
  {
    var bad := Obj(map["toString" := Num("1")]);
    var r1 := Obj(map["id" := Str(id), "title" := bad, "duration" := Num("0"), "dueDate" := Str(dueDate)]);
    assert Get(r1, "id") == Str(id) && Get(r1, "title") == bad;
    assert Get(r1, "duration") == Num("0") && Get(r1, "dueDate") == Str(dueDate);
    var arr := Arr([Num("1"), bad]);
    assert arr.items[1] == bad;
    var r2 := Obj(map["id" := Str(id), "title" := Str("Study"), "duration" := arr, "dueDate" := Str(dueDate)]);
    assert Get(r2, "id") == Str(id) && Get(r2, "title") == Str("Study");
    assert Get(r2, "duration") == arr && Get(r2, "dueDate") == Str(dueDate);
    PlainTitle();
    var r3 := Obj(map["id" := Str(id), "title" := Str(" Study"), "duration" := bad, "dueDate" := Str(dueDate)]);
    assert Get(r3, "id") == Str(id) && Get(r3, "title") == Str(" Study");
    assert Get(r3, "duration") == bad && Get(r3, "dueDate") == Str(dueDate);
    assert !TitleMatches(" Study");
  }

  // ---------------------------------------------------------------------------------------------
  // validateSettings

  /** Settings are refused only when the argument is not an object, when `defaultUnit` is truthy
      and neither "minutes" nor "hours", or when `dailyTarget` is defined and converts to NaN or to a
      negative number. A defined target whose conversion throws, once it is reached, makes the
      check throw. */
  function ValidateSettings(settings: JsValue): (r: Outcome<bool>)
    ensures var unit, target := Get(settings, "defaultUnit"), Get(settings, "dailyTarget");
      r == Returns(false) <==>
        !IsObject(settings)
        || (Truthy(unit) && unit != Str("minutes") && unit != Str("hours"))
        || (target != Undefined && !ConversionThrows(target) && ToNumberSign(target).value != ZeroOrAbove)
    ensures var unit, target := Get(settings, "defaultUnit"), Get(settings, "dailyTarget");
      r == TypeError <==>
        IsObject(settings)
        && !(Truthy(unit) && unit != Str("minutes") && unit != Str("hours"))
        && target != Undefined && ConversionThrows(target)
  {
    if !Truthy(settings) || !IsObject(settings) then Returns(false)
    else if Truthy(Get(settings, "defaultUnit"))
         && !(Get(settings, "defaultUnit") in [Str("minutes"), Str("hours")]) then Returns(false)
    else if Get(settings, "dailyTarget") != Undefined then
      var sign := ToNumberSign(Get(settings, "dailyTarget"));
      if sign.TypeError? then TypeError
      else Returns(sign.value == ZeroOrAbove)
    else Returns(true)
  }

  /** What the settings form submits: a unit from its two-option list and the target as a number,
      0 when the field was left empty. */
  lemma SettingsFormAccepted(unit: string, target: string)
    requires unit == "minutes" || unit == "hours"
    requires target != [] && target != "NaN" && target[0] != '-'
    ensures ValidateSettings(Obj(map["defaultUnit" := Str(unit), "dailyTarget" := Num(target)])) == Returns(true)
  {
  }

  /** An empty object and an array (an object to `typeof`, with neither key) pass, and so do the
      defaults. */
  lemma SettingsAccepted()
    ensures ValidateSettings(Obj(map[])) == Returns(true)
    ensures ValidateSettings(Obj(map["defaultUnit" := Str("minutes"), "dailyTarget" := Num("120")])) == Returns(true)
    ensures ValidateSettings(Arr([])) == Returns(true)
  {
    SettingsFormAccepted("minutes", "120");
  }

  /** An empty text target passes: `Number("")` is 0. */
  lemma EmptyTextTargetAccepted()
    ensures ValidateSettings(Obj(map["dailyTarget" := Str("")])) == Returns(true)
  {
    TextTargetIff("");
    assert Trim("") == [];
  }

  lemma SettingsRefused()
    ensures ValidateSettings(Null) == Returns(false)
    ensures ValidateSettings(Str("minutes")) == Returns(false)
    ensures ValidateSettings(Obj(map["defaultUnit" := Str("days")])) == Returns(false)
    ensures ValidateSettings(Obj(map["dailyTarget" := Num("-5")])) == Returns(false)
    ensures ValidateSettings(Obj(map["dailyTarget" := Num("NaN")])) == Returns(false)
  {
  }

  /** A target given as an object with its own `toString` key makes `Number` throw, and with it the
      check; a refused unit answers false before the target is converted. */
  lemma SettingsConversionThrows()
    ensures ValidateSettings(Obj(map["dailyTarget" := Obj(map["toString" := Num("1")])])) == TypeError
    ensures ValidateSettings(Obj(map["defaultUnit" := Str("days"),
                                     "dailyTarget" := Obj(map["toString" := Num("1")])])) == Returns(false)
  {
    TargetOnly(Obj(map["toString" := Num("1")]));
  }

  /** A trimmed word of letters other than "Infinity" is not a number. */
  lemma LettersNotANumber(s: string)
    requires s != [] && Trim(s) == s && s != "Infinity"
    requires forall i | 0 <= i < |s| :: IsAsciiLetter(s[i])
    ensures StringToNumberSign(s) == NotANumber
  {
    var e := ExponentStart(s);
    assert !IsDigit(s[0]) && s[0] != '-' && s[0] != '+';
    assert !IsMantissa(s[..e]) by {
      assert forall i | 0 <= i < e :: s[..e][i] == s[i];
    }
  }

  /** A trimmed text of a minus sign and a decimal literal with a non-zero digit converts to a
      negative number. */
  lemma NegativeDecimal(s: string, m: string)
    requires Trim(s) == ['-'] + m
    requires m != "Infinity" && IsUnsignedDecimal(m) && HasNonZeroDigit(m[..ExponentStart(m)])
    ensures StringToNumberSign(s) == BelowZero
  {
    var t := Trim(s);
    assert t[0] == '-' && t[1..] == m;
  }

  /** A target that reaches the settings as text is accepted exactly when `Number` converts it to a
      number that is not negative. */
  lemma TextTargetIff(text: string)
    ensures ValidateSettings(Obj(map["dailyTarget" := Str(text)])) == Returns(StringToNumberSign(text) == ZeroOrAbove)
  {
    TargetOnly(Str(text));
  }

  /** A record holding only a defined target is accepted exactly when `Number` gives a number that
      is not negative, and throws exactly when `Number` does. */
  lemma TargetOnly(v: JsValue)
    requires v != Undefined
    ensures ValidateSettings(Obj(map["dailyTarget" := v])) == Returns(true) <==> ToNumberSign(v) == Returns(ZeroOrAbove)
    ensures ValidateSettings(Obj(map["dailyTarget" := v])) == TypeError <==> ConversionThrows(v)
  {
    var o := Obj(map["dailyTarget" := v]);
    assert Get(o, "dailyTarget") == v;
    assert Get(o, "defaultUnit") == Undefined;
  }

  /** A target given as a word of letters (other than "Infinity") is refused: `Number` gives NaN. */
  lemma LetterTargetRefused(text: string)
    requires text != [] && Trim(text) == text && text != "Infinity"
    requires forall i | 0 <= i < |text| :: IsAsciiLetter(text[i])
    ensures ValidateSettings(Obj(map["dailyTarget" := Str(text)])) == Returns(false)
  {
    TextTargetIff(text);
    LettersNotANumber(text);
  }

  /** A target given as a minus sign and a non-zero decimal, whatever whitespace surrounds it, is
      refused: `Number` trims the text and gives a negative number. */
  lemma NegativeTargetRefused(text: string, m: string)
    requires Trim(text) == ['-'] + m
    requires m != "Infinity" && IsUnsignedDecimal(m) && HasNonZeroDigit(m[..ExponentStart(m)])
    ensures ValidateSettings(Obj(map["dailyTarget" := Str(text)])) == Returns(false)
  {
    TextTargetIff(text);
    NegativeDecimal(text, m);
  }
}
