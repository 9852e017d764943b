/**
 * The client-side rules of `ContactForm`: every field value is trimmed,
 * then checked by a rule chosen by the field's name; a submission is
 * accepted only when every field passes, and every field is checked.
 */
module ContactValidation {
  import opened Seqs

  /** The characters JavaScript's `String.prototype.trim` removes and `\s` matches. */
  predicate IsSpace(c: char)
  {
    var n := c as int;
    || (0x09 <= n <= 0x0D) || n == 0x20 || n == 0xA0 || n == 0x1680
    || (0x2000 <= n <= 0x200A) || n == 0x2028 || n == 0x2029
    || n == 0x202F || n == 0x205F || n == 0x3000 || n == 0xFEFF
  }

  ghost predicate AllSpace(s: string)
  {
    forall i :: 0 <= i < |s| ==> IsSpace(s[i])
  }

  /** `s` neither starts nor ends with whitespace. */
  ghost predicate Trimmed(s: string)
  {
    s == [] || (!IsSpace(s[0]) && !IsSpace(s[|s| - 1]))
  }

  /** `value.trim()`: strip leading and trailing whitespace. */
  function Trim(s: string): (r: string)
    ensures |r| <= |s|
    ensures Trimmed(r)
    decreases |s|
  {
    if s == [] then []
    else if IsSpace(s[0]) then Trim(s[1..])
    else if IsSpace(s[|s| - 1]) then Trim(s[..|s| - 1])
    else s
  }

  /** The trimmed string is what is left between two runs of whitespace. */
  lemma {:induction false} TrimSplit(s: string) returns (p: string, q: string)
    ensures AllSpace(p) && AllSpace(q)
    ensures s == p + Trim(s) + q
    decreases |s|
  {
    if s == [] {
      p, q := [], [];
    } else if IsSpace(s[0]) {
      var p', q' := TrimSplit(s[1..]);
      p, q := [s[0]] + p', q';
      assert s == [s[0]] + s[1..];
    } else if IsSpace(s[|s| - 1]) {
      var p', q' := TrimSplit(s[..|s| - 1]);
      p, q := p', q' + [s[|s| - 1]];
      assert s == s[..|s| - 1] + [s[|s| - 1]];
    } else {
      p, q := [], [];
    }
  }

  /** Whitespace around a trimmed string is exactly what `Trim` removes. */
  lemma {:induction false} TrimUnique(p: string, m: string, q: string)
    requires AllSpace(p) && AllSpace(q) && Trimmed(m)
    ensures Trim(p + m + q) == m
    decreases |p| + |q|
  {
    var s := p + m + q;
    if p != [] {
      assert s[0] == p[0];
      assert s[1..] == p[1..] + m + q;
      TrimUnique(p[1..], m, q);
    } else if q != [] {
      assert s == m + q;
      if IsSpace(s[0]) {
        assert m == [];
        assert s[1..] == [] + [] + q[1..];
        TrimUnique([], [], q[1..]);
      } else {
        assert s[|s| - 1] == q[|q| - 1];
        assert s[..|s| - 1] == [] + m + q[..|q| - 1];
        TrimUnique([], m, q[..|q| - 1]);
      }
    } else {
      assert s == m;
    }
  }

  /** Trimming twice is trimming once. */
  lemma TrimIdempotent(s: string)
    ensures Trim(Trim(s)) == Trim(s)
  {
    TrimUnique([], Trim(s), []);
    assert [] + Trim(s) + [] == Trim(s);
  }

  /** Padding a value with whitespace does not change its trimmed form. */
  lemma TrimPadding(p: string, s: string, q: string)
    requires AllSpace(p) && AllSpace(q)
    ensures Trim(p + s + q) == Trim(s)
  {
    var p', q' := TrimSplit(s);
    assert p + s + q == (p + p') + Trim(s) + (q' + q);
    TrimUnique(p + p', Trim(s), q' + q);
  }

  /** `value.length`: JavaScript counts UTF-16 code units, two for a character beyond U+FFFF. */
  function Utf16Length(s: string): (n: nat)
    ensures |s| <= n <= 2 * |s|
  {
    if s == [] then 0 else (if s[0] as int > 0xFFFF then 2 else 1) + Utf16Length(s[1..])
  }

  /** The count adds up over concatenation. */
  lemma {:induction false} Utf16Concat(a: string, b: string)
    ensures Utf16Length(a + b) == Utf16Length(a) + Utf16Length(b)
    decreases |a|
  {
    if a != [] {
      assert (a + b)[0] == a[0];
      assert (a + b)[1..] == a[1..] + b;
      Utf16Concat(a[1..], b);
    } else {
      assert a + b == b;
    }
  }

  /** A string of Basic Multilingual Plane characters has one code unit per character. */
  lemma {:induction false} Utf16Bmp(s: string)
    requires forall i :: 0 <= i < |s| ==> s[i] as int <= 0xFFFF
    ensures Utf16Length(s) == |s|
  {
    if s != [] {
      assert forall i :: 0 <= i < |s[1..]| ==> s[1..][i] == s[i + 1];
      Utf16Bmp(s[1..]);
    }
  }

  /** Exactly the characters beyond U+FFFF count two code units. */
  lemma Utf16Char(c: char)
    ensures Utf16Length([c]) == if c as int > 0xFFFF then 2 else 1
  {
    assert [c][1..] == [];
  }

  /** A character of the class `[^\s@]`. */
  predicate EmailChar(c: char)
  {
    !IsSpace(c) && c != '@'
  }

  predicate AllEmailChars(s: string)
  {
    forall i :: 0 <= i < |s| ==> EmailChar(s[i])
  }

  /**
   * Reference meaning of `/^[^\s@]+@[^\s@]+\.[^\s@]+$/.test(s)`: `s` splits
   * as local `@` host `.` tail, the three parts non-empty runs of `[^\s@]`.
   */
  ghost predicate MatchesEmailPattern(s: string)
  {
    exists i, j :: 0 < i && i + 1 < j && j + 1 < |s| && s[i] == '@' && s[j] == '.'
      && AllEmailChars(s[..i]) && AllEmailChars(s[i + 1..j]) && AllEmailChars(s[j + 1..])
  }

  /** The domain has a dot that is neither its first nor its last character. */
  predicate HasInnerDot(d: string)
  {
    exists k :: 0 < k < |d| - 1 && d[k] == '.'
  }

  /** The email check, without backtracking: split at the single `@`, then look for an inner dot. */
  predicate IsEmail(s: string)
  {
    var at := IndexOf(s, '@');
    && 0 < at < |s|
    && AllEmailChars(s[..at])
    && AllEmailChars(s[at + 1..])
    && HasInnerDot(s[at + 1..])
  }

  /** Every split the direct check finds is a match of the regular expression. */
  lemma EmailSound(s: string)
    requires IsEmail(s)
    ensures MatchesEmailPattern(s)
  {
    var at := IndexOf(s, '@');
    var d := s[at + 1..];
    var k :| 0 < k < |d| - 1 && d[k] == '.';
    var j := at + 1 + k;
    assert s[at + 1..j] == d[..k];
    assert s[j + 1..] == d[k + 1..];
    assert s[j] == '.';
    EmailCharsSlice(d, 0, k);
    EmailCharsSlice(d, k + 1, |d|);
    assert d[k + 1..|d|] == d[k + 1..];
    assert d[0..k] == d[..k];
  }

  /** Every match of the regular expression passes the direct check. */
  lemma EmailComplete(s: string, i: nat, j: nat)
    requires 0 < i && i + 1 < j && j + 1 < |s| && s[i] == '@' && s[j] == '.'
    requires AllEmailChars(s[..i]) && AllEmailChars(s[i + 1..j]) && AllEmailChars(s[j + 1..])
    ensures IsEmail(s)
  {
    assert forall x :: 0 <= x < i ==> s[x] == s[..i][x];
    assert IndexOf(s, '@') == i;
    var d := s[i + 1..];
    assert d == s[i + 1..j] + ['.'] + s[j + 1..];
    assert d[j - i - 1] == '.';
  }

  lemma EmailCharsSlice(s: string, a: nat, b: nat)
    requires a <= b <= |s| && AllEmailChars(s)
    ensures AllEmailChars(s[a..b])
  {
    assert forall x :: 0 <= x < b - a ==> s[a..b][x] == s[a + x];
  }

  /** The direct check accepts exactly the strings the regular expression accepts. */
  lemma EmailMatchesPattern(s: string)
    ensures IsEmail(s) <==> MatchesEmailPattern(s)
  {
    if IsEmail(s) {
      EmailSound(s);
    }
    if MatchesEmailPattern(s) {
      var i: nat, j: nat :| 0 < i && i + 1 < j && j + 1 < |s| && s[i] == '@' && s[j] == '.'
        && AllEmailChars(s[..i]) && AllEmailChars(s[i + 1..j]) && AllEmailChars(s[j + 1..]);
      EmailComplete(s, i, j);
    }
  }

  /** A valid email address has at least five characters (`a@b.c`). */
  lemma EmailAtLeastFive(s: string)
    requires IsEmail(s)
    ensures |s| >= 5
  {
    EmailMatchesPattern(s);
  }

  /** One input of the form: its `name` attribute and its current value. */
  datatype Field = Field(name: string, value: string)

  /** The outcome of `validateField`: valid, or the message shown under the field. */
  datatype Verdict = Valid | Invalid(message: string)

  /** `validateField(field)`: the rule for the field's name applied to the trimmed value. */
  function ValidateField(f: Field): (r: Verdict)
    ensures r.Invalid? ==> f.name == "name" || f.name == "email" || f.name == "subject" || f.name == "message"
  {
    var v := Trim(f.value);
    match f.name
    case "name" =>
      if Utf16Length(v) < 2 then Invalid("Name must be at least 2 characters long") else Valid
    case "email" =>
      if !IsEmail(v) then Invalid("Please enter a valid email address") else Valid
    case "subject" =>
      if Utf16Length(v) < 5 then Invalid("Subject must be at least 5 characters long") else Valid
    case "message" =>
      if Utf16Length(v) < 10 then Invalid("Message must be at least 10 characters long") else Valid
    case _ => Valid
  }

  /** An email field is valid exactly when its trimmed value matches the pattern. */
  lemma EmailFieldRule(value: string)
    ensures ValidateField(Field("email", value)).Valid? <==> MatchesEmailPattern(Trim(value))
  {
    EmailMatchesPattern(Trim(value));
  }

  /** Surrounding whitespace never changes a field's verdict. */
  lemma PaddingIrrelevant(f: Field, p: string, q: string)
    requires AllSpace(p) && AllSpace(q)
    ensures ValidateField(Field(f.name, p + f.value + q)) == ValidateField(f)
  {
    TrimPadding(p, f.value, q);
  }

  /** A field with any other name is always valid. */
  lemma OtherNamesValid(f: Field)
    requires f.name != "name" && f.name != "email" && f.name != "subject" && f.name != "message"
    ensures ValidateField(f) == Valid
  {
  }

  /** The length rule counts code units: a name of a single emoji passes the two-character minimum. */
  lemma EmojiNamePasses()
    ensures ValidateField(Field("name", "\U{1F600}")).Valid?
  {
    var v := "\U{1F600}";
    assert Trim(v) == v;
    Utf16Char('\U{1F600}');
  }

  /** A field whose value is only whitespace fails every length rule. */
  lemma BlankFieldInvalid(f: Field)
    requires f.name == "name" || f.name == "email" || f.name == "subject" || f.name == "message"
    requires AllSpace(f.value)
    ensures ValidateField(f).Invalid?
  {
    TrimUnique(f.value, [], []);
    assert f.value + [] + [] == f.value;
  }

  /**
   * `handleSubmit`'s validation loop: every field is validated (each shows
   * or clears its own error), and the form is valid iff all fields are.
   */
  method HandleSubmit(inputs: seq<Field>) returns (formValid: bool, verdicts: seq<Verdict>)
    ensures |verdicts| == |inputs|
    ensures forall i :: 0 <= i < |inputs| ==> verdicts[i] == ValidateField(inputs[i])
    ensures formValid <==> forall i :: 0 <= i < |inputs| ==> ValidateField(inputs[i]).Valid?
  {
    formValid := true;
    verdicts := [];
    var i := 0;
    while i < |inputs|
      invariant 0 <= i <= |inputs|
      invariant |verdicts| == i
      invariant forall j :: 0 <= j < i ==> verdicts[j] == ValidateField(inputs[j])
      invariant formValid <==> forall j :: 0 <= j < i ==> verdicts[j].Valid?
    {
      var v := ValidateField(inputs[i]);
      if !v.Valid? {
        formValid := false;
      }
      verdicts := verdicts + [v];
      i := i + 1;
    }
  }
}
