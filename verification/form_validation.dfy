/** Contact-form validation: how one field is classified (required, then e-mail,
    then phone, then place URL, first applicable rule only) and how a form is
    judged from its required fields. */
module FormValidation {
  import opened JsText
  import opened Seqs

  /** A form control: its raw value, its `type` attribute, its `name` attribute and
      whether it carries `required`. */
  datatype Field = Field(value: string, kind: string, name: string, required: bool)

  /** The outcome of validating one field; each failure has its own message. */
  datatype Verdict = Valid | MissingRequired | BadEmail | BadPhone | BadPlaceUrl

  /** The first index of `c` in `s`, or `|s|` when it does not occur. */
  function IndexOf(s: string, c: char): (k: nat)
    ensures k <= |s|
    ensures k < |s| ==> s[k] == c
    ensures forall m :: 0 <= m < k ==> s[m] != c
  {
    if |s| == 0 then 0
    else if s[0] == c then 0
    else 1 + IndexOf(s[1..], c)
  }

  // ---------------------------------------------------------------- e-mail

  /** A character `[^\s@]` accepts. */
  predicate IsEmailChar(c: char) {
    !IsJsSpace(c) && c != '@'
  }

  predicate AllEmailChars(s: string) {
    forall k :: 0 <= k < |s| ==> IsEmailChar(s[k])
  }

  /** `v` splits as L "@" D "." T at positions `i` (the '@') and `j` (the '.'), with L,
      D and T non-empty and free of white space and '@'. */
  ghost predicate EmailSplitAt(v: string, i: int, j: int) {
    && 0 < i && i + 1 < j && j + 1 < |v|
    && v[i] == '@' && v[j] == '.'
    && AllEmailChars(v[..i]) && AllEmailChars(v[i + 1..j]) && AllEmailChars(v[j + 1..])
  }

  /** The language of the pattern `^[^\s@]+@[^\s@]+\.[^\s@]+$`. Since D and T may
      hold dots themselves, the '.' can be any dot after the '@' that is neither
      next to it nor last. */
  ghost predicate MatchesEmailPattern(v: string) {
    exists i, j :: EmailSplitAt(v, i, j)
  }

  predicate NoSpace(v: string) {
    forall k :: 0 <= k < |v| ==> !IsJsSpace(v[k])
  }

  /** The e-mail check as a single scan: no white space, exactly one '@' and not at
      the start, and a '.' somewhere from the second character after the '@' up to
      the second-to-last character. */
  predicate EmailScan(v: string) {
    var a := IndexOf(v, '@');
    && NoSpace(v) && 1 <= a && a + 4 <= |v|
    && (forall k :: a < k < |v| ==> v[k] != '@')
    && (exists k :: a + 2 <= k <= |v| - 2 && v[k] == '.')
  }

  function IsEmail(v: string): (ok: bool)
    ensures ok <==> MatchesEmailPattern(v)
  {
    var ok := EmailScan(v);
    assert ok ==> MatchesEmailPattern(v) by {
      if ok {
        EmailScanSound(v);
      }
    }
    assert MatchesEmailPattern(v) ==> ok by {
      if MatchesEmailPattern(v) {
        EmailScanComplete(v);
      }
    }
    ok
  }

  lemma AllEmailCharsSlice(v: string, lo: int, hi: int)
    requires 0 <= lo <= hi <= |v|
    ensures AllEmailChars(v[lo..hi]) <==> forall m :: lo <= m < hi ==> IsEmailChar(v[m])
  {
    if forall m :: lo <= m < hi ==> IsEmailChar(v[m]) {
      forall k | 0 <= k < hi - lo ensures IsEmailChar(v[lo..hi][k]) {
        assert v[lo..hi][k] == v[lo + k];
      }
    }
    if AllEmailChars(v[lo..hi]) {
      forall m | lo <= m < hi ensures IsEmailChar(v[m]) {
        assert v[lo..hi][m - lo] == v[m];
      }
    }
  }

  lemma EmailScanSound(v: string)
    requires EmailScan(v)
    ensures MatchesEmailPattern(v)
  {
    var a := IndexOf(v, '@');
    var j :| a + 2 <= j <= |v| - 2 && v[j] == '.';
    AllEmailCharsSlice(v, 0, a);
    AllEmailCharsSlice(v, a + 1, j);
    AllEmailCharsSlice(v, j + 1, |v|);
    assert v[..a] == v[0..a];
    assert v[j + 1..] == v[j + 1..|v|];
    assert EmailSplitAt(v, a, j);
  }

  lemma EmailScanComplete(v: string)
    requires MatchesEmailPattern(v)
    ensures EmailScan(v)
  {
    var i, j :| EmailSplitAt(v, i, j);
    assert v[..i] == v[0..i];
    assert v[j + 1..] == v[j + 1..|v|];
    AllEmailCharsSlice(v, 0, i);
    AllEmailCharsSlice(v, i + 1, j);
    AllEmailCharsSlice(v, j + 1, |v|);
    var a := IndexOf(v, '@');
    assert forall m :: 0 <= m < i ==> v[m] != '@';
    assert a == i;
    assert NoSpace(v) by {
      forall k | 0 <= k < |v| ensures !IsJsSpace(v[k]) {
        if k != i && k != j {
          assert IsEmailChar(v[k]);
        }
      }
    }
    forall k | i < k < |v| ensures v[k] != '@' {
      if k != j {
        assert IsEmailChar(v[k]);
      }
    }
  }

  // ---------------------------------------------------------------- phone

  predicate AllDigits(s: string) {
    forall k :: 0 <= k < |s| ==> IsAsciiDigit(s[k])
  }

  function IsNotDash(c: char): bool {
    c != '-'
  }

  /** `value.replace(/-/g, '')`: the value with every '-' taken out. */
  function StripDashes(s: string): (r: string)
    ensures forall k :: 0 <= k < |r| ==> r[k] != '-'
    ensures forall c :: c != '-' ==> multiset(r)[c] == multiset(s)[c]
  {
    KeepCounts(s, IsNotDash);
    Keep(s, IsNotDash)
  }

  /** Taking the dashes out keeps the order of everything else: it works piecewise
      over a split of the value, leaves a single character other than '-' as it
      is and drops a single '-'. */
  lemma StripDashesKeepsOrder(a: string, b: string, c: char)
    ensures StripDashes(a + b) == StripDashes(a) + StripDashes(b)
    ensures StripDashes([c]) == if c == '-' then "" else [c]
    ensures StripDashes("") == ""
  {
    KeepConcat(a, b, IsNotDash);
    KeepCons(c, "", IsNotDash);
  }

  /** `s` parses against `^[0-9]{2,3}-?[0-9]{3,4}-?[0-9]{4}$` with a first group of
      `la` digits, `d1` dashes (0 or 1), a second group of `lb` digits, `d2` dashes
      and a last group of four digits. */
  ghost predicate PhoneSplit(s: string, la: int, d1: int, lb: int, d2: int) {
    && 2 <= la <= 3 && 0 <= d1 <= 1 && 3 <= lb <= 4 && 0 <= d2 <= 1
    && |s| == la + d1 + lb + d2 + 4
    && AllDigits(s[..la])
    && (d1 == 1 ==> s[la] == '-')
    && AllDigits(s[la + d1..la + d1 + lb])
    && (d2 == 1 ==> s[la + d1 + lb] == '-')
    && AllDigits(s[la + d1 + lb + d2..])
  }

  /** The language of the phone pattern. */
  ghost predicate MatchesPhonePattern(s: string) {
    exists la, d1, lb, d2 :: PhoneSplit(s, la, d1, lb, d2)
  }

  /** The phone check after the dashes are gone: nine to eleven ASCII digits. */
  predicate IsPhoneDigits(s: string) {
    9 <= |s| <= 11 && AllDigits(s)
  }

  /** Without dashes in the input, the phone pattern accepts exactly the strings of
      nine to eleven digits: its optional dashes can never match, and its groups add
      up to 2+3+4 up to 3+4+4 digits. */
  lemma PhonePatternWithoutDashes(s: string)
    requires forall k :: 0 <= k < |s| ==> s[k] != '-'
    ensures MatchesPhonePattern(s) <==> IsPhoneDigits(s)
  {
    if MatchesPhonePattern(s) {
      var la, d1, lb, d2 :| PhoneSplit(s, la, d1, lb, d2);
      assert d1 == 0 && d2 == 0;
      forall k | 0 <= k < |s| ensures IsAsciiDigit(s[k]) {
        if k < la {
          assert s[k] == s[..la][k];
        } else if k < la + lb {
          assert s[k] == s[la..la + lb][k - la];
        } else {
          assert s[k] == s[la + lb..][k - la - lb];
        }
      }
    }
    if IsPhoneDigits(s) {
      var la := if |s| == 9 then 2 else 3;
      var lb := if |s| == 11 then 4 else 3;
      assert AllDigits(s[..la]);
      assert AllDigits(s[la..la + lb]);
      assert AllDigits(s[la + lb..]);
      assert PhoneSplit(s, la, 0, lb, 0);
    }
  }

  /** The phone check on a (trimmed) value: the value with its dashes removed must
      match the phone pattern, that is, be nine to eleven digits. Dashes may stand
      anywhere and in any number. */
  function IsPhone(value: string): (ok: bool)
    ensures ok <==> MatchesPhonePattern(StripDashes(value))
    ensures ok <==> IsPhoneDigits(StripDashes(value))
  {
    PhonePatternWithoutDashes(StripDashes(value));
    IsPhoneDigits(StripDashes(value))
  }

  // ---------------------------------------------------------------- place URL

  /** `\w`: an ASCII letter, digit or underscore. */
  predicate IsWordChar(c: char) {
    ('a' <= c <= 'z') || ('A' <= c <= 'Z') || IsAsciiDigit(c) || c == '_'
  }

  predicate IsLabelChar(c: char) {
    IsWordChar(c) || c == '-'
  }

  /** The characters `[\w-./?%&=]` accepts in the path. */
  predicate IsPathChar(c: char) {
    IsLabelChar(c) || c == '.' || c == '/' || c == '?' || c == '%' || c == '&' || c == '='
  }

  /** The value without a leading "https://" or "http://". */
  function StripScheme(v: string): (r: string)
    ensures |r| <= |v| && r == v[|v| - |r|..]
    ensures forall k :: 0 <= k < |v| - |r| ==> v[k] != ' '
  {
    if |v| >= 8 && v[..8] == "https://" then
      assert forall k :: 0 <= k < 8 ==> v[k] == v[..8][k];
      v[8..]
    else if |v| >= 7 && v[..7] == "http://" then
      assert forall k :: 0 <= k < 7 ==> v[k] == v[..7][k];
      v[7..]
    else v
  }

  /** `([\w-]+\.)+[\w-]+`: labels of word characters and dashes joined by single
      dots, at least two of them. */
  predicate IsHost(h: string) {
    && |h| > 0 && h[0] != '.' && h[|h| - 1] != '.'
    && '.' in h
    && (forall k :: 0 <= k < |h| ==> IsLabelChar(h[k]) || h[k] == '.')
    && (forall k :: 0 <= k < |h| - 1 ==> !(h[k] == '.' && h[k + 1] == '.'))
  }

  /** The place-URL check `^(https?:\/\/)?([\w-]+\.)+[\w-]+(\/[\w-./?%&=]*)?$`: an
      optional scheme, a dotted host up to the first '/', then optionally a path of
      URL characters. */
  function IsPlaceUrl(v: string): (ok: bool)
    ensures ok ==> forall k :: 0 <= k < |v| ==> v[k] != ' '
  {
    var rest := StripScheme(v);
    var slash := IndexOf(rest, '/');
    var ok := IsHost(rest[..slash]) && forall k | slash <= k < |rest| :: IsPathChar(rest[k]);
    assert ok ==> forall k :: 0 <= k < |v| ==> v[k] != ' ' by {
      if ok {
        HostAndPathHaveNoSpace(v, rest, slash);
      }
    }
    ok
  }

  lemma HostAndPathHaveNoSpace(v: string, rest: string, slash: nat)
    requires rest == StripScheme(v)
    requires slash <= |rest|
    requires IsHost(rest[..slash])
    requires forall k | slash <= k < |rest| :: IsPathChar(rest[k])
    ensures forall k :: 0 <= k < |v| ==> v[k] != ' '
  {
    RestHasNoSpace(rest, slash);
    forall k | 0 <= k < |v| ensures v[k] != ' ' {
      if k >= |v| - |rest| {
        assert v[k] == rest[k - (|v| - |rest|)];
      }
    }
  }

  lemma RestHasNoSpace(rest: string, slash: nat)
    requires slash <= |rest|
    requires IsHost(rest[..slash])
    requires forall k | slash <= k < |rest| :: IsPathChar(rest[k])
    ensures forall k :: 0 <= k < |rest| ==> rest[k] != ' '
  {
    forall k | 0 <= k < |rest| ensures rest[k] != ' ' {
      if k < slash {
        assert rest[k] == rest[..slash][k];
        assert IsLabelChar(rest[..slash][k]) || rest[..slash][k] == '.';
      } else {
        assert IsPathChar(rest[k]);
      }
    }
  }

  /** The scheme is optional: for an address without a ':' the bare form, the
      "http://" form and the "https://" form are judged alike. */
  lemma SchemeIsOptional(x: string)
    requires forall k :: 0 <= k < |x| ==> x[k] != ':'
    ensures IsPlaceUrl("http://" + x) == IsPlaceUrl(x)
    ensures IsPlaceUrl("https://" + x) == IsPlaceUrl(x)
  {
    StripSchemeBare(x);
    StripSchemeHttp(x);
    StripSchemeHttps(x);
  }

  lemma StripSchemeBare(x: string)
    requires forall k :: 0 <= k < |x| ==> x[k] != ':'
    ensures StripScheme(x) == x
  {
    if |x| >= 8 {
      assert x[..8][5] == x[5] != ':';
      assert "https://"[5] == ':';
    }
    if |x| >= 7 {
      assert x[..7][4] == x[4] != ':';
      assert "http://"[4] == ':';
    }
  }

  lemma StripSchemeHttp(x: string)
    ensures StripScheme("http://" + x) == x
  {
    var v := "http://" + x;
    assert v[..7] == "http://";
    if |v| >= 8 {
      assert v[..8][4] == ':';
      assert "https://"[4] == 's';
    }
    assert v[7..] == x;
  }

  lemma StripSchemeHttps(x: string)
    ensures StripScheme("https://" + x) == x
  {
    var v := "https://" + x;
    assert v[..8] == "https://";
    assert v[8..] == x;
  }

  // ---------------------------------------------------------------- fields and forms

  /** The verdict on one field. The value is trimmed first; the rules apply in
      the order required, e-mail, phone, place URL, and only the first one that
      applies is checked; a blank field that is not required is always valid. */
  function ValidateField(f: Field): (v: Verdict)
    ensures v == MissingRequired <==> f.required && IsBlank(f.value)
    ensures !f.required && IsBlank(f.value) ==> v == Valid
    ensures v == BadEmail <==>
      !IsBlank(f.value) && f.kind == "email" && !MatchesEmailPattern(Trim(f.value))
    ensures v == BadPhone <==>
      && !IsBlank(f.value) && f.kind != "email" && (f.kind == "tel" || f.name == "phone")
      && !MatchesPhonePattern(StripDashes(Trim(f.value)))
    ensures v == BadPlaceUrl <==>
      && !IsBlank(f.value) && f.kind != "email" && f.kind != "tel" && f.name != "phone"
      && f.name == "placeUrl" && !IsPlaceUrl(Trim(f.value))
  {
    var value := Trim(f.value);
    if f.required && value == "" then MissingRequired
    else if f.kind == "email" && value != "" then
      (if IsEmail(value) then Valid else BadEmail)
    else if (f.kind == "tel" || f.name == "phone") && value != "" then
      (if IsPhone(value) then Valid else BadPhone)
    else if f.name == "placeUrl" && value != "" then
      (if IsPlaceUrl(value) then Valid else BadPlaceUrl)
    else Valid
  }

  /** The two marks a field can carry: the `error` class and the `valid` class. */
  datatype Marks = Marks(error: bool, valid: bool)

  /** The marks after validating `f`: a failure sets `error` and clears `valid`; a
      pass clears `error` and sets `valid` only when the trimmed value is non-empty,
      leaving an earlier `valid` mark in place otherwise. */
  function MarkField(before: Marks, f: Field): (after: Marks)
    ensures after.error <==> ValidateField(f) != Valid
    ensures after.valid <==> ValidateField(f) == Valid && (before.valid || !IsBlank(f.value))
  {
    var value := Trim(f.value);
    if ValidateField(f) != Valid then Marks(true, false)
    else Marks(false, before.valid || value != "")
  }

  /** Validating the same value twice marks the field as validating it once. */
  lemma MarkFieldIdempotent(before: Marks, f: Field)
    ensures MarkField(MarkField(before, f), f) == MarkField(before, f)
  {
  }

  /** Typing into a field re-validates it only while it is marked as an error. */
  function OnInput(before: Marks, f: Field): (after: Marks)
    ensures !before.error ==> after == before
    ensures before.error ==> (after.error <==> ValidateField(f) != Valid)
    ensures before.error ==>
      (after.valid <==> ValidateField(f) == Valid && (before.valid || !IsBlank(f.value)))
  {
    if before.error then MarkField(before, f) else before
  }

  /** Leaving a field validates it: a failure marks it as an error and never as
      valid; a pass clears the error and marks it valid when it has a value, keeping
      an earlier `valid` mark otherwise. */
  function OnBlur(before: Marks, f: Field): (after: Marks)
    ensures after.error <==> ValidateField(f) != Valid
    ensures after.valid <==> ValidateField(f) == Valid && (before.valid || !IsBlank(f.value))
  {
    MarkField(before, f)
  }

  /** A field that passed with a value keeps its `valid` mark after it is emptied
      again, when it is not required: the mark is never taken off on a pass. */
  lemma ClearedOptionalFieldStaysValid(f: Field)
    requires !f.required && f.value == ""
    ensures MarkField(Marks(false, true), f) == Marks(false, true)
  {
    assert IsBlank(f.value);
  }

  function IsRequired(f: Field): bool {
    f.required
  }

  /** Runs `verdictOf` on every required field in order, without stopping at the
      first failure, and reports whether all of them passed. */
  method CheckRequired(fields: seq<Field>, verdictOf: Field -> Verdict) returns (ok: bool, verdicts: seq<Verdict>)
    ensures |verdicts| == |Keep(fields, IsRequired)|
    ensures forall i :: 0 <= i < |verdicts| ==> verdicts[i] == verdictOf(Keep(fields, IsRequired)[i])
    ensures ok <==> forall i :: 0 <= i < |fields| && fields[i].required ==> verdictOf(fields[i]) == Valid
  {
    ok := true;
    verdicts := [];
    var i := 0;
    while i < |fields|
      invariant 0 <= i <= |fields|
      invariant |verdicts| == |Keep(fields[..i], IsRequired)|
      invariant forall m :: 0 <= m < |verdicts| ==> verdicts[m] == verdictOf(Keep(fields[..i], IsRequired)[m])
      invariant ok <==> forall m :: 0 <= m < i && fields[m].required ==> verdictOf(fields[m]) == Valid
    {
      assert fields[..i + 1] == fields[..i] + [fields[i]];
      KeepSnoc(fields[..i], fields[i], IsRequired);
      if fields[i].required {
        var v := verdictOf(fields[i]);
        verdicts := verdicts + [v];
        if v != Valid {
          ok := false;
        }
      }
      i := i + 1;
    }
    assert fields[..i] == fields;
  }

  /** Validating a form: every required field is validated, none is
      skipped after a failure, and the form is valid exactly when all of them are.
      Fields without `required` play no part. */
  method ValidateForm(fields: seq<Field>) returns (ok: bool, verdicts: seq<Verdict>)
    ensures |verdicts| == |Keep(fields, IsRequired)|
    ensures forall i :: 0 <= i < |verdicts| ==> verdicts[i] == ValidateField(Keep(fields, IsRequired)[i])
    ensures ok <==> forall i :: 0 <= i < |fields| && fields[i].required ==> ValidateField(fields[i]) == Valid
  {
    ok, verdicts := CheckRequired(fields, ValidateField);
  }
}
