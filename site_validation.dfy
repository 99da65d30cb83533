/** Two input checks of the site script: the e-mail field test behind
    validateEmail and the size limit of handleFileUpload. Strings are
    sequences of Unicode scalar values; a character outside the Basic
    Multilingual Plane is one JavaScript character here and two UTF-16 code
    units in the browser, which changes nothing below because both code units
    are neither whitespace nor '@'. */
module SiteValidation {

  // ---------------------------------------------------------------------------
  // The pattern /^[^\s@]+@[^\s@]+\.[^\s@]+$/
  // ---------------------------------------------------------------------------

  /** The characters JavaScript's \s matches: WhiteSpace and LineTerminator. */
  predicate IsJsSpace(c: char)
  {
    || c == ' ' || c == '\t' || c == '\n' || c == '\U{000B}' || c == '\U{000C}' || c == '\r'
    || c == '\U{00A0}' || c == '\U{1680}' || ('\U{2000}' <= c <= '\U{200A}')
    || c == '\U{2028}' || c == '\U{2029}' || c == '\U{202F}' || c == '\U{205F}'
    || c == '\U{3000}' || c == '\U{FEFF}'
  }

  /** The class [^\s@]. */
  predicate Plain(c: char)
  {
    !IsJsSpace(c) && c != '@'
  }

  ghost predicate AllPlain(s: string)
  {
    forall i :: 0 <= i < |s| ==> Plain(s[i])
  }

  /** The language of the pattern: a non-empty local part, '@', a non-empty
      run, '.', and a non-empty run, none of the three runs holding whitespace
      or '@'. The runs after '@' may hold further dots. */
  ghost predicate MatchesEmailPattern(s: string)
  {
    exists at, dot :: 0 < at && at + 1 < dot && dot + 1 < |s| && s[at] == '@' && s[dot] == '.'
      && AllPlain(s[..at]) && AllPlain(s[at + 1..dot]) && AllPlain(s[dot + 1..])
  }

  /** The index of the first '@', or |s|. */
  function IndexOfAt(s: string): (k: nat)
    ensures k <= |s|
    ensures k < |s| ==> s[k] == '@'
    ensures forall i :: 0 <= i < k ==> s[i] != '@'
  {
    if s == [] || s[0] == '@' then 0 else 1 + IndexOfAt(s[1..])
  }

  /** The pattern decided around the first '@' at index `at`: it is not first
      or last, no character is whitespace, no '@' follows it, and a '.' lies at
      least two characters after it without being the last character. */
  predicate SplitsAtFirstAt(s: string, at: nat)
  {
    && 0 < at < |s|
    && (forall i :: 0 <= i < |s| ==> !IsJsSpace(s[i]))
    && (forall i :: at < i < |s| ==> s[i] != '@')
    && (exists dot :: at + 1 < dot < |s| - 1 && s[dot] == '.')
  }

  /** emailRegex.test(value): accepts exactly the strings the pattern matches. */
  function IsValidEmail(s: string): (ok: bool)
    ensures ok <==> MatchesEmailPattern(s)
  {
    SplitMatchesPattern(s);
    PatternSplitsAtFirstAt(s);
    SplitsAtFirstAt(s, IndexOfAt(s))
  }

  lemma PlainSlice(s: string, lo: nat, hi: nat)
    requires lo <= hi <= |s|
    requires forall j :: lo <= j < hi ==> Plain(s[j])
    ensures AllPlain(s[lo..hi])
  {
    forall i | 0 <= i < hi - lo ensures Plain(s[lo..hi][i]) {
      assert s[lo..hi][i] == s[lo + i];
    }
  }

  lemma PlainAt(s: string, lo: nat, hi: nat, i: nat)
    requires lo <= i < hi <= |s| && AllPlain(s[lo..hi])
    ensures Plain(s[i])
  {
    assert s[lo..hi][i - lo] == s[i];
  }

  /** A string that splits at its first '@' matches the pattern. */
  lemma SplitMatchesPattern(s: string)
    ensures SplitsAtFirstAt(s, IndexOfAt(s)) ==> MatchesEmailPattern(s)
  {
    var at := IndexOfAt(s);
    if SplitsAtFirstAt(s, at) {
      var dot :| at + 1 < dot < |s| - 1 && s[dot] == '.';
      PlainSlice(s, 0, at);
      PlainSlice(s, at + 1, dot);
      PlainSlice(s, dot + 1, |s|);
      assert s[dot + 1..|s|] == s[dot + 1..];
    }
  }

  /** A string the pattern matches splits at its first '@'. */
  lemma PatternSplitsAtFirstAt(s: string)
    ensures MatchesEmailPattern(s) ==> SplitsAtFirstAt(s, IndexOfAt(s))
  {
    if MatchesEmailPattern(s) {
      var at, dot :| 0 < at && at + 1 < dot && dot + 1 < |s| && s[at] == '@' && s[dot] == '.'
        && AllPlain(s[..at]) && AllPlain(s[at + 1..dot]) && AllPlain(s[dot + 1..]);
      OnlyOneAt(s, at, dot);
      assert IndexOfAt(s) == at;
      assert at + 1 < dot < |s| - 1 && s[dot] == '.';
    }
  }

  /** In a matched string every character is plain except the one '@'. */
  lemma OnlyOneAt(s: string, at: nat, dot: nat)
    requires 0 < at && at + 1 < dot && dot + 1 < |s| && s[at] == '@' && s[dot] == '.'
    requires AllPlain(s[..at]) && AllPlain(s[at + 1..dot]) && AllPlain(s[dot + 1..])
    ensures forall i :: 0 <= i < |s| ==> !IsJsSpace(s[i]) && (i != at ==> s[i] != '@')
  {
    assert s[..at] == s[0..at];
    assert s[dot + 1..] == s[dot + 1..|s|];
    forall i | 0 <= i < |s|
      ensures !IsJsSpace(s[i]) && (i != at ==> s[i] != '@')
    {
      if i < at {
        PlainAt(s, 0, at, i);
      } else if at < i < dot {
        PlainAt(s, at + 1, dot, i);
      } else if dot < i {
        PlainAt(s, dot + 1, |s|, i);
      }
    }
  }

  /** What validateEmail does to the field. */
  datatype Feedback = MarkInvalid(message: string) | ClearInvalid

  const InvalidEmailMessage: string := "Please enter a valid email address"

  /** An empty field is never marked; a non-empty one is marked exactly when
      the pattern does not match it. */
  function ValidateEmail(value: string): (f: Feedback)
    ensures f.MarkInvalid? <==> value != [] && !MatchesEmailPattern(value)
    ensures f.MarkInvalid? ==> f.message == InvalidEmailMessage
  {
    if value != [] && !IsValidEmail(value) then MarkInvalid(InvalidEmailMessage) else ClearInvalid
  }

  /** A plain address passes, and so does one with a dotted domain. */
  lemma WellFormedAddressesPass()
    ensures ValidateEmail("a@b.c") == ClearInvalid
    ensures ValidateEmail("a@b.c.d") == ClearInvalid
  {
    assert IndexOfAt("a@b.c") == 1;
    assert IndexOfAt("a@b.c.d") == 1;
    assert "a@b.c"[3] == '.';
    assert "a@b.c.d"[3] == '.';
  }

  /** A domain without a dot, a dot right after '@', a space, or a second
      '@' each mark the field. */
  lemma MalformedAddressesFail()
    ensures ValidateEmail("a@b").MarkInvalid?
    ensures ValidateEmail("a@.c").MarkInvalid?
    ensures ValidateEmail("a b@c.d").MarkInvalid?
    ensures ValidateEmail("a@b@c.d").MarkInvalid?
  {
    assert IndexOfAt("a@b") == 1;
    assert IndexOfAt("a@.c") == 1;
    assert "a b@c.d"[1] == ' ';
    assert IndexOfAt("a@b@c.d") == 1;
    assert "a@b@c.d"[3] == '@';
  }

  // ---------------------------------------------------------------------------
  // The upload size limit
  // ---------------------------------------------------------------------------

  /** 10 * 1024 * 1024 bytes. */
  const MaxUploadSize: nat := 10 * 1024 * 1024

  datatype SelectedFile = SelectedFile(name: string, size: nat)

  /** What handleFileUpload does: nothing without a file; for an oversized
      first file an error toast and a cleared input; otherwise a success
      toast naming the file. */
  datatype UploadOutcome =
    | NoFile
    | Rejected(toast: string, inputCleared: bool)
    | Accepted(toast: string)

  const FileTooLargeMessage: string := "File size must be less than 10MB"

  function HandleFileUpload(files: seq<SelectedFile>): (r: UploadOutcome)
    ensures r.NoFile? <==> files == []
    ensures r.Rejected? <==> files != [] && files[0].size > MaxUploadSize
    ensures r.Rejected? ==> r.inputCleared && r.toast == FileTooLargeMessage
    ensures r.Accepted? ==> r.toast == "File \"" + files[0].name + "\" selected"
  {
    if |files| > 0 then
      var file := files[0];
      if file.size > MaxUploadSize then Rejected(FileTooLargeMessage, true)
      else Accepted("File \"" + file.name + "\" selected")
    else NoFile
  }

  /** The limit is inclusive: a file of exactly 10 MiB is accepted, one byte
      more is rejected, whatever the toast text says. */
  lemma UploadLimitIsInclusive(name: string)
    ensures HandleFileUpload([SelectedFile(name, 10_485_760)]).Accepted?
    ensures HandleFileUpload([SelectedFile(name, 10_485_761)]).Rejected?
  {
  }

  /** Only the first selected file is checked. */
  lemma OnlyFirstFileChecked(first: SelectedFile, rest: seq<SelectedFile>)
    ensures HandleFileUpload([first] + rest) == HandleFileUpload([first])
  {
  }
}
