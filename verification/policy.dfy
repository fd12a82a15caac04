/**
  Server-side input rules of the registration form: the email format check
  `is_valid_email` and the password rule `is_strong_password`.
 */
module Policy {

  /** `\w` in the email pattern (ASCII reading). */
  predicate IsWordChar(c: char)
  {
    ('a' <= c <= 'z') || ('A' <= c <= 'Z') || ('0' <= c <= '9') || c == '_'
  }

  /** The class `[\w.-]` used for the local part and the domain. */
  predicate IsEmailChar(c: char)
  {
    IsWordChar(c) || c == '.' || c == '-'
  }

  /** Every character of `s[lo..hi]` is in `[\w.-]`. */
  predicate EmailCharsBetween(s: string, lo: nat, hi: nat)
    requires lo <= hi <= |s|
  {
    forall i :: lo <= i < hi ==> IsEmailChar(s[i])
  }

  /** Every character of `s[lo..hi]` is in `\w`. */
  predicate WordCharsBetween(s: string, lo: nat, hi: nat)
    requires lo <= hi <= |s|
  {
    forall i :: lo <= i < hi ==> IsWordChar(s[i])
  }

  /**
    What `[\w.-]+@[\w.-]+\.\w+` matches as a whole string: a non-empty local
    part, an `@`, a non-empty domain, a dot and a non-empty run of word
    characters.
   */
  ghost predicate EmailShape(s: string)
  {
    exists at: nat, dot: nat ::
      && 0 < at && at + 1 < dot && dot + 1 < |s|
      && s[at] == '@' && s[dot] == '.'
      && EmailCharsBetween(s, 0, at) && EmailCharsBetween(s, at + 1, dot)
      && WordCharsBetween(s, dot + 1, |s|)
  }

  /**
    The pattern `^[\w.-]+@[\w.-]+\.\w+$` under Python's `re.match`: anchored at
    the start, and `$` also matches just before one trailing newline.
   */
  ghost predicate MatchesEmailPattern(s: string)
  {
    || EmailShape(s)
    || (|s| > 0 && s[|s| - 1] == '\n' && EmailShape(s[..|s| - 1]))
  }

  /** Index of the first `c` in `s` at or after `from`, or `|s|` when there is none. */
  function IndexOf(s: string, c: char, from: nat): (r: nat)
    requires from <= |s|
    ensures from <= r <= |s|
    ensures r < |s| ==> s[r] == c
    ensures forall i :: from <= i < r ==> s[i] != c
    decreases |s| - from
  {
    if from == |s| then from
    else if s[from] == c then from
    else IndexOf(s, c, from + 1)
  }

  /** Index of the last `c` in `s[lo..hi]`, or `lo - 1` when there is none. */
  function LastIndexOf(s: string, c: char, lo: nat, hi: nat): (r: int)
    requires lo <= hi <= |s|
    ensures lo - 1 <= r < hi
    ensures r >= lo ==> s[r] == c
    ensures forall i :: r < i < hi ==> s[i] != c
    decreases hi - lo
  {
    if hi == lo then lo - 1
    else if s[hi - 1] == c then hi - 1
    else LastIndexOf(s, c, lo, hi - 1)
  }

  /**
    Decides EmailShape: the `@` must be the first one (the local part cannot
    hold another) and the separating dot the last one (the final run of word
    characters cannot hold a dot).
   */
  function HasEmailShape(s: string): (r: bool)
    ensures r <==> EmailShape(s)
  {
    var at := IndexOf(s, '@', 0);
    if at == 0 || at == |s| || !EmailCharsBetween(s, 0, at) then
      NoEmailShape(s, at);
      false
    else
      var dot := LastIndexOf(s, '.', at + 1, |s|);
      var ok := at + 1 < dot && dot + 1 < |s|
        && EmailCharsBetween(s, at + 1, dot) && WordCharsBetween(s, dot + 1, |s|);
      if ok then true
      else
        NoEmailShapeAfterAt(s, at, dot);
        false
  }

  /** An `@` preceded only by characters of `[\w.-]` is the first `@`. */
  lemma FirstAt(s: string, at: nat)
    requires at < |s| && s[at] == '@' && EmailCharsBetween(s, 0, at)
    ensures at == IndexOf(s, '@', 0)
  {
  }

  /** A dot followed only by word characters is the last dot. */
  lemma LastDot(s: string, lo: nat, dot: nat)
    requires lo <= dot < |s| && s[dot] == '.' && WordCharsBetween(s, dot + 1, |s|)
    ensures dot == LastIndexOf(s, '.', lo, |s|)
  {
  }

  lemma NoEmailShape(s: string, first: nat)
    requires first == IndexOf(s, '@', 0)
    requires first == 0 || first == |s| || !EmailCharsBetween(s, 0, first)
    ensures !EmailShape(s)
  {
    if EmailShape(s) {
      var at: nat, dot: nat :|
        && 0 < at && at + 1 < dot && dot + 1 < |s|
        && s[at] == '@' && s[dot] == '.'
        && EmailCharsBetween(s, 0, at) && EmailCharsBetween(s, at + 1, dot)
        && WordCharsBetween(s, dot + 1, |s|);
      FirstAt(s, at);
      assert false;
    }
  }

  lemma NoEmailShapeAfterAt(s: string, first: nat, last: int)
    requires first == IndexOf(s, '@', 0) && 0 < first < |s|
    requires last == LastIndexOf(s, '.', first + 1, |s|)
    requires !(first + 1 < last && last + 1 < |s|
      && EmailCharsBetween(s, first + 1, last) && WordCharsBetween(s, last + 1, |s|))
    ensures !EmailShape(s)
  {
    if EmailShape(s) {
      var at: nat, dot: nat :|
        && 0 < at && at + 1 < dot && dot + 1 < |s|
        && s[at] == '@' && s[dot] == '.'
        && EmailCharsBetween(s, 0, at) && EmailCharsBetween(s, at + 1, dot)
        && WordCharsBetween(s, dot + 1, |s|);
      FirstAt(s, at);
      LastDot(s, first + 1, dot);
      assert false;
    }
  }

  /** `is_valid_email`: the email format check of registration. */
  function IsValidEmail(s: string): (r: bool)
    ensures r <==> MatchesEmailPattern(s)
  {
    || HasEmailShape(s)
    || (|s| > 0 && s[|s| - 1] == '\n' && HasEmailShape(s[..|s| - 1]))
  }

  predicate IsAsciiUpper(c: char) { 'A' <= c <= 'Z' }
  predicate IsAsciiLower(c: char) { 'a' <= c <= 'z' }
  predicate IsAsciiDigit(c: char) { '0' <= c <= '9' }

  /** The class `[!@#$%^&*(),.?":{}|<>]` of the password rule. */
  predicate IsSymbol(c: char)
  {
    c in "!@#$%^&*(),.?\":{}|<>"
  }

  /** `re.search` for a one-character class: some character of `s` is in `cls`. */
  function Search(s: string, cls: char -> bool): (r: bool)
    ensures r <==> exists i :: 0 <= i < |s| && cls(s[i])
  {
    if s == [] then false
    else if cls(s[0]) then true
    else
      assert forall i :: 1 <= i < |s| ==> s[i] == s[1..][i - 1];
      Search(s[1..], cls)
  }

  ghost predicate Contains(s: string, cls: char -> bool)
  {
    exists i :: 0 <= i < |s| && cls(s[i])
  }

  /**
    `is_strong_password`: the early returns reject a password shorter than 8
    or missing an uppercase letter, a lowercase letter, a digit or a symbol.
   */
  function IsStrongPassword(p: string): (r: bool)
    ensures r <==> && |p| >= 8
                   && Contains(p, IsAsciiUpper) && Contains(p, IsAsciiLower)
                   && Contains(p, IsAsciiDigit) && Contains(p, IsSymbol)
  {
    if |p| < 8 then false
    else if !Search(p, IsAsciiUpper) then false
    else if !Search(p, IsAsciiLower) then false
    else if !Search(p, IsAsciiDigit) then false
    else if !Search(p, IsSymbol) then false
    else true
  }

  /** Passwords the repository's registration tests accept. */
  lemma StrongPasswordExamples()
    ensures IsStrongPassword("Strong@123")
    ensures IsStrongPassword("ValidPass123!")
  {
    var p := "Strong@123";
    assert IsAsciiUpper(p[0]) && IsAsciiLower(p[1]) && IsAsciiDigit(p[7]) && IsSymbol(p[6]);
    var q := "ValidPass123!";
    assert IsAsciiUpper(q[0]) && IsAsciiLower(q[1]) && IsAsciiDigit(q[9]) && IsSymbol(q[12]);
  }

  /** Passwords the repository's registration tests reject: too short, no uppercase letter, no symbol. */
  lemma WeakPasswordExamples()
    ensures !IsStrongPassword("abc")
    ensures !IsStrongPassword("strong@123")
    ensures !IsStrongPassword("Strong123")
  {
    var s := "strong@123";
    assert forall i :: 0 <= i < |s| ==> !IsAsciiUpper(s[i]);
    var t := "Strong123";
    assert forall i :: 0 <= i < |t| ==> t[i] in "Strong123";
    assert forall c :: c in "Strong123" ==> !IsSymbol(c);
  }

  lemma EmailExamples()
    ensures IsValidEmail("validuser@gmail.com")
    ensures !IsValidEmail("bademail")
    ensures !IsValidEmail("bobexample.com")
    ensures !IsValidEmail("invalidemail")
  {
    var v := "validuser@gmail.com";
    assert v[9] == '@' && v[15] == '.';
    assert EmailCharsBetween(v, 0, 9) && EmailCharsBetween(v, 10, 15) && WordCharsBetween(v, 16, |v|);
    assert EmailShape(v);
    var b := "bademail";
    assert forall i :: 0 <= i < |b| ==> b[i] != '@';
    var c := "bobexample.com";
    assert forall i :: 0 <= i < |c| ==> c[i] != '@';
    var d := "invalidemail";
    assert forall i :: 0 <= i < |d| ==> d[i] != '@';
  }
}
