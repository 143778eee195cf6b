/** The form validators of the application (app.js:88-124). Each regular expression is
    written as a predicate over characters; strings are sequences of Unicode scalar
    values, and `length` is counted in UTF-16 code units as JavaScript counts it. */
module Validators {

  // ---------------------------------------------------------------------------
  // Character classes of the regular expressions

  predicate IsUpper(c: char) { 'A' <= c <= 'Z' }

  predicate IsLower(c: char) { 'a' <= c <= 'z' }

  /** `\d`: the ASCII digits only. */
  predicate IsDigit(c: char) { '0' <= c <= '9' }

  /** The bracket class `[!@#$%^&*()_+{}\[\]:;<>,.?~\\\/-]` of the password rule. */
  predicate IsSpecial(c: char) { c in "!@#$%^&*()_+{}[]:;<>,.?~\\/-" }

  /** `\s` in ECMAScript: the white-space and line-terminator code points. */
  predicate IsWhitespace(c: char)
  {
    || c == '\t' || c == '\n' || c == '\U{000B}' || c == '\U{000C}' || c == '\r' || c == ' '
    || c == '\U{00A0}' || c == '\U{1680}' || ('\U{2000}' <= c <= '\U{200A}')
    || c == '\U{2028}' || c == '\U{2029}' || c == '\U{202F}' || c == '\U{205F}'
    || c == '\U{3000}' || c == '\U{FEFF}'
  }

  /** `[a-zA-Z ]`. */
  predicate IsNameChar(c: char) { IsUpper(c) || IsLower(c) || c == ' ' }

  /** `[^\s@]`. */
  predicate IsEmailChar(c: char) { !IsWhitespace(c) && c != '@' }

  // ---------------------------------------------------------------------------
  // isValidFullname: /^[a-zA-Z ]+$/

  /** One or more name characters and nothing else, matched left to right as `+` does. */
  function IsValidFullname(fullname: string): (ok: bool)
    ensures ok <==> |fullname| > 0 && forall i :: 0 <= i < |fullname| ==> IsNameChar(fullname[i])
  {
    |fullname| > 0 && IsNameChar(fullname[0]) && (|fullname| == 1 || IsValidFullname(fullname[1..]))
  }

  // ---------------------------------------------------------------------------
  // isValidEmail: /^[^\s@]+@[^\s@]+\.[^\s@]+$/

  /** One or more characters of `[^\s@]`. */
  ghost predicate EmailRun(s: string)
  {
    |s| > 0 && forall i :: 0 <= i < |s| ==> IsEmailChar(s[i])
  }

  /** The string splits as `local @ host . tld` with each part a run of `[^\s@]`. */
  ghost predicate EmailSplit(s: string, local: string, host: string, tld: string)
  {
    s == local + "@" + host + "." + tld && EmailRun(local) && EmailRun(host) && EmailRun(tld)
  }

  /** What the regular expression accepts: some way of splitting the whole string. */
  ghost predicate EmailPatternMatches(s: string)
  {
    exists local, host, tld :: EmailSplit(s, local, host, tld)
  }

  /** The email check, decided by position: no white space anywhere, exactly one '@',
      not in first position, and after it a '.' that has text on both of its sides. */
  function IsValidEmail(email: string): (ok: bool)
  {
    && (forall k :: 0 <= k < |email| ==> !IsWhitespace(email[k]))
    && exists i :: 0 < i < |email| && email[i] == '@'
         && (forall k :: 0 <= k < |email| && k != i ==> email[k] != '@')
         && exists j :: i + 1 < j < |email| - 1 && email[j] == '.'
  }

  /** The positional check accepts exactly the strings the regular expression matches. */
  lemma EmailCheckMatchesPattern(s: string)
    ensures IsValidEmail(s) <==> EmailPatternMatches(s)
  {
    if IsValidEmail(s) {
      var i :| 0 < i < |s| && s[i] == '@'
        && (forall k :: 0 <= k < |s| && k != i ==> s[k] != '@')
        && exists j :: i + 1 < j < |s| - 1 && s[j] == '.';
      var j :| i + 1 < j < |s| - 1 && s[j] == '.';
      var local, host, tld := s[..i], s[i + 1..j], s[j + 1..];
      assert s == local + "@" + host + "." + tld;
      assert EmailRun(local) by {
        forall k | 0 <= k < |local| ensures IsEmailChar(local[k]) {
          assert local[k] == s[k];
        }
      }
      assert EmailRun(tld) by {
        forall k | 0 <= k < |tld| ensures IsEmailChar(tld[k]) {
          assert tld[k] == s[j + 1 + k];
        }
      }
      assert EmailRun(host) by {
        forall k | 0 <= k < |host| ensures IsEmailChar(host[k]) {
          assert host[k] == s[i + 1 + k];
        }
      }
      assert EmailSplit(s, local, host, tld);
    }
    if EmailPatternMatches(s) {
      var local, host, tld :| EmailSplit(s, local, host, tld);
      var i, j := |local|, |local| + 1 + |host|;
      forall k | 0 <= k < |s| && k != i && k != j ensures IsEmailChar(s[k]) {
        if k < i {
          assert s[k] == local[k];
        } else if k < j {
          assert s[k] == host[k - i - 1];
        } else {
          assert s[k] == tld[k - j - 1];
        }
      }
      assert s[i] == '@' && s[j] == '.';
      assert i + 1 < j < |s| - 1;
      assert IsValidEmail(s);
    }
  }

  // ---------------------------------------------------------------------------
  // isValidPhoneNumber: phoneno.replace(/\D/g, "").length === 10

  /** `s.replace(/\D/g, "")`: the digits of `s`, in order. */
  function DigitsOnly(s: string): (r: string)
    ensures |r| <= |s|
    ensures forall k :: 0 <= k < |r| ==> IsDigit(r[k])
  {
    if s == [] then []
    else DigitsOnly(s[..|s| - 1]) + (if IsDigit(s[|s| - 1]) then [s[|s| - 1]] else [])
  }

  /** The positions of `s` that hold a digit. */
  ghost function DigitPositions(s: string): set<nat>
  {
    set k: nat | k < |s| && IsDigit(s[k])
  }

  /** Dropping the non-digits keeps one character per digit position. */
  lemma {:induction false} DigitsOnlyCount(s: string)
    ensures |DigitsOnly(s)| == |DigitPositions(s)|
  {
    if s != [] {
      var n := |s| - 1;
      var init := s[..n];
      DigitsOnlyCount(init);
      var extra: set<nat> := if IsDigit(s[n]) then {n} else {};
      assert DigitPositions(s) == DigitPositions(init) + extra by {
        forall k: nat | k < |s| ensures k in DigitPositions(s) <==> k in DigitPositions(init) + extra {
          if k < n { assert s[k] == init[k]; }
        }
      }
      assert n !in DigitPositions(init);
    }
  }

  /** A phone number is valid when exactly ten of its characters are digits, whatever
      separators surround them. */
  function IsValidPhoneNumber(phoneno: string): (ok: bool)
    ensures ok <==> |DigitPositions(phoneno)| == 10
  {
    DigitsOnlyCount(phoneno);
    |DigitsOnly(phoneno)| == 10
  }

  // ---------------------------------------------------------------------------
  // isValidPassword and isValidPasswordAndConfirmation

  const MinPasswordLength: nat := 8

  /** UTF-16 code units needed for one character: two above the Basic Multilingual Plane. */
  function CodeUnits(c: char): nat { if c as int >= 0x1_0000 then 2 else 1 }

  /** JavaScript's `s.length`. */
  function CodeUnitLength(s: string): (n: nat)
    ensures |s| <= n <= 2 * |s|
  {
    if s == [] then 0 else CodeUnitLength(s[..|s| - 1]) + CodeUnits(s[|s| - 1])
  }

  /** The four single-class regular expressions of the password rule. */
  datatype CharClass = Uppercase | Lowercase | Digit | Special

  predicate InClass(c: char, k: CharClass)
  {
    match k
    case Uppercase => IsUpper(c)
    case Lowercase => IsLower(c)
    case Digit => IsDigit(c)
    case Special => IsSpecial(c)
  }

  /** `/[...]/.test(s)`: some character of `s` is in the class. */
  function Test(k: CharClass, s: string): (found: bool)
    ensures found <==> exists i :: 0 <= i < |s| && InClass(s[i], k)
  {
    if s == [] then false
    else InClass(s[0], k) || (assert forall i :: 0 < i < |s| ==> s[i] == s[1..][i - 1]; Test(k, s[1..]))
  }

  /** At least eight code units, and an upper-case letter, a lower-case letter, a digit
      and one of the listed special characters somewhere in the password. */
  function IsValidPassword(password: string): (ok: bool)
    ensures ok <==> CodeUnitLength(password) >= MinPasswordLength
                    && (exists i :: 0 <= i < |password| && IsUpper(password[i]))
                    && (exists i :: 0 <= i < |password| && IsLower(password[i]))
                    && (exists i :: 0 <= i < |password| && IsDigit(password[i]))
                    && (exists i :: 0 <= i < |password| && IsSpecial(password[i]))
  {
    if CodeUnitLength(password) < MinPasswordLength then false
    else Test(Uppercase, password) && Test(Lowercase, password) && Test(Digit, password) && Test(Special, password)
  }

  /** The password meets the rule and the confirmation is the same string. */
  function IsValidPasswordAndConfirmation(password: string, password1: string): (ok: bool)
    ensures ok <==> CodeUnitLength(password) >= MinPasswordLength
                    && (exists i :: 0 <= i < |password| && IsUpper(password[i]))
                    && (exists i :: 0 <= i < |password| && IsLower(password[i]))
                    && (exists i :: 0 <= i < |password| && IsDigit(password[i]))
                    && (exists i :: 0 <= i < |password| && IsSpecial(password[i]))
                    && password == password1
  {
    IsValidPassword(password) && password == password1
  }

  /** The minimum is on code units, not characters: six characters, two of them outside
      the Basic Multilingual Plane, already pass. */
  lemma ShortAstralPasswordPasses()
    ensures IsValidPassword("Aa1!\U{1F600}\U{1F600}")
  {
  }
}
