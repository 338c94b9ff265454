/**
 * tiny/helpers.py: the `login_required` guard and the e-mail pattern, plus
 * the ObjectId rule behind `is_valid_object_id`.
 */
module Helpers {
  import opened Common

  /* ---------------------------------------------------------------- guard */

  /**
   * `login_required(view)`: with no `email` in the session the visitor is
   * sent to the login page with `next` set to the requested URL and the view
   * is not reached; otherwise the view's own answer is returned unchanged.
   */
  function LoginRequired(session: map<string, string>, requestUrl: string, view: () -> Response): (r: Response)
    ensures "email" !in session ==> r == Redirect(Endpoint("login", Some(requestUrl)), NoFlash)
    ensures "email" in session ==> r == view()
  {
    if "email" !in session then Redirect(Endpoint("login", Some(requestUrl)), NoFlash)
    else view()
  }

  /* ------------------------------------------------------ e-mail pattern */

  predicate IsAlnum(c: char)
  {
    'a' <= c <= 'z' || 'A' <= c <= 'Z' || '0' <= c <= '9'
  }

  /** `[a-zA-Z0-9_.+-]`: what may come before the '@'. */
  predicate IsLocalChar(c: char)
  {
    IsAlnum(c) || c == '_' || c == '.' || c == '+' || c == '-'
  }

  /** `[a-zA-Z0-9-]`: what may come between the '@' and the next '.'. */
  predicate IsLabelChar(c: char)
  {
    IsAlnum(c) || c == '-'
  }

  /** `[a-zA-Z0-9-.]`: what may come after that '.' (a literal '-' and a literal '.'). */
  predicate IsTailChar(c: char)
  {
    IsAlnum(c) || c == '-' || c == '.'
  }

  predicate AllChars(s: string, p: char -> bool)
  {
    forall k :: 0 <= k < |s| ==> p(s[k])
  }

  /**
   * `[a-zA-Z0-9_.+-]+@[a-zA-Z0-9-]+\.[a-zA-Z0-9-.]+` matches the whole of
   * `s` with its '@' at `i` and its '.' at `j`.
   */
  predicate SplitsAt(s: string, i: int, j: int)
  {
    && 0 < i && i + 1 < j && j + 1 < |s|
    && s[i] == '@' && s[j] == '.'
    && AllChars(s[..i], IsLocalChar)
    && AllChars(s[i + 1..j], IsLabelChar)
    && AllChars(s[j + 1..], IsTailChar)
  }

  /** The pattern matches the whole of `s` in some way. */
  ghost predicate PatternMatches(s: string)
  {
    exists i, j :: SplitsAt(s, i, j)
  }

  /** The position of the first `c` in `s`, or `|s|` if there is none. */
  function IndexOf(s: string, c: char): (k: nat)
    ensures k <= |s|
    ensures k < |s| ==> s[k] == c
    ensures forall m :: 0 <= m < k ==> s[m] != c
  {
    if s == [] then 0
    else if s[0] == c then 0
    else 1 + IndexOf(s[1..], c)
  }

  /** The '@' of a match is the first '@', and its '.' is the first '.' after it. */
  lemma SplitIsFirst(s: string, i: int, j: int)
    requires SplitsAt(s, i, j)
    ensures i == IndexOf(s, '@')
    ensures j == i + 1 + IndexOf(s[i + 1..], '.')
  {
    var t := s[i + 1..];
    assert t[j - i - 1] == s[j];
    assert forall m :: 0 <= m < i ==> s[..i][m] == s[m];
    assert forall m :: 0 <= m < j - i - 1 ==> s[i + 1..j][m] == t[m];
  }

  /**
   * The regex engine's left-to-right reading: take the first '@' and the
   * first '.' after it, then check the three runs of characters.
   */
  function MatchesWhole(s: string): (b: bool)
    ensures b <==> PatternMatches(s)
  {
    var i := IndexOf(s, '@');
    var j := if i < |s| then i + 1 + IndexOf(s[i + 1..], '.') else |s|;
    var b := SplitsAt(s, i, j);
    assert PatternMatches(s) ==> b by {
      if PatternMatches(s) {
        var i', j' :| SplitsAt(s, i', j');
        SplitIsFirst(s, i', j');
      }
    }
    b
  }

  /**
   * `is_valid_email`: `re.match` anchors the pattern at the start, and
   * Python's `$` matches at the end of the string or just before a newline
   * that ends it.
   */
  function IsValidEmail(email: string): (r: bool)
    ensures r <==> PatternMatches(email)
                   || (|email| > 0 && email[|email| - 1] == '\n' && PatternMatches(email[..|email| - 1]))
  {
    MatchesWhole(email) || (|email| > 0 && email[|email| - 1] == '\n' && MatchesWhole(email[..|email| - 1]))
  }

  /** Number of occurrences of `c` in `s`. */
  function Count(s: string, c: char): nat
  {
    if s == [] then 0 else (if s[0] == c then 1 else 0) + Count(s[1..], c)
  }

  lemma {:induction false} CountConcat(a: string, b: string, c: char)
    ensures Count(a + b, c) == Count(a, c) + Count(b, c)
  {
    if a != [] {
      assert (a + b)[1..] == a[1..] + b;
      CountConcat(a[1..], b, c);
    } else {
      assert a + b == b;
    }
  }

  lemma {:induction false} CountAbsent(s: string, c: char, p: char -> bool)
    requires AllChars(s, p) && !p(c)
    ensures Count(s, c) == 0
  {
    if s != [] {
      assert AllChars(s[1..], p) by {
        forall k | 0 <= k < |s| - 1 ensures p(s[1..][k]) {
          assert s[1..][k] == s[k + 1];
        }
      }
      CountAbsent(s[1..], c, p);
    }
  }

  /** A matched string has exactly one '@' and ends in a character the last run allows (never a newline). */
  lemma MatchShape(s: string, i: int, j: int)
    requires SplitsAt(s, i, j)
    ensures Count(s, '@') == 1
    ensures !IsTailChar('\n') && IsTailChar(s[|s| - 1])
  {
    assert s == s[..i] + [s[i]] + s[i + 1..j] + [s[j]] + s[j + 1..];
    CountConcat(s[..i] + [s[i]] + s[i + 1..j] + [s[j]], s[j + 1..], '@');
    CountConcat(s[..i] + [s[i]] + s[i + 1..j], [s[j]], '@');
    CountConcat(s[..i] + [s[i]], s[i + 1..j], '@');
    CountConcat(s[..i], [s[i]], '@');
    CountAbsent(s[..i], '@', IsLocalChar);
    CountAbsent(s[i + 1..j], '@', IsLabelChar);
    CountAbsent(s[j + 1..], '@', IsTailChar);
    assert s[j + 1..][|s| - j - 2] == s[|s| - 1];
  }

  /** A string ending in a newline never matches the pattern as a whole. */
  lemma NewlineEndNoMatch(s: string)
    requires |s| > 0 && s[|s| - 1] == '\n'
    ensures !PatternMatches(s)
  {
    if PatternMatches(s) {
      var i, j :| SplitsAt(s, i, j);
      MatchShape(s, i, j);
    }
  }

  /** The address part that the pattern matched: the string itself, or the string without the newline that ends it. */
  lemma AcceptedPart(email: string) returns (s: string)
    requires IsValidEmail(email)
    ensures PatternMatches(s)
    ensures email == s || email == s + "\n"
  {
    if PatternMatches(email) {
      s := email;
    } else {
      s := email[..|email| - 1];
      assert email == s + "\n";
    }
  }

  /** Every accepted address has exactly one '@' and a '.' after it. */
  lemma AcceptedShape(email: string)
    requires IsValidEmail(email)
    ensures Count(email, '@') == 1
    ensures exists k :: IndexOf(email, '@') < k < |email| && email[k] == '.'
  {
    var s := AcceptedPart(email);
    var i, j :| SplitsAt(s, i, j);
    MatchShape(s, i, j);
    SplitIsFirst(s, i, j);
    if s != email {
      CountConcat(s, "\n", '@');
      assert email[..|s|] == s;
      assert IndexOf(email, '@') == i;
    }
    assert email[j] == '.';
  }

  /** The empty string is rejected. */
  lemma EmptyRejected()
    ensures !IsValidEmail("")
  {
  }

  /**
   * One final newline is ignored: for a string that does not already end in
   * a newline, adding one changes nothing.
   */
  lemma TrailingNewlineIgnored(s: string)
    requires s == [] || s[|s| - 1] != '\n'
    ensures IsValidEmail(s + "\n") <==> IsValidEmail(s)
  {
    var t := s + "\n";
    assert t[..|t| - 1] == s;
    NewlineEndNoMatch(t);
    if s != [] {
      assert !(s[|s| - 1] == '\n');
    }
  }

  /** Only one newline is ignored: the unrestricted statement fails on this pair. */
  lemma SecondNewlineRejected()
    ensures IsValidEmail("a@b.c\n")
    ensures !IsValidEmail("a@b.c\n\n")
  {
    assert SplitsAt("a@b.c", 1, 3);
    assert ("a@b.c\n")[..5] == "a@b.c";
    assert ("a@b.c\n\n")[..6] == "a@b.c\n";
    NewlineEndNoMatch("a@b.c\n");
    NewlineEndNoMatch("a@b.c\n\n");
  }

  /* ------------------------------------------------------------ ObjectId */

  predicate IsHexDigit(c: char)
  {
    '0' <= c <= '9' || 'a' <= c <= 'f' || 'A' <= c <= 'F'
  }

  /**
   * `is_valid_object_id` and what `ObjectId(text)` accepts: exactly 24
   * hexadecimal digits.
   */
  predicate IsValidObjectId(s: string)
  {
    |s| == 24 && AllChars(s, IsHexDigit)
  }

  lemma ObjectIdSamples()
    ensures !IsValidObjectId("1")
    ensures IsValidObjectId("5a09bcdff3853517be67e293")
  {
  }
}
