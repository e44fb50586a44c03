/**
 The characters of a URL that the masking looks at: which texts it takes for credentials, and at
 which characters it gives up.
 */
module UrlForms {
  import opened Wrappers
  import opened Substitution
  import opened UrlMask

  predicate IsLetter(c: char) {
    'a' <= c <= 'z' || 'A' <= c <= 'Z'
  }

  /** A letter, then letters, digits, plus, minus or dots. */
  predicate IsScheme(s: string) {
    && s != "" && IsLetter(s[0])
    && forall i :: 0 <= i < |s| ==> IsLetter(s[i]) || '0' <= s[i] <= '9' || s[i] == '+' || s[i] == '-' || s[i] == '.'
  }

  predicate EndsUser(space: char -> bool, c: char) {
    c == '/' || c == '?' || c == '#' || c == '@' || space(c)
  }

  predicate IsUser(space: char -> bool, s: string) {
    forall i :: 0 <= i < |s| ==> s[i] != ':' && !EndsUser(space, s[i])
  }

  predicate IsSecret(space: char -> bool, s: string) {
    forall i :: 0 <= i < |s| ==> s[i] != '@' && !space(s[i])
  }

  /** Credentials in a URL lose their password, whatever user and password are and whatever follows. */
  lemma CredentialsAreMasked(space: char -> bool, scheme: string, user: string, password: string, rest: string)
    requires IsScheme(scheme) && IsUser(space, user) && user != "" && IsSecret(space, password) && password != ""
    ensures Mask(space, scheme + "://" + user + ":" + password + ['@'] + rest)
         == scheme + "://" + user + ":" + "***" + ['@'] + Mask(space, rest)
  {
    PortReadAsPassword(space, scheme, user, password, rest);
  }

  /** The text is a scheme, `://` and a tail. */
  predicate Splits(s: string, scheme: string, tail: string) {
    && |s| == |scheme| + 3 + |tail| && s[..|scheme|] == scheme && s[|scheme| + 3..] == tail
    && s[|scheme|] == ':' && s[|scheme| + 1] == '/' && s[|scheme| + 2] == '/'
  }

  lemma SplitsAtSlashes(scheme: string, tail: string)
    ensures Splits(scheme + "://" + tail, scheme, tail)
  {
  }

  lemma HeadAfterScheme(space: char -> bool, s: string, scheme: string, tail: string)
    requires IsScheme(scheme) && Splits(s, scheme, tail)
    ensures var u := Run(UserChars(space), tail);
            Head(space, s) == if u > 0 && u < |tail| && tail[u] == ':' then Some(|scheme| + 3 + u + 1) else None
  {
    var k := |scheme|;
    forall i | 0 <= i < k ensures InScheme(s[i]) {
      assert s[i] == s[..k][i];
    }
    RunIs(InScheme, s, k);
    assert s[0] == s[..k][0];
    HeadBySlashes(space, s, k, tail);
  }

  lemma UserRun(space: char -> bool, host: string, c: char, rest: string)
    requires IsUser(space, host) && EndsUser(space, c)
    ensures Run(UserChars(space), host + [c] + rest) == |host|
  {
    var tail := host + [c] + rest;
    assert tail[|host|] == c;
    RunIs(UserChars(space), tail, |host|);
  }

  /** A slash, question mark, number sign, `@` or white space before the colon: there is no user, and no match starts at the scheme. */
  lemma NoUserNoMatch(space: char -> bool, scheme: string, host: string, c: char, rest: string)
    requires IsScheme(scheme) && IsUser(space, host) && EndsUser(space, c) && c != ':'
    ensures MatchHere(space, scheme + "://" + (host + [c] + rest)) == None
  {
    UserRun(space, host, c, rest);
    SplitsAtSlashes(scheme, host + [c] + rest);
    HeadAfterScheme(space, scheme + "://" + (host + [c] + rest), scheme, host + [c] + rest);
  }

  /** White space before the `@`, or no `@` at all: there is no password. */
  lemma NoPasswordNoMatch(space: char -> bool, scheme: string, user: string, password: string, rest: string)
    requires IsScheme(scheme) && IsUser(space, user) && IsSecret(space, password)
    requires rest == "" || (space(rest[0]) && rest[0] != '@') || (password == "" && rest[0] == '@')
    ensures MatchHere(space, scheme + "://" + user + ":" + password + rest) == None
  {
    var s := scheme + "://" + user + ":" + (password + rest);
    assert s == scheme + "://" + user + ":" + password + rest;
    if user == "" {
      EmptyUser(space, scheme, password + rest);
      assert s == scheme + "://" + (":" + (password + rest));
    } else {
      HeadOfParts(space, scheme, user, password + rest);
      assert s[|scheme| + |user| + 4..] == password + rest;
      RunIs(PasswordChars(space), password + rest, |password|);
    }
  }

  lemma EmptyUser(space: char -> bool, scheme: string, y: string)
    requires IsScheme(scheme)
    ensures Head(space, scheme + "://" + (":" + y)) == None
  {
    RunIs(UserChars(space), ":" + y, 0);
    SplitsAtSlashes(scheme, ":" + y);
    HeadAfterScheme(space, scheme + "://" + (":" + y), scheme, ":" + y);
  }

  lemma SchemeGrows(scheme: string, c: char)
    requires IsScheme(scheme)
    ensures InScheme(c) ==> IsScheme(scheme + [c])
  {
  }

  /** Nothing but a scheme starts a match: no letter at the start, or another character than a scheme's before the colon. */
  lemma NoSchemeNoMatch(space: char -> bool, scheme: string, c: char, rest: string)
    requires c != ':' && if scheme == "" then !IsLetter(c) else IsScheme(scheme) && !IsScheme(scheme + [c])
    ensures MatchHere(space, scheme + [c] + rest) == None
  {
    var s := scheme + [c] + rest;
    if scheme != "" {
      SchemeGrows(scheme, c);
      RunIs(InScheme, s, |scheme|);
    }
  }
}
