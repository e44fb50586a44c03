/**
 Masking passwords in database URLs: one regular expression, substituted from left to right. At a
 given start the expression can match in one way only, because each of its runs ends at a character
 that the run itself excludes. White space is a parameter.
 */
module UrlMask {
  import opened Wrappers
  import opened Substitution

  function Run(p: char -> bool, s: string): (n: nat)
    ensures n <= |s|
  {
    if s != "" && p(s[0]) then 1 + Run(p, s[1..]) else 0
  }

  predicate IsAlpha(c: char) {
    'a' <= c <= 'z' || 'A' <= c <= 'Z'
  }

  predicate InScheme(c: char) {
    IsAlpha(c) || '0' <= c <= '9' || c == '+' || c == '-' || c == '.'
  }

  predicate InUser(space: char -> bool, c: char) {
    c != ':' && c != '/' && c != '?' && c != '#' && c != '@' && !space(c)
  }

  predicate InPassword(space: char -> bool, c: char) {
    c != '@' && !space(c)
  }

  function UserChars(space: char -> bool): char -> bool {
    (c: char) => InUser(space, c)
  }

  function PasswordChars(space: char -> bool): char -> bool {
    (c: char) => InPassword(space, c)
  }

  /** The length of `scheme://user:` at the start of `s`. */
  function Head(space: char -> bool, s: string): (k: Option<nat>)
    ensures k.Some? ==> 6 <= k.value <= |s|
  {
    if s == "" || !IsAlpha(s[0]) then None else
    var colon := Run(InScheme, s);
    if |s| < colon + 3 || s[colon] != ':' || s[colon + 1] != '/' || s[colon + 2] != '/' then None else
    var user := Run(UserChars(space), s[colon + 3..]);
    var k := colon + 3 + user;
    if user == 0 || |s| <= k || s[k] != ':' then None else Some(k + 1)
  }

  function PasswordLength(space: char -> bool, s: string): (n: nat)
    ensures n <= |s|
  {
    Run(PasswordChars(space), s)
  }

  /** The match that starts at the first character: password and `@` follow the head. */
  function MatchHere(space: char -> bool, s: string): (m: Option<Match>)
    ensures m.Some? ==>
      m.value.password > 0 && m.value.head + m.value.password < |s| && s[m.value.head + m.value.password] == '@'
  {
    match Head(space, s)
    case None => None
    case Some(k) =>
      var n := PasswordLength(space, s[k..]);
      if n == 0 || k + n >= |s| || s[k + n] != '@' then None else Some(Match(k, n))
  }

  function UrlPattern(space: char -> bool): Pattern {
    (s: string) => MatchHere(space, s)
  }

  function Mask(space: char -> bool, s: string): string {
    Masked(UrlPattern(space), s)
  }

  function MaskDbUrl(space: char -> bool, url: Option<string>): Option<string> {
    if url == None || url == Some("") then url else Some(Mask(space, url.value))
  }

  // ---------------------------------------------------------------------------
  // A match depends on nothing after its `@`
  // ---------------------------------------------------------------------------

  lemma {:induction false} RunShape(p: char -> bool, s: string)
    ensures var n := Run(p, s); (forall i :: 0 <= i < n ==> p(s[i])) && (n < |s| ==> !p(s[n]))
    decreases |s|
  {
    if s != "" && p(s[0]) {
      RunShape(p, s[1..]);
      var n := Run(p, s);
      forall i | 0 <= i < n ensures p(s[i]) {
        assert i > 0 ==> s[i] == s[1..][i - 1];
      }
      assert n < |s| ==> s[n] == s[1..][n - 1];
    }
  }

  lemma {:induction false} RunIs(p: char -> bool, s: string, n: nat)
    requires n <= |s| && (forall i :: 0 <= i < n ==> p(s[i])) && (n < |s| ==> !p(s[n]))
    ensures Run(p, s) == n
    decreases |s|
  {
    if n > 0 {
      assert p(s[0]);
      RunIs(p, s[1..], n - 1);
    }
  }

  /** A text that ends in a colon, with another colon well before it: what any head up to here has seen. */
  predicate Anchored(t: string) {
    |t| >= 4 && t[|t| - 1] == ':' && exists i :: 0 <= i < |t| - 3 && t[i] == ':'
  }

  lemma HeadStable(space: char -> bool, t: string, y: string)
    requires Anchored(t)
    ensures Head(space, t + y) == Head(space, t)
  {
    var i :| 0 <= i < |t| - 3 && t[i] == ':';
    RunStops(InScheme, t, y, i);
    var colon := Run(InScheme, t);
    assert (t + y)[..colon + 3] == t[..colon + 3];
    assert t[colon + 3..][|t| - 1 - (colon + 3)] == ':';
    RunStops(UserChars(space), t[colon + 3..], y, |t| - 1 - (colon + 3));
    assert (t + y)[colon + 3..] == t[colon + 3..] + y;
  }

  /** A run that meets a character it excludes does not see what comes later. */
  lemma RunStops(p: char -> bool, t: string, y: string, i: nat)
    requires i < |t| && !p(t[i])
    ensures Run(p, t) <= i && Run(p, t + y) == Run(p, t)
  {
    RunShape(p, t);
    RunIs(p, t + y, Run(p, t));
  }

  predicate IsPassword(space: char -> bool, p: string) {
    p != "" && forall i :: 0 <= i < |p| ==> InPassword(space, p[i])
  }

  /** Whether an anchored text begins a match does not depend on the password, nor on what follows it. */
  lemma MatchStable(space: char -> bool, t: string, p: string, rest: string, p': string, rest': string)
    requires Anchored(t) && IsPassword(space, p) && IsPassword(space, p')
    ensures MatchHere(space, t + p + ['@'] + rest).Some? <==> MatchHere(space, t + p' + ['@'] + rest').Some?
  {
    MatchOfAnchored(space, t, p, rest);
    MatchOfAnchored(space, t, p', rest');
  }

  lemma PasswordRun(space: char -> bool, w: string, p: string, rest: string)
    requires IsPassword(space, p)
    ensures var n := PasswordLength(space, w);
            PasswordLength(space, w + p + ['@'] + rest) == if n == |w| then |w| + |p| else n
  {
    var ok := PasswordChars(space);
    var n := Run(ok, w);
    RunShape(ok, w);
    RunIs(ok, w + p + ['@'] + rest, if n == |w| then |w| + |p| else n);
  }

  /** The password of an anchored match runs to an earlier `@`, or through the password to the `@` after it. */
  lemma MatchOfAnchored(space: char -> bool, t: string, p: string, rest: string)
    requires Anchored(t) && IsPassword(space, p)
    ensures MatchHere(space, t + p + ['@'] + rest)
         == match Head(space, t)
            case None => None
            case Some(k) =>
              var n := PasswordLength(space, t[k..]);
              if n == |t[k..]| then Some(Match(k, n + |p|))
              else if n > 0 && t[k + n] == '@' then Some(Match(k, n)) else None
  {
    var s := t + p + ['@'] + rest;
    assert s == t + (p + ['@'] + rest);
    HeadStable(space, t, p + ['@'] + rest);
    var head := Head(space, t);
    if head.Some? {
      assert s[head.value..] == t[head.value..] + p + ['@'] + rest;
      PasswordRun(space, t[head.value..], p, rest);
    }
  }

  lemma HeadIsAnchored(space: char -> bool, s: string)
    requires Head(space, s).Some?
    ensures var t := s[..Head(space, s).value]; Anchored(t) && Head(space, t) == Some(|t|)
  {
    var k := Head(space, s).value;
    var t := s[..k];
    var colon := Run(InScheme, s);
    assert t[colon] == ':';
    RunShape(InScheme, s);
    RunIs(InScheme, t, colon);
    var user := UserChars(space);
    RunShape(user, s[colon + 3..]);
    assert t[colon + 3..] == s[colon + 3..][..k - colon - 3];
    RunIs(user, t[colon + 3..], k - 1 - colon - 3);
  }

  // ---------------------------------------------------------------------------
  // Masking twice
  // ---------------------------------------------------------------------------

  lemma PasswordIs(space: char -> bool, s: string)
    requires MatchHere(space, s).Some?
    ensures var m := MatchHere(space, s).value;
            Head(space, s) == Some(m.head) && IsPassword(space, s[m.head..m.head + m.password])
  {
    var m := MatchHere(space, s).value;
    RunShape(PasswordChars(space), s[m.head..]);
    var p := s[m.head..m.head + m.password];
    forall i | 0 <= i < |p| ensures InPassword(space, p[i]) {
      assert p[i] == s[m.head..][i];
    }
  }

  lemma StarsMatch(space: char -> bool, s: string, rest: string)
    requires !space('*') && MatchHere(space, s).Some?
    ensures var m := MatchHere(space, s).value;
            MatchHere(space, WithStars(s, m, rest)) == Some(Match(m.head, 3))
  {
    HeadIsAnchored(space, s);
    MatchOfAnchored(space, s[..MatchHere(space, s).value.head], STARS, rest);
  }

  lemma AnchorsExtend(t: string, u: string)
    requires Anchored(u)
    ensures Anchored(t + u)
  {
    var i :| 0 <= i < |u| - 3 && u[i] == ':';
    assert (t + u)[|t| + i] == ':';
  }

  lemma StarsMakeNone(space: char -> bool, a: string, b: string, rest: string)
    requires !space('*') && MatchHere(space, a + b).None? && MatchHere(space, b).Some?
    ensures MatchHere(space, a + WithStars(b, MatchHere(space, b).value, rest)).None?
  {
    var m := MatchHere(space, b).value;
    HeadIsAnchored(space, b);
    PasswordIs(space, b);
    AnchorsExtend(a, b[..m.head]);
    NoneAfterStars(space, a, b[..m.head], b[m.head..m.head + m.password], b[m.head + m.password + 1..], b, rest);
    assert a + b[..m.head] + STARS + ['@'] + rest == a + WithStars(b, m, rest);
  }

  lemma NoneAfterStars(space: char -> bool, a: string, head: string, p: string, after: string, b: string, rest: string)
    requires !space('*') && Anchored(a + head) && IsPassword(space, p)
    requires b == head + p + ['@'] + after && MatchHere(space, a + b).None?
    ensures MatchHere(space, a + head + STARS + ['@'] + rest).None?
  {
    assert a + b == a + head + p + ['@'] + after;
    MatchStable(space, a + head, p, after, STARS, rest);
  }

  /** What the masking of URLs rests on: stars are read as a password, and nothing after `@` is read. */
  lemma UrlsKeepTheirMatches(space: char -> bool)
    requires !space('*')
    ensures KeepsMatches(UrlPattern(space)) && MakesNone(UrlPattern(space))
  {
    var find := UrlPattern(space);
    assert forall s :: Found(find, s) == MatchHere(space, s);
    forall s, rest | Found(find, s).Some?
      ensures Found(find, WithStars(s, Found(find, s).value, rest)) == Some(Match(Found(find, s).value.head, 3)) {
      StarsMatch(space, s, rest);
    }
    forall a, b, rest | a != "" && Found(find, a + b).None? && Found(find, b).Some?
      ensures Found(find, a + WithStars(b, Found(find, b).value, rest)).None? {
      StarsMakeNone(space, a, b, rest);
    }
  }

  /** Masking twice is masking once. */
  lemma MaskTwice(space: char -> bool, s: string)
    requires !space('*')
    ensures Mask(space, Mask(space, s)) == Mask(space, s)
  {
    UrlsKeepTheirMatches(space);
    MaskIdempotent(UrlPattern(space), s);
  }

  /** The result has the matches of the text, each with its password starred, and the same text around them. */
  lemma MaskedMatches(space: char -> bool, s: string)
    requires !space('*')
    ensures Join(Pieces(UrlPattern(space), s)) == s
    ensures Join(StarredAll(Pieces(UrlPattern(space), s))) == Mask(space, s)
    ensures Pieces(UrlPattern(space), Mask(space, s)) == StarredAll(Pieces(UrlPattern(space), s))
  {
    UrlsKeepTheirMatches(space);
    JoinOfPieces(UrlPattern(space), s);
    MaskIsJoin(UrlPattern(space), s);
    PiecesOfMask(UrlPattern(space), s);
  }

  // ---------------------------------------------------------------------------
  // No password is left, wherever one starts to read
  // ---------------------------------------------------------------------------

  predicate AllIn(p: char -> bool, s: string) {
    forall i :: 0 <= i < |s| ==> p(s[i])
  }

  /** The parts of a head: `scheme://user:`. */
  lemma HeadParts(space: char -> bool, s: string) returns (scheme: string, user: string)
    requires Head(space, s).Some?
    ensures AllIn(InScheme, scheme) && AllIn(UserChars(space), user) && user != "" && scheme != ""
    ensures s[..Head(space, s).value] == scheme + "://" + user + ":"
  {
    var colon := Run(InScheme, s);
    RunShape(InScheme, s);
    RunShape(UserChars(space), s[colon + 3..]);
    var k := Head(space, s).value;
    scheme, user := s[..colon], s[colon + 3..][..k - 1 - (colon + 3)];
  }

  lemma HeadBySlashes(space: char -> bool, s: string, k: nat, t: string)
    requires k + 3 <= |s| && Run(InScheme, s) == k && s[k] == ':' && s[k + 1] == '/' && s[k + 2] == '/' && s[k + 3..] == t
    ensures var u := Run(UserChars(space), t);
            Head(space, s) == if IsAlpha(s[0]) && u > 0 && u < |t| && t[u] == ':' then Some(k + 3 + u + 1) else None
  {
  }

  lemma SchemeRun(scheme: string, t: string)
    requires AllIn(InScheme, scheme)
    ensures var s, k := scheme + "://" + t, |scheme|;
            Run(InScheme, s) == k && s[k] == ':' && s[k + 1] == '/' && s[k + 2] == '/' && s[k + 3..] == t
  {
    RunIs(InScheme, scheme + "://" + t, |scheme|);
  }

  lemma HeadOfParts(space: char -> bool, scheme: string, user: string, y: string)
    requires AllIn(InScheme, scheme) && AllIn(UserChars(space), user) && user != ""
    ensures Head(space, scheme + "://" + user + ":" + y)
         == if scheme != "" && IsAlpha(scheme[0]) then Some(|scheme| + |user| + 4) else None
  {
    var tail := user + ":" + y;
    var s := scheme + "://" + tail;
    assert scheme + "://" + user + ":" + y == s;
    SchemeRun(scheme, tail);
    RunIs(UserChars(space), tail, |user|);
    HeadBySlashes(space, s, |scheme|, tail);
    assert s[0] == if scheme != "" then scheme[0] else ':';
  }

  /** Inside the slashes or the user there is no head: what follows the colon is not a slash. */
  lemma NoHeadInUser(space: char -> bool, u: string, y: string)
    requires (forall i :: 0 <= i < |u| ==> u[i] != ':') && y != "" && y[0] != '/'
    ensures Head(space, u + ":" + y) == None
  {
    var q := u + ":" + y;
    RunShape(InScheme, q);
    var r := Run(InScheme, q);
    assert q[|u|] == ':';
    assert r <= |u| by {
      assert !InScheme(q[|u|]);
    }
    assert r < |u| ==> q[r] == u[r];
    assert q[|u| + 1] == y[0];
  }

  /** What begins inside a starred match and is itself a head ends at the stars. */
  lemma StarsOnly(space: char -> bool, scheme: string, user: string, rest: string, a: string, b: string) returns (h: string)
    requires !space('*') && AllIn(InScheme, scheme) && AllIn(UserChars(space), user) && user != ""
    requires a + b == scheme + ("://" + user + ":" + (STARS + ['@'] + rest))
    requires |a| < |scheme| + |user| + 8 && Head(space, b).Some?
    ensures b == h + STARS + ['@'] + rest && Head(space, b) == Some(|h|)
  {
    var y := STARS + ['@'] + rest;
    var tail := "://" + user + ":" + y;
    h := "";
    if |a| <= |scheme| {
      SplitEarly(a, b, scheme, tail);
      var part := scheme[|a|..];
      h := part + "://" + user + ":";
      assert b == part + "://" + user + ":" + y;
      HeadOfParts(space, part, user, y);
      assert b == h + STARS + ['@'] + rest;
    } else {
      SplitLate(a, b, scheme, tail);
      NoMatchInTail(space, user, y, a[|scheme|..], b);
    }
  }

  lemma NoMatchInTail(space: char -> bool, user: string, y: string, a: string, b: string)
    requires AllIn(UserChars(space), user) && |y| >= 4 && forall i :: 0 <= i < 4 ==> y[i] in {'*', '@'}
    requires a + b == "://" + user + ":" + y && 0 < |a| < |user| + 8
    ensures Head(space, b) == None
  {
    var whole := "://" + user + ":" + y;
    assert whole == ("://" + user) + (":" + y);
    if |a| < 3 {
      assert b[0] == (a + b)[|a|] == whole[|a|] == '/';
    } else if |a| < 3 + |user| {
      SplitEarly(a, b, "://" + user, ":" + y);
      var part := user[|a| - 3..];
      assert b == part + ":" + y;
      forall i | 0 <= i < |part| ensures part[i] != ':' {
        assert UserChars(space)(user[|a| - 3 + i]);
      }
      NoHeadInUser(space, part, y);
    } else {
      assert b[0] == (a + b)[|a|] == whole[|a|];
    }
  }

  lemma HeadThenPassword(space: char -> bool, h: string, p: string, rest: string)
    requires IsPassword(space, p) && Head(space, h + p + ['@'] + rest) == Some(|h|)
    ensures MatchHere(space, h + p + ['@'] + rest) == Some(Match(|h|, |p|))
  {
    var s := h + p + ['@'] + rest;
    PasswordRun(space, "", p, rest);
    assert s[|h|..] == "" + p + ['@'] + rest;
  }

  lemma InsideAHead(space: char -> bool, s: string, k: nat, rest: string, a: string, b: string) returns (h: string)
    requires !space('*') && Head(space, s) == Some(k) && a + b == s[..k] + STARS + ['@'] + rest
    requires |a| < k + 4 && Head(space, b).Some?
    ensures b == h + STARS + ['@'] + rest && Head(space, b) == Some(|h|)
  {
    var scheme, user := HeadParts(space, s);
    assert s[..k] + STARS + ['@'] + rest == scheme + ("://" + user + ":" + (STARS + ['@'] + rest));
    h := StarsOnly(space, scheme, user, rest, a, b);
  }

  lemma ReadsStarsInside(space: char -> bool, s: string, k: nat, rest: string, a: string, b: string)
    requires !space('*') && Head(space, s) == Some(k) && a + b == s[..k] + STARS + ['@'] + rest && |a| < k + 4
    ensures StarsHere(UrlPattern(space), b)
  {
    if MatchHere(space, b).Some? {
      var h := InsideAHead(space, s, k, rest, a, b);
      HeadThenPassword(space, h, STARS, rest);
      assert b[|h|..|h| + 3] == STARS;
    }
  }

  lemma UrlsReadStarsInside(space: char -> bool)
    requires !space('*')
    ensures StarsInside(UrlPattern(space))
  {
    var find := UrlPattern(space);
    assert forall s :: Found(find, s) == MatchHere(space, s);
    forall s, rest, a, b | Found(find, s).Some? && a + b == WithStars(s, Found(find, s).value, rest)
                           && |a| < Found(find, s).value.head + 4
      ensures StarsHere(find, b) {
      ReadsStarsInside(space, s, Found(find, s).value.head, rest, a, b);
    }
  }

  /** Every match in a masked text, wherever it starts and whether or not the scan looks there, reads only stars. */
  lemma NoPasswordLeft(space: char -> bool, s: string)
    requires !space('*')
    ensures OnlyStars(UrlPattern(space), Mask(space, s))
  {
    UrlsKeepTheirMatches(space);
    UrlsReadStarsInside(space);
    assert MatchHere(space, "") == None;
    MaskLeavesOnlyStars(UrlPattern(space), s);
  }

  lemma MaskedFirst(space: char -> bool, h: string, p: string, rest: string)
    requires MatchHere(space, h + p + ['@'] + rest) == Some(Match(|h|, |p|))
    ensures Mask(space, h + p + ['@'] + rest) == h + STARS + ['@'] + Mask(space, rest)
  {
    var s := h + p + ['@'] + rest;
    assert Found(UrlPattern(space), s) == MatchHere(space, s);
    assert s[..|h|] == h && s[|h| + |p| + 1..] == rest;
  }

  /** After a port, an `@` reads as the end of a password, whatever comes before and after. */
  lemma PortReadAsPassword(space: char -> bool, scheme: string, host: string, p: string, rest: string)
    requires scheme != "" && IsAlpha(scheme[0]) && AllIn(InScheme, scheme) && AllIn(UserChars(space), host) && host != ""
    requires IsPassword(space, p)
    ensures Mask(space, scheme + "://" + host + ":" + p + ['@'] + rest)
         == scheme + "://" + host + ":" + STARS + ['@'] + Mask(space, rest)
  {
    var h := scheme + "://" + host + ":";
    HeadOfParts(space, scheme, host, p + ['@'] + rest);
    assert h + p + ['@'] + rest == h + (p + ['@'] + rest);
    HeadThenPassword(space, h, p, rest);
    MaskedFirst(space, h, p, rest);
  }

  // ---------------------------------------------------------------------------
  // Which URLs are left alone
  // ---------------------------------------------------------------------------

  predicate NoSlashes(s: string) {
    forall i :: 0 <= i < |s| - 1 && s[i] == '/' ==> s[i + 1] != '/'
  }

  /** A text without `//` is copied. */
  lemma {:induction false} NoSlashesCopied(space: char -> bool, s: string)
    requires NoSlashes(s)
    ensures Mask(space, s) == s
    decreases |s|
  {
    if s != "" {
      NoSlashesCopied(space, s[1..]);
      assert MatchHere(space, s) == None;
    }
  }

  /** Where the part of a URL after its scheme reads as `user:password@`: the lengths of the two. */
  function Credentials(space: char -> bool, t: string): (r: Option<(nat, nat)>)
    ensures r.Some? ==>
      var (u, n) := r.value; u > 0 && n > 0 && u + 1 + n < |t| && t[u] == ':' && t[u + 1 + n] == '@'
  {
    var u := Run(UserChars(space), t);
    if u == 0 || u >= |t| || t[u] != ':' then None else
    var n := PasswordLength(space, t[u + 1..]);
    if n == 0 || u + 1 + n >= |t| || t[u + 1 + n] != '@' then None else Some((u, n))
  }

  lemma MatchBySlashes(space: char -> bool, s: string, k: nat, t: string)
    requires k + 3 <= |s| && Run(InScheme, s) == k && s[k] == ':' && s[k + 1] == '/' && s[k + 2] == '/' && s[k + 3..] == t
    ensures var c := Credentials(space, t);
            MatchHere(space, s) == if IsAlpha(s[0]) && c.Some? then Some(Match(k + 3 + c.value.0 + 1, c.value.1)) else None
  {
    HeadBySlashes(space, s, k, t);
    var u := Run(UserChars(space), t);
    if Head(space, s).Some? {
      DropDrop(s, k + 3, u + 1);
      MatchAfterHead(space, s, k + 3 + u + 1, t[u + 1..]);
      CredentialsAfterUser(space, t, u, t[u + 1..]);
    } else {
      NoMatchWithoutHead(space, s);
    }
  }

  lemma MatchAfterHead(space: char -> bool, s: string, k: nat, w: string)
    requires Head(space, s) == Some(k) && k <= |s| && s[k..] == w
    ensures var n := PasswordLength(space, w);
            MatchHere(space, s) == if n == 0 || n >= |w| || w[n] != '@' then None else Some(Match(k, n))
  {
  }

  lemma NoMatchWithoutHead(space: char -> bool, s: string)
    requires Head(space, s) == None
    ensures MatchHere(space, s) == None
  {
  }

  lemma CredentialsAfterUser(space: char -> bool, t: string, u: nat, w: string)
    requires u == Run(UserChars(space), t) && 0 < u < |t| && t[u] == ':' && w == t[u + 1..]
    ensures var n := PasswordLength(space, w);
            Credentials(space, t) == if n == 0 || n >= |w| || w[n] != '@' then None else Some((u, n))
  {
  }

  lemma DropDrop(s: string, i: nat, j: nat)
    requires i + j <= |s|
    ensures s[i..][j..] == s[i + j..]
  {
  }

  lemma MatchOfUrl(space: char -> bool, scheme: string, t: string)
    requires AllIn(InScheme, scheme)
    ensures var c := Credentials(space, t);
            MatchHere(space, scheme + "://" + t)
              == if scheme != "" && IsAlpha(scheme[0]) && c.Some? then Some(Match(|scheme| + 3 + c.value.0 + 1, c.value.1)) else None
  {
    SchemeRun(scheme, t);
    var s := scheme + "://" + t;
    assert s[0] == if scheme != "" then scheme[0] else ':';
    MatchBySlashes(space, s, |scheme|, t);
  }

  lemma PlainFirst(space: char -> bool, c: char, rest: string)
    requires MatchHere(space, [c] + rest) == None
    ensures Mask(space, [c] + rest) == [c] + Mask(space, rest)
  {
    assert ([c] + rest)[1..] == rest;
  }

  lemma NoLetterFirst(space: char -> bool, c: char, rest: string)
    requires !IsAlpha(c)
    ensures Mask(space, [c] + rest) == [c] + Mask(space, rest)
  {
    PlainFirst(space, c, rest);
  }

  lemma SlashesFirst(t: string)
    ensures "://" + t == [':'] + (['/'] + (['/'] + t))
  {
  }

  lemma SlashesCopied(space: char -> bool, t: string)
    ensures Mask(space, "://" + t) == "://" + Mask(space, t)
  {
    NoLetterFirst(space, '/', t);
    NoLetterFirst(space, '/', ['/'] + t);
    NoLetterFirst(space, ':', ['/'] + (['/'] + t));
    SlashesFirst(t);
    SlashesFirst(Mask(space, t));
  }

  /** Without credentials a URL's scheme is copied, and what follows is masked on its own. */
  lemma {:induction false} UrlCopied(space: char -> bool, scheme: string, t: string)
    requires AllIn(InScheme, scheme) && Credentials(space, t).None?
    ensures Mask(space, scheme + "://" + t) == scheme + "://" + Mask(space, t)
    decreases |scheme|
  {
    if scheme == "" {
      SlashesCopied(space, t);
      assert scheme + "://" + t == "://" + t && scheme + "://" + Mask(space, t) == "://" + Mask(space, t);
    } else {
      UrlCopied(space, scheme[1..], t);
      MatchOfUrl(space, scheme, t);
      SchemeFirst(scheme, t);
      SchemeFirst(scheme, Mask(space, t));
      PlainFirst(space, scheme[0], scheme[1..] + "://" + t);
    }
  }

  lemma SchemeFirst(scheme: string, t: string)
    requires scheme != ""
    ensures scheme + "://" + t == [scheme[0]] + (scheme[1..] + "://" + t)
  {
  }

  lemma CredentialParts(space: char -> bool, t: string) returns (a: string, p: string, rest: string)
    requires Credentials(space, t).Some?
    ensures t == a + p + ['@'] + rest && Credentials(space, t) == Some((|a| - 1, |p|))
    ensures p == t[|a|..|a| + |p|] && rest == t[|a| + |p| + 1..]
  {
    var (u, n) := Credentials(space, t).value;
    a, p, rest := t[..u + 1], t[u + 1..u + 1 + n], t[u + 2 + n..];
  }

  /** Two texts that begin alike and go on to an `@` are equal exactly in both parts around it. */
  lemma SameAroundAt(h: string, p: string, rest: string, q: string, other: string)
    requires '@' !in p && '@' !in q
    ensures h + p + ['@'] + rest == h + q + ['@'] + other <==> p == q && rest == other
  {
    var x, y := h + p + ['@'] + rest, h + q + ['@'] + other;
    assert forall i :: 0 <= i < |p| ==> x[|h| + i] == p[i] && p[i] in p;
    assert forall i :: 0 <= i < |q| ==> y[|h| + i] == q[i] && q[i] in q;
    if x == y {
      assert x[|h| + |p|] == '@' && y[|h| + |q|] == '@';
      assert |p| == |q|;
      assert x[|h|..|h| + |p|] == p && y[|h|..|h| + |q|] == q;
      assert x[|h| + |p| + 1..] == rest && y[|h| + |q| + 1..] == other;
    }
  }

  lemma UrlParts(scheme: string, a: string, p: string, rest: string)
    ensures scheme + "://" + (a + p + ['@'] + rest) == (scheme + "://" + a) + p + ['@'] + rest
  {
  }

  /** A text that begins with a match is left alone exactly when its password is stars and the rest is left alone. */
  lemma ChangedExactly(space: char -> bool, s: string, h: string, p: string, rest: string)
    requires s == h + p + ['@'] + rest && MatchHere(space, s) == Some(Match(|h|, |p|))
    ensures Mask(space, s) == s <==> p == STARS && Mask(space, rest) == rest
  {
    MaskedFirst(space, h, p, rest);
    PasswordHasNoAt(space, s, h, p, rest);
    SameAroundAt(h, STARS, Mask(space, rest), p, rest);
  }

  lemma PasswordHasNoAt(space: char -> bool, s: string, h: string, p: string, rest: string)
    requires s == h + p + ['@'] + rest && MatchHere(space, s) == Some(Match(|h|, |p|))
    ensures '@' !in p
  {
    PasswordIs(space, s);
    assert s[|h|..|h| + |p|] == p;
  }

  lemma UrlChanged(space: char -> bool, scheme: string, t: string, a: string, p: string, rest: string)
    requires scheme != "" && IsAlpha(scheme[0]) && AllIn(InScheme, scheme)
    requires t == a + p + ['@'] + rest && Credentials(space, t) == Some((|a| - 1, |p|))
    ensures Mask(space, scheme + "://" + t) == scheme + "://" + t <==> p == STARS && Mask(space, rest) == rest
  {
    MatchOfUrl(space, scheme, t);
    UrlParts(scheme, a, p, rest);
    ChangedExactly(space, scheme + "://" + t, scheme + "://" + a, p, rest);
  }

  lemma SameTail(h: string, x: string, y: string)
    ensures h + x == h + y <==> x == y
  {
    assert (h + x)[|h|..] == x && (h + y)[|h|..] == y;
  }

  predicate LeftAlone(space: char -> bool, s: string) {
    MaskDbUrl(space, Some(s)) == Some(s)
  }

  lemma LeftAloneIs(space: char -> bool, s: string)
    ensures LeftAlone(space, s) <==> Mask(space, s) == s
  {
  }

  /** What follows a scheme: its credentials are stars already and `alone` holds of the rest, or it has none. */
  predicate Tail(space: char -> bool, alone: string -> bool, t: string) {
    match Credentials(space, t)
    case None => alone(t)
    case Some((u, n)) => t[u + 1..u + 1 + n] == STARS && alone(t[u + 2 + n..])
  }

  function Alone(space: char -> bool): string -> bool {
    (s: string) => LeftAlone(space, s)
  }

  /**
   Which URLs are left alone, exactly. One that does not read as `user:password@` after the scheme:
   if what follows the scheme is. One that does: if the password is stars already and what follows
   its `@` is left alone. A port is read as a password like any other text; what decides is an `@`
   before white space, wherever in the URL it stands. What has no `//` is always left alone.
   */
  lemma LeftAloneExactly(space: char -> bool, scheme: string, t: string)
    requires scheme != "" && IsAlpha(scheme[0]) && AllIn(InScheme, scheme)
    ensures LeftAlone(space, scheme + "://" + t) <==> Tail(space, Alone(space), t)
  {
    var c := Credentials(space, t);
    LeftAloneIs(space, scheme + "://" + t);
    if c.None? {
      LeftAloneIs(space, t);
      UrlCopied(space, scheme, t);
      SameTail(scheme + "://", Mask(space, t), t);
    } else {
      var a, p, rest := CredentialParts(space, t);
      LeftAloneIs(space, rest);
      UrlChanged(space, scheme, t, a, p, rest);
    }
  }

  /** What follows a host and a colon: a port, a password, and the rest. */
  predicate Port(space: char -> bool, alone: string -> bool, host: string, w: string) {
    var n := PasswordLength(space, w);
    if n == 0 || n == |w| || w[n] != '@' then alone(host + ":" + w) else w[..n] == STARS && alone(w[n + 1..])
  }

  lemma TailAfterHost(space: char -> bool, alone: string -> bool, host: string, w: string)
    requires host != "" && AllIn(UserChars(space), host)
    ensures Tail(space, alone, host + ":" + w) <==> Port(space, alone, host, w)
  {
    CredentialsAfterHost(space, host, w);
  }

  /** The instance the documentation has in mind: a host, a port or a password after it, and the rest. */
  lemma PortLeftAloneExactly(space: char -> bool, scheme: string, host: string, w: string)
    requires scheme != "" && IsAlpha(scheme[0]) && AllIn(InScheme, scheme) && host != "" && AllIn(UserChars(space), host)
    ensures LeftAlone(space, scheme + "://" + (host + ":" + w)) <==> Port(space, Alone(space), host, w)
  {
    LeftAloneExactly(space, scheme, host + ":" + w);
    TailAfterHost(space, Alone(space), host, w);
  }

  /** So with no other `//` it is left alone exactly if nothing, no `@`, or stars follow the colon. */
  lemma PortLeftAloneOnce(space: char -> bool, scheme: string, host: string, w: string)
    requires scheme != "" && IsAlpha(scheme[0]) && AllIn(InScheme, scheme)
    requires host != "" && AllIn(UserChars(space), host) && NoSlashes(w)
    ensures var n := PasswordLength(space, w);
            LeftAlone(space, scheme + "://" + (host + ":" + w)) <==> n == 0 || n == |w| || w[n] != '@' || w[..n] == STARS
  {
    var n := PasswordLength(space, w);
    PortLeftAloneExactly(space, scheme, host, w);
    HostHasNoSlashes(space, host, w);
    NoSlashesCopied(space, host + ":" + w);
    if n < |w| {
      assert w == w[..n + 1] + w[n + 1..];
      TailHasNoSlashes(w[..n + 1], w[n + 1..]);
      NoSlashesCopied(space, w[n + 1..]);
    }
  }

  lemma TailHasNoSlashes(front: string, rest: string)
    requires NoSlashes(front + rest)
    ensures NoSlashes(rest)
  {
    var t := front + rest;
    forall i | 0 <= i < |rest| - 1 && rest[i] == '/' ensures rest[i + 1] != '/' {
      assert t[|front| + i] == rest[i] && t[|front| + i + 1] == rest[i + 1];
    }
  }

  lemma HostHasNoSlashes(space: char -> bool, host: string, w: string)
    requires AllIn(UserChars(space), host) && NoSlashes(w)
    ensures NoSlashes(host + ":" + w)
  {
    var t := host + ":" + w;
    assert forall i :: 0 <= i < |host| ==> UserChars(space)(host[i]);
    assert forall i :: 0 <= i <= |host| ==> t[i] != '/';
    assert forall i :: |host| < i < |t| ==> t[i] == w[i - |host| - 1];
  }

  lemma CredentialsAfterHost(space: char -> bool, host: string, w: string)
    requires host != "" && AllIn(UserChars(space), host)
    ensures var t, n := host + ":" + w, PasswordLength(space, w);
            && Credentials(space, t) == (if n == 0 || n == |w| || w[n] != '@' then None else Some((|host|, n)))
            && t[|host| + 1..|host| + 1 + n] == w[..n]
            && (n < |w| ==> t[|host| + 2 + n..] == w[n + 1..])
  {
    var t := host + ":" + w;
    RunIs(UserChars(space), t, |host|);
    assert t[|host| + 1..] == w;
    CredentialsAfterUser(space, t, |host|, w);
  }

  // ---------------------------------------------------------------------------
  // The expression itself
  // ---------------------------------------------------------------------------

  /** The regular expression matches at the start of `s`, its groups reading as given. */
  predicate Reads(space: char -> bool, s: string, scheme: string, user: string, p: string) {
    && scheme != "" && IsAlpha(scheme[0]) && AllIn(InScheme, scheme)
    && user != "" && AllIn(UserChars(space), user)
    && IsPassword(space, p)
    && scheme + "://" + user + ":" + p + ['@'] <= s
  }

  /** However the expression matches at a start, it matches as the deterministic reader does. */
  lemma OneReading(space: char -> bool, s: string, scheme: string, user: string, p: string)
    requires Reads(space, s, scheme, user, p)
    ensures MatchHere(space, s) == Some(Match(|scheme| + |user| + 4, |p|))
  {
    var h := scheme + "://" + user + ":";
    var rest := s[|h| + |p| + 1..];
    assert s == h + p + ['@'] + rest;
    HeadOfParts(space, scheme, user, p + ['@'] + rest);
    assert s == h + (p + ['@'] + rest);
    HeadThenPassword(space, h, p, rest);
  }

  /** And where the reader finds a match, the expression has one. */
  lemma ReadingOfMatch(space: char -> bool, s: string) returns (scheme: string, user: string, p: string)
    requires MatchHere(space, s).Some?
    ensures Reads(space, s, scheme, user, p)
  {
    var m := MatchHere(space, s).value;
    scheme, user := HeadParts(space, s);
    p := s[m.head..m.head + m.password];
    PasswordIs(space, s);
    FirstIsAlpha(space, s, scheme, user);
    assert scheme + "://" + user + ":" + p + ['@'] == s[..m.head + m.password + 1];
  }

  lemma FirstIsAlpha(space: char -> bool, s: string, scheme: string, user: string)
    requires Head(space, s).Some? && scheme != "" && s[..Head(space, s).value] == scheme + "://" + user + ":"
    ensures IsAlpha(scheme[0])
  {
    assert s[0] == s[..Head(space, s).value][0];
  }

  /** Every reading of the expression, anywhere in the text, has stars for its password. */
  ghost predicate ReadsOnlyStars(space: char -> bool, s: string) {
    forall a, b, scheme, user, p :: s == a + b && Reads(space, b, scheme, user, p) ==> p == STARS
  }

  lemma StarsHereByReading(space: char -> bool, b: string)
    ensures StarsHere(UrlPattern(space), b) <==> forall scheme, user, p :: Reads(space, b, scheme, user, p) ==> p == STARS
  {
    assert Found(UrlPattern(space), b) == MatchHere(space, b);
    forall scheme, user, p | Reads(space, b, scheme, user, p)
      ensures MatchHere(space, b).Some? &&
              var m := MatchHere(space, b).value; b[m.head..m.head + m.password] == p {
      OneReading(space, b, scheme, user, p);
      var h := scheme + "://" + user + ":";
      assert h + p <= b && (h + p)[|h|..] == p;
    }
    if MatchHere(space, b).Some? {
      var scheme, user, p := ReadingOfMatch(space, b);
    }
  }

  /** Any text is left alone exactly when every reading of the expression in it, wherever it starts, has stars already. */
  lemma AnyTextLeftAloneExactly(space: char -> bool, s: string)
    requires !space('*')
    ensures LeftAlone(space, s) <==> ReadsOnlyStars(space, s)
  {
    LeftAloneIs(space, s);
    UrlsKeepTheirMatches(space);
    UrlsReadStarsInside(space);
    assert MatchHere(space, "") == None;
    UnchangedByMatches(UrlPattern(space), s);
    forall a, b | s == a + b
      ensures StarsHere(UrlPattern(space), b) <==> forall scheme, user, p :: Reads(space, b, scheme, user, p) ==> p == STARS {
      StarsHereByReading(space, b);
    }
  }
}
