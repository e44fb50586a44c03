/**
 Substituting stars for the password in every match of a pattern, from left to right and without
 overlap. The pattern says what matches at the start of a text: a head, then a password before `@`.
 */
module Substitution {
  import opened Wrappers

  datatype Match = Match(head: nat, password: nat)

  type Pattern = string -> Option<Match>

  const STARS := "***"

  /** The match at the start of `s`. */
  function Found(find: Pattern, s: string): (m: Option<Match>)
    ensures m.Some? ==> m.value.head + m.value.password < |s| && s[m.value.head + m.value.password] == '@'
  {
    var m := find(s);
    if m.Some? && m.value.head + m.value.password < |s| && s[m.value.head + m.value.password] == '@' then m else None
  }

  function Masked(find: Pattern, s: string): string
    decreases |s|
  {
    if s == "" then "" else
    match Found(find, s)
    case None => [s[0]] + Masked(find, s[1..])
    case Some(m) => s[..m.head] + STARS + ['@'] + Masked(find, s[m.head + m.password + 1..])
  }

  /** A text is plain characters and matches, the latter as a head and a password before its `@`. */
  datatype Piece = Plain(c: char) | Secret(head: string, password: string)

  /** What the scan sees. */
  function Pieces(find: Pattern, s: string): seq<Piece>
    decreases |s|
  {
    if s == "" then [] else
    match Found(find, s)
    case None => [Plain(s[0])] + Pieces(find, s[1..])
    case Some(m) =>
      [Secret(s[..m.head], s[m.head..m.head + m.password])] + Pieces(find, s[m.head + m.password + 1..])
  }

  function Text(p: Piece): string {
    match p
    case Plain(c) => [c]
    case Secret(head, password) => head + password + ['@']
  }

  function Join(pieces: seq<Piece>): string {
    if pieces == [] then "" else Text(pieces[0]) + Join(pieces[1..])
  }

  function Starred(p: Piece): Piece {
    if p.Secret? then p.(password := STARS) else p
  }

  function StarredAll(pieces: seq<Piece>): seq<Piece> {
    seq(|pieces|, i requires 0 <= i < |pieces| => Starred(pieces[i]))
  }

  lemma JoinFirst(p: Piece, rest: seq<Piece>)
    ensures Join([p] + rest) == Text(p) + Join(rest)
  {
    assert ([p] + rest)[1..] == rest;
  }

  /** The pieces are the text. */
  lemma {:induction false} JoinOfPieces(find: Pattern, s: string)
    ensures Join(Pieces(find, s)) == s
    decreases |s|
  {
    if s != "" {
      var m := Found(find, s);
      if m.None? {
        JoinOfPieces(find, s[1..]);
        JoinFirst(Plain(s[0]), Pieces(find, s[1..]));
      } else {
        var k, end := m.value.head, m.value.head + m.value.password;
        JoinOfPieces(find, s[end + 1..]);
        JoinFirst(Secret(s[..k], s[k..end]), Pieces(find, s[end + 1..]));
        assert s == s[..k] + s[k..end] + ['@'] + s[end + 1..];
      }
    }
  }

  lemma StarredFirst(p: Piece, rest: seq<Piece>)
    ensures StarredAll([p] + rest) == [Starred(p)] + StarredAll(rest)
    ensures Join(StarredAll([p] + rest)) == Text(Starred(p)) + Join(StarredAll(rest))
  {
    assert StarredAll([p] + rest)[1..] == StarredAll(rest);
  }

  /** Masking replaces the passwords of the matches and nothing else. */
  lemma {:induction false} MaskIsJoin(find: Pattern, s: string)
    ensures Masked(find, s) == Join(StarredAll(Pieces(find, s)))
    decreases |s|
  {
    if s != "" {
      var m := Found(find, s);
      if m.None? {
        MaskIsJoin(find, s[1..]);
        StarredFirst(Plain(s[0]), Pieces(find, s[1..]));
      } else {
        var k, end := m.value.head, m.value.head + m.value.password;
        MaskIsJoin(find, s[end + 1..]);
        StarredFirst(Secret(s[..k], s[k..end]), Pieces(find, s[end + 1..]));
      }
    }
  }

  /** The text that begins with a match, its password starred and a new remainder after the `@`. */
  function WithStars(s: string, m: Match, rest: string): string
    requires m.head <= |s|
  {
    s[..m.head] + STARS + ['@'] + rest
  }

  /** Starring the password of a match leaves a match, whatever comes after its `@`. */
  ghost predicate KeepsMatches(find: Pattern) {
    forall s, rest :: Found(find, s).Some? ==>
      var m := Found(find, s).value;
      Found(find, WithStars(s, m, rest)) == Some(Match(m.head, 3))
  }

  /** Starring the password of a later match makes none here. */
  ghost predicate MakesNone(find: Pattern) {
    forall a, b, rest :: a != "" && Found(find, a + b).None? && Found(find, b).Some? ==>
      Found(find, a + WithStars(b, Found(find, b).value, rest)).None?
  }

  /** Up to its first match a text is copied. */
  lemma {:induction false} MaskShape(find: Pattern, u: string) returns (a: string, b: string)
    ensures u == a + b && (b == "" || Found(find, b).Some?)
    ensures Masked(find, u) == a + Masked(find, b)
    decreases |u|
  {
    if u == "" || Found(find, u).Some? {
      a, b := "", u;
    } else {
      var a', b' := MaskShape(find, u[1..]);
      a, b := [u[0]] + a', b';
      assert [u[0]] + (a' + b) == a + b;
      assert [u[0]] + (a' + Masked(find, b)) == a + Masked(find, b);
    }
  }

  lemma NoNewMatch(find: Pattern, s: string)
    requires MakesNone(find) && s != "" && Found(find, s).None?
    ensures Found(find, [s[0]] + Masked(find, s[1..])).None?
  {
    var a, b := MaskShape(find, s[1..]);
    var whole := [s[0]] + a;
    assert whole + b == s && [s[0]] + Masked(find, s[1..]) == whole + Masked(find, b);
    if b != "" {
      var m := Found(find, b).value;
      assert Masked(find, b) == WithStars(b, m, Masked(find, b[m.head + m.password + 1..]));
    }
  }

  /** The scan of a masked text sees the same pieces, every password starred. */
  lemma {:induction false} PiecesOfMask(find: Pattern, s: string)
    requires KeepsMatches(find) && MakesNone(find)
    ensures Pieces(find, Masked(find, s)) == StarredAll(Pieces(find, s))
    decreases |s|
  {
    if s != "" {
      var m := Found(find, s);
      var masked := Masked(find, s);
      if m.None? {
        PiecesOfMask(find, s[1..]);
        NoNewMatch(find, s);
        assert masked[1..] == Masked(find, s[1..]);
        StarredFirst(Plain(s[0]), Pieces(find, s[1..]));
      } else {
        var k, end := m.value.head, m.value.head + m.value.password;
        PiecesOfMask(find, s[end + 1..]);
        PiecesOfStars(find, s, Masked(find, s[end + 1..]));
        StarredFirst(Secret(s[..k], s[k..end]), Pieces(find, s[end + 1..]));
      }
    }
  }

  lemma PiecesOfStars(find: Pattern, s: string, rest: string)
    requires KeepsMatches(find) && Found(find, s).Some?
    ensures var m := Found(find, s).value;
            Pieces(find, WithStars(s, m, rest)) == [Secret(s[..m.head], STARS)] + Pieces(find, rest)
  {
    var k := Found(find, s).value.head;
    var masked := WithStars(s, Found(find, s).value, rest);
    assert Found(find, masked) == Some(Match(k, 3));
    assert masked[..k] == s[..k] && masked[k..k + 3] == STARS && masked[k + 4..] == rest;
  }

  lemma MaskIdempotent(find: Pattern, s: string)
    requires KeepsMatches(find) && MakesNone(find)
    ensures Masked(find, Masked(find, s)) == Masked(find, s)
  {
    PiecesOfMask(find, s);
    MaskIsJoin(find, s);
    MaskIsJoin(find, Masked(find, s));
    var pieces := StarredAll(Pieces(find, s));
    assert StarredAll(pieces) == pieces;
  }

  /** A text is left alone exactly when every password the scan sees is stars already. */
  lemma UnchangedExactly(find: Pattern, s: string)
    requires KeepsMatches(find) && MakesNone(find)
    ensures Masked(find, s) == s <==> forall p :: p in Pieces(find, s) && p.Secret? ==> p.password == STARS
  {
    var pieces := Pieces(find, s);
    PiecesOfMask(find, s);
    MaskIsJoin(find, s);
    JoinOfPieces(find, s);
    if forall p :: p in pieces && p.Secret? ==> p.password == STARS {
      forall i | 0 <= i < |pieces| ensures Starred(pieces[i]) == pieces[i] {
        assert pieces[i] in pieces;
      }
      assert StarredAll(pieces) == pieces;
    } else {
      var p :| p in pieces && p.Secret? && p.password != STARS;
      var i :| 0 <= i < |pieces| && pieces[i] == p;
      assert StarredAll(pieces)[i] != pieces[i];
    }
  }

  // ---------------------------------------------------------------------------
  // Matches at every position, also where the scan does not look
  // ---------------------------------------------------------------------------

  /** A match at the start of `s`, if there is one, has stars for its password. */
  predicate StarsHere(find: Pattern, s: string) {
    Found(find, s).Some? ==> var m := Found(find, s).value; s[m.head..m.head + m.password] == STARS
  }

  ghost predicate OnlyStars(find: Pattern, t: string) {
    forall a, b :: t == a + b ==> StarsHere(find, b)
  }

  /** No match that begins inside a starred match reads anything but the stars. */
  ghost predicate StarsInside(find: Pattern) {
    forall s, rest, a, b :: Found(find, s).Some? && a + b == WithStars(s, Found(find, s).value, rest)
                            && |a| < Found(find, s).value.head + 4 ==>
      StarsHere(find, b)
  }

  lemma SplitLate(a: string, b: string, front: string, t: string)
    requires a + b == front + t && |a| >= |front|
    ensures t == a[|front|..] + b
  {
    assert (front + t)[|front|..] == t;
    assert (a + b)[|front|..] == a[|front|..] + b;
  }

  lemma SplitEarly(a: string, b: string, front: string, t: string)
    requires a + b == front + t && |a| <= |front|
    ensures b == front[|a|..] + t
  {
    assert (a + b)[|a|..] == b;
    assert (front + t)[|a|..] == front[|a|..] + t;
  }

  lemma OnlyStarsAfter(find: Pattern, front: string, t: string)
    requires OnlyStars(find, t)
    requires forall a, b :: a + b == front + t && |a| < |front| ==> StarsHere(find, b)
    ensures OnlyStars(find, front + t)
  {
    forall a, b | front + t == a + b ensures StarsHere(find, b) {
      if |a| >= |front| {
        SplitLate(a, b, front, t);
      }
    }
  }

  /** Every match in a masked text, wherever it starts, has stars for its password. */
  lemma {:induction false} MaskLeavesOnlyStars(find: Pattern, s: string)
    requires KeepsMatches(find) && MakesNone(find) && StarsInside(find)
    requires Found(find, "") == None
    ensures OnlyStars(find, Masked(find, s))
    decreases |s|
  {
    var m := Found(find, s);
    if s == "" {
      forall a, b | Masked(find, s) == a + b ensures StarsHere(find, b) {
        assert b == "";
      }
    } else if m.None? {
      MaskLeavesOnlyStars(find, s[1..]);
      NoNewMatch(find, s);
      OnlyStarsAfterPlain(find, s[0], Masked(find, s[1..]));
    } else {
      var rest := s[m.value.head + m.value.password + 1..];
      MaskLeavesOnlyStars(find, rest);
      OnlyStarsAfterMatch(find, s, Masked(find, rest));
    }
  }

  lemma OnlyStarsAfterPlain(find: Pattern, c: char, t: string)
    requires OnlyStars(find, t) && Found(find, [c] + t).None?
    ensures OnlyStars(find, [c] + t)
  {
    forall a, b | a + b == [c] + t && |a| < 1 ensures StarsHere(find, b) {
      assert a + b == b;
    }
    OnlyStarsAfter(find, [c], t);
  }

  lemma OnlyStarsAfterMatch(find: Pattern, s: string, t: string)
    requires StarsInside(find) && Found(find, s).Some? && OnlyStars(find, t)
    ensures OnlyStars(find, WithStars(s, Found(find, s).value, t))
  {
    var m := Found(find, s).value;
    var front := s[..m.head] + STARS + ['@'];
    forall a, b | a + b == front + t && |a| < |front| ensures StarsHere(find, b) {
      assert a + b == WithStars(s, m, t);
    }
    OnlyStarsAfter(find, front, t);
  }

  lemma OnlyStarsLater(find: Pattern, front: string, t: string)
    requires OnlyStars(find, front + t)
    ensures OnlyStars(find, t)
  {
    forall a, b | t == a + b ensures StarsHere(find, b) {
      assert front + t == (front + a) + b;
    }
  }

  lemma {:induction false} SecretsAreStars(find: Pattern, s: string)
    requires OnlyStars(find, s)
    ensures forall p :: p in Pieces(find, s) && p.Secret? ==> p.password == STARS
    decreases |s|
  {
    if s != "" {
      assert s == "" + s && StarsHere(find, s);
      var end := if Found(find, s).None? then 1 else Found(find, s).value.head + Found(find, s).value.password + 1;
      assert s == s[..end] + s[end..];
      OnlyStarsLater(find, s[..end], s[end..]);
      SecretsAreStars(find, s[end..]);
    }
  }

  /** A text is left alone exactly when every match in it, wherever it starts, has stars for its password. */
  lemma UnchangedByMatches(find: Pattern, s: string)
    requires KeepsMatches(find) && MakesNone(find) && StarsInside(find) && Found(find, "") == None
    ensures Masked(find, s) == s <==> OnlyStars(find, s)
  {
    UnchangedExactly(find, s);
    if Masked(find, s) == s {
      MaskLeavesOnlyStars(find, s);
    } else if OnlyStars(find, s) {
      SecretsAreStars(find, s);
    }
  }
}
