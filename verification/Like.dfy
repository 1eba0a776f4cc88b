/**
 The LIKE predicate of section 8.5 of ISO/IEC 9075-2:2003, character by character, with `\` as the
 escape character. The repositories search with the pattern '%' + term + '%'.
 */
module Like {

  datatype Token = AnyRun | AnyOne | Exactly(c: char)

  function Tokens(pattern: string): seq<Token> {
    if pattern == [] then []
    else if pattern[0] == '%' then [AnyRun] + Tokens(pattern[1..])
    else if pattern[0] == '_' then [AnyOne] + Tokens(pattern[1..])
    else if pattern[0] == '\\' && |pattern| > 1 then [Exactly(pattern[1])] + Tokens(pattern[2..])
    else [Exactly(pattern[0])] + Tokens(pattern[1..])
  }

  predicate Matches(ts: seq<Token>, s: string)
    decreases |ts|, |s|
  {
    if ts == [] then s == []
    else
      match ts[0]
      case AnyRun => Matches(ts[1..], s) || (s != [] && Matches(ts, s[1..]))
      case AnyOne => s != [] && Matches(ts[1..], s[1..])
      case Exactly(c) => s != [] && s[0] == c && Matches(ts[1..], s[1..])
  }

  predicate LikeMatches(pattern: string, s: string) {
    Matches(Tokens(pattern), s)
  }

  /** The pattern the repositories build from a search term. */
  function Wrap(term: string): string {
    "%" + term + "%"
  }

  ghost predicate Contains(s: string, t: string) {
    exists k :: 0 <= k <= |s| && t <= s[k..]
  }

  /** No wildcard and no escape character. */
  predicate Plain(t: string) {
    forall k :: 0 <= k < |t| ==> t[k] != '%' && t[k] != '_' && t[k] != '\\'
  }

  function Literals(t: string): seq<Token> {
    seq(|t|, k requires 0 <= k < |t| => Exactly(t[k]))
  }

  lemma {:induction false} PlainTokens(t: string, rest: string)
    requires Plain(t)
    ensures Tokens(t + rest) == Literals(t) + Tokens(rest)
  {
    if t == [] {
      assert t + rest == rest;
    } else {
      assert (t + rest)[1..] == t[1..] + rest;
      PlainTokens(t[1..], rest);
      assert Literals(t) == [Exactly(t[0])] + Literals(t[1..]);
    }
  }

  lemma {:induction false} AnyRunAcceptsAll(s: string)
    ensures Matches([AnyRun], s)
  {
    if s == [] {
    } else {
      AnyRunAcceptsAll(s[1..]);
    }
  }

  lemma {:induction false} LiteralPrefix(t: string, s: string)
    ensures Matches(Literals(t) + [AnyRun], s) <==> t <= s
  {
    var ts := Literals(t) + [AnyRun];
    if t == [] {
      assert ts == [AnyRun];
      AnyRunAcceptsAll(s);
    } else {
      assert ts[1..] == Literals(t[1..]) + [AnyRun];
      if s != [] {
        LiteralPrefix(t[1..], s[1..]);
        assert t <= s <==> t[0] == s[0] && t[1..] <= s[1..];
      }
    }
  }

  /** A leading run is a search for a suffix that the rest of the pattern accepts. */
  lemma {:induction false} AnyRunSearches(ts: seq<Token>, s: string)
    ensures Matches([AnyRun] + ts, s) <==> exists k :: 0 <= k <= |s| && Matches(ts, s[k..])
  {
    var all := [AnyRun] + ts;
    assert all[1..] == ts && s[0..] == s;
    if s == [] {
    } else {
      AnyRunSearches(ts, s[1..]);
      forall k | 0 <= k <= |s[1..]|
        ensures s[1..][k..] == s[k + 1..]
      {
      }
      if k :| 0 <= k <= |s| && Matches(ts, s[k..]) {
        if k > 0 {
          assert s[1..][k - 1..] == s[k..];
        }
      }
      if k :| 0 <= k <= |s[1..]| && Matches(ts, s[1..][k..]) {
        assert s[1..][k..] == s[k + 1..];
      }
    }
  }

  lemma LiteralSearch(t: string, s: string)
    ensures Matches([AnyRun] + (Literals(t) + [AnyRun]), s) <==> Contains(s, t)
  {
    var ts := Literals(t) + [AnyRun];
    AnyRunSearches(ts, s);
    forall k | 0 <= k <= |s|
      ensures Matches(ts, s[k..]) <==> t <= s[k..]
    {
      LiteralPrefix(t, s[k..]);
    }
  }

  /** For a plain term, the wrapped pattern accepts exactly the strings that contain the term. */
  lemma PlainTermSearches(t: string, s: string)
    requires Plain(t)
    ensures LikeMatches(Wrap(t), s) <==> Contains(s, t)
  {
    assert Wrap(t)[1..] == t + "%";
    PlainTokens(t, "%");
    assert Tokens(Wrap(t)) == [AnyRun] + (Literals(t) + [AnyRun]);
    LiteralSearch(t, s);
  }

  /** A shortest string the tokens accept, using a letter for `_`. */
  function Instance(ts: seq<Token>): string {
    if ts == [] then []
    else
      match ts[0]
      case AnyRun => Instance(ts[1..])
      case AnyOne => ['x'] + Instance(ts[1..])
      case Exactly(c) => [c] + Instance(ts[1..])
  }

  lemma {:induction false} InstanceMatches(ts: seq<Token>)
    ensures Matches(ts, Instance(ts))
  {
    if ts == [] {
    } else {
      InstanceMatches(ts[1..]);
    }
  }

  /** The instance is no longer than the term, and equals it only if the term is plain. */
  lemma {:induction false} InstanceOfTerm(t: string)
    ensures |Instance(Tokens(t + "%"))| <= |t|
    ensures Instance(Tokens(t + "%")) == t ==> Plain(t)
    decreases |t|
  {
    if t == [] {
      assert t + "%" == "%";
      assert Tokens("%") == [AnyRun] + Tokens([]);
    } else {
      assert (t + "%")[1..] == t[1..] + "%";
      InstanceOfTerm(t[1..]);
      if t[0] == '\\' {
        if |t| == 1 {
          assert (t + "%")[2..] == [];
          assert Tokens(t + "%") == [Exactly('%')];
        } else {
          assert (t + "%")[2..] == t[2..] + "%";
          InstanceOfTerm(t[2..]);
        }
      } else if t[0] != '%' && t[0] != '_' {
        assert Tokens(t + "%") == [Exactly(t[0])] + Tokens(t[1..] + "%");
        assert Instance(Tokens(t + "%")) == [t[0]] + Instance(Tokens(t[1..] + "%"));
        if Instance(Tokens(t + "%")) == t {
          assert t[1..] == Instance(Tokens(t[1..] + "%"));
        }
      }
    }
  }

  /** LIKE on the wrapped term means containment, for all strings, exactly when the term is plain. */
  lemma SearchesIffPlain(t: string)
    ensures (forall s :: LikeMatches(Wrap(t), s) <==> Contains(s, t)) <==> Plain(t)
  {
    if Plain(t) {
      forall s
        ensures LikeMatches(Wrap(t), s) <==> Contains(s, t)
      {
        PlainTermSearches(t, s);
      }
    } else {
      var ts := Tokens(t + "%");
      var s := Instance(ts);
      assert Wrap(t)[1..] == t + "%";
      assert Tokens(Wrap(t)) == [AnyRun] + ts;
      InstanceMatches(ts);
      assert ([AnyRun] + ts)[1..] == ts;
      assert LikeMatches(Wrap(t), s);
      InstanceOfTerm(t);
      assert !Contains(s, t);
    }
  }

  /** For every term some string both contains it and is accepted. */
  lemma AcceptedAndContaining(t: string) returns (s: string)
    ensures LikeMatches(Wrap(t), s) && Contains(s, t)
  {
    var ts := Tokens(t + "%");
    s := t + Instance(ts);
    assert Wrap(t)[1..] == t + "%";
    assert Tokens(Wrap(t)) == [AnyRun] + ts;
    InstanceMatches(ts);
    assert s[|t|..] == Instance(ts);
    AnyRunSearches(ts, s);
    assert t <= s[0..];
  }

  // ----------------------------------------------------- the standard's definition

  ghost predicate Fits(t: Token, piece: string) {
    match t
    case AnyRun => true
    case AnyOne => |piece| == 1
    case Exactly(c) => piece == [c]
  }

  ghost function Joined(pieces: seq<string>): string {
    if pieces == [] then [] else pieces[0] + Joined(pieces[1..])
  }

  /** The string can be cut into consecutive pieces, one for each token. */
  ghost predicate CutsInto(s: string, ts: seq<Token>, pieces: seq<string>) {
    && |pieces| == |ts| && Joined(pieces) == s
    && forall k :: 0 <= k < |ts| ==> Fits(ts[k], pieces[k])
  }

  lemma {:induction false} MatchGivesCut(ts: seq<Token>, s: string) returns (pieces: seq<string>)
    requires Matches(ts, s)
    ensures CutsInto(s, ts, pieces)
    decreases |ts|
  {
    if ts == [] {
      pieces := [];
    } else {
      var k := if ts[0].AnyRun? then FirstPiece(ts, s) else 1;
      var rest := MatchGivesCut(ts[1..], s[k..]);
      pieces := [s[..k]] + rest;
      assert s[..k] + s[k..] == s;
    }
  }

  /** The length of the first piece of an accepted string, when the first token is a run. */
  ghost function FirstPiece(ts: seq<Token>, s: string): (k: nat)
    requires ts != [] && ts[0] == AnyRun && Matches(ts, s)
    ensures k <= |s| && Matches(ts[1..], s[k..])
  {
    assert ts == [AnyRun] + ts[1..];
    AnyRunSearches(ts[1..], s);
    var k :| 0 <= k <= |s| && Matches(ts[1..], s[k..]);
    k
  }

  lemma {:induction false} CutGivesMatch(ts: seq<Token>, s: string, pieces: seq<string>)
    requires CutsInto(s, ts, pieces)
    ensures Matches(ts, s)
    decreases |ts|
  {
    if ts == [] {
    } else {
      var k := |pieces[0]|;
      assert s[k..] == Joined(pieces[1..]);
      CutGivesMatch(ts[1..], s[k..], pieces[1..]);
      if ts[0].AnyRun? {
        assert ts == [AnyRun] + ts[1..];
        AnyRunSearches(ts[1..], s);
      } else {
        assert Fits(ts[0], pieces[0]) && s == pieces[0] + s[k..];
      }
    }
  }

  /** The recursive matcher accepts exactly the strings that can be cut into fitting pieces. */
  lemma MatchesIffCuts(ts: seq<Token>, s: string)
    ensures Matches(ts, s) <==> exists pieces :: CutsInto(s, ts, pieces)
  {
    if Matches(ts, s) {
      var pieces := MatchGivesCut(ts, s);
    }
    if pieces :| CutsInto(s, ts, pieces) {
      CutGivesMatch(ts, s, pieces);
    }
  }

  lemma LoneCharacter(c: char, s: string)
    requires c != '%' && c != '_'
    ensures LikeMatches([c], s) <==> s == [c]
  {
    var ts := [Exactly(c)];
    assert [c][1..] == [] && Tokens([c]) == ts && ts[1..] == [];
    if s != [] {
      assert s == [s[0]] + s[1..];
      assert Matches(ts, s) <==> s[0] == c && s[1..] == [];
    }
  }

  /** What each character means at the head of a pattern; an escape character that ends it is literal. */
  lemma PatternHead(c: char, p: string, s: string)
    ensures LikeMatches([], s) <==> s == []
    ensures LikeMatches(['\\'], s) <==> s == ['\\']
    ensures LikeMatches(['%'] + p, s) <==> exists k :: 0 <= k <= |s| && LikeMatches(p, s[k..])
    ensures LikeMatches(['_'] + p, s) <==> s != [] && LikeMatches(p, s[1..])
    ensures LikeMatches(['\\', c] + p, s) <==> s != [] && s[0] == c && LikeMatches(p, s[1..])
    ensures Plain([c]) ==> (LikeMatches([c] + p, s) <==> s != [] && s[0] == c && LikeMatches(p, s[1..]))
  {
    LoneCharacter('\\', s);
    assert (['%'] + p)[1..] == p && (['_'] + p)[1..] == p && ([c] + p)[1..] == p;
    EscapedHead(c, p);
    assert Tokens(['%'] + p) == [AnyRun] + Tokens(p);
    AnyRunSearches(Tokens(p), s);
    assert Plain([c]) ==> [c][0] != '%' && [c][0] != '_' && [c][0] != '\\';
  }

  /** Every character quoted with the escape character. */
  function Quoted(t: string): string {
    if t == [] then [] else ['\\', t[0]] + Quoted(t[1..])
  }

  lemma EscapedHead(c: char, p: string)
    ensures Tokens(['\\', c] + p) == [Exactly(c)] + Tokens(p)
  {
    assert (['\\', c] + p)[2..] == p;
  }

  lemma {:induction false} QuotedTokens(t: string, rest: string)
    ensures Tokens(Quoted(t) + rest) == Literals(t) + Tokens(rest)
  {
    if t == [] {
      assert Quoted(t) + rest == rest;
    } else {
      assert Quoted(t) + rest == ['\\', t[0]] + (Quoted(t[1..]) + rest);
      EscapedHead(t[0], Quoted(t[1..]) + rest);
      QuotedTokens(t[1..], rest);
      assert Literals(t) == [Exactly(t[0])] + Literals(t[1..]);
    }
  }

  /** Quoted, every term searches for itself, wildcards and escapes included. */
  lemma QuotedTermSearches(t: string, s: string)
    ensures LikeMatches(Wrap(Quoted(t)), s) <==> Contains(s, t)
  {
    assert Wrap(Quoted(t))[1..] == Quoted(t) + "%";
    QuotedTokens(t, "%");
    assert Tokens(Wrap(Quoted(t))) == [AnyRun] + (Literals(t) + [AnyRun]);
    LiteralSearch(t, s);
  }
}
