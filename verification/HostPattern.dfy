/** include/AllowedHosts.h: `Host::operator==(const char*)`, the wildcard comparison of a listed host
    name with the name of a connecting host. */
module HostPattern {
  import opened CStrings

  /** Position of the first `c` in `h`, or `|h|`. */
  function FirstIndex(h: string, c: char): (k: nat)
    ensures k <= |h|
    ensures c !in h[..k]
    ensures k < |h| ==> h[k] == c
  {
    if h == [] || h[0] == c then 0
    else
      var k := 1 + FirstIndex(h[1..], c);
      assert h[..k] == [h[0]] + h[1..][..k - 1];
      k
  }

  lemma FirstIndexUnique(h: string, c: char, k: nat)
    requires k <= |h| && c !in h[..k] && (k < |h| ==> h[k] == c)
    ensures FirstIndex(h, c) == k
  {
    var f := FirstIndex(h, c);
    assert forall i | 0 <= i < k :: h[i] == h[..k][i];
    assert forall i | 0 <= i < f :: h[i] == h[..f][i];
  }

  /** The comparison as a recursion: what remains of the pattern against what remains of the name. */
  predicate Matches(p: string, h: string)
    decreases |h|
  {
    h == [] ||
    (p != [] &&
     if p[0] == '?' then Matches(p[1..], h[1..])
     else if p[0] == '*' then
       |p| == 1 ||
       (var k := FirstIndex(h, p[1]);
        k < |h| && Matches(p[2..], h[k + 1..]))
     else p[0] == h[0] && Matches(p[1..], h[1..]))
  }

  /** `Matches` on the parts behind two indices. */
  lemma MatchesAt(p: string, i: nat, h: string, j: nat)
    requires i <= |p| && j < |h|
    ensures i == |p| ==> !Matches(p[i..], h[j..])
    ensures i < |p| && p[i] == '?' ==> Matches(p[i..], h[j..]) == Matches(p[i + 1..], h[j + 1..])
    ensures i < |p| && p[i] == '*' && i + 1 == |p| ==> Matches(p[i..], h[j..])
    ensures i + 1 < |p| && p[i] == '*' ==>
              var k := j + FirstIndex(h[j..], p[i + 1]);
              Matches(p[i..], h[j..]) == (k < |h| && Matches(p[i + 2..], h[k + 1..]))
    ensures i < |p| && p[i] != '?' && p[i] != '*' ==>
              Matches(p[i..], h[j..]) == (p[i] == h[j] && Matches(p[i + 1..], h[j + 1..]))
  {
    var q, g := p[i..], h[j..];
    assert i < |p| ==> q[0] == p[i] && q[1..] == p[i + 1..];
    assert i + 1 < |p| ==> q[1] == p[i + 1] && q[2..] == p[i + 2..];
    if i + 1 < |p| {
      var k := FirstIndex(g, p[i + 1]);
      assert k < |g| ==> g[k + 1..] == h[j + k + 1..];
    }
  }

  lemma ScanFinds(h: string, j0: nat, j: nat, c: char)
    requires j0 <= j <= |h| && c !in h[j0..j] && (j < |h| ==> h[j] == c)
    ensures FirstIndex(h[j0..], c) == j - j0
  {
    assert h[j0..][..j - j0] == h[j0..j];
    FirstIndexUnique(h[j0..], c, j - j0);
  }

  /** The two-index loop. Both indices only ever reach the terminators, never past them: every
      subscript goes through `At`. */
  method EqualsHostname(HostName: cstring, hostname: cstring) returns (equal: bool)
    ensures equal == Matches(HostName, hostname)
  {
    var size := |hostname|;
    var i: nat, j: nat := 0, 0;
    assert HostName[0..] == HostName && hostname[0..] == hostname;
    while j < size
      invariant i <= |HostName| && j <= size
      invariant Matches(HostName, hostname) == Matches(HostName[i..], hostname[j..])
    {
      MatchesAt(HostName, i, hostname, j);
      if At(HostName, i) == NUL {
        return false;
      }
      if At(HostName, i) == '?' {
        i, j := i + 1, j + 1;
        continue;
      }
      if At(HostName, i) == '*' {
        i := i + 1;
        if At(HostName, i) == NUL {
          return true;
        }
        j := ScanForward(hostname, j, HostName[i]);
      }
      if At(HostName, i) != At(hostname, j) && At(HostName, i) != NUL {
        return false;
      }
      i, j := i + 1, j + 1;
    }
    return true;
  }

  /** The inner loop: on to the next `c`, or to the terminator. */
  method ScanForward(hostname: cstring, from: nat, c: char) returns (j: nat)
    requires from < |hostname| && c != NUL
    ensures j == from + FirstIndex(hostname[from..], c)
  {
    j := from;
    while c != At(hostname, j) && At(hostname, j) != NUL
      invariant from <= j <= |hostname|
      invariant c !in hostname[from..j]
      decreases |hostname| - j
    {
      assert hostname[from..j + 1] == hostname[from..j] + [hostname[j]];
      j := j + 1;
    }
    ScanFinds(hostname, from, j, c);
  }

  // ---------- what the comparison accepts ----------

  /** A pattern read as a list of tokens; a star takes the character after it, literally. */
  datatype Token = Literal(c: char) | AnyOne | SkipTo(c: char) | Rest

  function Tokens(p: string): seq<Token>
  {
    if p == [] then []
    else if p[0] == '?' then [AnyOne] + Tokens(p[1..])
    else if p[0] != '*' then [Literal(p[0])] + Tokens(p[1..])
    else if |p| == 1 then [Rest]
    else [SkipTo(p[1])] + Tokens(p[2..])
  }

  /** The words of one token. */
  predicate Word(t: Token, w: string)
  {
    match t
    case Literal(c) => w == [c]
    case AnyOne => |w| == 1
    case SkipTo(c) => w != [] && c !in w[..|w| - 1] && w[|w| - 1] == c
    case Rest => true
  }

  /** `h` is a word of each token in turn, end to end. */
  ghost predicate Spells(ts: seq<Token>, h: string)
    decreases ts, 1
  {
    if ts == [] then h == []
    else exists k: nat :: SpelledBy(ts, h, k)
  }

  ghost predicate SpelledBy(ts: seq<Token>, h: string, k: nat)
    requires ts != []
    decreases ts, 0
  {
    k <= |h| && Word(ts[0], h[..k]) && Spells(ts[1..], h[k..])
  }

  /** A name is accepted exactly when some leading part of the pattern's tokens spells all of it:
      the rest of the pattern is not looked at, and no star ever gives characters back. */
  lemma {:induction false} AcceptedIffTokensSpell(p: string, h: string)
    ensures Matches(p, h) <==> exists n: nat :: n <= |Tokens(p)| && Spells(Tokens(p)[..n], h)
    decreases |h|
  {
    if Matches(p, h) {
      var n := SpellingPrefix(p, h);
    }
    if n: nat :| n <= |Tokens(p)| && Spells(Tokens(p)[..n], h) {
      SpellingAccepted(p, h, n);
    }
  }

  /** How many characters of the name the first token takes, and the pattern after it. */
  function TokenWidth(p: string, h: string): nat
    requires p != [] && (p[0] == '*' ==> |p| > 1)
  {
    if p[0] == '*' then 1 + FirstIndex(h, p[1]) else 1
  }

  function AfterToken(p: string): (r: string)
    requires p != []
  {
    if p[0] == '*' && |p| > 1 then p[2..] else p[1..]
  }

  lemma TokensAfterFirst(p: string)
    requires p != []
    ensures Tokens(p) == [Tokens(p)[0]] + Tokens(AfterToken(p))
  {
    assert |p| == 1 ==> AfterToken(p) == [];
  }

  lemma FirstTokenWord(p: string, h: string, k: nat)
    requires p != [] && p != "*" && h != [] && k <= |h|
    ensures Word(Tokens(p)[0], h[..k]) <==>
            k == TokenWidth(p, h) && (p[0] == '?' || p[0] == '*' || p[0] == h[0])
  {
    if k > 0 {
      assert h[..k][..k - 1] == h[..k - 1] && h[..k][k - 1] == h[k - 1];
      if p[0] == '*' && p[1] !in h[..k - 1] && h[k - 1] == p[1] {
        FirstIndexUnique(h, p[1], k - 1);
      }
    }
  }

  lemma {:induction false} SpellingPrefix(p: string, h: string) returns (n: nat)
    requires Matches(p, h)
    ensures n <= |Tokens(p)| && Spells(Tokens(p)[..n], h)
    decreases |h|
  {
    if h == [] {
      n := 0;
    } else if p == "*" {
      n := 1;
      assert Tokens(p) == [Rest] && h[|h|..] == [] && [Rest][1..] == [];
      assert SpelledBy(Tokens(p)[..1], h, |h|);
    } else {
      var k := TokenWidth(p, h);
      var m := SpellingPrefix(AfterToken(p), h[k..]);
      n := m + 1;
      FirstTokenWord(p, h, k);
      PrependToken(p, h, k, m);
    }
  }

  lemma PrependToken(p: string, h: string, k: nat, m: nat)
    requires p != [] && k <= |h| && m <= |Tokens(AfterToken(p))|
    requires Word(Tokens(p)[0], h[..k]) && Spells(Tokens(AfterToken(p))[..m], h[k..])
    ensures m + 1 <= |Tokens(p)| && Spells(Tokens(p)[..m + 1], h)
  {
    TokensAfterFirst(p);
    var ts := Tokens(p)[..m + 1];
    assert ts[1..] == Tokens(AfterToken(p))[..m];
    assert SpelledBy(ts, h, k);
  }

  lemma {:induction false} SpellingAccepted(p: string, h: string, n: nat)
    requires n <= |Tokens(p)| && Spells(Tokens(p)[..n], h)
    ensures Matches(p, h)
    decreases |h|
  {
    if h != [] && p != "*" {
      var k: nat :| SpelledBy(Tokens(p)[..n], h, k);
      FirstTokenWord(p, h, k);
      TokensAfterFirst(p);
      assert Tokens(p)[..n][1..] == Tokens(AfterToken(p))[..n - 1];
      SpellingAccepted(AfterToken(p), h[k..], n - 1);
      MatchesAfterToken(p, h);
    }
  }

  lemma MatchesAfterToken(p: string, h: string)
    requires p != [] && p != "*" && h != []
    requires p[0] == '?' || p[0] == '*' || p[0] == h[0]
    requires TokenWidth(p, h) <= |h| && Matches(AfterToken(p), h[TokenWidth(p, h)..])
    ensures Matches(p, h)
  {
  }

  // ---------- against the documented wildcards ----------

  /** The usual meaning of the documented wildcards: '?' one character, '*' any number of them. */
  ghost predicate Glob(p: string, s: string)
  {
    if p == [] then s == []
    else if p[0] == '*' then exists k: nat :: k <= |s| && Glob(p[1..], s[k..])
    else s != [] && (p[0] == '?' || p[0] == s[0]) && Glob(p[1..], s[1..])
  }

  /** Some word of every pattern: each '?' becomes a question mark and each '*' disappears. */
  lemma {:induction false} GlobHasWord(p: string) returns (s: string)
    ensures Glob(p, s)
  {
    if p == [] {
      s := [];
    } else {
      var t := GlobHasWord(p[1..]);
      s := if p[0] == '*' then t else [p[0]] + t;
      if p[0] == '*' {
        assert s[0..] == s;
      } else {
        assert s[1..] == t;
      }
    }
  }

  /** Soundness: an accepted name can always be completed to a word of the pattern. */
  lemma {:induction false} AcceptedExtendsToGlob(p: string, h: string) returns (e: string)
    requires Matches(p, h)
    ensures Glob(p, h + e)
    decreases |h|
  {
    if h == [] {
      e := GlobHasWord(p);
      assert h + e == e;
    } else if p == "*" {
      e := [];
      assert (h + e)[|h|..] == [];
    } else if p[0] == '*' {
      var k := FirstIndex(h, p[1]);
      e := AcceptedExtendsToGlob(p[2..], h[k + 1..]);
      StarSkips(p, h + e, k);
      assert (h + e)[k + 1..] == h[k + 1..] + e;
    } else {
      e := AcceptedExtendsToGlob(p[1..], h[1..]);
      assert (h + e)[1..] == h[1..] + e;
    }
  }

  lemma StarSkips(p: string, s: string, k: nat)
    requires |p| > 1 && p[0] == '*' && k < |s| && s[k] == p[1]
    ensures Glob(p[2..], s[k + 1..]) ==> Glob(p, s)
  {
    assert s[k..][1..] == s[k + 1..] && p[1..][1..] == p[2..];
    if Glob(p[2..], s[k + 1..]) {
      StarStandsFor(p[1..], s[k..]);
    }
  }

  /** A pattern character compared literally is in particular a match of that character as a wildcard. */
  lemma StarStandsFor(p: string, s: string)
    requires p != [] && s != [] && p[0] == s[0] && Glob(p[1..], s[1..])
    ensures Glob(p, s)
  {
    if p[0] == '*' {
      assert Glob(p[1..], s[1..]);
    }
  }

  predicate StarFree(p: string)
  {
    '*' !in p
  }

  predicate WildcardFree(p: string)
  {
    '*' !in p && '?' !in p
  }

  /** Without wildcards the comparison accepts exactly the prefixes of the listed name. */
  lemma {:induction false} WildcardFreeIsPrefix(p: string, h: string)
    requires WildcardFree(p)
    ensures Matches(p, h) <==> h <= p
    decreases |h|
  {
    if h != [] && p != [] {
      WildcardFreeIsPrefix(p[1..], h[1..]);
      assert h <= p <==> h[0] == p[0] && h[1..] <= p[1..];
    }
  }

  /** Position by position agreement with a star-free pattern, over the whole of `h`. */
  predicate Fits(p: string, h: string)
  {
    |h| <= |p| && forall i | 0 <= i < |h| :: p[i] == '?' || p[i] == h[i]
  }

  lemma {:induction false} StarFreeFits(p: string, h: string)
    requires StarFree(p)
    ensures Matches(p, h) <==> Fits(p, h)
    ensures Glob(p, h) <==> Fits(p, h) && |h| == |p|
    decreases |p|
  {
    if h != [] && p != [] {
      StarFreeFits(p[1..], h[1..]);
      assert Fits(p, h) <==> (p[0] == '?' || p[0] == h[0]) && Fits(p[1..], h[1..]) by {
        if Fits(p, h) {
          forall i | 0 <= i < |h[1..]| ensures p[1..][i] == '?' || p[1..][i] == h[1..][i] {
            assert p[i + 1] == '?' || p[i + 1] == h[i + 1];
          }
        }
        if (p[0] == '?' || p[0] == h[0]) && Fits(p[1..], h[1..]) {
          forall i | 0 <= i < |h| ensures p[i] == '?' || p[i] == h[i] {
            if i > 0 {
              assert p[1..][i - 1] == '?' || p[1..][i - 1] == h[1..][i - 1];
            }
          }
        }
      }
    }
  }

  /** For a pattern without '*', the comparison gives the documented answer unless the name is a
      proper part of a longer pattern that it fits. */
  lemma StarFreeAgreesWithGlobIff(p: string, h: string)
    requires StarFree(p)
    ensures (Matches(p, h) <==> Glob(p, h)) <==> !(|h| < |p| && Fits(p, h))
  {
    StarFreeFits(p, h);
  }

  // ---------- patterns with stars ----------

  /** Behind a star: no other star waits for a wildcard, no literal follows, and a star ends the pattern. */
  predicate TailClosed(p: string)
  {
    if p == [] then false
    else if p == "*" then true
    else if p[0] == '*' then !Wildcard(p[1]) && TailClosed(p[2..])
    else p[0] == '?' && TailClosed(p[1..])
  }

  /** The same from the first star on; a pattern without a star has nothing to close. */
  predicate StarsClosed(p: string)
  {
    p == [] || if p[0] == '*' then TailClosed(p) else StarsClosed(p[1..])
  }

  predicate Wildcard(c: char)
  {
    c == '*' || c == '?'
  }

  /** Every word of the pattern is accepted. */
  ghost predicate AcceptsItsWords(p: string)
  {
    forall h: cstring :: Glob(p, h) ==> Matches(p, h)
  }

  /** Every word the documented wildcards admit is accepted exactly for these patterns: "*c*" and "*a?*b*"
      are among them, "*c", "*ab*", "**" and "*?*" are not. */
  lemma AcceptsItsWordsIff(p: cstring)
    ensures AcceptsItsWords(p) <==> StarsClosed(p)
  {
    if StarsClosed(p) {
      forall h: cstring | Glob(p, h) ensures Matches(p, h) {
        ClosedAccepts(p, h);
      }
    } else {
      var w := RefusedWord(p);
    }
  }

  ghost predicate AlwaysDocumented(p: string)
  {
    forall h: cstring :: Matches(p, h) <==> Glob(p, h)
  }

  /** The documented answer is given to every name for two patterns only. */
  lemma AgreesWithGlobIff(p: cstring)
    ensures AlwaysDocumented(p) <==> p == "" || p == "*"
  {
    if AlwaysDocumented(p) {
      var none: cstring := "";
      assert Matches(p, none) && Glob(p, none);
      StarsOnly(p);
      assert AcceptsItsWords(p);
      AcceptsItsWordsIff(p);
    }
    if p == "" || p == "*" {
      forall h: cstring ensures Matches(p, h) <==> Glob(p, h) {
        assert h[|h|..] == [];
        assert p == "*" ==> p[1..] == [] && Glob(p[1..], h[|h|..]);
      }
    }
  }

  lemma StarsOnly(p: string)
    requires Glob(p, "")
    ensures p == "" || (p[0] == '*' && (|p| == 1 || Wildcard(p[1])))
  {
    if p != "" {
      var k: nat :| k <= |""| && Glob(p[1..], ""[k..]);
    }
  }

  /** A closed tail admits any character more at the front. */
  lemma {:induction false} ClosedPrepend(p: string, s: string)
    requires TailClosed(p) && s != [] && Glob(p, s[1..])
    ensures Glob(p, s)
  {
    if p[0] == '*' {
      var k: nat :| k <= |s[1..]| && Glob(p[1..], s[1..][k..]);
      assert s[1..][k..] == s[k + 1..];
    } else {
      ClosedPrepend(p[1..], s[1..]);
    }
  }

  lemma {:induction false} ClosedExtends(p: string, s: string, k: nat)
    requires TailClosed(p) && k <= |s| && Glob(p, s[k..])
    ensures Glob(p, s)
  {
    if k > 0 {
      assert s[k..] == s[k - 1..][1..];
      ClosedPrepend(p, s[k - 1..]);
      ClosedExtends(p, s, k - 1);
    } else {
      assert s[0..] == s;
    }
  }

  /** Taking the first occurrence costs a closed tail nothing. */
  lemma {:induction false} ClosedTailAccepts(p: string, h: string)
    requires TailClosed(p) && Glob(p, h)
    ensures Matches(p, h)
    decreases |p|
  {
    if h != [] && p != "*" {
      if p[0] == '*' {
        var k: nat :| k <= |h| && Glob(p[1..], h[k..]);
        WordBehind(p, h, k);
        var f := FirstIndex(h, p[1]);
        assert h[f + 1..][k - f..] == h[k + 1..];
        ClosedExtends(p[2..], h[f + 1..], k - f);
        ClosedTailAccepts(p[2..], h[f + 1..]);
      } else {
        ClosedTailAccepts(p[1..], h[1..]);
      }
    }
  }

  lemma WordBehind(p: string, h: string, k: nat)
    requires |p| > 1 && !Wildcard(p[1]) && k <= |h| && Glob(p[1..], h[k..])
    ensures k < |h| && h[k] == p[1] && Glob(p[2..], h[k + 1..]) && FirstIndex(h, p[1]) <= k
  {
    assert p[1..][1..] == p[2..] && h[k..][1..] == h[k + 1..];
    var f := FirstIndex(h, p[1]);
    assert forall i | 0 <= i < f :: h[i] == h[..f][i] != p[1];
  }

  lemma {:induction false} ClosedAccepts(p: string, h: string)
    requires StarsClosed(p) && Glob(p, h)
    ensures Matches(p, h)
  {
    if p != [] && p[0] == '*' {
      ClosedTailAccepts(p, h);
    } else if p != [] {
      ClosedAccepts(p[1..], h[1..]);
    }
  }

  predicate Ordinary(s: string)
  {
    '*' !in s && '?' !in s
  }

  /** A word without wildcard characters. */
  lemma {:induction false} OrdinaryWord(p: string) returns (s: string)
    ensures Glob(p, s) && Ordinary(s) && (NUL !in p ==> NUL !in s)
  {
    if p == [] {
      s := [];
    } else {
      var t := OrdinaryWord(p[1..]);
      if p[0] == '*' {
        s := t;
        assert s[0..] == s;
      } else {
        s := [if p[0] == '?' then 'a' else p[0]] + t;
        assert s[1..] == t;
      }
    }
  }

  ghost predicate Blocks(p: string, v: string)
  {
    v != [] && Ordinary(v) && forall t: string :: Ordinary(t) ==> !Matches(p, v + t)
  }

  /** Some beginning leads every scan of an open tail into a dead end. */
  lemma {:induction false} Blocker(p: string) returns (v: string)
    requires !TailClosed(p)
    ensures Blocks(p, v) && (NUL !in p ==> NUL !in v)
    decreases |p|
  {
    if p == [] {
      v := "a";
    } else if p[0] == '*' && Wildcard(p[1]) {
      v := "a";
      forall t: string | Ordinary(t) ensures !Matches(p, v + t) {
        assert p[1] !in v + t;
      }
    } else if p[0] == '*' {
      var u := Blocker(p[2..]);
      v := [p[1]] + u;
      forall t: string | Ordinary(t) ensures !Matches(p, v + t) {
        FirstIndexUnique(v + t, p[1], 0);
        assert (v + t)[1..] == u + t;
      }
    } else if p[0] == '?' {
      var u := Blocker(p[1..]);
      v := ['a'] + u;
      forall t: string | Ordinary(t) ensures !Matches(p, v + t) {
        assert (v + t)[1..] == u + t;
      }
    } else {
      v := if p[0] == 'a' then "b" else "a";
    }
  }

  /** A word of the pattern that is refused. */
  lemma {:induction false} RefusedWord(p: string) returns (w: string)
    requires !StarsClosed(p)
    ensures Glob(p, w) && !Matches(p, w) && (NUL !in p ==> NUL !in w)
  {
    if p[0] == '*' {
      var v := Blocker(p);
      var u := OrdinaryWord(p);
      w := v + u;
      StarTakesMore(p, v, u);
    } else {
      var u := RefusedWord(p[1..]);
      w := [if p[0] == '?' then 'a' else p[0]] + u;
      assert w[1..] == u;
    }
  }

  lemma StarTakesMore(p: string, v: string, u: string)
    requires p != [] && p[0] == '*' && Glob(p, u)
    ensures Glob(p, v + u)
  {
    var k: nat :| k <= |u| && Glob(p[1..], u[k..]);
    assert (v + u)[|v| + k..] == u[k..];
  }

  /** With a '*', a name the pattern should admit can be refused: the scan stops at the first dot. */
  lemma StarRefusesAGlobWord()
    ensures Glob("*.ch", "a.b.ch") && !Matches("*.ch", "a.b.ch")
  {
    var p, s := "*.ch", "a.b.ch";
    assert s[3..] == ".ch" && p[1..] == ".ch";
    assert WildcardFree(".ch");
    StarFreeFits(".ch", ".ch");
    assert Glob(p[1..], s[3..]);
    FirstIndexUnique(s, '.', 1);
    assert p[2..] == "ch" && s[2..] == "b.ch";
  }

  /** A name without wildcards matches itself, so its own list entry recognises it again. */
  lemma WildcardFreeMatchesItself(h: string)
    requires WildcardFree(h)
    ensures Matches(h, h)
  {
    WildcardFreeIsPrefix(h, h);
  }

  /** Not every name matches itself. */
  lemma SomeNamesDoNotMatchThemselves()
    ensures !Matches("**a", "**a")
  {
    FirstIndexUnique("**a", '*', 0);
    assert "**a"[2..] == "a" && "**a"[1..] == "*a";
  }
}
