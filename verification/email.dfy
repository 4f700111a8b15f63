/**
 The recogniser behind `validateEmail` (ContactForm/index.js, lines 49-52):
 lowercase the input, split it at its last `@`, and check the two sides
 against the local-part and domain alternatives of the expression. Each check
 is proved equivalent to the declarative reading in `EmailRegex`.
 */
module EmailValidator {
  import opened JsText
  import opened Dotted
  import opened EmailRegex

  /** Position of the last `c` in `s`, or -1 when `s` has none. */
  function LastIndexOf(s: string, c: char): (k: int)
    ensures -1 <= k < |s|
    ensures k == -1 <==> c !in s
    ensures k >= 0 ==> s[k] == c && c !in s[k + 1..]
  {
    if |s| == 0 then -1
    else if s[|s| - 1] == c then |s| - 1
    else
      assert s == s[..|s| - 1] + [s[|s| - 1]];
      LastIndexOf(s[..|s| - 1], c)
  }

  /** An occurrence of `c` with no `c` after it is the last one. */
  lemma LastIndexOfUnique(s: string, c: char, k: nat)
    requires k < |s| && s[k] == c && c !in s[k + 1..]
    ensures LastIndexOf(s, c) == k
  {
    assert s[k] in s;
  }

  /** The text before the last `@`. */
  function LocalOf(t: string): string
    requires '@' in t
  {
    t[..LastIndexOf(t, '@')]
  }

  /** The text after the last `@`. */
  function DomainOf(t: string): string
    requires '@' in t
  {
    t[LastIndexOf(t, '@') + 1..]
  }

  predicate AllAtoms(ps: seq<string>) {
    forall i :: 0 <= i < |ps| ==> IsAtom(ps[i])
  }

  /** Unquoted local part: every piece between dots is a non-empty atom. */
  predicate IsDotAtom(l: string) {
    AllAtoms(SplitDots(l))
  }

  /** Quoted local part: a double quote, one or more characters that are not
      line terminators (quotes and `@` included), a double quote. */
  predicate IsQuoted(l: string) {
    |l| >= 2 && l[0] == '"' && l[|l| - 1] == '"' && IsQuotedBody(l[1..|l| - 1])
  }

  predicate IsLocalPart(l: string) {
    IsDotAtom(l) || IsQuoted(l)
  }

  /** Bracketed IPv4 literal: exactly four groups of one to three digits;
      the value of a group is not checked. */
  predicate IsIpLiteral(d: string) {
    && |d| >= 2 && d[0] == '[' && d[|d| - 1] == ']'
    && var gs := SplitDots(d[1..|d| - 1]);
       |gs| == 4 && forall i :: 0 <= i < 4 ==> IsOctet(gs[i])
  }

  /** Hostname: at least two pieces, every piece but the last a label, the
      last one two or more letters. */
  predicate IsHostname(d: string) {
    var ps := SplitDots(d);
    && |ps| >= 2
    && (forall i :: 0 <= i < |ps| - 1 ==> IsLabel(ps[i]))
    && IsTld(ps[|ps| - 1])
  }

  predicate IsDomain(d: string) {
    IsIpLiteral(d) || IsHostname(d)
  }

  /** The expression's verdict on an already lowercased string. */
  predicate MatchesEmailPattern(t: string) {
    '@' in t && IsLocalPart(LocalOf(t)) && IsDomain(DomainOf(t))
  }

  /** The expression's verdict on `t`, looking for the `@` among the first
      `n` characters from the right: the first `@` found is the last one, and
      it decides, as no domain contains an `@`. */
  predicate MatchesBefore(t: string, n: nat)
    requires n <= |t|
  {
    if n == 0 then false
    else if t[n - 1] == '@' then IsLocalPart(t[..n - 1]) && IsDomain(t[n..])
    else MatchesBefore(t, n - 1)
  }

  /** `validateEmail`: the expression matched against the lowercased input. */
  predicate ValidateEmail(email: string) {
    MatchesBefore(Lower(email), |email|)
  }

  /** The search from the right finds the last `@` among the first `n`
      characters and checks the text around it. */
  lemma {:induction false} MatchesBeforeLastAt(t: string, n: nat)
    requires n <= |t|
    ensures MatchesBefore(t, n) <==>
      '@' in t[..n] && var k := LastIndexOf(t[..n], '@'); IsLocalPart(t[..k]) && IsDomain(t[k + 1..])
    decreases n
  {
    if n > 0 {
      var p := t[..n];
      assert p[..n - 1] == t[..n - 1];
      if t[n - 1] != '@' {
        MatchesBeforeLastAt(t, n - 1);
        assert p == t[..n - 1] + [t[n - 1]];
      }
    }
  }

  /** `validateEmail` splits the lowercased input at its last `@`. */
  lemma ValidateEmailSplitsAtLastAt(email: string)
    ensures ValidateEmail(email) <==> MatchesEmailPattern(Lower(email))
  {
    var t := Lower(email);
    MatchesBeforeLastAt(t, |t|);
    assert t[..|t|] == t;
  }

  /** `validateEmail` accepts exactly the strings whose lowercase the
      expression matches. */
  lemma ValidateEmailMatchesRegex(email: string)
    ensures ValidateEmail(email) <==> EmailMatch(Lower(email))
  {
    ValidateEmailSplitsAtLastAt(email);
    PatternMatchesRegex(Lower(email));
  }

  // ----- Each check agrees with the declarative reading -----

  lemma AtomDotFree(a: string)
    requires IsAtom(a)
    ensures '.' !in a && '@' !in a
  {
    forall i | 0 <= i < |a| ensures a[i] != '.' && a[i] != '@' {
      assert IsAtomChar(a[i]);
    }
  }

  /** The unquoted local-part check accepts exactly `atom(\.atom)*`. */
  lemma DotAtomIff(l: string)
    ensures IsDotAtom(l) <==> DotAtomMatch(l)
  {
    if DotAtomMatch(l) {
      var atoms: seq<string> :|
        |atoms| >= 1 && (forall i :: 0 <= i < |atoms| ==> IsAtom(atoms[i])) && l == JoinDots(atoms);
      forall i | 0 <= i < |atoms| ensures '.' !in atoms[i] {
        AtomDotFree(atoms[i]);
      }
      SplitJoin(atoms);
    }
  }

  /** The quoted local-part check accepts exactly `".+"`. */
  lemma QuotedIff(l: string)
    ensures IsQuoted(l) <==> QuotedMatch(l)
  {
    if IsQuoted(l) {
      var b := l[1..|l| - 1];
      assert l == "\"" + b + "\"";
    }
    if QuotedMatch(l) {
      var b :| IsQuotedBody(b) && l == "\"" + b + "\"";
      assert l[1..|l| - 1] == b;
    }
  }

  lemma LocalIff(l: string)
    ensures IsLocalPart(l) <==> LocalMatch(l)
  {
    DotAtomIff(l);
    QuotedIff(l);
  }

  lemma JoinFour(a: string, b: string, c: string, e: string)
    ensures JoinDots([a, b, c, e]) == a + "." + b + "." + c + "." + e
  {
    assert [a, b, c, e][1..] == [b, c, e];
    assert [b, c, e][1..] == [c, e];
    assert [c, e][1..] == [e];
    assert JoinDots([c, e]) == c + "." + e;
    assert JoinDots([b, c, e]) == b + "." + (c + "." + e);
    assert JoinDots([a, b, c, e]) == a + "." + (b + "." + (c + "." + e));
  }

  lemma OctetDotFree(a: string)
    requires IsOctet(a)
    ensures '.' !in a && '@' !in a
  {
    forall i | 0 <= i < |a| ensures a[i] != '.' && a[i] != '@' {
      assert IsAsciiDigit(a[i]);
    }
  }

  /** The IPv4 literal is the four groups dot-joined inside brackets. */
  lemma IpLiteralJoin(a: string, b: string, c: string, e: string)
    ensures IpLiteral(a, b, c, e) == "[" + JoinDots([a, b, c, e]) + "]"
  {
    JoinFour(a, b, c, e);
  }

  lemma IpLiteralSound(d: string)
    requires IsIpLiteral(d)
    ensures IpLiteralMatch(d)
  {
    var inner := d[1..|d| - 1];
    var gs := SplitDots(inner);
    assert gs == [gs[0], gs[1], gs[2], gs[3]];
    IpLiteralJoin(gs[0], gs[1], gs[2], gs[3]);
    assert d == "[" + inner + "]";
    assert IsOctet(gs[0]) && IsOctet(gs[1]) && IsOctet(gs[2]) && IsOctet(gs[3]);
  }

  lemma IpLiteralComplete(d: string)
    requires IpLiteralMatch(d)
    ensures IsIpLiteral(d)
  {
    var a, b, c, e :|
      IsOctet(a) && IsOctet(b) && IsOctet(c) && IsOctet(e) && d == IpLiteral(a, b, c, e);
    var gs := [a, b, c, e];
    IpLiteralJoin(a, b, c, e);
    OctetDotFree(a); OctetDotFree(b); OctetDotFree(c); OctetDotFree(e);
    SplitJoin(gs);
    assert d[1..|d| - 1] == JoinDots(gs);
  }

  /** The IPv4-literal check accepts exactly `\[d{1,3}\.d{1,3}\.d{1,3}\.d{1,3}\]`. */
  lemma IpLiteralIff(d: string)
    ensures IsIpLiteral(d) <==> IpLiteralMatch(d)
  {
    if IsIpLiteral(d) {
      IpLiteralSound(d);
    }
    if IpLiteralMatch(d) {
      IpLiteralComplete(d);
    }
  }

  /** `(label\.)+tld` is the dot-join of the labels followed by the tld. */
  lemma {:induction false} LabelledJoin(labels: seq<string>, tld: string)
    ensures Labelled(labels) + tld == JoinDots(labels + [tld])
    decreases |labels|
  {
    if |labels| > 0 {
      LabelledJoin(labels[1..], tld);
      assert (labels + [tld])[1..] == labels[1..] + [tld];
    }
  }

  lemma LabelDotFree(a: string)
    requires IsLabel(a) || IsTld(a)
    ensures '.' !in a && '@' !in a
  {
    forall i | 0 <= i < |a| ensures a[i] != '.' && a[i] != '@' {
      if IsTld(a) {
        assert IsAsciiLetter(a[i]);
      } else {
        assert IsLabelChar(a[i]);
      }
    }
  }

  /** The hostname check accepts exactly `([a-z0-9-]+\.)+[a-z]{2,}` (either case). */
  lemma HostnameIff(d: string)
    ensures IsHostname(d) <==> HostnameMatch(d)
  {
    if IsHostname(d) {
      var ps := SplitDots(d);
      var labels, tld := ps[..|ps| - 1], ps[|ps| - 1];
      assert ps == labels + [tld];
      LabelledJoin(labels, tld);
      assert forall i :: 0 <= i < |labels| ==> IsLabel(labels[i]);
    }
    if HostnameMatch(d) {
      var labels: seq<string>, tld :|
        && |labels| >= 1
        && (forall i :: 0 <= i < |labels| ==> IsLabel(labels[i]))
        && IsTld(tld)
        && d == Labelled(labels) + tld;
      var ps := labels + [tld];
      LabelledJoin(labels, tld);
      forall i | 0 <= i < |ps| ensures '.' !in ps[i] {
        LabelDotFree(ps[i]);
      }
      SplitJoin(ps);
      assert SplitDots(d) == ps;
    }
  }

  lemma DomainIff(d: string)
    ensures IsDomain(d) <==> DomainMatch(d)
  {
    IpLiteralIff(d);
    HostnameIff(d);
  }

  /** No accepted domain contains `@`, which is why splitting at the last `@`
      loses nothing. */
  lemma DomainHasNoAt(d: string)
    requires IsDomain(d)
    ensures '@' !in d
  {
    if IsHostname(d) {
      var ps := SplitDots(d);
      JoinDotsChars(ps, '@');
      forall i | 0 <= i < |ps| ensures '@' !in ps[i] {
        LabelDotFree(ps[i]);
      }
    } else {
      var inner := d[1..|d| - 1];
      var gs := SplitDots(inner);
      JoinDotsChars(gs, '@');
      forall i | 0 <= i < |gs| ensures '@' !in gs[i] {
        OctetDotFree(gs[i]);
      }
      assert d == "[" + inner + "]";
    }
  }

  lemma PatternSound(t: string)
    requires MatchesEmailPattern(t)
    ensures EmailMatch(t)
  {
    var k := LastIndexOf(t, '@');
    LocalIff(LocalOf(t));
    DomainIff(DomainOf(t));
    assert 0 <= k < |t| && t[k] == '@' && LocalMatch(t[..k]) && DomainMatch(t[k + 1..]);
  }

  lemma PatternComplete(t: string)
    requires EmailMatch(t)
    ensures MatchesEmailPattern(t)
  {
    var k :| 0 <= k < |t| && t[k] == '@' && LocalMatch(t[..k]) && DomainMatch(t[k + 1..]);
    LocalIff(t[..k]);
    DomainIff(t[k + 1..]);
    DomainHasNoAt(t[k + 1..]);
    LastIndexOfUnique(t, '@', k);
    assert LocalOf(t) == t[..k] && DomainOf(t) == t[k + 1..];
  }

  /** Splitting at the last `@` decides the anchored expression exactly. */
  lemma PatternMatchesRegex(t: string)
    ensures MatchesEmailPattern(t) <==> EmailMatch(t)
  {
    if MatchesEmailPattern(t) {
      PatternSound(t);
    }
    if EmailMatch(t) {
      PatternComplete(t);
    }
  }
}
