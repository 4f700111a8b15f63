/**
 What `validateEmail` (ContactForm/index.js, lines 49-52) accepts and rejects,
 stated over the raw input: lowercasing happens inside the check, so every
 statement holds whatever the case of the letters.
 */
module EmailProperties {
  import opened JsText
  import opened Dotted
  import opened EmailRegex
  import opened EmailValidator

  // ----- Lowercasing and the building blocks of the expression -----

  function LowerAll(ps: seq<string>): (qs: seq<string>)
    ensures |qs| == |ps|
    ensures forall i :: 0 <= i < |ps| ==> qs[i] == Lower(ps[i])
  {
    seq(|ps|, i requires 0 <= i < |ps| => Lower(ps[i]))
  }

  lemma LowerKeepsAtomChar(c: char)
    ensures IsAtomChar(LowerChar(c)) <==> IsAtomChar(c)
    ensures IsLabelChar(LowerChar(c)) <==> IsLabelChar(c)
  {
    LowerKeepsClasses(c);
  }

  /** Every token class of the expression is closed under lowercasing, in
      both directions. */
  lemma LowerKeepsTokens(a: string)
    ensures IsAtom(Lower(a)) <==> IsAtom(a)
    ensures IsLabel(Lower(a)) <==> IsLabel(a)
    ensures IsTld(Lower(a)) <==> IsTld(a)
    ensures IsOctet(Lower(a)) <==> IsOctet(a)
    ensures IsQuotedBody(Lower(a)) <==> IsQuotedBody(a)
  {
    forall i | 0 <= i < |a|
      ensures IsAtomChar(Lower(a)[i]) <==> IsAtomChar(a[i])
      ensures IsLabelChar(Lower(a)[i]) <==> IsLabelChar(a[i])
      ensures IsAsciiLetter(Lower(a)[i]) <==> IsAsciiLetter(a[i])
      ensures IsAsciiDigit(Lower(a)[i]) <==> IsAsciiDigit(a[i])
      ensures IsLineTerminator(Lower(a)[i]) <==> IsLineTerminator(a[i])
    {
      LowerKeepsAtomChar(a[i]);
      LowerKeepsClasses(a[i]);
    }
  }

  lemma {:induction false} LowerJoin(ps: seq<string>)
    requires |ps| >= 1
    ensures Lower(JoinDots(ps)) == JoinDots(LowerAll(ps))
    decreases |ps|
  {
    if |ps| > 1 {
      LowerJoin(ps[1..]);
      LowerAppend(ps[0] + ".", JoinDots(ps[1..]));
      LowerAppend(ps[0], ".");
      assert LowerAll(ps)[1..] == LowerAll(ps[1..]);
    }
  }

  lemma {:induction false} LowerLabelled(labels: seq<string>)
    ensures Lower(Labelled(labels)) == Labelled(LowerAll(labels))
    decreases |labels|
  {
    if |labels| > 0 {
      LowerLabelled(labels[1..]);
      LowerAppend(labels[0] + ".", Labelled(labels[1..]));
      LowerAppend(labels[0], ".");
      assert LowerAll(labels)[1..] == LowerAll(labels[1..]);
    }
  }

  /** Lowercasing an address lowercases its two sides and keeps the `@`. */
  lemma LowerAddress(local: string, domain: string)
    ensures Lower(local + "@" + domain) == Lower(local) + "@" + Lower(domain)
  {
    LowerAppend(local + "@", domain);
    LowerAppend(local, "@");
  }

  // ----- Case -----

  /** Case does not matter: an address and its lowercase get the same
      verdict. */
  lemma CaseInsensitive(s: string)
    ensures ValidateEmail(s) == ValidateEmail(Lower(s))
  {
    LowerIdempotent(s);
  }

  /** Two inputs that differ only in the case of ASCII letters get the same
      verdict. */
  lemma SameVerdictUpToCase(s: string, t: string)
    requires Lower(s) == Lower(t)
    ensures ValidateEmail(s) == ValidateEmail(t)
  {
  }

  // ----- Where the input is split -----

  /** An address whose domain has no `@` splits at the `@` written before
      the domain, whatever the local part contains. */
  lemma SplitsBeforeDomain(local: string, domain: string)
    requires '@' !in domain
    ensures var t := Lower(local + "@" + domain);
      '@' in t && LocalOf(t) == Lower(local) && DomainOf(t) == Lower(domain)
  {
    var t := Lower(local + "@" + domain);
    LowerAddress(local, domain);
    assert t[|local| + 1..] == Lower(domain);
    assert '@' !in Lower(domain) by {
      forall i | 0 <= i < |domain| ensures Lower(domain)[i] != '@' {
        assert domain[i] in domain;
      }
    }
    assert t[|local|] == '@';
    LastIndexOfUnique(t, '@', |local|);
  }

  // ----- Rejections -----

  /** A string without `@` is rejected; the empty string is one. */
  lemma RejectsWithoutAt(s: string)
    requires '@' !in s
    ensures !ValidateEmail(s)
  {
    ValidateEmailSplitsAtLastAt(s);
    forall i | 0 <= i < |s| ensures Lower(s)[i] != '@' {
      assert s[i] in s;
    }
  }

  /** With no `@` in the domain, the verdict is the local-part check on the
      lowercased local part and the domain check on the lowercased domain. */
  lemma VerdictOfAddress(local: string, domain: string)
    requires '@' !in domain
    ensures ValidateEmail(local + "@" + domain) ==
      (IsLocalPart(Lower(local)) && IsDomain(Lower(domain)))
  {
    SplitsBeforeDomain(local, domain);
    ValidateEmailSplitsAtLastAt(local + "@" + domain);
  }

  /** Lowercasing neither adds nor removes a non-letter. */
  lemma LowerKeepsAbsent(s: string, c: char)
    requires !IsAsciiLetter(c)
    ensures c in Lower(s) <==> c in s
  {
    if c in s {
      var i :| 0 <= i < |s| && s[i] == c;
      assert Lower(s)[i] == c;
    }
    if c in Lower(s) {
      var i :| 0 <= i < |s| && Lower(s)[i] == c;
      LowerKeepsClasses(s[i]);
      assert s[i] == c;
    }
  }

  lemma DotlessNotDomain(d: string)
    requires '.' !in d
    ensures !IsDomain(d)
  {
    SplitDotFree(d);
    if |d| >= 2 {
      var inner := d[1..|d| - 1];
      assert '.' !in inner by {
        forall i | 0 <= i < |inner| ensures inner[i] != '.' {
          assert inner[i] == d[i + 1] && d[i + 1] in d;
        }
      }
      SplitDotFree(inner);
    }
  }

  /** A domain without a dot is rejected (no hostname is a single label, and
      an IPv4 literal has three dots). */
  lemma RejectsDotlessDomain(local: string, domain: string)
    requires '@' !in domain && '.' !in domain
    ensures !ValidateEmail(local + "@" + domain)
  {
    VerdictOfAddress(local, domain);
    LowerKeepsAbsent(domain, '.');
    DotlessNotDomain(Lower(domain));
  }

  lemma BadTldNotDomain(h: string, q: string)
    requires '.' !in q && !IsTld(q)
    requires |q| == 0 || q[|q| - 1] != ']'
    ensures !IsDomain(h + "." + q)
  {
    var d := h + "." + q;
    SplitDotFreeSuffix(h, q);
    assert d[|d| - 1] == if |q| > 0 then q[|q| - 1] else '.';
  }

  lemma LowerDotted(host: string, tld: string)
    ensures Lower(host + "." + tld) == Lower(host) + "." + Lower(tld)
  {
    LowerAppend(host + ".", tld);
    LowerAppend(host, ".");
  }

  lemma LowerKeepsBadTld(tld: string)
    requires '.' !in tld && !IsTld(tld)
    requires |tld| == 0 || tld[|tld| - 1] != ']'
    ensures var lt := Lower(tld);
      '.' !in lt && !IsTld(lt) && (|lt| == 0 || lt[|lt| - 1] != ']')
  {
    LowerKeepsAbsent(tld, '.');
    LowerKeepsTokens(tld);
    if |tld| > 0 {
      LowerKeepsClasses(tld[|tld| - 1]);
    }
  }

  /** A hostname whose final label is not two or more letters is rejected:
      `b.c` (too short) and `b.c1` (a digit) both fail. A domain ending in
      `]` is left out because it may be an IPv4 literal. */
  lemma RejectsBadFinalLabel(local: string, host: string, tld: string)
    requires '@' !in host && '@' !in tld
    requires '.' !in tld
    requires !IsTld(tld)
    requires |tld| == 0 || tld[|tld| - 1] != ']'
    ensures !ValidateEmail(local + "@" + host + "." + tld)
  {
    var domain := host + "." + tld;
    assert local + "@" + host + "." + tld == local + "@" + domain;
    VerdictOfAddress(local, domain);
    LowerDotted(host, tld);
    LowerKeepsBadTld(tld);
    BadTldNotDomain(Lower(host), Lower(tld));
  }

  /** An unquoted local part is accepted exactly when it is well dotted (not
      empty, no leading, trailing or doubled dot) and every other character
      is an atom character. */
  lemma {:induction false} DotAtomShape(l: string)
    ensures IsDotAtom(l) <==>
      WellDotted(l) && forall i :: 0 <= i < |l| ==> l[i] == '.' || IsAtomChar(l[i])
  {
    var ps := SplitDots(l);
    SplitWellDotted(l);
    var charsOk := forall i :: 0 <= i < |l| ==> l[i] == '.' || IsAtomChar(l[i]);
    var piecesOk := forall j, k :: 0 <= j < |ps| && 0 <= k < |ps[j]| ==> IsAtomChar(ps[j][k]);
    assert charsOk <==> piecesOk by {
      if charsOk {
        forall j, k | 0 <= j < |ps| && 0 <= k < |ps[j]| ensures IsAtomChar(ps[j][k]) {
          var c := ps[j][k];
          assert c in ps[j];
          assert c != '.';
          JoinDotsChars(ps, c);
          assert c in l;
        }
      }
      if piecesOk {
        forall i | 0 <= i < |l| && l[i] != '.' ensures IsAtomChar(l[i]) {
          JoinDotsChars(ps, l[i]);
          assert l[i] in JoinDots(ps);
        }
      }
    }
  }

  /** An address whose unquoted local part has a leading, trailing or doubled
      dot (or is empty) is rejected. */
  lemma RejectsBadDots(local: string, domain: string)
    requires '@' !in domain
    requires |local| == 0 || local[0] != '"'
    requires !WellDotted(local)
    ensures !ValidateEmail(local + "@" + domain)
  {
    VerdictOfAddress(local, domain);
    var l := Lower(local);
    forall i | 0 <= i < |local| ensures (l[i] == '.') == (local[i] == '.') {
      LowerKeepsClasses(local[i]);
    }
    assert !WellDotted(l);
    DotAtomShape(l);
    if |local| > 0 {
      LowerKeepsClasses(local[0]);
    }
  }

  // ----- Acceptances -----

  /** Every `atom(.atom)*@label.….tld` address is accepted, in any mix of
      case. */
  lemma AcceptsDotAtomAtHostname(atoms: seq<string>, labels: seq<string>, tld: string)
    requires |atoms| >= 1 && forall i :: 0 <= i < |atoms| ==> IsAtom(atoms[i])
    requires |labels| >= 1 && forall i :: 0 <= i < |labels| ==> IsLabel(labels[i])
    requires IsTld(tld)
    ensures ValidateEmail(JoinDots(atoms) + "@" + Labelled(labels) + tld)
  {
    var local, domain := JoinDots(atoms), Labelled(labels) + tld;
    assert JoinDots(atoms) + "@" + Labelled(labels) + tld == local + "@" + domain;
    var t := Lower(local + "@" + domain);
    LowerAddress(local, domain);
    LowerJoin(atoms);
    LowerLabelled(labels);
    LowerAppend(Labelled(labels), tld);
    var la, ll := LowerAll(atoms), LowerAll(labels);
    forall i | 0 <= i < |atoms| ensures IsAtom(la[i]) {
      LowerKeepsTokens(atoms[i]);
    }
    forall i | 0 <= i < |labels| ensures IsLabel(ll[i]) {
      LowerKeepsTokens(labels[i]);
    }
    LowerKeepsTokens(tld);
    assert DotAtomMatch(Lower(local));
    assert HostnameMatch(Lower(domain));
    var k := |local|;
    assert t[..k] == Lower(local) && t[k] == '@' && t[k + 1..] == Lower(domain);
    assert EmailMatch(t);
    ValidateEmailMatchesRegex(local + "@" + domain);
  }

  /** A quoted local part may hold any characters but line terminators,
      including `@` and `"`, before any accepted domain. */
  lemma AcceptsQuotedLocal(body: string, domain: string)
    requires IsQuotedBody(body)
    requires IsDomain(Lower(domain))
    ensures ValidateEmail("\"" + body + "\"" + "@" + domain)
  {
    DomainHasNoAt(Lower(domain));
    LowerKeepsAbsent(domain, '@');
    VerdictOfAddress("\"" + body + "\"", domain);
    QuotedLowered(body);
  }

  lemma QuotedLowered(body: string)
    requires IsQuotedBody(body)
    ensures IsQuoted(Lower("\"" + body + "\""))
  {
    var q := "\"";
    assert Lower(q) == q;
    LowerAppend(q + body, q);
    LowerAppend(q, body);
    var l := Lower(q + body + q);
    assert l == q + Lower(body) + q;
    assert l[1..|l| - 1] == Lower(body);
    assert l[0] == '"' && l[|l| - 1] == '"';
    LowerKeepsTokens(body);
  }

  lemma IpLiteralLowered(a: string, b: string, c: string, e: string)
    requires IsOctet(a) && IsOctet(b) && IsOctet(c) && IsOctet(e)
    ensures Lower(IpLiteral(a, b, c, e)) == IpLiteral(a, b, c, e)
  {
    var domain := IpLiteral(a, b, c, e);
    LowerFixesLowered(domain);
    IpLiteralJoin(a, b, c, e);
    var inner := JoinDots([a, b, c, e]);
    assert domain == "[" + inner + "]";
    forall i | 0 <= i < |domain| ensures !IsAsciiUpper(domain[i]) {
      if 0 < i < |domain| - 1 && inner[i - 1] != '.' {
        assert domain[i] == inner[i - 1];
        JoinDotsChars([a, b, c, e], inner[i - 1]);
        var j :| 0 <= j < 4 && inner[i - 1] in [a, b, c, e][j];
        var o := [a, b, c, e][j];
        var k :| 0 <= k < |o| && o[k] == inner[i - 1];
        assert IsAsciiDigit(o[k]);
      }
    }
  }

  /** The groups of an IPv4 literal are only counted, not range-checked:
      any one to three digits per group are accepted. */
  lemma AcceptsAnyIpGroups(local: string, a: string, b: string, c: string, e: string)
    requires IsAtom(local)
    requires IsOctet(a) && IsOctet(b) && IsOctet(c) && IsOctet(e)
    ensures ValidateEmail(local + "@" + IpLiteral(a, b, c, e))
  {
    var domain := IpLiteral(a, b, c, e);
    IpLiteralComplete(domain);
    DomainHasNoAt(domain);
    VerdictOfAddress(local, domain);
    IpLiteralLowered(a, b, c, e);
    LowerKeepsTokens(local);
    AtomDotFree(Lower(local));
    SplitDotFree(Lower(local));
  }
}
