/**
 A declarative reading of the expression `validateEmail` tests its (lowercased)
 input against:

   ^(([^<>()[\]\\.,;:\s@"]+(\.[^<>()[\]\\.,;:\s@"]+)*)|(".+"))
    @((\[[0-9]{1,3}\.[0-9]{1,3}\.[0-9]{1,3}\.[0-9]{1,3}\])|(([a-zA-Z\-0-9]+\.)+[a-zA-Z]{2,}))$

 Each ghost predicate below says, with existentials, that the string is built
 the way the corresponding sub-expression builds strings. A backtracking
 matcher tries every such decomposition, so the expression accepts a string
 exactly when one exists. The expression carries no flags: `.` refuses line
 terminators and `$` only matches at the very end.
 */
module EmailRegex {
  import opened JsText
  import opened Dotted

  /** `[^<>()[\]\\.,;:\s@"]` */
  predicate IsAtomChar(c: char) {
    c !in "<>()[]\\.,;:@\"" && !IsJsWhitespace(c)
  }

  /** `[a-zA-Z\-0-9]` */
  predicate IsLabelChar(c: char) {
    IsAsciiLetter(c) || c == '-' || IsAsciiDigit(c)
  }

  /** `[^<>()[\]\\.,;:\s@"]+` */
  predicate IsAtom(a: string) {
    |a| >= 1 && forall i :: 0 <= i < |a| ==> IsAtomChar(a[i])
  }

  /** `[a-zA-Z\-0-9]+` */
  predicate IsLabel(a: string) {
    |a| >= 1 && forall i :: 0 <= i < |a| ==> IsLabelChar(a[i])
  }

  /** `[a-zA-Z]{2,}` */
  predicate IsTld(a: string) {
    |a| >= 2 && forall i :: 0 <= i < |a| ==> IsAsciiLetter(a[i])
  }

  /** `[0-9]{1,3}` */
  predicate IsOctet(a: string) {
    1 <= |a| <= 3 && forall i :: 0 <= i < |a| ==> IsAsciiDigit(a[i])
  }

  /** `.+`: one or more characters, none a line terminator. */
  predicate IsQuotedBody(b: string) {
    |b| >= 1 && forall i :: 0 <= i < |b| ==> !IsLineTerminator(b[i])
  }

  /** `(label\.)+` as a string: every label followed by its dot. */
  function Labelled(labels: seq<string>): string {
    if |labels| == 0 then "" else labels[0] + "." + Labelled(labels[1..])
  }

  /** The four groups of `\[d\.d\.d\.d\]` put together. */
  function IpLiteral(a: string, b: string, c: string, d: string): string {
    "[" + a + "." + b + "." + c + "." + d + "]"
  }

  /** `atom(\.atom)*` */
  ghost predicate DotAtomMatch(l: string) {
    exists atoms: seq<string> ::
      && |atoms| >= 1
      && (forall i :: 0 <= i < |atoms| ==> IsAtom(atoms[i]))
      && l == JoinDots(atoms)
  }

  /** `".+"` */
  ghost predicate QuotedMatch(l: string) {
    exists b :: IsQuotedBody(b) && l == "\"" + b + "\""
  }

  /** The local part: the first alternative of the first group. */
  ghost predicate LocalMatch(l: string) {
    DotAtomMatch(l) || QuotedMatch(l)
  }

  /** `\[[0-9]{1,3}\.[0-9]{1,3}\.[0-9]{1,3}\.[0-9]{1,3}\]` */
  ghost predicate IpLiteralMatch(d: string) {
    exists a, b, c, e ::
      IsOctet(a) && IsOctet(b) && IsOctet(c) && IsOctet(e) && d == IpLiteral(a, b, c, e)
  }

  /** `([a-zA-Z\-0-9]+\.)+[a-zA-Z]{2,}` */
  ghost predicate HostnameMatch(d: string) {
    exists labels: seq<string>, tld ::
      && |labels| >= 1
      && (forall i :: 0 <= i < |labels| ==> IsLabel(labels[i]))
      && IsTld(tld)
      && d == Labelled(labels) + tld
  }

  /** The domain: the group after `@`. */
  ghost predicate DomainMatch(d: string) {
    IpLiteralMatch(d) || HostnameMatch(d)
  }

  /** The whole anchored expression. */
  ghost predicate EmailMatch(s: string) {
    exists k :: 0 <= k < |s| && s[k] == '@' && LocalMatch(s[..k]) && DomainMatch(s[k + 1..])
  }
}
