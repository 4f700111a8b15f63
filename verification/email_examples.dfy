/**
 Concrete verdicts of `validateEmail` on the inputs that show its edges, each
 derived from the general statements in `EmailProperties`.
 */
module EmailExamples {
  import opened JsText
  import opened Dotted
  import opened EmailRegex
  import opened EmailValidator
  import opened EmailProperties

  /** The empty string and a string without `@` are rejected. */
  lemma RejectsEmptyAndAtless()
    ensures !ValidateEmail("")
    ensures !ValidateEmail("ana.example.com")
  {
    RejectsWithoutAt("");
    RejectsWithoutAt("ana.example.com");
  }

  /** `a@localhost`: a domain needs a dot. */
  lemma RejectsLocalhost()
    ensures !ValidateEmail("a@localhost")
  {
    RejectsDotlessDomain("a", "localhost");
    assert "a" + "@" + "localhost" == "a@localhost";
  }

  /** `a@b.c` and `a@b.c1`: the final label must be two or more letters. */
  lemma RejectsShortOrDigitTld()
    ensures !ValidateEmail("a@b.c")
    ensures !ValidateEmail("a@b.c1")
  {
    RejectsBadFinalLabel("a", "b", "c");
    assert "a" + "@" + "b" + "." + "c" == "a@b.c";
    assert IsAsciiDigit("c1"[1]);
    RejectsBadFinalLabel("a", "b", "c1");
    assert "a" + "@" + "b" + "." + "c1" == "a@b.c1";
  }

  /** A leading, trailing or doubled dot in an unquoted local part. */
  lemma RejectsMisplacedDots()
    ensures !ValidateEmail(".a@b.co")
    ensures !ValidateEmail("a.@b.co")
    ensures !ValidateEmail("a..b@b.co")
  {
    RejectsBadDots(".a", "b.co");
    assert ".a" + "@" + "b.co" == ".a@b.co";
    RejectsBadDots("a.", "b.co");
    assert "a." + "@" + "b.co" == "a.@b.co";
    assert "a..b"[1] == '.' && "a..b"[2] == '.';
    RejectsBadDots("a..b", "b.co");
    assert "a..b" + "@" + "b.co" == "a..b@b.co";
  }

  /** `a@[999.1.1.1]`: no group is range-checked. */
  lemma AcceptsUncheckedIpGroup()
    ensures ValidateEmail("a@[999.1.1.1]")
  {
    var s := "a" + "@" + IpLiteral("999", "1", "1", "1");
    assert s == "a@[999.1.1.1]";
    assert ValidateEmail(s) by {
      AcceptsAnyIpGroups("a", "999", "1", "1", "1");
    }
  }

  /** `"a@b"c"@x.io`: a quoted local part may contain `@` and `"`. */
  lemma AcceptsQuotedWithAtAndQuote()
    ensures ValidateEmail("\"a@b\"c\"@x.io")
  {
    var domain := "x.io";
    assert IsDomain(Lower(domain)) by {
      assert Lower(domain) == domain by { LowerFixesLowered(domain); }
      assert Labelled(["x"]) + "io" == domain;
      assert IsLabel(["x"][0]) && IsTld("io");
      HostnameIff(domain);
    }
    var s := "\"" + "a@b\"c" + "\"" + "@" + domain;
    assert s == "\"a@b\"c\"@x.io";
    assert ValidateEmail(s) by {
      AcceptsQuotedLocal("a@b\"c", domain);
    }
  }

  /** `a@-b-.-.co`: a hostname label may start and end with `-`, or be
      nothing but `-`. */
  lemma AcceptsHyphenEdgedLabel()
    ensures ValidateEmail("a@-b-.-.co")
  {
    var s := JoinDots(["a"]) + "@" + Labelled(["-b-", "-"]) + "co";
    assert ["-b-", "-"][1..] == ["-"];
    assert s == "a@-b-.-.co";
    assert ValidateEmail(s) by {
      AcceptsDotAtomAtHostname(["a"], ["-b-", "-"], "co");
    }
  }

  /** `Ana@Example.COM` gets the verdict of its lowercase, `ana@example.com`. */
  lemma AcceptsMixedCase()
    ensures ValidateEmail("Ana@Example.COM")
  {
    var s, t := "Ana@Example.COM", "ana@example.com";
    assert Lower(s) == t by {
      forall i | 0 <= i < |s| ensures Lower(s)[i] == t[i] {
      }
    }
    assert Lower(t) == t by {
      LowerFixesLowered(t);
    }
    AcceptsPlainAddress();
    SameVerdictUpToCase(s, t);
  }

  /** `ana@example.com`, the address of the form's happy path. */
  lemma AcceptsPlainAddress()
    ensures ValidateEmail("ana@example.com")
  {
    var s := JoinDots(["ana"]) + "@" + Labelled(["example"]) + "com";
    assert s == "ana@example.com";
    assert ValidateEmail(s) by {
      AcceptsDotAtomAtHostname(["ana"], ["example"], "com");
    }
  }
}
