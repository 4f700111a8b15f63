/**
 Strings made of pieces separated by `.`. Three parts of the email expression
 have this shape: the unquoted local part (`atom(\.atom)*`), the hostname
 (`(label\.)+tld`) and the bracketed IPv4 literal (`d.d.d.d`). `JoinDots` is
 how the expression builds such a string, `SplitDots` is how the recogniser
 takes one apart, and the two are inverse to each other.
 */
module Dotted {

  /** No piece contains a dot. */
  predicate DotFree(ps: seq<string>) {
    forall i :: 0 <= i < |ps| ==> '.' !in ps[i]
  }

  /** No piece is empty. */
  predicate AllNonEmpty(ps: seq<string>) {
    forall i :: 0 <= i < |ps| ==> |ps[i]| > 0
  }

  /** `ps[0] + "." + ps[1] + "." + ... + ps[|ps|-1]`. */
  function JoinDots(ps: seq<string>): string
    requires |ps| >= 1
  {
    if |ps| == 1 then ps[0] else ps[0] + "." + JoinDots(ps[1..])
  }

  /** The pieces of `s` between its dots, in order: the dot-free pieces that
      join back to `s`. A string with `n` dots has `n + 1` pieces, some of them
      possibly empty. */
  function SplitDots(s: string): (ps: seq<string>)
    ensures |ps| >= 1
    ensures DotFree(ps)
    ensures JoinDots(ps) == s
  {
    if |s| == 0 then [""]
    else
      var rest := SplitDots(s[1..]);
      if s[0] == '.' then
        assert s == "." + JoinDots(rest);
        [""] + rest
      else
        var ps := [[s[0]] + rest[0]] + rest[1..];
        assert ps[1..] == rest[1..];
        ps
  }

  /** A dot-free string is a single piece. */
  lemma {:induction false} SplitDotFree(p: string)
    requires '.' !in p
    ensures SplitDots(p) == [p]
    decreases |p|
  {
    if |p| > 0 {
      SplitDotFree(p[1..]);
      assert [p[0]] + p[1..] == p;
    }
  }

  /** Splitting a dot-free piece followed by a dot and more text yields that
      piece followed by the pieces of the rest. */
  lemma {:induction false} SplitDotFreePrefix(p: string, t: string)
    requires '.' !in p
    ensures SplitDots(p + "." + t) == [p] + SplitDots(t)
    decreases |p|
  {
    var s := p + "." + t;
    if |p| == 0 {
      assert s[1..] == t;
    } else {
      assert s[1..] == p[1..] + "." + t;
      SplitDotFreePrefix(p[1..], t);
      assert [p[0]] + p[1..] == p;
    }
  }

  /** Splitting undoes joining, provided no piece contains a dot. */
  lemma {:induction false} SplitJoin(ps: seq<string>)
    requires |ps| >= 1
    requires DotFree(ps)
    ensures SplitDots(JoinDots(ps)) == ps
    decreases |ps|
  {
    if |ps| == 1 {
      SplitDotFree(ps[0]);
    } else {
      SplitJoin(ps[1..]);
      SplitDotFreePrefix(ps[0], JoinDots(ps[1..]));
      assert [ps[0]] + ps[1..] == ps;
    }
  }

  /** `s` is non-empty, neither starts nor ends with a dot, and has no two
      dots in a row. */
  predicate WellDotted(s: string) {
    && |s| > 0
    && s[0] != '.'
    && s[|s| - 1] != '.'
    && forall i :: 0 <= i < |s| - 1 && s[i] == '.' ==> s[i + 1] != '.'
  }

  /** Joining dot-free pieces gives a well-dotted string exactly when none of
      the pieces is empty. */
  lemma {:induction false} JoinWellDotted(ps: seq<string>)
    requires |ps| >= 1
    requires DotFree(ps)
    ensures AllNonEmpty(ps) <==> WellDotted(JoinDots(ps))
    decreases |ps|
  {
    if |ps| == 1 {
      DotFreeWellDotted(ps[0]);
    } else {
      var p, rest := ps[0], JoinDots(ps[1..]);
      var s := p + "." + rest;
      assert JoinDots(ps) == s;
      assert '.' !in p;
      JoinWellDotted(ps[1..]);
      assert AllNonEmpty(ps) <==> |p| > 0 && AllNonEmpty(ps[1..]) by {
        if |p| > 0 && AllNonEmpty(ps[1..]) {
          forall i | 0 <= i < |ps| ensures |ps[i]| > 0 {
            if i > 0 { assert ps[i] == ps[1..][i - 1]; }
          }
        }
        if AllNonEmpty(ps) {
          forall i | 0 <= i < |ps[1..]| ensures |ps[1..][i]| > 0 {
            assert ps[1..][i] == ps[i + 1];
          }
        }
      }
      if WellDotted(s) {
        assert s[0] == if |p| > 0 then p[0] else '.';
        assert s[|s| - 1] == if |rest| > 0 then rest[|rest| - 1] else '.';
        assert s[|p|] == '.' && s[|p| + 1] == rest[0];
        assert s[|s| - 1] == rest[|rest| - 1];
        forall i | 0 <= i < |rest| - 1 && rest[i] == '.'
          ensures rest[i + 1] != '.'
        {
          assert s[|p| + 1 + i] == rest[i];
          assert s[|p| + 1 + i + 1] == rest[i + 1];
        }
      }
      if |p| > 0 && WellDotted(rest) {
        assert s[|s| - 1] == rest[|rest| - 1];
        forall i | 0 <= i < |p| ensures s[i] != '.' {
          assert s[i] == p[i] && p[i] in p;
        }
        forall i | |p| <= i < |s| - 1 && s[i] == '.' ensures s[i + 1] != '.' {
          if i == |p| {
            assert s[i + 1] == rest[0];
          } else {
            assert s[i] == rest[i - |p| - 1];
            assert s[i + 1] == rest[i - |p|];
          }
        }
      }
    }
  }

  /** A dot-free string is well dotted exactly when it is non-empty. */
  lemma DotFreeWellDotted(p: string)
    requires '.' !in p
    ensures |p| > 0 <==> WellDotted(p)
  {
    forall i | 0 <= i < |p| ensures p[i] != '.' {
      assert p[i] in p;
    }
  }

  /** The pieces of `s` are all non-empty exactly when `s` is well dotted. */
  lemma SplitWellDotted(s: string)
    ensures AllNonEmpty(SplitDots(s)) <==> WellDotted(s)
  {
    JoinWellDotted(SplitDots(s));
  }

  /** A character other than the dot occurs in a joined string exactly when
      it occurs in one of the pieces. */
  lemma {:induction false} JoinDotsChars(ps: seq<string>, c: char)
    requires |ps| >= 1
    requires c != '.'
    ensures c in JoinDots(ps) <==> exists i :: 0 <= i < |ps| && c in ps[i]
    decreases |ps|
  {
    if |ps| > 1 {
      JoinDotsChars(ps[1..], c);
      var rest := JoinDots(ps[1..]);
      assert JoinDots(ps) == ps[0] + "." + rest;
      if c in rest {
        var i :| 0 <= i < |ps[1..]| && c in ps[1..][i];
        assert c in ps[i + 1];
      }
      if exists i :: 0 <= i < |ps| && c in ps[i] {
        var i :| 0 <= i < |ps| && c in ps[i];
        if i > 0 {
          assert ps[1..][i - 1] == ps[i];
        }
      }
    }
  }

  /** A dot followed by a dot-free tail ends the split with that tail. */
  lemma {:induction false} SplitDotFreeSuffix(p: string, q: string)
    requires '.' !in q
    ensures SplitDots(p + "." + q) == SplitDots(p) + [q]
    decreases |p|
  {
    var s := p + "." + q;
    if |p| == 0 {
      assert s[1..] == q;
      SplitDotFree(q);
    } else {
      assert s[1..] == p[1..] + "." + q;
      SplitDotFreeSuffix(p[1..], q);
    }
  }
}
