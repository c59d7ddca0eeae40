/** The contact form's e-mail check, the regular expression
    `^[^\s@]+@[^\s@]+\.[^\s@]+$`: a declarative reading of the strings it accepts,
    a one-pass character scanner, and the proof that the two agree. */
module Email {
  import opened Text

  /** `[^\s@]`: a character allowed in each of the pattern's three parts. */
  predicate IsPartChar(c: char) {
    !IsSpace(c) && c != '@'
  }

  predicate AllPart(s: string) {
    forall i :: 0 <= i < |s| ==> IsPartChar(s[i])
  }

  /** `[^\s@]+` */
  predicate IsPart(s: string) {
    |s| > 0 && AllPart(s)
  }

  /** `d` has a '.' that is neither its first nor its last character. */
  predicate HasInnerDot(d: string) {
    exists k :: 0 < k < |d| - 1 && d[k] == '.'
  }

  /** `s` is `l@d` with a local part `l` and a domain `d` as the pattern demands. */
  ghost predicate EmailSplit(s: string, l: string, d: string) {
    s == l + "@" + d && IsPart(l) && IsPart(d) && HasInnerDot(d)
  }

  /** The strings the pattern accepts: a non-empty local part and a non-empty domain,
      neither holding whitespace or '@', around one '@', where the domain has a '.'
      with at least one character on each side. */
  ghost predicate IsEmail(s: string) {
    exists l, d :: EmailSplit(s, l, d)
  }

  /** `s` is `l@x.y` with three parts matching `[^\s@]+`. */
  ghost predicate PatternSplit(s: string, l: string, x: string, y: string) {
    s == l + "@" + x + "." + y && IsPart(l) && IsPart(x) && IsPart(y)
  }

  /** The pattern read literally, one existential per `+` group. */
  ghost predicate MatchesPattern(s: string) {
    exists l, x, y :: PatternSplit(s, l, x, y)
  }

  /** The literal reading of the pattern and the local-part/domain reading accept
      the same strings. */
  lemma PatternIsEmail(s: string)
    ensures MatchesPattern(s) <==> IsEmail(s)
  {
    if MatchesPattern(s) {
      var l, x, y :| PatternSplit(s, l, x, y);
      var d := x + "." + y;
      assert d[|x|] == '.';
      assert AllPart(d) by {
        forall i | 0 <= i < |d| ensures IsPartChar(d[i]) {
          if i < |x| { assert d[i] == x[i]; }
          else if i > |x| { assert d[i] == y[i - |x| - 1]; }
        }
      }
      assert s == l + "@" + d;
      assert EmailSplit(s, l, d);
    }
    if IsEmail(s) {
      var l, d :| EmailSplit(s, l, d);
      var k :| 0 < k < |d| - 1 && d[k] == '.';
      var x, y := d[..k], d[k + 1..];
      assert d == x + "." + y;
      assert IsPart(x) by {
        forall i | 0 <= i < |x| ensures IsPartChar(x[i]) { assert x[i] == d[i]; }
      }
      assert IsPart(y) by {
        forall i | 0 <= i < |y| ensures IsPartChar(y[i]) { assert y[i] == d[k + 1 + i]; }
      }
      assert s == l + "@" + x + "." + y;
      assert PatternSplit(s, l, x, y);
    }
  }

  /** Index form of a split: the '@' sits at `a`, and what precedes and follows it
      is a local part (possibly empty) and a domain. */
  predicate SplitAt(s: string, a: int) {
    && 0 <= a < |s|
    && s[a] == '@'
    && AllPart(s[..a])
    && IsPart(s[a + 1..])
    && HasInnerDot(s[a + 1..])
  }

  /** A string is an e-mail address exactly when it splits at an '@' that is not its
      first character. */
  lemma EmailIffSplitAt(s: string)
    ensures IsEmail(s) <==> exists a :: 0 < a && SplitAt(s, a)
  {
    if IsEmail(s) {
      var l, d :| EmailSplit(s, l, d);
      assert s[..|l|] == l;
      assert s[|l| + 1..] == d;
      assert SplitAt(s, |l|);
    }
    if exists a :: 0 < a && SplitAt(s, a) {
      var a :| 0 < a && SplitAt(s, a);
      assert s == s[..a] + "@" + s[a + 1..];
      assert EmailSplit(s, s[..a], s[a + 1..]);
    }
  }

  /** Every accepted address is at least five characters long, holds no whitespace,
      and holds exactly one '@'. */
  lemma EmailShape(s: string)
    requires IsEmail(s)
    ensures |s| >= 5
    ensures forall i :: 0 <= i < |s| ==> !IsSpace(s[i])
    ensures exists a :: 0 < a < |s| && s[a] == '@'
    ensures forall i, j :: 0 <= i < |s| && 0 <= j < |s| && s[i] == '@' && s[j] == '@' ==> i == j
  {
    var l, d :| EmailSplit(s, l, d);
    var a := |l|;
    assert s[a] == '@';
    forall i | 0 <= i < |s| && i != a
      ensures IsPartChar(s[i])
    {
      if i < a { assert s[i] == l[i]; } else { assert s[i] == d[i - a - 1]; }
    }
  }

  // ---------- The scanner ----------

  /** The states of a left-to-right scan of the pattern. `Local`: one or more local
      characters read; `AtSign`: the '@' just read; `Domain`: domain characters
      read but no '.' usable as the separator yet; `Dot`: that '.' just read;
      `Accept`: at least one character read after it; `Reject`: nothing can follow. */
  datatype ScanState = Start | Local | AtSign | Domain | Dot | Accept | Reject

  function Step(q: ScanState, c: char): ScanState {
    match q
    case Start => if IsPartChar(c) then Local else Reject
    case Local => if c == '@' then AtSign else if IsPartChar(c) then Local else Reject
    case AtSign => if IsPartChar(c) then Domain else Reject
    case Domain => if c == '.' then Dot else if IsPartChar(c) then Domain else Reject
    case Dot => if IsPartChar(c) then Accept else Reject
    case Accept => if IsPartChar(c) then Accept else Reject
    case Reject => Reject
  }

  /** The state reached from `q` after reading all of `s`. */
  function Scan(q: ScanState, s: string): ScanState
    decreases |s|
  {
    if s == [] then q else Scan(Step(q, s[0]), s[1..])
  }

  /** `emailPattern.test(s)`, decided by one scan; it accepts exactly the
      e-mail addresses. */
  function IsValidEmail(s: string): (ok: bool)
    ensures ok <==> IsEmail(s)
  {
    ScanAcceptsEmails(s);
    Scan(Start, s) == Accept
  }

  /** Once rejected, always rejected. */
  lemma {:induction false} ScanReject(s: string)
    ensures Scan(Reject, s) == Reject
    decreases |s|
  {
    if s != [] {
      ScanReject(s[1..]);
    }
  }

  /** From `Accept`, the rest is accepted exactly when it is all part characters. */
  lemma {:induction false} ScanAccept(s: string)
    ensures Scan(Accept, s) == Accept <==> AllPart(s)
    decreases |s|
  {
    if s != [] {
      if IsPartChar(s[0]) {
        ScanAccept(s[1..]);
        assert s == [s[0]] + s[1..];
        AllPartCons(s[0], s[1..]);
      } else {
        ScanReject(s[1..]);
      }
    }
  }

  /** From `Dot`, the rest is accepted exactly when it is a non-empty part. */
  lemma {:induction false} ScanDot(s: string)
    ensures Scan(Dot, s) == Accept <==> IsPart(s)
  {
    if s != [] {
      if IsPartChar(s[0]) {
        ScanAccept(s[1..]);
        assert s == [s[0]] + s[1..];
        AllPartCons(s[0], s[1..]);
      } else {
        ScanReject(s[1..]);
      }
    }
  }

  /** A '.' before the last character. */
  predicate DotBeforeLast(s: string) {
    exists k :: 0 <= k < |s| - 1 && s[k] == '.'
  }

  /** Prepending a part character keeps `AllPart` as it was. */
  lemma AllPartCons(c: char, t: string)
    requires IsPartChar(c)
    ensures AllPart([c] + t) <==> AllPart(t)
  {
    var s := [c] + t;
    if AllPart(t) {
      forall i | 0 <= i < |s| ensures IsPartChar(s[i]) {
        if i > 0 { assert s[i] == t[i - 1]; }
      }
    }
    if AllPart(s) {
      forall i | 0 <= i < |t| ensures IsPartChar(t[i]) {
        assert t[i] == s[i + 1];
      }
    }
  }

  /** From `Domain`, the rest is accepted exactly when it is all part characters
      with a '.' somewhere before its last character. */
  lemma {:induction false} ScanDomain(s: string)
    ensures Scan(Domain, s) == Accept <==> AllPart(s) && DotBeforeLast(s)
    decreases |s|
  {
    if s != [] {
      var c, t := s[0], s[1..];
      assert s == [c] + t;
      if c == '.' {
        ScanDot(t);
        AllPartCons(c, t);
      } else if IsPartChar(c) {
        ScanDomain(t);
        AllPartCons(c, t);
        assert DotBeforeLast(s) <==> DotBeforeLast(t) by {
          if DotBeforeLast(s) {
            var k :| 0 <= k < |s| - 1 && s[k] == '.';
            assert t[k - 1] == '.';
          }
          if DotBeforeLast(t) {
            var k :| 0 <= k < |t| - 1 && t[k] == '.';
            assert s[k + 1] == '.';
          }
        }
      } else {
        ScanReject(t);
      }
    }
  }

  /** From `AtSign`, the rest is accepted exactly when it is a domain. */
  lemma {:induction false} ScanAtSign(s: string)
    ensures Scan(AtSign, s) == Accept <==> IsPart(s) && HasInnerDot(s)
  {
    if s != [] {
      var c, t := s[0], s[1..];
      assert s == [c] + t;
      if IsPartChar(c) {
        ScanDomain(t);
        AllPartCons(c, t);
        assert HasInnerDot(s) <==> DotBeforeLast(t) by {
          if HasInnerDot(s) {
            var k :| 0 < k < |s| - 1 && s[k] == '.';
            assert t[k - 1] == '.';
          }
          if DotBeforeLast(t) {
            var k :| 0 <= k < |t| - 1 && t[k] == '.';
            assert s[k + 1] == '.';
          }
        }
      } else {
        ScanReject(t);
      }
    }
  }

  /** Prepending a part character shifts every split by one. */
  lemma SplitAtCons(c: char, t: string, a: int)
    requires IsPartChar(c)
    ensures SplitAt([c] + t, a + 1) <==> SplitAt(t, a)
  {
    var s := [c] + t;
    if 0 <= a < |t| {
      assert s[..a + 1] == [c] + t[..a];
      assert s[a + 2..] == t[a + 1..];
      AllPartCons(c, t[..a]);
    }
  }

  /** A split never puts the '@' after a character that is not a part character. */
  lemma SplitAtNotFirst(s: string, a: int)
    requires SplitAt(s, a) && 0 < a
    ensures IsPartChar(s[0])
  {
    assert s[..a][0] == s[0];
  }

  /** From `Local`, the rest is accepted exactly when it splits at some '@'. */
  lemma {:induction false} ScanLocal(s: string)
    ensures Scan(Local, s) == Accept <==> exists a :: SplitAt(s, a)
    decreases |s|
  {
    if s != [] {
      var c, t := s[0], s[1..];
      assert s == [c] + t;
      if c == '@' {
        ScanAtSign(t);
        if exists a :: SplitAt(s, a) {
          var a :| SplitAt(s, a);
          if 0 < a {
            SplitAtNotFirst(s, a);
          }
        }
        if Scan(Local, s) == Accept {
          assert SplitAt(s, 0);
        }
      } else if IsPartChar(c) {
        ScanLocal(t);
        if exists a :: SplitAt(s, a) {
          var a :| SplitAt(s, a);
          SplitAtCons(c, t, a - 1);
        }
        if exists a :: SplitAt(t, a) {
          var a :| SplitAt(t, a);
          SplitAtCons(c, t, a);
        }
      } else {
        ScanReject(t);
        if exists a :: SplitAt(s, a) {
          var a :| SplitAt(s, a);
          SplitAtNotFirst(s, a);
        }
      }
    }
  }

  /** From `Start`, a string is accepted exactly when it splits at an '@' that is not
      its first character. */
  lemma {:induction false} ScanStart(s: string)
    ensures Scan(Start, s) == Accept <==> exists a :: 0 < a && SplitAt(s, a)
  {
    if s != [] {
      var c, t := s[0], s[1..];
      assert s == [c] + t;
      if IsPartChar(c) {
        ScanLocal(t);
        if exists a :: 0 < a && SplitAt(s, a) {
          var a :| 0 < a && SplitAt(s, a);
          SplitAtCons(c, t, a - 1);
        }
        if exists a :: SplitAt(t, a) {
          var a :| SplitAt(t, a);
          SplitAtCons(c, t, a);
        }
      } else {
        ScanReject(t);
        if exists a :: 0 < a && SplitAt(s, a) {
          var a :| 0 < a && SplitAt(s, a);
          SplitAtNotFirst(s, a);
        }
      }
    }
  }

  /** The scanner accepts exactly the e-mail addresses. */
  lemma ScanAcceptsEmails(s: string)
    ensures Scan(Start, s) == Accept <==> IsEmail(s)
  {
    ScanStart(s);
    EmailIffSplitAt(s);
  }

  /** Edge cases the pattern accepts: the separating '.' may be followed by another '.'. */
  lemma EmailAcceptedExamples()
    ensures IsEmail("a@b.c") && IsEmail("a@b..")
  {
    assert Scan(Start, "a@b.c") == Accept;
    assert Scan(Start, "a@b..") == Accept;
    assert IsValidEmail("a@b.c") && IsValidEmail("a@b..");
  }

  /** Edge cases the pattern refuses: a '.' that opens or ends the domain. */
  lemma EmailRejectedDots()
    ensures !IsEmail("a@.c") && !IsEmail("a@b.")
  {
    assert !IsValidEmail("a@.c");
    assert !IsValidEmail("a@b.");
  }

  /** A string with two '@'s, or with whitespace anywhere, is never accepted. */
  lemma EmailRefusals(s: string)
    ensures (exists i, j :: 0 <= i < j < |s| && s[i] == '@' && s[j] == '@') ==> !IsEmail(s)
    ensures (exists i :: 0 <= i < |s| && IsSpace(s[i])) ==> !IsEmail(s)
    ensures |s| > 0 && s[0] == '@' ==> !IsEmail(s)
  {
    if IsEmail(s) {
      EmailShape(s);
    }
  }

  /** Edge cases the pattern refuses: an empty local part, a second '@', whitespace. */
  lemma EmailRejectedShapes()
    ensures !IsEmail("@b.c") && !IsEmail("a@b@c.d") && !IsEmail("a b@c.d")
  {
    EmailRefusals("@b.c");
    var two, spaced := "a@b@c.d", "a b@c.d";
    assert two[1] == '@' && two[3] == '@';
    EmailRefusals(two);
    assert IsSpace(spaced[1]);
    EmailRefusals(spaced);
  }
}
