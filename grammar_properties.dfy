/**
 * What `Part.parse` and `Part.rebuild_part` promise, proved about the
 * reference functions of PartGrammar: where the version starts, which
 * error each malformed atom raises and in which order, the coupling of
 * vary specifier and version, the `>=`/`<=` quirk, and the round trips
 * between text and parsed output.
 */
module GrammarProperties {
  import opened Text
  import opened PartGrammar

  // ---------------------------------------------------------------------
  // The version-start scan, declaratively

  /**
   * `v` is where the scan begun at `i` finds the version: index `v - 1` is
   * a hyphen that the scan accepts and every earlier index is passed over.
   */
  ghost predicate StartsVersionAt(w: string, last: int, i: nat, v: nat) {
    i < v < |w| && w[v - 1] == '-' && v - 1 != last && IsDigit(w[v])
    && forall j :: i <= j < v - 1 ==> Passes(w, last, j)
  }

  /**
   * The scan stops at the first index it does not pass: a version start
   * there, a '.', or a trailing '-' whose successor is read past the end;
   * when it passes every index it ends without a version.
   */
  lemma {:induction false} ScanFromStops(w: string, last: int, i: nat)
    requires i <= |w|
    ensures ScanFrom(w, last, i) == NoStart <==> (forall j :: i <= j < |w| ==> Passes(w, last, j))
    ensures ScanFrom(w, last, i) == Dot <==>
              (exists k :: i <= k < |w| && w[k] == '.' && forall j :: i <= j < k ==> Passes(w, last, j))
    ensures ScanFrom(w, last, i) == Overrun <==>
              (i < |w| && w[|w| - 1] == '-' && |w| - 1 != last
               && forall j :: i <= j < |w| - 1 ==> Passes(w, last, j))
    ensures ScanFrom(w, last, i).Start? ==> StartsVersionAt(w, last, i, ScanFrom(w, last, i).at)
    ensures forall v :: StartsVersionAt(w, last, i, v) ==> ScanFrom(w, last, i) == Start(v)
    decreases |w| - i
  {
    if i < |w| {
      ScanFromStops(w, last, i + 1);
      if Passes(w, last, i) {
        forall v: nat | StartsVersionAt(w, last, i, v) ensures ScanFrom(w, last, i) == Start(v) {
          if v - 1 == i {
            assert !Passes(w, last, i);
          } else {
            assert StartsVersionAt(w, last, i + 1, v);
          }
        }
      } else {
        forall v: nat | StartsVersionAt(w, last, i, v) ensures ScanFrom(w, last, i) == Start(v) {
          if v - 1 != i {
            assert Passes(w, last, i);
          }
        }
      }
    }
  }

  /** The scan of `Part.parse` on the operator-stripped working string. */
  function ScanOf(s: string): Scan {
    ScanFrom(Working(s), |s| - 1, 0)
  }

  /** The scan of `s` moves past index `j` of its working string. */
  ghost predicate ScanPasses(s: string, j: nat)
    requires j < |Working(s)|
  {
    Passes(Working(s), |s| - 1, j)
  }

  /** The scan of `s` finds the version text at index `v` of its working string. */
  ghost predicate ScanStartsAt(s: string, v: nat) {
    StartsVersionAt(Working(s), |s| - 1, 0, v)
  }

  // ---------------------------------------------------------------------
  // Stage 1: the vary specifier quirks

  /**
   * `GE` and `LE` are never produced: `>=` is tagged `GR` and `<=` is
   * tagged `LS`, yet two characters are stripped because the second one is
   * '='; `==` is tagged `EQ` with two characters stripped as well.
   */
  lemma StripQuirks(s: string)
    ensures DetectOp(s) != Some(GE) && DetectOp(s) != Some(LE)
    ensures StartsWith(s, ">=") ==> DetectOp(s) == Some(GR) && Working(s) == s[2..]
    ensures StartsWith(s, "<=") ==> DetectOp(s) == Some(LS) && Working(s) == s[2..]
    ensures StartsWith(s, "==") ==> DetectOp(s) == Some(EQ) && Working(s) == s[2..]
  {
    if |s| >= 2 {
      assert s[..1] == [s[0]];
      assert s[..2] == [s[0], s[1]];
    }
  }

  /** No parse result carries `GE` or `LE`. */
  lemma ParseNeverGeLe(s: string)
    requires ParseSpec(s).Ok?
    ensures ParseSpec(s).value.op != Some(GE) && ParseSpec(s).value.op != Some(LE)
  {
    StripQuirks(s);
  }

  // ---------------------------------------------------------------------
  // Stages 2 and 3: which error the scan and the coupling raise

  /**
   * An accepted atom has a vary specifier exactly when it has a version.
   */
  lemma OperatorIffVersion(s: string)
    requires ParseSpec(s).Ok?
    ensures ParseSpec(s).value.op.Some? <==> ParseSpec(s).value.ver.Some?
  {
  }

  /**
   * The stages after the scan never index out of range, and raise only
   * their own errors.
   */
  lemma LaterStagesNeverCrash(t: string)
    ensures VersionSpec(t) != Crash && Catpkg(t) != Crash
    ensures VersionSpec(t).Fail? ==>
              VersionSpec(t).error in {TooManyHyphens, TooManyNumbers, StringInVersion, RevisionPrefix, RevisionString}
    ensures Catpkg(t).Fail? ==> Catpkg(t).error in {InvalidCatpkg, TooManyCategories}
  {
  }

  /** Without a specifier the guard `i != _last` stops the scan at a trailing '-'. */
  lemma NoOverrunWithoutSpecifier(s: string)
    requires DetectOp(s).None?
    ensures ScanOf(s) != Overrun
  {
    ScanFromStops(s, |s| - 1, 0);
  }

  /** How the outcome of the parse depends on where the scan stopped. */
  lemma OutcomeByScan(s: string)
    ensures ParseSpec(s) == Crash <==> DetectOp(s).Some? && (|s| < 2 || ScanOf(s) == Overrun)
    ensures ParseSpec(s) == Fail(HangingDot) <==> !(DetectOp(s).Some? && |s| < 2) && ScanOf(s) == Dot
    ensures ParseSpec(s) == Fail(NeedsVersion) <==> DetectOp(s).Some? && |s| >= 2 && ScanOf(s) == NoStart
    ensures ParseSpec(s) == Fail(NeedsVary) <==> DetectOp(s).None? && ScanOf(s).Start?
  {
    var w := Working(s);
    if DetectOp(s).Some? && |s| < 2 {
      assert ParseSpec(s) == Crash;
    } else if DetectOp(s).None? {
      NoOverrunWithoutSpecifier(s);
      if ScanOf(s) == NoStart {
        LaterStagesNeverCrash(w);
      }
    } else if ScanOf(s).Start? {
      var v := ScanOf(s).at;
      LaterStagesNeverCrash(w[v..]);
      LaterStagesNeverCrash(w[..v - 1]);
    }
  }

  /**
   * The parse crashes (Python `IndexError`) exactly when a specifier is
   * the whole string (`part_copy[1]` is out of range), or when, after a
   * specifier, the scan reaches a trailing '-': `_last` still counts the
   * stripped characters, so the guard `i != _last` holds there and
   * `part_copy[i + 1]` is read past the end.
   */
  lemma CrashIff(s: string)
    ensures ParseSpec(s) == Crash <==>
              DetectOp(s).Some? &&
              (|s| == 1 ||
               (|Working(s)| > 0 && Working(s)[|Working(s)| - 1] == '-'
                && forall j :: 0 <= j < |Working(s)| - 1 ==> ScanPasses(s, j)))
  {
    OutcomeByScan(s);
    var w, last := Working(s), |s| - 1;
    ScanFromStops(w, last, 0);
    if DetectOp(s).Some? {
      assert |s| >= 1;
      if |s| >= 2 {
        assert |w| <= |s| - 1;
        forall j | 0 <= j < |w| ensures ScanPasses(s, j) == Passes(w, last, j) {
        }
      }
    }
  }

  /** A '.' reached by the scan before any version start raises "hanging '.'". */
  lemma HangingDotIff(s: string)
    ensures ParseSpec(s) == Fail(HangingDot) <==>
              !(DetectOp(s).Some? && |s| < 2) &&
              exists k :: 0 <= k < |Working(s)| && Working(s)[k] == '.'
                          && forall j :: 0 <= j < k ==> ScanPasses(s, j)
  {
    OutcomeByScan(s);
    var w, last := Working(s), |s| - 1;
    ScanFromStops(w, last, 0);
    if ScanOf(s) == Dot {
      var k :| 0 <= k < |w| && w[k] == '.' && forall j :: 0 <= j < k ==> Passes(w, last, j);
      assert forall j :: 0 <= j < k ==> ScanPasses(s, j);
    }
    if exists k :: 0 <= k < |w| && w[k] == '.' && forall j :: 0 <= j < k ==> ScanPasses(s, j) {
      var k :| 0 <= k < |w| && w[k] == '.' && forall j :: 0 <= j < k ==> ScanPasses(s, j);
      forall j | 0 <= j < k ensures Passes(w, last, j) {
        assert ScanPasses(s, j);
      }
    }
  }

  /**
   * A specifier whose working string the scan passes over completely (no
   * '.', no `-digit`, no trailing '-') raises "part needs version specifier".
   */
  lemma NeedsVersionIff(s: string)
    ensures ParseSpec(s) == Fail(NeedsVersion) <==>
              DetectOp(s).Some? && |s| >= 2
              && forall j :: 0 <= j < |Working(s)| ==> ScanPasses(s, j)
  {
    OutcomeByScan(s);
    var w, last := Working(s), |s| - 1;
    ScanFromStops(w, last, 0);
    forall j | 0 <= j < |w| ensures ScanPasses(s, j) == Passes(w, last, j) {
    }
  }

  /** A version start without a specifier raises "part needs vary specifier". */
  lemma NeedsVaryIff(s: string)
    ensures ParseSpec(s) == Fail(NeedsVary) <==>
              DetectOp(s).None? && exists v :: ScanStartsAt(s, v)
  {
    OutcomeByScan(s);
    var w, last := Working(s), |s| - 1;
    ScanFromStops(w, last, 0);
    if ScanOf(s).Start? {
      assert ScanStartsAt(s, ScanOf(s).at);
    }
    if exists v :: ScanStartsAt(s, v) {
      var v :| ScanStartsAt(s, v);
      assert ScanOf(s) == Start(v);
    }
  }

  /**
   * `h` is the first hyphen of `w` followed by a digit, and no '.' comes
   * before it; hyphens followed by anything else are passed over.
   */
  ghost predicate FirstDigitHyphen(w: string, h: nat) {
    h + 1 < |w| && w[h] == '-' && IsDigit(w[h + 1])
    && forall j :: 0 <= j < h ==> w[j] != '.' && !(w[j] == '-' && IsDigit(w[j + 1]))
  }

  /**
   * In an accepted versioned atom the version text starts right after the
   * first `-digit` of the working string, the catpkg is the text before
   * that hyphen, and neither part was parsed from anything else.
   */
  lemma VersionStartsAtFirstDigitHyphen(s: string)
    requires ParseSpec(s).Ok? && ParseSpec(s).value.ver.Some?
    ensures exists h: nat :: FirstDigitHyphen(Working(s), h)
                        && Catpkg(Working(s)[..h]) == Ok(ParseSpec(s).value.catpkg)
                        && VersionSpec(Working(s)[h + 1..]) == Ok(ParseSpec(s).value.ver.value)
  {
    var w := Working(s);
    ScanFromStops(w, |s| - 1, 0);
    var v := ScanOf(s).at;
    assert StartsVersionAt(w, |s| - 1, 0, v);
    assert FirstDigitHyphen(w, v - 1) by {
      forall j | 0 <= j < v - 1 ensures w[j] != '.' && !(w[j] == '-' && IsDigit(w[j + 1])) {
        assert Passes(w, |s| - 1, j);
      }
    }
  }

  /** When the version is malformed its error wins over any catpkg error. */
  lemma VersionErrorsFirst(s: string)
    requires DetectOp(s).Some? && |s| >= 2 && ScanOf(s).Start?
    requires !VersionSpec(Working(s)[ScanOf(s).at..]).Ok?
    ensures ParseSpec(s) == VersionSpec(Working(s)[ScanOf(s).at..]).PropagateFailure()
  {
  }

  // ---------------------------------------------------------------------
  // Stage 4: the version text

  /** The dot components of the version text. */
  function VersionComponents(t: string): seq<string> {
    Split(Split(t, '-')[0], '.')
  }

  /**
   * An accepted version text has one or two hyphen segments and one to
   * three all-digit dot components; the numbers are their values and the
   * revision is present exactly when there is a second segment.
   */
  lemma VersionAccepted(t: string)
    requires VersionSpec(t).Ok?
    ensures var v := VersionSpec(t).value;
            && Count(t, '-') <= 1
            && 1 <= |v.nums| == |VersionComponents(t)| <= 3
            && (forall i :: 0 <= i < |v.nums| ==>
                  IsDigits(VersionComponents(t)[i]) && v.nums[i] == DigitsToNat(VersionComponents(t)[i]))
            && (v.rev.Some? <==> Count(t, '-') == 1)
  {
  }

  /**
   * The version errors in the order the source checks them: a second
   * hyphen, then the components left to right (a fourth component is
   * refused before its digits are looked at), then the revision.
   */
  lemma VersionRejections(t: string)
    ensures Count(t, '-') > 1 ==> VersionSpec(t) == Fail(TooManyHyphens)
    ensures Count(t, '-') <= 1 && |VersionComponents(t)| > 3
            && (forall i :: 0 <= i < 3 ==> IsDigits(VersionComponents(t)[i]))
            ==> VersionSpec(t) == Fail(TooManyNumbers)
    ensures Count(t, '-') <= 1
            && (exists i :: 0 <= i < |VersionComponents(t)| && i < 3 && !IsDigits(VersionComponents(t)[i]))
            ==> VersionSpec(t) == Fail(StringInVersion)
    ensures Count(t, '-') == 1 && VersionNumbers(VersionComponents(t)).Ok?
            && !StartsWith(Split(t, '-')[1], "r")
            ==> VersionSpec(t) == Fail(RevisionPrefix)
    ensures Count(t, '-') == 1 && VersionNumbers(VersionComponents(t)).Ok?
            && StartsWith(Split(t, '-')[1], "r") && !IsDigits(Split(t, '-')[1][1..])
            ==> VersionSpec(t) == Fail(RevisionString)
  {
  }

  // ---------------------------------------------------------------------
  // Stage 5: the catpkg text

  /**
   * The catpkg text is accepted exactly when it splits on '/' into one or
   * two non-empty parts; the parts joined by '/' give the text back.
   */
  lemma {:induction false} CatpkgAccepted(t: string)
    ensures Catpkg(t).Ok? <==>
              |Split(t, '/')| <= 2 && forall i :: 0 <= i < |Split(t, '/')| ==> Split(t, '/')[i] != ""
    ensures Catpkg(t).Ok? ==>
              Catpkg(t).value == Split(t, '/') && CatpkgText(Catpkg(t).value) == t
  {
    JoinSplit(t, '/');
    var parts := Split(t, '/');
    if |t| == 0 {
      assert parts == [""];
    }
    if |parts| == 2 {
      assert Join(parts, '/') == parts[0] + ['/'] + Join(parts[1..], '/');
    }
  }

  /**
   * With three or more parts only the first is tested for emptiness:
   * `a//b` is "more than one catagories" while `/a/b` is "invalid catpkg".
   */
  lemma CatpkgRejections(t: string)
    ensures |t| == 0 || Split(t, '/')[0] == "" ==> Catpkg(t) == Fail(InvalidCatpkg)
    ensures |Split(t, '/')| == 2 && Split(t, '/')[1] == "" ==> Catpkg(t) == Fail(InvalidCatpkg)
    ensures |Split(t, '/')| > 2 && Split(t, '/')[0] != "" ==> Catpkg(t) == Fail(TooManyCategories)
  {
  }

  // ---------------------------------------------------------------------
  // Round trips between text and parsed output

  /** A piece-free character stays out of a join. */
  lemma {:induction false} JoinAvoids(parts: seq<string>, sep: char, x: char)
    requires |parts| >= 1 && x != sep
    requires forall i :: 0 <= i < |parts| ==> x !in parts[i]
    ensures x !in Join(parts, sep)
  {
    if |parts| > 1 {
      JoinAvoids(parts[1..], sep, x);
    }
  }

  /** A join starts with the first character of its first piece. */
  lemma {:induction false} JoinHead(parts: seq<string>, sep: char)
    requires |parts| >= 1 && |parts[0]| >= 1
    ensures |Join(parts, sep)| >= 1 && Join(parts, sep)[0] == parts[0][0]
  {
  }

  /** Up to two catpkg parts are written exactly as their join on '/'. */
  lemma CatpkgTextIsJoin(c: seq<string>)
    requires 1 <= |c| <= 2
    ensures CatpkgText(c) == Join(c, '/')
  {
    if |c| == 2 {
      assert Join(c[1..], '/') == c[1];
    }
  }

  /**
   * Every version number and the revision of the version text `t` are
   * written without leading zeros.
   */
  ghost predicate CanonicalVersionText(t: string) {
    var segs := Split(t, '-');
    && (forall i :: 0 <= i < |VersionComponents(t)| ==> NoLeadingZero(VersionComponents(t)[i]))
    && (|segs| >= 2 && |segs[1]| >= 1 ==> NoLeadingZero(segs[1][1..]))
  }

  /** For an input with a version, its version text is canonical. */
  ghost predicate CanonicalNumbers(s: string) {
    ScanOf(s).Start? ==> CanonicalVersionText(Working(s)[ScanOf(s).at..])
  }

  /** Accepted dot components without leading zeros are written back as they were. */
  lemma NumbersTextOfComponents(n: string)
    requires VersionNumbers(Split(n, '.')).Ok?
    requires forall i :: 0 <= i < |Split(n, '.')| ==> NoLeadingZero(Split(n, '.')[i])
    ensures Join(NumStrings(VersionNumbers(Split(n, '.')).value), '.') == n
  {
    var comps := Split(n, '.');
    var strs := NumStrings(VersionNumbers(comps).value);
    assert |strs| == |comps|;
    forall i | 0 <= i < |comps| ensures strs[i] == comps[i] {
      NatToStringOfDigits(comps[i]);
    }
    assert strs == comps;
    JoinSplit(n, '.');
  }

  /** An accepted revision segment without leading zeros is written back as it was. */
  lemma RevisionTextOfSegment(r: string)
    requires RevisionNumber(r).Ok? && NoLeadingZero(r[1..])
    ensures "r" + NatToString(RevisionNumber(r).value) == r
  {
    NatToStringOfDigits(r[1..]);
    assert "r" + r[1..] == r;
  }

  /** Rendering an accepted canonical version text gives back `-` and the text. */
  lemma VersionTextOfSpec(t: string)
    requires VersionSpec(t).Ok? && CanonicalVersionText(t)
    ensures VersionText(VersionSpec(t).value) == "-" + t
  {
    var segs := Split(t, '-');
    var v := VersionSpec(t).value;
    assert VersionComponents(t) == Split(segs[0], '.');
    NumbersTextOfComponents(segs[0]);
    var nt := Join(NumStrings(v.nums), '.');
    assert nt == segs[0];
    JoinSplit(t, '-');
    if |segs| == 1 {
      assert VersionText(v) == "-" + nt;
    } else {
      var r := segs[1];
      RevisionTextOfSegment(r);
      assert Join(segs, '-') == segs[0] + "-" + segs[1] by {
        assert Join(segs[1..], '-') == segs[1];
      }
      var rn := NatToString(v.rev.value);
      assert VersionText(v) == "-" + nt + ("-r" + rn);
      assert "-r" == "-" + "r";
      AppendAssoc("-", "r", rn);
      AppendAssoc("-", nt, "-" + r);
      AppendAssoc(nt, "-", r);
    }
  }

  /** Parse-then-render for an atom without a specifier. */
  lemma ParseThenRenderBare(s: string)
    requires ParseSpec(s).Ok? && DetectOp(s).None?
    ensures Render(ParseSpec(s).value) == Some(s)
  {
    OutcomeByScan(s);
    assert Working(s) == s;
    assert ScanOf(s) == NoStart;
    var c := Catpkg(s).value;
    assert ParseSpec(s).value == Atom(None, c, None);
    CatpkgAccepted(s);
    assert OpText(None) + CatpkgText(c) + "" == CatpkgText(c);
  }

  /** An accepted atom with a specifier: where the scan stopped and what each stage gave. */
  lemma ParsedVersioned(s: string)
    requires ParseSpec(s).Ok? && DetectOp(s).Some?
    ensures |s| >= 2 && ScanOf(s).Start?
    ensures var w, v := Working(s), ScanOf(s).at;
            && 1 <= v <= |w| && w[v - 1] == '-'
            && Catpkg(w[..v - 1]).Ok? && VersionSpec(w[v..]).Ok?
            && ParseSpec(s).value == Atom(DetectOp(s), Catpkg(w[..v - 1]).value, Some(VersionSpec(w[v..]).value))
  {
    OutcomeByScan(s);
  }

  /** Without `==`, `>=` or `<=`, the text is the specifier's token followed by the working string. */
  lemma SpecifierToken(s: string)
    requires DetectOp(s).Some? && |s| >= 2
    requires !StartsWith(s, "==") && !StartsWith(s, ">=") && !StartsWith(s, "<=")
    ensures s == OpToken(DetectOp(s).value) + Working(s)
  {
    var k := StripLength(s);
    assert s[..1] == [s[0]];
    assert s[..2] == [s[0], s[1]];
    assert s[..k] == OpToken(DetectOp(s).value);
    assert s == s[..k] + s[k..];
  }

  /** Rendering the parts parsed from `p` and a canonical `t` writes `p-t` after the token. */
  lemma RenderedFromParts(op: Op, p: string, t: string, c: seq<string>, ver: Version)
    requires Catpkg(p) == Ok(c) && VersionSpec(t) == Ok(ver) && CanonicalVersionText(t)
    ensures Render(Atom(Some(op), c, Some(ver))) == Some(OpToken(op) + (p + "-" + t))
  {
    CatpkgAccepted(p);
    VersionAccepted(t);
    VersionTextOfSpec(t);
    assert |c| >= 1 && ver.nums != [];
    assert Render(Atom(Some(op), c, Some(ver))) == Some(OpToken(op) + p + ("-" + t));
    AppendAssoc(OpToken(op), p, "-" + t);
    AppendAssoc(p, "-", t);
  }

  /** Parse-then-render for an atom with a specifier and a version. */
  lemma ParseThenRenderVersioned(s: string)
    requires ParseSpec(s).Ok? && DetectOp(s).Some?
    requires !StartsWith(s, "==") && !StartsWith(s, ">=") && !StartsWith(s, "<=")
    requires CanonicalNumbers(s)
    ensures Render(ParseSpec(s).value) == Some(s)
  {
    ParsedVersioned(s);
    var w, v := Working(s), ScanOf(s).at;
    SpecifierToken(s);
    assert w == w[..v - 1] + "-" + w[v..];
    RenderedFromParts(DetectOp(s).value, w[..v - 1], w[v..], Catpkg(w[..v - 1]).value, VersionSpec(w[v..]).value);
  }

  /**
   * Render inverts parse: an accepted atom whose specifier is exactly `=`,
   * `!=`, `>` or `<` (not `==`, `>=` or `<=`) and whose version numbers
   * carry no leading zeros is rebuilt character for character.
   */
  lemma ParseThenRender(s: string)
    requires ParseSpec(s).Ok?
    requires !StartsWith(s, "==") && !StartsWith(s, ">=") && !StartsWith(s, "<=")
    requires CanonicalNumbers(s)
    ensures Render(ParseSpec(s).value) == Some(s)
  {
    if DetectOp(s).None? {
      ParseThenRenderBare(s);
    } else {
      ParseThenRenderVersioned(s);
    }
  }

  /** A digit string contains neither '.' nor '-' nor '/'. */
  lemma DigitsAvoid(d: string)
    requires Digits(d)
    ensures '.' !in d && '-' !in d && '/' !in d
  {
    forall k | 0 <= k < |d| ensures d[k] != '.' && d[k] != '-' && d[k] != '/' {
      assert IsDigit(d[k]);
    }
  }

  /**
   * The rendered numbers `N.N.N` start with a digit, contain no '-', and
   * split on '.' into components that parse back to the numbers.
   */
  lemma NumbersTextParses(nums: seq<nat>)
    requires 1 <= |nums| <= 3
    ensures var nt := Join(NumStrings(nums), '.');
            && IsDigit(nt[0]) && '-' !in nt
            && Split(nt, '.') == NumStrings(nums)
            && VersionNumbers(NumStrings(nums)) == Ok(nums)
  {
    var strs := NumStrings(nums);
    forall i | 0 <= i < |strs| ensures '.' !in strs[i] && '-' !in strs[i] {
      DigitsAvoid(strs[i]);
    }
    JoinAvoids(strs, '.', '-');
    JoinHead(strs, '.');
    SplitJoin(strs, '.');
    assert forall i :: 0 <= i < |strs| ==> IsDigits(strs[i]);
    assert seq(|strs|, i requires 0 <= i < |strs| => DigitsToNat(strs[i])) == nums;
  }

  /** The rendered revision segment `rR` parses back to `R`. */
  lemma RevisionTextParses(r: nat)
    ensures '-' !in "r" + NatToString(r)
    ensures RevisionNumber("r" + NatToString(r)) == Ok(r)
  {
    DigitsAvoid(NatToString(r));
    assert ("r" + NatToString(r))[1..] == NatToString(r);
  }

  /**
   * Rendering a version with one to three numbers gives `-` followed by a
   * text that starts with a digit and parses back to the same version.
   */
  lemma VersionTextParses(v: Version)
    requires 1 <= |v.nums| <= 3
    ensures |VersionText(v)| >= 2 && VersionText(v)[0] == '-' && IsDigit(VersionText(v)[1])
    ensures VersionSpec(VersionText(v)[1..]) == Ok(v)
  {
    var nt := Join(NumStrings(v.nums), '.');
    NumbersTextParses(v.nums);
    var rt := match v.rev case None => "" case Some(r) => "-r" + NatToString(r);
    var t := nt + rt;
    assert VersionText(v) == "-" + t;
    assert VersionText(v)[1..] == t;
    if v.rev.None? {
      assert t == nt;
      SplitNoSeparator(nt, '-');
      assert Split(t, '-') == [nt];
    } else {
      var x := "r" + NatToString(v.rev.value);
      RevisionTextParses(v.rev.value);
      assert t == nt + ['-'] + x;
      SplitAfterPiece(nt, '-', x);
      SplitNoSeparator(x, '-');
      assert Split(t, '-') == [nt, x];
    }
  }

  /**
   * A catpkg part that survives the scan and the split: non-empty, no '/',
   * no '.', and no hyphen followed by a digit.
   */
  ghost predicate WellFormedPart(p: string) {
    p != "" && '/' !in p && '.' !in p
    && forall j :: 0 <= j < |p| - 1 ==> !(p[j] == '-' && IsDigit(p[j + 1]))
  }

  ghost predicate WellFormedCatpkg(c: seq<string>) {
    1 <= |c| <= 2 && forall i :: 0 <= i < |c| ==> WellFormedPart(c[i])
  }

  /** Inside a well-formed catpkg text no '.' and no `-digit` occur. */
  lemma CatpkgTextChars(c: seq<string>)
    requires WellFormedCatpkg(c)
    ensures var t := CatpkgText(c);
            forall j :: 0 <= j < |t| ==>
              t[j] != '.' && (t[j] == '-' && j + 1 < |t| ==> !IsDigit(t[j + 1]))
  {
    var t := CatpkgText(c);
    forall j | 0 <= j < |t| ensures t[j] != '.' && (t[j] == '-' && j + 1 < |t| ==> !IsDigit(t[j + 1])) {
      if |c| == 1 {
        assert t == c[0];
        assert t[j] in c[0];
      } else {
        var n := |c[0]|;
        assert t == c[0] + "/" + c[1];
        if j < n {
          assert t[j] == c[0][j];
          assert t[j] in c[0];
          if j + 1 < n {
            assert t[j + 1] == c[0][j + 1];
          } else {
            assert t[j + 1] == '/';
          }
        } else if j == n {
          assert t[j] == '/';
        } else {
          var k := j - n - 1;
          assert t[j] == c[1][k];
          assert t[j] in c[1];
          if j + 1 < |t| {
            assert t[j + 1] == c[1][k + 1];
          }
        }
      }
    }
  }

  /**
   * The scan passes over every index of a well-formed catpkg text, whether
   * the text is the whole input (its trailing '-' sits at `_last`) or is
   * followed by text that does not start with a digit.
   */
  lemma CatpkgTextPasses(c: seq<string>, rest: string, last: int)
    requires WellFormedCatpkg(c)
    requires rest == [] ==> last == |CatpkgText(c)| - 1
    requires rest != [] ==> !IsDigit(rest[0]) && last >= |CatpkgText(c)|
    ensures forall j :: 0 <= j < |CatpkgText(c)| ==> Passes(CatpkgText(c) + rest, last, j)
  {
    var t := CatpkgText(c);
    var w := t + rest;
    CatpkgTextChars(c);
    forall j | 0 <= j < |t| ensures Passes(w, last, j) {
      assert w[j] == t[j];
      if j + 1 < |t| {
        assert w[j + 1] == t[j + 1];
      } else if rest != [] {
        assert w[j + 1] == rest[0];
      }
    }
  }

  /** A well-formed catpkg text is accepted as exactly its parts. */
  lemma CatpkgTextParses(c: seq<string>)
    requires WellFormedCatpkg(c)
    ensures Catpkg(CatpkgText(c)) == Ok(c)
  {
    CatpkgTextIsJoin(c);
    SplitJoin(c, '/');
    assert |CatpkgText(c)| >= 1 by {
      if |c| == 1 {
        assert CatpkgText(c) == c[0];
      }
    }
  }

  /**
   * An atom that parse could have produced from text in canonical form:
   * specifier and version both present or both absent, no `GE`/`LE`, one
   * or two well-formed catpkg parts, one to three version numbers, and a
   * catpkg text that the specifier detection cannot mistake for (part of)
   * a specifier.
   */
  ghost predicate CanonicalAtom(a: Atom) {
    && (a.op.Some? <==> a.ver.Some?)
    && (a.op.Some? ==> a.op.value != GE && a.op.value != LE)
    && WellFormedCatpkg(a.catpkg)
    && (a.op.None? ==> DetectOp(CatpkgText(a.catpkg)).None?)
    && (a.op.Some? && a.op.value != NE ==> a.catpkg[0][0] != '=')
    && (a.ver.Some? ==> 1 <= |a.ver.value.nums| <= 3)
  }

  /** Render-then-parse for an atom without a specifier. */
  lemma RenderThenParseBare(a: Atom)
    requires CanonicalAtom(a) && a.op.None?
    ensures Render(a).Some? && ParseSpec(Render(a).value) == Ok(a)
  {
    var t := CatpkgText(a.catpkg);
    assert Render(a) == Some("" + t + "");
    assert "" + t + "" == t;
    CatpkgTextPasses(a.catpkg, [], |t| - 1);
    assert t + [] == t;
    ScanFromStops(t, |t| - 1, 0);
    assert Working(t) == t;
    assert ScanFrom(t, |t| - 1, 0) == NoStart;
    CatpkgTextParses(a.catpkg);
  }

  /** The last step of a parse with a specifier whose stages all succeed. */
  lemma ParseVersionedStep(s: string, w: string, v: nat, ver: Version, c: seq<string>)
    requires DetectOp(s).Some? && |s| >= 2 && Working(s) == w
    requires v <= |w| && ScanFrom(w, |s| - 1, 0) == Start(v)
    requires VersionSpec(w[v..]) == Ok(ver) && Catpkg(w[..v - 1]) == Ok(c)
    ensures ParseSpec(s) == Ok(Atom(DetectOp(s), c, Some(ver)))
  {
  }

  /**
   * A rendered specifier is detected again, and exactly its own characters
   * are stripped, provided a single-character one is not followed by '='.
   */
  lemma RenderedSpecifier(op: Op, rest: string)
    requires op != GE && op != LE
    requires |rest| >= 1 && (op != NE ==> rest[0] != '=')
    ensures var s := OpToken(op) + rest;
            DetectOp(s) == Some(op) && |s| >= 2 && Working(s) == rest
  {
    var s := OpToken(op) + rest;
    assert s[..1][0] == s[0];
    if op == NE {
      assert s[..2] == "!=";
    }
    assert s[1] == if op == NE then '=' else rest[0];
  }

  /**
   * The scan of a rendered catpkg followed by a rendered version stops at
   * the version's first digit.
   */
  lemma RenderedScan(c: seq<string>, vt: string, last: int)
    requires WellFormedCatpkg(c)
    requires |vt| >= 2 && vt[0] == '-' && IsDigit(vt[1])
    requires last >= |CatpkgText(c)| + |vt|
    ensures var cp := CatpkgText(c);
            var w := cp + vt;
            ScanFrom(w, last, 0) == Start(|cp| + 1) && w[|cp| + 1..] == vt[1..] && w[..|cp|] == cp
  {
    var cp := CatpkgText(c);
    var w := cp + vt;
    CatpkgTextPasses(c, vt, last);
    assert StartsVersionAt(w, last, 0, |cp| + 1) by {
      assert w[|cp|] == '-' && w[|cp| + 1] == vt[1];
    }
    ScanFromStops(w, last, 0);
    assert w[|cp| + 1..] == vt[1..];
    assert w[..|cp|] == cp;
  }

  /** The rendered text of a versioned canonical atom, in its three pieces. */
  lemma RenderedPieces(a: Atom)
    requires CanonicalAtom(a) && a.op.Some?
    ensures var cp := CatpkgText(a.catpkg);
            && |cp| >= 1 && cp[0] == a.catpkg[0][0]
            && Render(a) == Some(OpToken(a.op.value) + (cp + VersionText(a.ver.value)))
  {
    var cp := CatpkgText(a.catpkg);
    assert |cp| >= 1 && cp[0] == a.catpkg[0][0] by {
      if |a.catpkg| == 1 {
        assert cp == a.catpkg[0];
      }
    }
    VersionTextParses(a.ver.value);
    assert OpText(a.op) + cp + VersionText(a.ver.value) == OpToken(a.op.value) + (cp + VersionText(a.ver.value));
  }

  /**
   * A text whose specifier has been detected and stripped, leaving a
   * well-formed catpkg and a rendered version, parses back to them.
   */
  lemma RenderedParses(s: string, w: string, c: seq<string>, vt: string, v: Version)
    requires DetectOp(s).Some? && |s| > |w| && |s| >= 2 && Working(s) == w
    requires WellFormedCatpkg(c) && w == CatpkgText(c) + vt
    requires |vt| >= 2 && vt[0] == '-' && IsDigit(vt[1]) && VersionSpec(vt[1..]) == Ok(v)
    ensures ParseSpec(s) == Ok(Atom(DetectOp(s), c, Some(v)))
  {
    RenderedScan(c, vt, |s| - 1);
    CatpkgTextParses(c);
    ParseVersionedStep(s, w, |CatpkgText(c)| + 1, v, c);
  }

  /** Render-then-parse for an atom with a specifier and a version. */
  lemma RenderThenParseVersioned(a: Atom)
    requires CanonicalAtom(a) && a.op.Some?
    ensures Render(a).Some? && ParseSpec(Render(a).value) == Ok(a)
  {
    var op, v := a.op.value, a.ver.value;
    var vt := VersionText(v);
    var w := CatpkgText(a.catpkg) + vt;
    RenderedPieces(a);
    VersionTextParses(v);
    RenderedSpecifier(op, w);
    RenderedParses(OpToken(op) + w, w, a.catpkg, vt, v);
  }

  /** Parse inverts render on canonical atoms. */
  lemma RenderThenParse(a: Atom)
    requires CanonicalAtom(a)
    ensures Render(a).Some? && ParseSpec(Render(a).value) == Ok(a)
  {
    if a.op.None? {
      RenderThenParseBare(a);
    } else {
      RenderThenParseVersioned(a);
    }
  }
}
