/**
 * Concrete atoms and what the parser and the renderer make of them,
 * including the quirks of the specifier detection and the order in which
 * errors are raised.
 */
module GrammarExamples {
  import opened Text
  import opened PartGrammar
  import opened GrammarProperties

  lemma CatPkgWellFormed()
    ensures WellFormedCatpkg(["cat", "pkg"])
  {
    assert WellFormedPart("cat") by {
      assert "cat"[0] != '-' && "cat"[1] != '-';
    }
    assert WellFormedPart("pkg") by {
      assert "pkg"[0] != '-' && "pkg"[1] != '-';
    }
  }

  lemma DemoRender()
    ensures Render(Atom(Some(EQ), ["cat", "pkg"], Some(Version([1, 1], Some(1))))) == Some("=cat/pkg-1.1-r1")
  {
    assert NatToString(1) == "1";
    assert NumStrings([1, 1]) == ["1", "1"];
    assert Join(["1", "1"], '.') == "1.1";
    var v := Version([1, 1], Some(1));
    assert VersionText(v) == "-" + "1.1" + "-r1";
    assert CatpkgText(["cat", "pkg"]) == "cat" + "/" + "pkg";
    assert OpText(Some(EQ)) == "=";
    assert "=" + ("cat" + "/" + "pkg") + ("-" + "1.1" + "-r1") == "=cat/pkg-1.1-r1";
  }

  /** The atom of the demo script parses as expected and renders back. */
  lemma DemoAtom()
    ensures ParseSpec("=cat/pkg-1.1-r1") == Ok(Atom(Some(EQ), ["cat", "pkg"], Some(Version([1, 1], Some(1)))))
  {
    var a := Atom(Some(EQ), ["cat", "pkg"], Some(Version([1, 1], Some(1))));
    CatPkgWellFormed();
    assert CanonicalAtom(a);
    DemoRender();
    RenderThenParse(a);
  }

  /** A specifier without a version: "part needs version specifier". */
  lemma SpecifierWithoutVersion()
    ensures ParseSpec("=cat/pkg") == Fail(NeedsVersion)
  {
    var s := "=cat/pkg";
    assert DetectOp(s) == Some(EQ) by {
      assert s[..1] == "=";
    }
    assert Working(s) == "cat/pkg";
    forall j | 0 <= j < |Working(s)| ensures ScanPasses(s, j) {
      assert Working(s)[j] in "cat/pkg";
    }
    NeedsVersionIff(s);
  }

  /** A version without a specifier: "part needs vary specifier". */
  lemma VersionWithoutSpecifier()
    ensures ParseSpec("cat/pkg-1.0") == Fail(NeedsVary)
  {
    var s := "cat/pkg-1.0";
    assert DetectOp(s).None? by {
      assert s[..1] == "c";
      assert s[..2] == "ca";
    }
    assert Working(s) == s;
    assert ScanStartsAt(s, 8) by {
      forall j | 0 <= j < 7 ensures Passes(s, 10, j) {
        assert s[j] in "cat/pkg";
      }
    }
    NeedsVaryIff(s);
  }

  /** A trailing hyphen after a specifier reads past the end of the string. */
  lemma TrailingHyphenCrashes()
    ensures ParseSpec("=x-") == Crash
  {
    var s := "=x-";
    assert DetectOp(s) == Some(EQ) by {
      assert s[..1] == "=";
    }
    assert Working(s) == "x-";
    CrashIff(s);
  }

  /** A lone specifier character has no second character to inspect. */
  lemma LoneSpecifierCrashes()
    ensures ParseSpec(">") == Crash
  {
    assert ">"[..1] == ">";
  }

  /** `cat/pkg` followed by the version text `1`, with `last` anywhere past the hyphen. */
  lemma CatPkgOneScan(last: int)
    requires last != 7
    ensures ScanFrom("cat/pkg-1", last, 0) == Start(8)
  {
    var w := "cat/pkg-1";
    forall j | 0 <= j < 7 ensures Passes(w, last, j) {
      assert w[j] in "cat/pkg";
    }
    assert StartsVersionAt(w, last, 0, 8);
    ScanFromStops(w, last, 0);
  }

  /** The version text `1`. */
  lemma VersionOne()
    ensures VersionSpec("1") == Ok(Version([1], None))
  {
    SplitNoSeparator("1", '-');
    SplitNoSeparator("1", '.');
    assert IsDigits("1") && DigitsToNat("1") == 1;
    assert !exists i :: 0 <= i < 1 && i < 3 && !IsDigits(["1"][i]);
    var n := VersionNumbers(["1"]);
    assert n.Ok? && |n.value| == 1 && n.value[0] == 1;
    assert n.value == [1];
  }

  /** Any specifier that leaves `cat/pkg-1` to scan. */
  lemma CatPkgOneWorking(s: string)
    requires DetectOp(s).Some? && |s| >= 10 && Working(s) == "cat/pkg-1"
    ensures ParseSpec(s) == Ok(Atom(DetectOp(s), ["cat", "pkg"], Some(Version([1], None))))
  {
    VersionOne();
    CatPkgParses();
    CatPkgOneScan(|s| - 1);
    CatPkgOneSlices();
    ParseVersionedStep(s, "cat/pkg-1", 8, Version([1], None), ["cat", "pkg"]);
  }

  lemma CatPkgParses()
    ensures Catpkg("cat/pkg") == Ok(["cat", "pkg"])
  {
    CatPkgWellFormed();
    assert CatpkgText(["cat", "pkg"]) == "cat/pkg";
    CatpkgTextParses(["cat", "pkg"]);
  }

  lemma CatPkgOneSlices()
    ensures "cat/pkg-1"[8..] == "1" && "cat/pkg-1"[..7] == "cat/pkg"
  {
  }

  /** A one-character specifier in front of `cat/pkg-1`. */
  lemma CatPkgOneAfter(s: string)
    requires DetectOp(s).Some? && |s| == 10 && s[1..] == "cat/pkg-1" && s[1] != '='
    ensures ParseSpec(s) == Ok(Atom(DetectOp(s), ["cat", "pkg"], Some(Version([1], None))))
  {
    assert Working(s) == "cat/pkg-1";
    CatPkgOneWorking(s);
  }

  /**
   * `>=` is tagged GR, yet both characters are stripped: the atom parses
   * as if it had been written with `>`.
   */
  lemma GreaterOrEqualIsGreater()
    ensures ParseSpec(">=cat/pkg-1") == Ok(Atom(Some(GR), ["cat", "pkg"], Some(Version([1], None))))
    ensures ParseSpec(">cat/pkg-1") == ParseSpec(">=cat/pkg-1")
  {
    var s := ">=cat/pkg-1";
    StripQuirks(s);
    assert s[..2] == ">=";
    assert Working(s) == "cat/pkg-1";
    CatPkgOneWorking(s);
    var s' := ">cat/pkg-1";
    assert s'[..1] == ">";
    CatPkgOneAfter(s');
  }

  /** Three catpkg parts. */
  lemma ThreeParts()
    ensures Catpkg("cat/sub/pkg") == Fail(TooManyCategories)
  {
    var sp := "sub" + ['/'] + "pkg";
    var t := "cat" + ['/'] + sp;
    SplitNoSeparator("pkg", '/');
    SplitAfterPiece("sub", '/', "pkg");
    SplitAfterPiece("cat", '/', sp);
    assert Split(t, '/') == ["cat", "sub", "pkg"];
    CatSubPkgText();
    CatpkgRejections(t);
  }

  lemma CatSubPkgText()
    ensures "cat" + ['/'] + ("sub" + ['/'] + "pkg") == "cat/sub/pkg"
  {
  }

  /** The scan of `=cat/sub/pkg-` followed by some version text. */
  lemma ThreePartsScan(s: string)
    requires |s| >= 14 && s[..13] == "=cat/sub/pkg-" && IsDigit(s[13])
    ensures DetectOp(s) == Some(EQ) && Working(s) == s[1..]
    ensures ScanOf(s) == Start(12) && Working(s)[..11] == "cat/sub/pkg"
  {
    assert s[..1] == s[..13][..1];
    var w, last := s[1..], |s| - 1;
    forall j | 0 <= j < 11 ensures Passes(w, last, j) {
      assert w[j] == s[..13][j + 1];
      assert w[j] in "cat/sub/pkg";
    }
    assert w[11] == s[..13][12];
    assert StartsVersionAt(w, last, 0, 12);
    ScanFromStops(w, last, 0);
    assert w[..11] == s[..13][1..12];
  }

  /** With the version accepted, a catpkg error is the outcome. */
  lemma CatpkgFailureStep(s: string, v: nat, ver: Version)
    requires DetectOp(s).Some? && |s| >= 2 && ScanOf(s) == Start(v)
    requires VersionSpec(Working(s)[v..]) == Ok(ver) && Catpkg(Working(s)[..v - 1]).Fail?
    ensures ParseSpec(s) == Fail(Catpkg(Working(s)[..v - 1]).error)
  {
  }

  /** The catpkg is checked only once the version has been accepted. */
  lemma CatpkgCheckedAfterVersion()
    ensures ParseSpec("=cat/sub/pkg-1") == Fail(TooManyCategories)
  {
    var s := "=cat/sub/pkg-1";
    assert s[..13] == "=cat/sub/pkg-";
    ThreePartsScan(s);
    assert Working(s)[12..] == "1";
    VersionOne();
    ThreeParts();
    CatpkgFailureStep(s, 12, Version([1], None));
  }

  /** A version error wins over a catpkg error. */
  lemma VersionCheckedBeforeCatpkg()
    ensures ParseSpec("=cat/sub/pkg-1.x") == Fail(StringInVersion)
  {
    var s := "=cat/sub/pkg-1.x";
    assert s[..13] == "=cat/sub/pkg-";
    ThreePartsScan(s);
    assert Working(s)[12..] == "1.x";
    VersionOneX();
    VersionErrorsFirst(s);
  }

  /** The version text `1.x`. */
  lemma VersionOneX()
    ensures VersionSpec("1.x") == Fail(StringInVersion)
  {
    var t := "1" + ['.'] + "x";
    assert t == "1.x";
    SplitNoSeparator(t, '-');
    SplitNoSeparator("x", '.');
    SplitAfterPiece("1", '.', "x");
    assert !IsDigits(Split(t, '.')[1]);
  }

  /** An atom without specifier and version. */
  lemma BareAtom()
    ensures ParseSpec("cat/pkg") == Ok(Atom(None, ["cat", "pkg"], None))
  {
    var a := Atom(None, ["cat", "pkg"], None);
    CatPkgWellFormed();
    assert CatpkgText(["cat", "pkg"]) == "cat/pkg";
    assert DetectOp("cat/pkg").None? by {
      assert "cat/pkg"[..1] == "c" && "cat/pkg"[..2] == "ca";
    }
    assert OpText(None) + "cat/pkg" + "" == "cat/pkg";
    assert Render(a) == Some("cat/pkg");
    RenderThenParse(a);
  }
}
