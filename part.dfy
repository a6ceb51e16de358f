/**
 * `Part` of `libportstrip/part.py`: a package atom whose text can be
 * changed in place, parsed (through the module-wide parse cache
 * `PARSED_OUT_CACHES`) and rebuilt from parsed output. The cache is an
 * object of class `PartCache`, passed to the methods that use it.
 *
 * The methods follow the Python code step by step; each is proved equal to
 * the reference function of module PartGrammar whose properties are proved
 * in module GrammarProperties.
 */
module PackageParts {
  import opened Text
  import opened PartGrammar

  // ---------------------------------------------------------------------
  // The uncached parse

  /**
   * The `for i, c in enumerate(part_copy)` scan of `parse`: the index after
   * the first hyphen followed by a digit, unless a '.' comes first. A
   * hyphen in the last position of `w` but not at `last` makes the Python
   * code read `part_copy[i + 1]` past the end.
   */
  method ScanVersionStart(w: string, last: int) returns (r: Scan)
    ensures r == ScanFrom(w, last, 0)
  {
    var i := 0;
    while i < |w|
      invariant 0 <= i <= |w|
      invariant ScanFrom(w, last, i) == ScanFrom(w, last, 0)
    {
      var c := w[i];
      if c == '-' && i != last {
        if i + 1 == |w| {
          return Overrun;
        }
        if IsDigit(w[i + 1]) {
          return Start(i + 1);
        }
      }
      if c == '.' {
        return Dot;
      }
      i := i + 1;
    }
    return NoStart;
  }

  /**
   * The version stage of `parse`: hyphen count, then the dot components
   * one by one (a fourth component is refused before its digits are
   * looked at), then the revision.
   */
  method ParseVersionText(t: string) returns (r: Result<Version>)
    ensures r == VersionSpec(t)
  {
    var segs := Split(t, '-');
    if |segs| > 2 {
      return Fail(TooManyHyphens);
    }
    var comps := Split(segs[0], '.');
    var nums: seq<nat> := [];
    var i := 0;
    while i < |comps|
      invariant 0 <= i <= |comps| && i <= 3
      invariant forall j :: 0 <= j < i ==> IsDigits(comps[j])
      invariant |nums| == i
      invariant forall j :: 0 <= j < i ==> nums[j] == DigitsToNat(comps[j])
    {
      if i > 2 {
        return Fail(TooManyNumbers);
      }
      if !IsDigits(comps[i]) {
        return Fail(StringInVersion);
      }
      nums := nums + [DigitsToNat(comps[i])];
      i := i + 1;
    }
    assert nums == seq(|comps|, j requires 0 <= j < |comps| => DigitsToNat(comps[j]));
    if |segs| > 1 {
      var revision := segs[1];
      if !StartsWith(revision, "r") {
        return Fail(RevisionPrefix);
      }
      revision := revision[1..];
      if !IsDigits(revision) {
        return Fail(RevisionString);
      }
      return Ok(Version(nums, Some(DigitsToNat(revision))));
    }
    return Ok(Version(nums, None));
  }

  /**
   * The catpkg stage of `parse`: non-empty, first part and (with exactly
   * two parts) second part non-empty, at most two parts. It is the
   * statement form of the reference function `Catpkg` and mirrors it
   * check for check.
   */
  method ParseCatpkgText(w: string) returns (r: Result<seq<string>>)
    ensures r == Catpkg(w)
  {
    if |w| == 0 {
      return Fail(InvalidCatpkg);
    }
    var catpkg := Split(w, '/');
    var second := if |catpkg| == 2 then catpkg[1] else "X";
    if catpkg[0] == "" || second == "" {
      return Fail(InvalidCatpkg);
    }
    if |catpkg| > 2 {
      return Fail(TooManyCategories);
    }
    return Ok(catpkg);
  }

  /**
   * The body of `parse` below the cache lookup: specifier flags, strip,
   * scan, specifier/version coupling, version, catpkg.
   */
  method ParseText(s: string) returns (r: Result<Atom>)
    ensures r == ParseSpec(s)
  {
    var last := |s| - 1;
    var eq, ne, gr := StartsWith(s, "="), StartsWith(s, "!="), StartsWith(s, ">");
    var ls, ge, le := StartsWith(s, "<"), StartsWith(s, ">="), StartsWith(s, "<=");
    var op: Option<Op> := None;
    if eq { op := Some(EQ); }
    else if ne { op := Some(NE); }
    else if gr { op := Some(GR); }
    else if ls { op := Some(LS); }
    else if ge { op := Some(GE); }
    else if le { op := Some(LE); }
    assert op == DetectOp(s);
    var w := s;
    if op.Some? {
      if |s| < 2 {
        // part_copy[1] on a one-character string
        return Crash;
      }
      w := s[(if s[1] != '=' then 1 else 2)..];
    }
    assert w == Working(s);
    var start := ScanVersionStart(w, last);
    if start == Overrun {
      return Crash;
    }
    if start == Dot {
      return Fail(HangingDot);
    }
    if start == NoStart && op.Some? {
      return Fail(NeedsVersion);
    }
    if start.Start? && op.None? {
      return Fail(NeedsVary);
    }
    var ver: Option<Version> := None;
    if op.Some? {
      var parsed := ParseVersionText(w[start.at..]);
      if !parsed.Ok? {
        return parsed.PropagateFailure();
      }
      ver := Some(parsed.value);
      w := w[..start.at - 1];
    }
    var catpkg := ParseCatpkgText(w);
    if !catpkg.Ok? {
      return catpkg.PropagateFailure();
    }
    return Ok(Atom(op, catpkg.value, ver));
  }

  // ---------------------------------------------------------------------
  // The parse cache

  /**
   * `PARSED_OUT_CACHES`: parsed output by part text. `order` is the
   * insertion order of the keys, which `dict.values()` and `dict.keys()`
   * follow; updating a present key keeps its place.
   */
  class PartCache {
    var entries: map<string, Atom>
    var order: seq<string>

    /** The keys are exactly the entries of `order`, each once. */
    ghost predicate Valid()
      reads this
    {
      && (forall k :: k in entries <==> k in order)
      && (forall i, j :: 0 <= i < j < |order| ==> order[i] != order[j])
    }

    /** Every cached output is what the uncached parse gives for its key. */
    ghost predicate Sound()
      reads this
    {
      forall k :: k in entries ==> ParseSpec(k) == Ok(entries[k])
    }

    /** The empty cache the module starts with. */
    constructor()
      ensures entries == map[] && order == []
      ensures Valid() && Sound()
    {
      entries := map[];
      order := [];
    }

    /** `PARSED_OUT_CACHES.update({key: value})`. */
    method Update(key: string, value: Atom)
      requires Valid()
      modifies this
      ensures Valid()
      ensures entries == old(entries)[key := value]
      ensures order == if key in old(entries) then old(order) else old(order) + [key]
    {
      if key !in entries {
        order := order + [key];
      }
      entries := entries[key := value];
    }
  }

  // ---------------------------------------------------------------------
  // Rebuilding

  /** An entry of the version list in parse output: an int or the "REV" marker. */
  datatype VerItem = Num(n: nat) | RevMark

  /** The version list of parse output: the numbers, then "REV" and the revision. */
  function VersionList(v: Version): (items: seq<VerItem>)
    ensures |items| == |v.nums| + (if v.rev.Some? then 2 else 0)
    ensures forall i :: 0 <= i < |v.nums| ==> items[i] == Num(v.nums[i])
    ensures v.rev.Some? ==> items[|v.nums|] == RevMark && items[|v.nums| + 1] == Num(v.rev.value)
  {
    seq(|v.nums|, i requires 0 <= i < |v.nums| => Num(v.nums[i]))
    + (match v.rev case None => [] case Some(r) => [RevMark, Num(r)])
  }

  /** Each piece followed by a dot. */
  ghost function Terminated(strs: seq<string>): string {
    if |strs| == 0 then "" else Terminated(strs[..|strs| - 1]) + strs[|strs| - 1] + "."
  }

  /** A join is the dot-terminated pieces but the last, then the last piece. */
  lemma {:induction false} JoinIsTerminated(strs: seq<string>)
    requires |strs| >= 1
    ensures Join(strs, '.') == Terminated(strs[..|strs| - 1]) + strs[|strs| - 1]
    decreases |strs|
  {
    if |strs| > 1 {
      var init := strs[..|strs| - 1];
      assert init + [strs[|strs| - 1]] == strs;
      JoinSnoc(init, strs[|strs| - 1], '.');
      JoinIsTerminated(init);
      assert init[..|init| - 1] == strs[..|strs| - 2];
      assert Terminated(init) == Terminated(init[..|init| - 1]) + init[|init| - 1] + ".";
    } else {
      assert strs[..0] == [];
    }
  }

  /** Dropping the final dot of a non-empty terminated list leaves the join. */
  lemma DropFinalDot(head: string, strs: seq<string>)
    requires |strs| >= 1
    ensures |head + Terminated(strs)| >= 1
    ensures (head + Terminated(strs))[..|head + Terminated(strs)| - 1] == head + Join(strs, '.')
  {
    assert strs[..|strs|] == strs;
    JoinIsTerminated(strs);
    var t := Terminated(strs[..|strs| - 1]) + strs[|strs| - 1];
    assert head + Terminated(strs) == (head + t) + ".";
  }

  /** One number written by the loop of `WriteVersion`. */
  lemma NumberStep(v: Version, i: nat, text: string)
    requires i < |v.nums| && text == "-" + Terminated(NumStrings(v.nums)[..i])
    ensures VersionList(v)[i] == Num(v.nums[i])
    ensures text + NatToString(v.nums[i]) + "." == "-" + Terminated(NumStrings(v.nums)[..i + 1])
    ensures i == |v.nums| - 1 ==> text + NatToString(v.nums[i]) == "-" + Join(NumStrings(v.nums), '.')
  {
    var strs := NumStrings(v.nums);
    var done, n := Terminated(strs[..i]), NatToString(v.nums[i]);
    assert strs[..i + 1][..i] == strs[..i];
    assert Terminated(strs[..i + 1]) == done + n + ".";
    AppendAssoc("-", done, n);
    AppendAssoc("-", done + n, ".");
    if i == |v.nums| - 1 {
      JoinIsTerminated(strs);
      assert strs[..i + 1] == strs;
    }
  }

  /** The "REV" marker: the trailing dot is dropped and the revision written. */
  lemma RevisionStep(v: Version, text: string)
    requires |v.nums| >= 1 && v.rev.Some?
    requires text == "-" + Terminated(NumStrings(v.nums)[..|v.nums|])
    ensures VersionList(v)[|v.nums|] == RevMark && VersionList(v)[|v.nums| + 1] == Num(v.rev.value)
    ensures |text| >= 1 && text[..|text| - 1] + "-r" + NatToString(v.rev.value) == VersionText(v)
  {
    var strs := NumStrings(v.nums);
    assert strs[..|v.nums|] == strs;
    DropFinalDot("-", strs);
  }

  class Part {
    var thispart: string

    /** `Part(thispart)`. */
    constructor(thispart: string)
      ensures this.thispart == thispart
    {
      this.thispart := thispart;
    }

    /** `change_part`: the part to be used from now on. */
    method ChangePart(newPart: string)
      modifies this
      ensures thispart == newPart
    {
      thispart := newPart;
    }

    /**
     * `parse`: a cached output is returned as it is; otherwise the part is
     * parsed and, unless `noCache` is set, a successful output is stored
     * under the part's text. With the cache disabled it is neither read
     * nor written; errors are never stored.
     */
    method Parse(cache: PartCache, noCache: bool) returns (r: Result<Atom>)
      requires cache.Valid()
      modifies cache
      ensures cache.Valid()
      ensures !noCache && thispart in old(cache.entries) ==>
                r == Ok(old(cache.entries)[thispart])
                && cache.entries == old(cache.entries) && cache.order == old(cache.order)
      ensures noCache || thispart !in old(cache.entries) ==> r == ParseSpec(thispart)
      ensures (noCache || thispart !in old(cache.entries)) && !(r.Ok? && !noCache) ==>
                cache.entries == old(cache.entries) && cache.order == old(cache.order)
      ensures (noCache || thispart !in old(cache.entries)) && r.Ok? && !noCache ==>
                cache.entries == old(cache.entries)[thispart := r.value]
                && cache.order == old(cache.order) + [thispart]
      ensures r.Ok? && !noCache ==> thispart in cache.entries && cache.entries[thispart] == r.value
      ensures old(cache.Sound()) ==> r == ParseSpec(thispart) && cache.Sound()
    {
      if thispart in cache.entries && !noCache {
        return Ok(cache.entries[thispart]);
      }
      r := ParseText(thispart);
      if r.Ok? && !noCache {
        cache.Update(thispart, r.value);
      }
    }

    /**
     * The `# version spec` block of `rebuild_part`: a hyphen, each number
     * followed by a dot except at the last list index, and at the "REV"
     * marker the trailing dot replaced by `-r` and the revision.
     */
    static method WriteVersion(items: seq<VerItem>, v: Version) returns (text: string)
      requires items == VersionList(v) && |v.nums| >= 1
      ensures text == VersionText(v)
    {
      ghost var strs := NumStrings(v.nums);
      text := "-";
      var lastItem := |items| - 1;
      var i := 0;
      while i < |items|
        invariant 0 <= i <= |v.nums|
        invariant i < |v.nums| || v.rev.Some? ==> text == "-" + Terminated(strs[..i])
        invariant i == |v.nums| && v.rev.None? ==> text == "-" + Join(strs, '.')
      {
        if items[i] == RevMark {
          RevisionStep(v, text);
          text := text[..|text| - 1];
          text := text + "-r" + NatToString(items[i + 1].n);
          return;
        }
        NumberStep(v, i, text);
        text := text + NatToString(items[i].n);
        if i != lastItem {
          text := text + ".";
        }
        i := i + 1;
      }
    }

    /**
     * `rebuild_part`: the part text written back from parsed output. None
     * where the Python code raises `IndexError` (an empty catpkg, an empty
     * version list).
     */
    static method RebuildPart(parsed: Atom) returns (r: Option<string>)
      ensures r == Render(parsed)
    {
      var built := "";
      if parsed.op.Some? {
        built := built + OpToken(parsed.op.value);
      }
      var catpkg := parsed.catpkg;
      // type(parsed_out[-1][0]) is int: the last list is the version list
      // when there is one, the catpkg otherwise
      var items: seq<VerItem> := [];
      var noVersion := true;
      if parsed.ver.Some? {
        items := VersionList(parsed.ver.value);
        if |items| == 0 {
          return None;
        }
        noVersion := !items[0].Num?;
      } else if |catpkg| == 0 {
        return None;
      }
      if |catpkg| == 0 {
        return None;
      }
      built := built + catpkg[0];
      if |catpkg| == 2 {
        built := built + "/" + catpkg[1];
      }
      assert built == OpText(parsed.op) + CatpkgText(catpkg);
      if !noVersion {
        var text := WriteVersion(items, parsed.ver.value);
        built := built + text;
      } else if parsed.ver.Some? {
        assert parsed.ver.value.nums == [] && VersionText(parsed.ver.value) == "";
        assert built + "" == built;
      } else {
        assert built + "" == built;
      }
      return Some(built);
    }

    /**
     * `cache_rebuild_part`: the key of the first cached output, in the
     * cache's order, that equals `parsed`; None when there is none.
     */
    static method CacheRebuildPart(cache: PartCache, parsed: Atom) returns (r: Option<string>)
      requires cache.Valid()
      ensures r.Some? ==> r.value in cache.entries && cache.entries[r.value] == parsed
      ensures r.Some? ==>
                exists i :: 0 <= i < |cache.order| && cache.order[i] == r.value
                            && forall j :: 0 <= j < i ==> cache.entries[cache.order[j]] != parsed
      ensures r.None? <==> forall k :: k in cache.entries ==> cache.entries[k] != parsed
      ensures r.Some? && cache.Sound() ==> ParseSpec(r.value) == Ok(parsed)
    {
      var i := 0;
      while i < |cache.order|
        invariant 0 <= i <= |cache.order|
        invariant forall j :: 0 <= j < i ==> cache.entries[cache.order[j]] != parsed
      {
        if cache.entries[cache.order[i]] == parsed {
          return Some(cache.order[i]);
        }
        i := i + 1;
      }
      return None;
    }
  }

  /**
   * Parsing one part twice with the cache enabled gives the same result
   * both times; a successful first parse is served from the cache the
   * second time.
   */
  method ParseTwice(p: Part, cache: PartCache) returns (first: Result<Atom>, second: Result<Atom>)
    requires cache.Valid()
    modifies cache
    ensures cache.Valid()
    ensures second == first
    ensures first.Ok? ==> p.thispart in cache.entries && cache.entries[p.thispart] == first.value
    ensures old(cache.Sound()) ==> first == ParseSpec(p.thispart) && cache.Sound()
  {
    first := p.Parse(cache, false);
    second := p.Parse(cache, false);
  }
}
