/**
 * The package-atom grammar of `Part.parse` and `Part.rebuild_part`, as
 * reference functions: `ParseSpec` follows the five stages of the parser in
 * their fixed order (operator, version-start scan, operator/version
 * coupling, version, catpkg) and `Render` describes the rebuilt text.
 * The imperative methods in module PackageParts are proved equal to these.
 */
module PartGrammar {
  import opened Text

  datatype Option<T> = None | Some(value: T)

  /** The vary specifier tags. */
  datatype Op = EQ | NE | GR | LS | GE | LE

  /** Up to three version numbers and an optional revision (`-rN`). */
  datatype Version = Version(nums: seq<nat>, rev: Option<nat>)

  /**
   * Parsed output: the optional vary specifier, the catpkg list, and the
   * version (present in parse output exactly when the specifier is).
   */
  datatype Atom = Atom(op: Option<Op>, catpkg: seq<string>, ver: Option<Version>)

  /** One variant per `ValueError` message raised by `parse`. */
  datatype ParseError =
    | HangingDot          // "hanging '.' with uninitialized specifier"
    | NeedsVersion        // "part needs version specifier"
    | NeedsVary           // "part needs vary specifier"
    | TooManyHyphens      // "part has more than 2 hyphens in version specifier"
    | TooManyNumbers      // "more than 3 version numbers"
    | StringInVersion     // "string in version number"
    | RevisionPrefix      // "revisions should start with 'r'"
    | RevisionString      // "revisions cannot have a string in them"
    | InvalidCatpkg       // "invalid catpkg"
    | TooManyCategories   // "there cannot be more than one catagories"

  /** Outcome of a stage: a value, a `ValueError`, or an `IndexError` (Crash). */
  datatype Result<T> = Ok(value: T) | Fail(error: ParseError) | Crash {
    predicate IsFailure() {
      !Ok?
    }

    function PropagateFailure<U>(): Result<U>
      requires !Ok?
    {
      if Fail? then Fail(error) else Crash
    }

    function Extract(): T
      requires Ok?
    {
      value
    }
  }

  /** How the version-start scan ends. */
  datatype Scan =
    | Start(at: nat)   // the version text begins at index `at`
    | NoStart          // the scan ran off the end
    | Dot              // a '.' came first
    | Overrun          // a trailing '-' made the scan index past the end

  // ---------------------------------------------------------------------
  // Stage 1: the vary specifier

  /**
   * The `if`/`elif` chain over the six prefix flags. `GR` and `LS` are
   * tested before `GE` and `LE`, so the last two branches are dead.
   */
  function DetectOp(s: string): Option<Op> {
    if StartsWith(s, "=") then Some(EQ)
    else if StartsWith(s, "!=") then Some(NE)
    else if StartsWith(s, ">") then Some(GR)
    else if StartsWith(s, "<") then Some(LS)
    else if StartsWith(s, ">=") then Some(GE)
    else if StartsWith(s, "<=") then Some(LE)
    else None
  }

  /** Characters stripped for a specifier: two whenever the second is '='. */
  function StripLength(s: string): nat
    requires |s| >= 2
  {
    if s[1] != '=' then 1 else 2
  }

  /** The working string once a specifier (if any) has been stripped. */
  function Working(s: string): string {
    if DetectOp(s).None? || |s| < 2 then s else s[StripLength(s)..]
  }

  // ---------------------------------------------------------------------
  // Stage 2: the scan for the version-start hyphen

  /**
   * Whether the scan, when it reaches index `j`, moves on to `j + 1`.
   * `last` is the index of the last character of the ORIGINAL string,
   * computed before the specifier was stripped.
   */
  predicate Passes(w: string, last: int, j: nat)
    requires j < |w|
  {
    w[j] != '.' && !(w[j] == '-' && j != last && (j + 1 == |w| || IsDigit(w[j + 1])))
  }

  /** The scan from index `i` on. */
  function ScanFrom(w: string, last: int, i: nat): (r: Scan)
    requires i <= |w|
    ensures r.Start? ==> i < r.at < |w| && w[r.at - 1] == '-' && IsDigit(w[r.at])
    decreases |w| - i
  {
    if i == |w| then NoStart
    else if w[i] == '-' && i != last && i + 1 == |w| then Overrun
    else if w[i] == '-' && i != last && IsDigit(w[i + 1]) then Start(i + 1)
    else if w[i] == '.' then Dot
    else ScanFrom(w, last, i + 1)
  }

  // ---------------------------------------------------------------------
  // Stage 4: the version text

  /**
   * The dot components, in closed form: the first three are checked for
   * digits before a fourth is refused.
   */
  function VersionNumbers(comps: seq<string>): Result<seq<nat>> {
    if exists i :: 0 <= i < |comps| && i < 3 && !IsDigits(comps[i]) then Fail(StringInVersion)
    else if |comps| > 3 then Fail(TooManyNumbers)
    else Ok(seq(|comps|, i requires 0 <= i < |comps| => DigitsToNat(comps[i])))
  }

  /** The revision segment `r<digits>`. */
  function RevisionNumber(seg: string): Result<nat> {
    if !StartsWith(seg, "r") then Fail(RevisionPrefix)
    else if !IsDigits(seg[1..]) then Fail(RevisionString)
    else Ok(DigitsToNat(seg[1..]))
  }

  /** The version text (everything after the version-start hyphen). */
  function VersionSpec(t: string): Result<Version> {
    var segs := Split(t, '-');
    if |segs| > 2 then Fail(TooManyHyphens)
    else
      var nums :- VersionNumbers(Split(segs[0], '.'));
      if |segs| == 1 then Ok(Version(nums, None))
      else
        var r :- RevisionNumber(segs[1]);
        Ok(Version(nums, Some(r)))
  }

  // ---------------------------------------------------------------------
  // Stage 5: the catpkg text

  /**
   * The catpkg checks. With more than two parts only the first part is
   * tested for emptiness (the second is replaced by the placeholder "X").
   */
  function Catpkg(t: string): Result<seq<string>> {
    if |t| == 0 then Fail(InvalidCatpkg)
    else
      var parts := Split(t, '/');
      var second := if |parts| == 2 then parts[1] else "X";
      if parts[0] == "" || second == "" then Fail(InvalidCatpkg)
      else if |parts| > 2 then Fail(TooManyCategories)
      else Ok(parts)
  }

  // ---------------------------------------------------------------------
  // The whole parse (without the cache)

  /** `Part.parse` with the cache disabled. */
  function ParseSpec(s: string): Result<Atom> {
    var op := DetectOp(s);
    if op.Some? && |s| < 2 then Crash
    else
      var w := Working(s);
      match ScanFrom(w, |s| - 1, 0)
      case Overrun => Crash
      case Dot => Fail(HangingDot)
      case NoStart =>
        if op.Some? then Fail(NeedsVersion)
        else
          var c :- Catpkg(w);
          Ok(Atom(None, c, None))
      case Start(v) =>
        if op.None? then Fail(NeedsVary)
        else
          var ver :- VersionSpec(w[v..]);
          var c :- Catpkg(w[..v - 1]);
          Ok(Atom(op, c, Some(ver)))
  }

  // ---------------------------------------------------------------------
  // Rendering

  function OpToken(op: Op): string {
    match op
    case EQ => "="
    case NE => "!="
    case GR => ">"
    case LS => "<"
    case GE => ">="
    case LE => "<="
  }

  function OpText(op: Option<Op>): string {
    if op.Some? then OpToken(op.value) else ""
  }

  /** Both parts when there are exactly two; otherwise only the first. */
  function CatpkgText(c: seq<string>): string
    requires |c| >= 1
  {
    if |c| == 2 then c[0] + "/" + c[1] else c[0]
  }

  function NumStrings(nums: seq<nat>): (r: seq<string>)
    ensures |r| == |nums|
  {
    seq(|nums|, i requires 0 <= i < |nums| => NatToString(nums[i]))
  }

  /**
   * The version text: nothing when there are no numbers (the list then
   * starts with the "REV" marker, which is not an int); otherwise
   * `-N.N.N`, then `-rR` when a revision is present.
   */
  function VersionText(v: Version): string {
    if v.nums == [] then ""
    else
      "-" + Join(NumStrings(v.nums), '.')
      + (match v.rev case None => "" case Some(r) => "-r" + NatToString(r))
  }

  /**
   * `Part.rebuild_part`: None where the Python code indexes an empty list
   * (an empty catpkg, or a version list with no entries at all).
   */
  function Render(a: Atom): Option<string> {
    if |a.catpkg| == 0 then None
    else if a.ver.Some? && a.ver.value.nums == [] && a.ver.value.rev.None? then None
    else Some(OpText(a.op) + CatpkgText(a.catpkg) + (if a.ver.Some? then VersionText(a.ver.value) else ""))
  }
}
