# portstrip package atoms, in Dafny

portstrip works on package atoms such as `=cat/pkg-1.1-r1`. An atom has
an optional vary specifier (`=`, `!=`, `>`, `<`, `>=`, `<=`), a catpkg
(`category` or `category/package`), and, exactly when a specifier is
present, a version of one to three numbers with an optional revision
`-rN`. `Part.parse` turns the text into parsed output and memoises it in
the module-wide dict `PARSED_OUT_CACHES`. `Part.rebuild_part` writes
parsed output back as text. `Part.cache_rebuild_part` looks the text up
in the cache instead. The small `EnvShell` of `psenv` keeps three flags
and lists its environment.

The model has five modules:

- `Text` (text.dfy): the Python string primitives the parser uses. These
  are `str.split` on one character, `str.isdigit` on ASCII digits,
  `int()` of a digit string and `str()` of a non-negative integer. Their
  round trips are proved: join of split, split of join, and `str(int(s))`
  for digits without a leading zero.
- `PartGrammar` (grammar.dfy): reference functions. `ParseSpec` is the
  parse without the cache, following its five stages in the source's
  order: specifier, version-start scan, specifier/version coupling,
  version, catpkg. `Render` is the rebuilt text.
  - A `ValueError` becomes `Fail(e)`, with one `ParseError` variant per
    message.
  - An `IndexError` becomes `Crash` in the parse and `None` in the
    rendering.
- `GrammarProperties` (grammar_properties.dfy): what the parser and
  renderer promise, proved about the reference functions:
  - where the version starts;
  - which error each malformed atom raises, and in which order;
  - the specifier quirks;
  - the round trips parse-then-render and render-then-parse.
- `GrammarExamples` (grammar_examples.dfy): concrete atoms, among them
  the atom of the demo script.
- `PackageParts` (part.dfy): the imperative code.
  - `Part` is a class with the field `thispart`.
  - `PARSED_OUT_CACHES` is a `PartCache` object. It holds a map and the
    insertion order of its keys, and is passed to the methods that use
    it.
  - The scan loop, the version-number loop, the whole uncached parse,
    the rebuild loop and the reverse cache lookup are methods. Each is
    proved equal to the reference function, or proved to return the
    first match.
- `Shell` (shell.dfy): `EnvShell`, a class with `died`, `finish`,
  `returnCode`, `env` and an `output` field that collects what the
  Python code prints.

Quirks of the code that the model keeps:

- `>=` is tagged `GR` and `<=` is tagged `LS`. Both characters are still
  stripped, so `GE` and `LE` are never produced, although the docstring
  of `parse` (part.py:54-55) lists them.
- `==x` is tagged `EQ` with both characters stripped.
- `_last` is taken from the text before the specifier is stripped. After
  a specifier, a trailing `-` with no earlier `-digit` and no earlier
  '.' therefore makes the scan read past the end (`IndexError`). An
  earlier '.' raises "hanging '.'" first. A lone specifier character
  crashes as well.
- The version is parsed before the catpkg is checked, so version errors
  win.
- With three or more catpkg parts only the first is tested for
  emptiness (`a//b` is "more than one catagories", `/a/b` is "invalid
  catpkg").
- `rebuild_part` writes both catpkg parts when there are exactly two;
  otherwise it writes only the first. It writes no version when the
  version list starts with `REV`.
- In `lsenv`, a space follows an entry unless its value equals the LAST
  entry's value. An earlier duplicate of that value is therefore not
  followed by a space either.

## Model

| member | source | states |
|---|---|---|
| `Text.Split` | src/libportstrip/part.py:137-144 | `str.split`: one more piece than separators, and no piece contains the separator |
| `Text.JoinSplit` | src/libportstrip/part.py:188 | joining the pieces of a split by the separator gives the original text |
| `Text.SplitJoin` | src/libportstrip/part.py:188 | splitting a join of separator-free pieces gives the pieces back |
| `Text.NatToString` | src/libportstrip/part.py:280-283 | `str(n)` is a non-empty digit string without a leading zero, and `int` of it is `n` |
| `Text.NatToStringOfDigits` | src/libportstrip/part.py:156 | `str(int(s)) == s` for a digit string without a leading zero |
| `Text.PaddedDigitsNotRecovered` | src/libportstrip/part.py:156 | a zero-padded number is not recovered: `str(int("01")) == "1"` |
| `PartGrammar.ScanFrom` | src/libportstrip/part.py:110-119 | a version start found by the scan lies right after a hyphen and on a digit |
| `PartGrammar.NumStrings` | src/libportstrip/part.py:283 | one `str` per version number |
| `Text.IsDigits` | src/libportstrip/part.py:151 | `str.isdigit`: a non-empty text of ASCII digits; used by the version, revision and scan checks (properties in `VersionAccepted`, `VersionRejections`) |
| `Text.StartsWith` | src/libportstrip/part.py:80-85 | `str.startswith`: the text begins with the prefix; the specifier flags and the revision prefix test (properties in `StripQuirks`, `VersionRejections`) |
| `Text.DigitsToNat` | src/libportstrip/part.py:156 | `int()` of a digit string, most significant digit first; inverted by `str` in `NatToString` and `NatToStringOfDigits` |
| `PartGrammar.DetectOp` | src/libportstrip/part.py:80-96 | the specifier tag of the `if`/`elif` chain, first match wins; `StripQuirks` proves `GE`/`LE` are never returned |
| `PartGrammar.StripLength` | src/libportstrip/part.py:99 | one character stripped after the specifier, two when the second character is '='; `StripQuirks` states the effect on `>=`, `<=`, `==` |
| `PartGrammar.Working` | src/libportstrip/part.py:99 | the text left after the specifier is stripped; `SpecifierToken` proves it is the text after the specifier's own token when no extra '=' follows |
| `PartGrammar.VersionNumbers` | src/libportstrip/part.py:144-156 | the dot components: a non-digit among the first three fails first, a fourth component fails next, otherwise their values; stated in `VersionAccepted` and `VersionRejections` |
| `PartGrammar.RevisionNumber` | src/libportstrip/part.py:158-178 | the revision segment must start with 'r' and continue with digits; its value is those digits; stated in `VersionAccepted` and `VersionRejections` |
| `PartGrammar.VersionSpec` | src/libportstrip/part.py:137-178 | at most one hyphen, then the numbers, then the revision; errors in the source's order; `VersionAccepted`, `VersionRejections` and `VersionTextOfSpec` state its meaning, `ParseVersionText` is the loop proved equal to it |
| `PartGrammar.Catpkg` | src/libportstrip/part.py:183-197 | the catpkg checks; `CatpkgAccepted` and `CatpkgRejections` state which texts are accepted and with which error the rest fail |
| `PartGrammar.ParseSpec` | src/libportstrip/part.py:72-210 | the uncached parse: specifier, scan, coupling, version, catpkg in that order; `OutcomeByScan`, the `*Iff` lemmas and `ParseThenRender` state its outcomes, `ParseText` is the method proved equal to it |
| `PartGrammar.OpToken` | src/libportstrip/part.py:246-251 | the text of each specifier tag; `RenderedSpecifier` proves the parser reads the tag back for `EQ`, `NE`, `GR`, `LS` |
| `PartGrammar.OpText` | src/libportstrip/part.py:244-255 | the specifier text, empty when there is none |
| `PartGrammar.CatpkgText` | src/libportstrip/part.py:265-267 | both parts joined by '/' when there are exactly two, otherwise only the first; `CatpkgTextParses` proves a well-formed catpkg is read back from it |
| `PartGrammar.VersionText` | src/libportstrip/part.py:272-285 | `-` and the numbers joined by '.', then `-r` and the revision; empty when the version list starts with `REV`; `VersionTextOfSpec` and `VersionTextParses` relate it to `VersionSpec` both ways |
| `PartGrammar.Render` | src/libportstrip/part.py:213-290 | the rebuilt text, None at the two `IndexError` sites; `ParseThenRender` and `RenderThenParse` are its round trips with `ParseSpec` |
| `Shell.ValueText` | src/libportstrip/psenv/shell.py:51-52 | a string value in double quotes, any other value as printed |
| `Shell.EntryText` | src/libportstrip/psenv/shell.py:54-55 | `k=v`, followed by a space unless the value equals the last entry's value |
| `Shell.Entries` | src/libportstrip/psenv/shell.py:46-57 | the entry texts in insertion order; `EntriesSpaced` and `ListingSeparated` state the spacing |
| `Shell.EnvListing` | src/libportstrip/psenv/shell.py:44-59 | everything `lsenv` prints: the entries, then a newline; `Lsenv` is the loop proved to print it, `StartListing` gives it for the start environment |
| `GrammarProperties.ScanFromStops` | src/libportstrip/part.py:110-119 | the scan ends with no version iff it passes every index; with "hanging '.'" iff a '.' comes before any stop; reads past the end iff a trailing '-' (not at `_last`) is reached; finds the version at `v` iff `v - 1` is the first qualifying hyphen |
| `GrammarProperties.StripQuirks` | src/libportstrip/part.py:80-99 | `GE`/`LE` are never detected; `>=`, `<=` and `==` give `GR`, `LS` and `EQ` with two characters stripped |
| `GrammarProperties.ParseNeverGeLe` | src/libportstrip/part.py:91-96 | no accepted atom carries `GE` or `LE` |
| `GrammarProperties.OperatorIffVersion` | src/libportstrip/part.py:121-129 | an accepted atom has a specifier iff it has a version |
| `GrammarProperties.LaterStagesNeverCrash` | src/libportstrip/part.py:131-197 | the version and catpkg stages never raise `IndexError`, and each raises only its own `ValueError` messages |
| `GrammarProperties.NoOverrunWithoutSpecifier` | src/libportstrip/part.py:110-112 | without a specifier `_last` is the last index of the scanned text, so the scan never reads past the end |
| `GrammarProperties.OutcomeByScan` | src/libportstrip/part.py:99-129 | crash, "hanging '.'", "needs version specifier" and "needs vary specifier" each happen exactly when the specifier and the scan end as stated |
| `GrammarProperties.CrashIff` | src/libportstrip/part.py:75-112 | the parse crashes iff a specifier is the whole text, or follows a working text whose trailing '-' the scan reaches |
| `GrammarProperties.HangingDotIff` | src/libportstrip/part.py:116-119 | "hanging '.'" iff the working text has a '.' before which every index is passed |
| `GrammarProperties.NeedsVersionIff` | src/libportstrip/part.py:121-124 | "part needs version specifier" iff a specifier is present and the scan passes the whole working text |
| `GrammarProperties.NeedsVaryIff` | src/libportstrip/part.py:126-129 | "part needs vary specifier" iff there is no specifier but the scan finds a version start |
| `GrammarProperties.VersionStartsAtFirstDigitHyphen` | src/libportstrip/part.py:110-114 | in an accepted versioned atom the version starts after the first `-digit` with no '.' before it; the catpkg and version come from the text before and after it |
| `GrammarProperties.VersionErrorsFirst` | src/libportstrip/part.py:131-197 | a version error is the outcome whatever the catpkg text is |
| `GrammarProperties.VersionAccepted` | src/libportstrip/part.py:137-178 | an accepted version text has at most one hyphen and 1 to 3 digit components whose values are the numbers; a revision is present iff there is a hyphen |
| `GrammarProperties.VersionRejections` | src/libportstrip/part.py:137-173 | each version error and the order of the checks: hyphens, then components left to right with a fourth refused before its digits, then the revision prefix and digits |
| `GrammarProperties.CatpkgAccepted` | src/libportstrip/part.py:183-197 | the catpkg is accepted iff it splits into one or two non-empty parts; the output is those parts, and writing them back gives the text |
| `GrammarProperties.CatpkgRejections` | src/libportstrip/part.py:183-197 | empty text or empty first part, or an empty second of exactly two parts, is "invalid catpkg"; three or more parts with a non-empty first is "more than one catagories" |
| `GrammarProperties.VersionTextOfSpec` | src/libportstrip/part.py:272-285 | an accepted version text without leading zeros is written back as `-` and the same text |
| `GrammarProperties.SpecifierToken` | src/libportstrip/part.py:80-99 | unless the text starts with `==`, `>=` or `<=`, it is the detected specifier's token followed by the working text |
| `GrammarProperties.RenderedSpecifier` | src/libportstrip/part.py:80-99 | a written specifier other than `GE`/`LE` is detected again and exactly its characters are stripped, provided a one-character specifier is not followed by '=' |
| `GrammarProperties.VersionTextParses` | src/libportstrip/part.py:137-178 | a written version with 1 to 3 numbers is `-` and a digit, and its text after the hyphen parses back to the same version |
| `GrammarProperties.CatpkgTextParses` | src/libportstrip/part.py:183-197 | a catpkg of one or two well-formed parts, once written, is accepted as exactly those parts |
| `GrammarProperties.ParseThenRender` | src/libportstrip/part.py:213-290 | rebuilding the output of an accepted parse gives the input back, for inputs whose specifier is one of `=`, `!=`, `>`, `<` with no extra `=`, and whose numbers have no leading zeros |
| `GrammarProperties.RenderThenParse` | src/libportstrip/part.py:72-210 | an atom is rebuilt to text that parses back to it when: specifier and version are both present or both absent; there is no `GE`/`LE`; the catpkg has one or two well-formed parts; there are 1 to 3 numbers; without a specifier, the catpkg text does not itself start with a specifier; after `=`, `>` or `<`, the first catpkg part does not start with '=' (otherwise `===x-1` parses to catpkg `[=x]`, which is rebuilt as `==x-1` and parses to `[x]`) |
| `GrammarExamples.DemoRender` | src/libportstrip/part.py:244-290 | the demo output is rebuilt as `=cat/pkg-1.1-r1` |
| `GrammarExamples.DemoAtom` | src/libportstrip/part.py:80-210 | `=cat/pkg-1.1-r1` parses to `EQ`, `[cat, pkg]`, numbers `[1, 1]`, revision 1 |
| `GrammarExamples.BareAtom` | src/libportstrip/part.py:183-202 | `cat/pkg` parses to a catpkg with no specifier and no version |
| `GrammarExamples.SpecifierWithoutVersion` | src/libportstrip/part.py:121-124 | `=cat/pkg` raises "part needs version specifier" |
| `GrammarExamples.VersionWithoutSpecifier` | src/libportstrip/part.py:126-129 | `cat/pkg-1.0` raises "part needs vary specifier" |
| `GrammarExamples.TrailingHyphenCrashes` | src/libportstrip/part.py:110-112 | `=x-` reads past the end of the string |
| `GrammarExamples.LoneSpecifierCrashes` | src/libportstrip/part.py:99 | `>` alone raises `IndexError` |
| `GrammarExamples.GreaterOrEqualIsGreater` | src/libportstrip/part.py:91-99 | `>=cat/pkg-1` is tagged `GR` and parses exactly like `>cat/pkg-1` |
| `GrammarExamples.ThreeParts` | src/libportstrip/part.py:188-197 | `cat/sub/pkg` is "more than one catagories" |
| `GrammarExamples.CatpkgCheckedAfterVersion` | src/libportstrip/part.py:183-197 | `=cat/sub/pkg-1` fails on its catpkg once the version is accepted |
| `GrammarExamples.VersionCheckedBeforeCatpkg` | src/libportstrip/part.py:144-154 | `=cat/sub/pkg-1.x` raises "string in version number", not the catpkg error |
| `PackageParts.ScanVersionStart` | src/libportstrip/part.py:110-119 | the `for`/`break` scan ends as the reference scan does |
| `PackageParts.ParseVersionText` | src/libportstrip/part.py:137-178 | the version loop gives the reference version outcome (errors included) |
| `PackageParts.ParseCatpkgText` | src/libportstrip/part.py:183-197 | the catpkg checks give the reference catpkg outcome (errors included) |
| `PackageParts.ParseText` | src/libportstrip/part.py:72-210 | the uncached body of `parse` gives the reference parse outcome for every input |
| `PackageParts.PartCache.constructor` | src/libportstrip/part.py:6 | the cache starts empty, consistent with its key order, and sound |
| `PackageParts.PartCache.Update` | src/libportstrip/part.py:207-208 | dict update: the key maps to the value; a new key goes to the end of the order, a present one keeps its place |
| `PackageParts.VersionList` | src/libportstrip/part.py:156-178 | the version list of parse output: the numbers, then `REV` and the revision |
| `PackageParts.Part.constructor` | src/libportstrip/part.py:10-11 | a part holds the given text |
| `PackageParts.Part.ChangePart` | src/libportstrip/part.py:16-30 | the part text is replaced |
| `PackageParts.Part.Parse` | src/libportstrip/part.py:69-210 | a cached text returns its stored output and leaves the cache alone; otherwise the reference parse, stored under `thispart` only when accepted and caching is on; `no_cache` neither reads nor writes; a sound cache stays sound and every result equals the reference parse |
| `PackageParts.Part.WriteVersion` | src/libportstrip/part.py:272-285 | the version loop, trimming the trailing '.' at `REV`, writes the version text |
| `PackageParts.Part.RebuildPart` | src/libportstrip/part.py:213-290 | `rebuild_part` gives the reference rendering; `IndexError` exactly where the catpkg or the version list is empty |
| `PackageParts.Part.CacheRebuildPart` | src/libportstrip/part.py:293-318 | the first key in insertion order whose output equals the argument; None iff no output equals it; from a sound cache the key parses to the argument |
| `PackageParts.ParseTwice` | src/libportstrip/part.py:69-208 | two cached parses of one part give the same result, and an accepted first result is stored |
| `Shell.StartEnv` | src/libportstrip/psenv/shell.py:7-11 | `PSVER`, `PSENVVER`, `PYVER` in that order, all strings |
| `Shell.ListingSeparated` | src/libportstrip/psenv/shell.py:44-59 | when no earlier value equals the last, the listing is the `k=v` texts separated by single spaces, then a newline |
| `Shell.StartListing` | src/libportstrip/psenv/shell.py:44-59 | the listing of the start environment; a Python version of "1.0" or "1" drops the space after `PSVER` or `PSENVVER` |
| `Shell.DuplicateOfLastValue` | src/libportstrip/psenv/shell.py:51-55 | an earlier entry repeating the last value is printed with no space after it |
| `Shell.EnvShell.constructor` | src/libportstrip/psenv/shell.py:14-21 | a new shell is not died or finished, returns 0, and has the start environment |
| `Shell.EnvShell.ShReturn` | src/libportstrip/psenv/shell.py:25-27 | only the return code changes, to the argument (0 by default) |
| `Shell.EnvShell.Die` | src/libportstrip/psenv/shell.py:34-38 | `died` is set and the return code is -1; nothing else changes |
| `Shell.EnvShell.Lsenv` | src/libportstrip/psenv/shell.py:41-60 | the listing is appended to the output and the return code is 0; `died`, `finish` and the environment are unchanged |
| `Shell.EnvShell.Execcmd` | src/libportstrip/psenv/shell.py:66-87 | `finish` is always set; once died, it only prints the die-flag error and returns -1; `die` and `lsenv` act as above; any other command prints "invalid command" and leaves `died` and the return code alone; the environment never changes |

## Left out

- Exceptions are values: each `ValueError` message is a `ParseError` variant. An `IndexError` is `Crash` in the parse and `None` in `rebuild_part`. No exception objects or tracebacks are modelled.
- `PARSED_OUT_CACHES` is a module global in Python. Here it is an object passed to `Parse`, `CacheRebuildPart` and `ParseTwice`.
- The cache hands out the very list it stores, so a caller mutating that list also changes the cache. The model copies values, and `Sound()` holds only for callers that do not mutate returned outputs.
- Parsed output is the datatype `Atom`, not a loosely typed Python list. `rebuild_part` and `cache_rebuild_part` on lists that parse could not produce are not modelled: wrong element types, a `REV` marker without a number after it, or extra elements. The two `IndexError` cases of `rebuild_part` on well-typed output are modelled.
- `copy.deepcopy` of the part text (part.py:72, 135) copies an immutable string and is left out.
- `Part.__str__` only returns `thispart` and is not modelled.
- `str.isdigit` is taken to accept ASCII `0`-`9` only. Unicode digits that `isdigit` accepts and `int` may reject are not modelled.
- In `EnvShell`, printing appends to the field `output`; standard output itself is not modelled. The Python version from `platform.python_version()` is the constructor's parameter `pyVersion`.
- `self.env` is the shared `SHELL_START_ENV` dict in Python. No command changes it, so the sharing is not observable and is not modelled.
- Environment values compare as datatype values. A string never equals a non-string, and non-strings compare by their printed form. Python equality between mixed non-string types (such as `1 == True`) is not modelled.
- Shell.EnvShell.Lsenv: an empty environment, where `list(self.env.values())[-1]` raises `IndexError`, is excluded by its precondition. A shell's environment is the three-entry start environment and is never changed.
- Shell.EnvShell.Execcmd: for the same reason, it requires a non-empty environment when it would run `lsenv`.
- The demo script `src/portstrip.py` and the version constants module `psenv/__init__.py` are not part of this model. The constants "1.0" and "1" are used in `Shell.StartEnv`. `psenv/build` is not part of this model.
