/**
 * `EnvShell` of `libportstrip/psenv/shell.py`: a small command shell with
 * three state fields (`died`, `finish`, `return_code`) and an environment
 * it lists but never changes. What the Python code prints is appended to
 * the field `output`.
 */
module Shell {
  import opened Text

  /** An environment value: a string (listed in quotes) or any other value, by its `str` form. */
  datatype EnvValue = Str(text: string) | Other(shown: string)

  datatype Entry = Entry(key: string, value: EnvValue)

  /** `__version__` of the psenv package. */
  const PortstripVersion: string := "1.0"
  /** `__regional_version__` of the psenv package. */
  const PsenvVersion: string := "1"

  /**
   * `SHELL_START_ENV`, in its insertion order. The Python version is the
   * result of `platform.python_version()`, given here as a parameter.
   */
  function StartEnv(pyVersion: string): (env: seq<Entry>)
    ensures |env| == 3
    ensures env[0].key == "PSVER" && env[1].key == "PSENVVER" && env[2].key == "PYVER"
    ensures forall i :: 0 <= i < |env| ==> env[i].value.Str?
  {
    [Entry("PSVER", Str(PortstripVersion)), Entry("PSENVVER", Str(PsenvVersion)), Entry("PYVER", Str(pyVersion))]
  }

  const DieFlagMessage: string := "psenv: error: die flag has been set\n"
  const InvalidCommandMessage: string := "psenv: error: invalid command\n"

  // ---------------------------------------------------------------------
  // The listing of `lsenv`

  function ValueText(v: EnvValue): string {
    match v
    case Str(s) => "\"" + s + "\""
    case Other(s) => s
  }

  /** `k=v`, the value quoted when it is a string. */
  function BareEntry(e: Entry): string {
    e.key + "=" + ValueText(e.value)
  }

  /**
   * What one iteration of the `lsenv` loop prints: a space follows unless
   * the value equals the value of the LAST entry, so any earlier entry
   * holding that same value is not followed by a space either.
   */
  function EntryText(e: Entry, lastValue: EnvValue): string {
    BareEntry(e) + (if e.value != lastValue then " " else "")
  }

  /** What the loop prints for the entries `es`. */
  function Entries(es: seq<Entry>, lastValue: EnvValue): string {
    if |es| == 0 then "" else Entries(es[..|es| - 1], lastValue) + EntryText(es[|es| - 1], lastValue)
  }

  /** The entries printed up to and including index `i`. */
  lemma EntriesStep(es: seq<Entry>, i: nat, lastValue: EnvValue)
    requires i < |es|
    ensures Entries(es[..i + 1], lastValue) == Entries(es[..i], lastValue) + EntryText(es[i], lastValue)
  {
    assert es[..i + 1][..i] == es[..i];
  }

  /** One iteration of the `lsenv` loop extends the printed text by one entry. */
  lemma PrintedStep(es: seq<Entry>, i: nat, lastValue: EnvValue, before: string, printed: string, out: string)
    requires i < |es| && printed == before + Entries(es[..i], lastValue)
    requires out == if es[i].value != lastValue then BareEntry(es[i]) + " " else BareEntry(es[i])
    ensures printed + out == before + Entries(es[..i + 1], lastValue)
  {
    EntriesStep(es, i, lastValue);
    assert out == EntryText(es[i], lastValue);
    AppendAssoc(before, Entries(es[..i], lastValue), out);
  }

  /** All that `lsenv` prints: the entries, then the newline of `print()`. */
  function EnvListing(env: seq<Entry>): string
    requires |env| > 0
  {
    Entries(env, env[|env| - 1].value) + "\n"
  }

  /** Once the loop has printed every entry, the newline completes the listing. */
  lemma ListingComplete(env: seq<Entry>, before: string, printed: string)
    requires |env| > 0
    requires printed == before + Entries(env[..|env|], env[|env| - 1].value)
    ensures printed + "\n" == before + EnvListing(env)
  {
    assert env[..|env|] == env;
  }

  /** The `k=v` texts of the entries. */
  function BareEntries(es: seq<Entry>): (r: seq<string>)
    ensures |r| == |es|
  {
    seq(|es|, i requires 0 <= i < |es| => BareEntry(es[i]))
  }

  /** The `k=v` texts of all entries but the last, then that of the last. */
  lemma BareEntriesSnoc(es: seq<Entry>)
    requires |es| >= 1
    ensures BareEntries(es) == BareEntries(es[..|es| - 1]) + [BareEntry(es[|es| - 1])]
  {
  }

  /** Entries whose values all differ from `lastValue` are each followed by a space. */
  lemma {:induction false} EntriesSpaced(es: seq<Entry>, lastValue: EnvValue)
    requires |es| >= 1
    requires forall i :: 0 <= i < |es| ==> es[i].value != lastValue
    ensures Entries(es, lastValue) == Join(BareEntries(es), ' ') + " "
    decreases |es|
  {
    var init := es[..|es| - 1];
    var b := BareEntry(es[|es| - 1]);
    assert EntryText(es[|es| - 1], lastValue) == b + " ";
    BareEntriesSnoc(es);
    if |es| == 1 {
      assert Entries(init, lastValue) == "";
      assert BareEntries(es) == [b];
      assert Entries(es, lastValue) == "" + (b + " ");
    } else {
      EntriesSpaced(init, lastValue);
      JoinSnoc(BareEntries(init), b, ' ');
      AppendAssoc(Join(BareEntries(init), ' ') + " ", b, " ");
    }
  }

  /**
   * When no earlier entry has the last entry's value, the listing is the
   * `k=v` texts separated by single spaces, then a newline.
   */
  lemma ListingSeparated(env: seq<Entry>)
    requires |env| > 0
    requires forall i :: 0 <= i < |env| - 1 ==> env[i].value != env[|env| - 1].value
    ensures EnvListing(env) == Join(BareEntries(env), ' ') + "\n"
  {
    var n := |env|;
    var init := env[..n - 1];
    var lastValue := env[n - 1].value;
    var b := BareEntry(env[n - 1]);
    assert EntryText(env[n - 1], lastValue) == b;
    BareEntriesSnoc(env);
    if n == 1 {
      assert Entries(init, lastValue) == "";
      assert BareEntries(env) == [b];
      assert Entries(env, lastValue) == "" + b;
    } else {
      EntriesSpaced(init, lastValue);
      JoinSnoc(BareEntries(init), b, ' ');
    }
  }

  /**
   * The listing of the start environment. The spaces depend on the Python
   * version: one equal to "1.0" or "1" also suppresses the space after
   * PSVER or PSENVVER.
   */
  lemma StartListing(pyVersion: string)
    ensures EnvListing(StartEnv(pyVersion)) ==
              ("PSVER=\"1.0\"" + (if pyVersion != "1.0" then " " else ""))
              + ("PSENVVER=\"1\"" + (if pyVersion != "1" then " " else ""))
              + ("PYVER=\"" + pyVersion + "\"") + "\n"
  {
    var env := StartEnv(pyVersion);
    var lastValue := Str(pyVersion);
    ThreeEntries(env, lastValue);
    var t0 := "PSVER=\"1.0\"" + (if pyVersion != "1.0" then " " else "");
    var t1 := "PSENVVER=\"1\"" + (if pyVersion != "1" then " " else "");
    var t2 := "PYVER=\"" + pyVersion + "\"";
    assert EntryText(env[0], lastValue) == t0;
    assert EntryText(env[1], lastValue) == t1;
    assert EntryText(env[2], lastValue) == t2;
    assert EnvListing(env) == t0 + t1 + t2 + "\n";
  }

  /** An earlier entry that repeats the last value is not followed by a space. */
  lemma DuplicateOfLastValue()
    ensures EnvListing([Entry("A", Str("x")), Entry("B", Str("y")), Entry("C", Str("x"))])
              == "A=\"x\"B=\"y\" C=\"x\"\n"
  {
    var env := [Entry("A", Str("x")), Entry("B", Str("y")), Entry("C", Str("x"))];
    var lastValue := Str("x");
    ThreeEntries(env, lastValue);
    assert EntryText(env[0], lastValue) == "A=\"x\"";
    assert EntryText(env[1], lastValue) == "B=\"y\" ";
    assert EntryText(env[2], lastValue) == "C=\"x\"";
  }

  /** The listing of three entries, entry by entry. */
  lemma ThreeEntries(env: seq<Entry>, lastValue: EnvValue)
    requires |env| == 3 && lastValue == env[2].value
    ensures EnvListing(env) ==
              EntryText(env[0], lastValue) + EntryText(env[1], lastValue) + EntryText(env[2], lastValue) + "\n"
  {
    var t0, t1, t2 := EntryText(env[0], lastValue), EntryText(env[1], lastValue), EntryText(env[2], lastValue);
    assert Entries(env[..0], lastValue) == "" by {
      assert env[..0] == [];
    }
    EntriesStep(env, 0, lastValue);
    assert Entries(env[..1], lastValue) == t0;
    EntriesStep(env, 1, lastValue);
    assert Entries(env[..2], lastValue) == t0 + t1;
    EntriesStep(env, 2, lastValue);
    assert Entries(env[..3], lastValue) == t0 + t1 + t2;
    assert env[..3] == env;
  }

  // ---------------------------------------------------------------------
  // The shell

  class EnvShell {
    var died: bool
    var finish: bool
    /** Return code of the command executed. */
    var returnCode: int
    var env: seq<Entry>
    /** Everything printed so far. */
    var output: string

    /** A new shell on the start environment. */
    constructor(pyVersion: string)
      ensures !died && !finish && returnCode == 0
      ensures env == StartEnv(pyVersion) && output == ""
    {
      died := false;
      finish := false;
      returnCode := 0;
      env := StartEnv(pyVersion);
      output := "";
    }

    /** `shreturn`: set the return code (0 by default). */
    method ShReturn(retcode: int := 0)
      modifies this`returnCode
      ensures returnCode == retcode
    {
      returnCode := retcode;
    }

    /** `die`: set the die flag and return -1. */
    method Die()
      modifies this`died, this`returnCode
      ensures died && returnCode == -1
    {
      died := true;
      ShReturn(-1);
    }

    /**
     * `lsenv`: print every entry, then a newline, and return 0. The
     * Python code reads the last value first, so an empty environment
     * raises `IndexError`; the start environment is never empty.
     */
    method Lsenv()
      requires |env| > 0
      modifies this`output, this`returnCode
      ensures output == old(output) + EnvListing(env)
      ensures returnCode == 0
    {
      var entries := env;
      var lastValue := entries[|entries| - 1].value;
      ghost var before := output;
      var i := 0;
      assert output == before + Entries(entries[..0], lastValue) by {
        assert entries[..0] == [];
        assert before + "" == before;
      }
      while i < |entries|
        invariant 0 <= i <= |entries| && env == entries
        invariant output == before + Entries(entries[..i], lastValue)
      {
        var e := entries[i];
        var thisValue := ValueText(e.value);
        var out := e.key + "=" + thisValue;
        if e.value != lastValue {
          out := out + " ";
        }
        PrintedStep(entries, i, lastValue, before, output, out);
        output := output + out;
        i := i + 1;
      }
      ListingComplete(entries, before, output);
      output := output + "\n";
      ShReturn();
    }

    /**
     * `execcmd`: once the die flag is set every command only prints an
     * error and returns -1; otherwise `die` and `lsenv` run and anything
     * else prints an error. Every command ends with `finish` set.
     */
    method Execcmd(command: string)
      requires !died && command == "lsenv" ==> |env| > 0
      modifies this`died, this`finish, this`returnCode, this`output
      ensures finish
      ensures old(died) ==> died && returnCode == -1 && output == old(output) + DieFlagMessage
      ensures !old(died) && command == "die" ==> died && returnCode == -1 && output == old(output)
      ensures !old(died) && command == "lsenv" ==>
                !died && returnCode == 0 && output == old(output) + EnvListing(env)
      ensures !old(died) && command != "die" && command != "lsenv" ==>
                !died && returnCode == old(returnCode) && output == old(output) + InvalidCommandMessage
    {
      if died {
        output := output + DieFlagMessage;
        ShReturn(-1);
        finish := true;
        return;
      }
      if command == "die" {
        Die();
      } else if command == "lsenv" {
        Lsenv();
      } else {
        output := output + InvalidCommandMessage;
      }
      finish := true;
    }
  }
}
