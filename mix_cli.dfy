/**
 * src/mix_audio_cli.py: a command-line tool that mixes several audio files into one
 * with ffmpeg's `amix` filter. `mix_audio_files` checks the inputs exist, builds the
 * ffmpeg command and runs it; `main` splits `sys.argv` into inputs and output.
 *
 * The file system is the set of path strings `os.path.exists` accepts; ffmpeg is an
 * oracle from the command line to how the process ended.
 */
module MixCli {
  import opened Base

  // ---------------------------------------------------------------------------
  // The filter string `f"amix=inputs={num_inputs}:duration=longest"`

  /** One decimal digit. */
  function Digit(d: nat): char
    requires d < 10
  {
    "0123456789"[d]
  }

  predicate IsDigits(s: string)
  {
    forall i :: 0 <= i < |s| ==> '0' <= s[i] <= '9'
  }

  /** Python's `str(n)` for a non-negative integer. */
  function Decimal(n: nat): (r: string)
    ensures r != [] && IsDigits(r)
  {
    if n < 10 then [Digit(n)] else Decimal(n / 10) + [Digit(n % 10)]
  }

  /** The value of a string of decimal digits (Python's `int(s)`). */
  function DigitsValue(s: string): nat
    requires IsDigits(s)
  {
    if s == [] then 0 else DigitsValue(s[..|s| - 1]) * 10 + (s[|s| - 1] as int - '0' as int)
  }

  /** Reading back the decimal form of `n` gives `n`. */
  lemma {:induction false} DecimalRoundTrip(n: nat)
    ensures DigitsValue(Decimal(n)) == n
    decreases n
  {
    if n >= 10 {
      DecimalRoundTrip(n / 10);
      var d := Decimal(n);
      assert d[..|d| - 1] == Decimal(n / 10);
    }
  }

  const AmixPrefix: string := "amix=inputs="
  const AmixSuffix: string := ":duration=longest"

  /** The `-filter_complex` argument for `n` inputs. */
  function AmixFilter(n: nat): string
  {
    AmixPrefix + Decimal(n) + AmixSuffix
  }

  /** What ffmpeg reads as the number of `amix` inputs, if the filter has the `amix` shape. */
  function FilterInputs(f: string): Option<nat>
  {
    var p, q := |AmixPrefix|, |AmixSuffix|;
    if |f| >= p + q && f[..p] == AmixPrefix && f[|f| - q..] == AmixSuffix && IsDigits(f[p..|f| - q])
    then Some(DigitsValue(f[p..|f| - q]))
    else None
  }

  /** The `N` in the filter string is the number of input files. */
  lemma AmixFilterCountsInputs(n: nat)
    ensures FilterInputs(AmixFilter(n)) == Some(n)
  {
    var f := AmixFilter(n);
    var p, q := |AmixPrefix|, |AmixSuffix|;
    assert f[..p] == AmixPrefix;
    assert f[|f| - q..] == AmixSuffix;
    assert f[p..|f| - q] == Decimal(n);
    DecimalRoundTrip(n);
  }

  // ---------------------------------------------------------------------------
  // The command

  /** `-i f` for every input, in order. */
  function InputArgs(inputs: seq<string>): (r: seq<string>)
    ensures |r| == 2 * |inputs|
    ensures forall k :: 0 <= k < |inputs| ==> r[2 * k] == "-i" && r[2 * k + 1] == inputs[k]
  {
    if inputs == [] then []
    else InputArgs(inputs[..|inputs| - 1]) + ["-i", inputs[|inputs| - 1]]
  }

  /** The command `mix_audio_files` hands to `subprocess.run`. */
  function MixCommand(inputs: seq<string>, output: string): (cmd: Cmd)
    ensures |cmd| == 2 * |inputs| + 5
    ensures cmd[0] == "ffmpeg" && cmd[1] == "-y"
    ensures forall k :: 0 <= k < |inputs| ==> cmd[2 + 2 * k] == "-i" && cmd[3 + 2 * k] == inputs[k]
    ensures cmd[2 * |inputs| + 2] == "-filter_complex"
    ensures FilterInputs(cmd[2 * |inputs| + 3]) == Some(|inputs|)
    ensures cmd[2 * |inputs| + 4] == output
  {
    AmixFilterCountsInputs(|inputs|);
    ["ffmpeg", "-y"] + InputArgs(inputs) + ["-filter_complex", AmixFilter(|inputs|), output]
  }

  predicate AllExist(existing: set<string>, inputs: seq<string>)
  {
    forall i :: 0 <= i < |inputs| ==> inputs[i] in existing
  }

  /**
   * `mix_audio_files`: a missing input makes it return `False` before any command is built;
   * otherwise it runs exactly `MixCommand` once and returns `True` iff ffmpeg exits with 0
   * (a non-zero exit raises `CalledProcessError`, a missing binary `FileNotFoundError`,
   * and both are caught).
   */
  method MixAudioFiles(existing: set<string>, inputs: seq<string>, output: string, ffmpeg: Cmd -> Exit)
    returns (ok: bool, ran: seq<Cmd>)
    ensures !AllExist(existing, inputs) ==> !ok && ran == []
    ensures AllExist(existing, inputs) ==> ran == [MixCommand(inputs, output)]
    ensures ok <==> AllExist(existing, inputs) && ffmpeg(MixCommand(inputs, output)) == Exited(0)
  {
    for i := 0 to |inputs|
      invariant forall j :: 0 <= j < i ==> inputs[j] in existing
    {
      if inputs[i] !in existing {
        return false, [];
      }
    }
    var cmd := ["ffmpeg", "-y"];
    for i := 0 to |inputs|
      invariant cmd == ["ffmpeg", "-y"] + InputArgs(inputs[..i])
    {
      assert inputs[..i + 1][..i] == inputs[..i];
      cmd := cmd + ["-i", inputs[i]];
    }
    assert inputs[..|inputs|] == inputs;
    cmd := cmd + ["-filter_complex", AmixFilter(|inputs|), output];
    var exit := ffmpeg(cmd);
    ok := exit == Exited(0);
    ran := [cmd];
  }

  // ---------------------------------------------------------------------------
  // Splitting `sys.argv`

  /** What `main` makes of its arguments: an exit before mixing, or the mix to run. */
  datatype Args = Usage | MissingOutput | TooFewInputs | Mix(inputs: seq<string>, output: string)

  /** Python's `args.index(x)`: the first position of `x`. */
  function IndexOf(args: seq<string>, x: string): (i: nat)
    requires x in args
    ensures i < |args| && args[i] == x && x !in args[..i]
  {
    if args[0] == x then 0 else 1 + IndexOf(args[1..], x)
  }

  /**
   * `main`'s argument handling (`argv[0]` is the program name). With `-o`, the inputs are the
   * arguments before the first `-o` and the output the one after it; without `-o`, the output
   * is the last argument and the inputs the ones before it.
   */
  function ParseArgv(argv: seq<string>): (r: Args)
    ensures r == Usage <==> |argv| < 3
    ensures r == MissingOutput ==> "-o" in argv[1..]
    ensures r.Mix? ==> |r.inputs| >= 2 && "-o" !in r.inputs
    ensures r.Mix? && "-o" in argv[1..] ==> r.output != "" && r.inputs + ["-o", r.output] <= argv[1..]
    ensures r.Mix? && "-o" !in argv[1..] ==> argv[1..] == r.inputs + [r.output]
  {
    if |argv| < 3 then Usage
    else
      var args := argv[1..];
      if "-o" in args then
        var o := IndexOf(args, "-o");
        if o + 1 >= |args| || args[o + 1] == "" then MissingOutput
        else if o < 2 then TooFewInputs
        else
          assert args[..o] + ["-o", args[o + 1]] == args[..o + 2];
          Mix(args[..o], args[o + 1])
      else if |args| - 1 < 2 then TooFewInputs
      else
        assert args == args[..|args| - 1] + [args[|args| - 1]];
        Mix(args[..|args| - 1], args[|args| - 1])
  }

  /** `prog in1 in2 ... -o out` is read back as those inputs and that output. */
  lemma ParseWithFlag(prog: string, inputs: seq<string>, output: string, rest: seq<string>)
    requires |inputs| >= 2 && "-o" !in inputs && output != ""
    ensures ParseArgv([prog] + inputs + ["-o", output] + rest) == Mix(inputs, output)
  {
    var argv := [prog] + inputs + ["-o", output] + rest;
    var args := argv[1..];
    assert args == inputs + ["-o", output] + rest;
    assert args[|inputs|] == "-o";
    var o := IndexOf(args, "-o");
    assert forall k :: 0 <= k < |inputs| ==> args[k] == inputs[k];
    assert o == |inputs|;
    assert args[..o] == inputs;
  }

  /** `prog in1 in2 ... out` with no `-o` anywhere is read back as those inputs and that output. */
  lemma ParseWithoutFlag(prog: string, inputs: seq<string>, output: string)
    requires |inputs| >= 2 && "-o" !in inputs && output != "-o"
    ensures ParseArgv([prog] + inputs + [output]) == Mix(inputs, output)
  {
    var argv := [prog] + inputs + [output];
    assert argv[1..] == inputs + [output];
    assert argv[1..][..|argv[1..]| - 1] == inputs;
  }

  /** A `-o` that is last, or followed by an empty argument, exits with 1. */
  lemma ParseMissingOutput(prog: string, before: seq<string>, after: seq<string>)
    requires "-o" !in before && |before| + |after| >= 1
    requires after == [] || after[0] == ""
    ensures ParseArgv([prog] + before + ["-o"] + after) == MissingOutput
  {
    var argv := [prog] + before + ["-o"] + after;
    var args := argv[1..];
    assert args == before + ["-o"] + after;
    assert args[|before|] == "-o";
    var o := IndexOf(args, "-o");
    assert forall k :: 0 <= k < |before| ==> args[k] == before[k];
    assert o == |before|;
  }

  /**
   * `main`: exit status 1 for every argument error, before anything is checked or run;
   * otherwise 0 iff the mix succeeded.
   */
  method CliMain(argv: seq<string>, existing: set<string>, ffmpeg: Cmd -> Exit)
    returns (exitCode: int, ran: seq<Cmd>)
    ensures exitCode == 0 || exitCode == 1
    ensures !ParseArgv(argv).Mix? ==> exitCode == 1 && ran == []
    ensures ParseArgv(argv).Mix? ==>
      var a := ParseArgv(argv);
      (exitCode == 0 <==> AllExist(existing, a.inputs) && ffmpeg(MixCommand(a.inputs, a.output)) == Exited(0))
      && ran == (if AllExist(existing, a.inputs) then [MixCommand(a.inputs, a.output)] else [])
  {
    var a := ParseArgv(argv);
    if !a.Mix? {
      return 1, [];
    }
    var ok;
    ok, ran := MixAudioFiles(existing, a.inputs, a.output, ffmpeg);
    exitCode := if ok then 0 else 1;
  }
}
