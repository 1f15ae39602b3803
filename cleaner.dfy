/**
 * Cleaning one plugin: `tes3cmd clean <path>` is run, its non-blank output
 * lines are echoed, then a status line says whether it succeeded; on failure
 * the tool's non-blank error lines follow on standard error.
 *
 * The process runner is a parameter `run` from the tool and the plugin path
 * to the finished process; the report is the sequence of lines written, each
 * tagged with the stream it goes to.
 */
module Cleaner {
  import opened Text

  datatype Channel = Stdout | Stderr

  /** One line written to a stream, without its terminating newline. */
  datatype OutLine = OutLine(channel: Channel, text: string)

  /**
   * A finished `tes3cmd clean` process: exit status and decoded output, with
   * line endings already translated to `\n` as text mode does.
   */
  datatype Completed = Completed(returncode: int, stdout: string, stderr: string)

  /** Running the cleaning tool: tool location and plugin path to the finished process. */
  type Runner = (string, string) -> Completed

  /** The non-blank lines, in order, written to `channel`. */
  function Echo(lines: seq<string>, channel: Channel): seq<OutLine>
    decreases |lines|
  {
    if lines == [] then []
    else
      var last := lines[|lines| - 1];
      Echo(lines[..|lines| - 1], channel) + (if IsBlank(last) then [] else [OutLine(channel, last)])
  }

  /**
   * Echoing goes line by line: the echo of two blocks is the echo of the first
   * followed by the echo of the second, so the order is the input order.
   */
  lemma {:induction false} EchoAppend(a: seq<string>, b: seq<string>, channel: Channel)
    ensures Echo(a + b, channel) == Echo(a, channel) + Echo(b, channel)
    decreases |b|
  {
    if b == [] {
      assert a + b == a;
    } else {
      var init := b[..|b| - 1];
      assert (a + b)[..|a + b| - 1] == a + init;
      var last := b[|b| - 1];
      var echoed := if IsBlank(last) then [] else [OutLine(channel, last)];
      assert (a + b)[|a + b| - 1] == last;
      assert Echo(a + b, channel) == Echo(a + init, channel) + echoed;
      assert Echo(b, channel) == Echo(init, channel) + echoed;
      EchoAppend(a, init, channel);
    }
  }

  /**
   * Exactly the non-blank lines are echoed: every echoed line goes to
   * `channel` and is a non-blank input line, and every non-blank input line
   * is echoed.
   */
  lemma {:induction false} EchoSpec(lines: seq<string>, channel: Channel)
    ensures |Echo(lines, channel)| <= |lines|
    ensures forall k :: 0 <= k < |Echo(lines, channel)| ==>
      Echo(lines, channel)[k].channel == channel &&
      Echo(lines, channel)[k].text in lines && !IsBlank(Echo(lines, channel)[k].text)
    ensures forall l :: l in lines && !IsBlank(l) ==> OutLine(channel, l) in Echo(lines, channel)
    decreases |lines|
  {
    if lines != [] {
      var init := lines[..|lines| - 1];
      EchoSpec(init, channel);
      assert lines == init + [lines[|lines| - 1]];
    }
  }

  /** One more line of input adds its echo, if any, at the end. */
  lemma EchoStep(lines: seq<string>, k: nat, channel: Channel)
    requires k < |lines|
    ensures Echo(lines[..k + 1], channel)
      == Echo(lines[..k], channel) + (if IsBlank(lines[k]) then [] else [OutLine(channel, lines[k])])
  {
    assert lines[..k + 1][..k] == lines[..k];
  }

  /** The line that reports how cleaning `espPath` ended. */
  function StatusLine(espPath: string, returncode: int): OutLine {
    if returncode == 0 then OutLine(Stdout, "CLEANING DONE " + espPath)
    else OutLine(Stdout, "CLEANING ERROR " + IntToString(returncode) + " " + espPath)
  }

  /** Everything written while cleaning `espPath`, given how the tool finished. */
  function Report(espPath: string, r: Completed): seq<OutLine> {
    Echo(Split(r.stdout, '\n'), Stdout) + [StatusLine(espPath, r.returncode)]
      + (if r.returncode == 0 then [] else Echo(Split(r.stderr, '\n'), Stderr))
  }

  /** The echoed lines are non-blank lines of the input, each a single line. */
  lemma EchoLines(text: string, channel: Channel)
    ensures var echo := Echo(Split(text, '\n'), channel);
      forall k :: 0 <= k < |echo| ==>
        && echo[k].channel == channel && echo[k].text in Split(text, '\n')
        && !IsBlank(echo[k].text) && '\n' !in echo[k].text
  {
    EchoSpec(Split(text, '\n'), channel);
    SplitPiecesFree(text, '\n');
  }

  /** The status line of a failure carries a code that reads back as the exit status. */
  lemma ErrorStatusSpec(espPath: string, returncode: int)
    requires returncode != 0
    ensures exists code ::
      && StatusLine(espPath, returncode).text == "CLEANING ERROR " + code + " " + espPath
      && (IsDigits(code) || (|code| > 0 && code[0] == '-' && IsDigits(code[1..])))
      && ParseInt(code) == returncode
  {
    IntToStringRoundTrip(returncode);
    var code := IntToString(returncode);
    assert StatusLine(espPath, returncode).text == "CLEANING ERROR " + code + " " + espPath;
  }

  /** The report is the echo of the output, the status line, and on failure the echo of the errors. */
  lemma ReportParts(espPath: string, r: Completed)
    ensures var out := Report(espPath, r);
      var n := |Echo(Split(r.stdout, '\n'), Stdout)|;
      && n < |out|
      && out[..n] == Echo(Split(r.stdout, '\n'), Stdout)
      && out[n] == StatusLine(espPath, r.returncode)
      && out[n + 1..] == (if r.returncode == 0 then [] else Echo(Split(r.stderr, '\n'), Stderr))
  {
    var head := Echo(Split(r.stdout, '\n'), Stdout);
    var tail := if r.returncode == 0 then [] else Echo(Split(r.stderr, '\n'), Stderr);
    var out := Report(espPath, r);
    assert out == head + [StatusLine(espPath, r.returncode)] + tail;
    assert out[..|head|] == head;
    assert out[|head| + 1..] == tail;
  }

  /**
   * The report starts with exactly the non-blank lines of the tool's output,
   * each a single line, on standard output.
   */
  lemma ReportOutput(espPath: string, r: Completed)
    ensures var out := Report(espPath, r);
      var lines := Split(r.stdout, '\n');
      var n := |Echo(lines, Stdout)|;
      && n < |out|
      && (forall k :: 0 <= k < n ==>
            out[k].channel == Stdout && out[k].text in lines && !IsBlank(out[k].text) && '\n' !in out[k].text)
      && (forall l :: l in lines && !IsBlank(l) ==> OutLine(Stdout, l) in out[..n])
  {
    var out := Report(espPath, r);
    var head := Echo(Split(r.stdout, '\n'), Stdout);
    ReportParts(espPath, r);
    EchoSpec(Split(r.stdout, '\n'), Stdout);
    EchoLines(r.stdout, Stdout);
    forall k | 0 <= k < |head|
      ensures out[k].channel == Stdout && out[k].text in Split(r.stdout, '\n')
              && !IsBlank(out[k].text) && '\n' !in out[k].text
    {
      assert out[k] == head[k];
    }
  }

  /**
   * Then comes the status line on standard output: "CLEANING DONE <path>" on
   * success, and the last line; otherwise "CLEANING ERROR <code> <path>" with
   * a code that reads back as the exit status.
   */
  lemma ReportStatus(espPath: string, r: Completed)
    ensures var out := Report(espPath, r);
      var n := |Echo(Split(r.stdout, '\n'), Stdout)|;
      && n < |out|
      && out[n].channel == Stdout
      && (r.returncode == 0 ==> out[n].text == "CLEANING DONE " + espPath && |out| == n + 1)
      && (r.returncode != 0 ==>
            exists code ::
              && out[n].text == "CLEANING ERROR " + code + " " + espPath
              && (IsDigits(code) || (|code| > 0 && code[0] == '-' && IsDigits(code[1..])))
              && ParseInt(code) == r.returncode)
  {
    ReportParts(espPath, r);
    if r.returncode != 0 {
      ErrorStatusSpec(espPath, r.returncode);
    }
  }

  /**
   * After the status line come only error lines on standard error, and only
   * on failure: exactly the non-blank lines of the tool's error output.
   */
  lemma ReportErrors(espPath: string, r: Completed)
    ensures var out := Report(espPath, r);
      var n := |Echo(Split(r.stdout, '\n'), Stdout)|;
      && n < |out|
      && (forall k :: n < k < |out| ==>
            r.returncode != 0 && out[k].channel == Stderr
            && out[k].text in Split(r.stderr, '\n') && !IsBlank(out[k].text))
      && (r.returncode != 0 ==>
            forall l :: l in Split(r.stderr, '\n') && !IsBlank(l) ==> OutLine(Stderr, l) in out[n + 1..])
  {
    var out := Report(espPath, r);
    var n := |Echo(Split(r.stdout, '\n'), Stdout)|;
    ReportParts(espPath, r);
    if r.returncode != 0 {
      var tail := Echo(Split(r.stderr, '\n'), Stderr);
      EchoSpec(Split(r.stderr, '\n'), Stderr);
      forall k | n < k < |out|
        ensures out[k].channel == Stderr && out[k].text in Split(r.stderr, '\n') && !IsBlank(out[k].text)
      {
        assert out[k] == tail[k - n - 1];
      }
    }
  }

  /**
   * `tes3cmd clean espPath`, reporting as it goes: the output lines, the
   * status line, and on failure the error lines.
   */
  method Clean(tes3cmd: string, espPath: string, run: Runner) returns (out: seq<OutLine>)
    ensures out == Report(espPath, run(tes3cmd, espPath))
  {
    var r := run(tes3cmd, espPath);
    out := [];
    var lines := Split(r.stdout, '\n');
    for k := 0 to |lines|
      invariant out == Echo(lines[..k], Stdout)
    {
      EchoStep(lines, k, Stdout);
      if !IsBlank(lines[k]) {
        out := out + [OutLine(Stdout, lines[k])];
      }
    }
    assert lines[..|lines|] == lines;
    if r.returncode == 0 {
      out := out + [OutLine(Stdout, "CLEANING DONE " + espPath)];
    } else {
      out := out + [OutLine(Stdout, "CLEANING ERROR " + IntToString(r.returncode) + " " + espPath)];
      ghost var before := out;
      var errs := Split(r.stderr, '\n');
      for k := 0 to |errs|
        invariant out == before + Echo(errs[..k], Stderr)
      {
        EchoStep(errs, k, Stderr);
        if !IsBlank(errs[k]) {
          out := out + [OutLine(Stderr, errs[k])];
        }
      }
      assert errs[..|errs|] == errs;
    }
  }
}
