/** What `download_audio` and `download_video` make of the process they
    start: its standard output when it exits with 0, otherwise a
    RuntimeError whose message reports the exit code, the command and both
    captured streams, or wraps whatever else went wrong. The process itself
    is not modelled; how it ended is a parameter. */
module ProcessRunner {
  import opened Builtins
  import Audio
  import Video

  /** How `subprocess.run(cmd, capture_output=True, text=True, check=True)`
      came back: the process ran and exited with a code, or starting it
      raised some other exception (described by its text). */
  datatype Completion =
    | Exited(returnCode: int, stdout: string, stderr: string)
    | Raised(description: string)

  /** The function's return value, or the RuntimeError it raises. */
  datatype Outcome = Ok(stdout: string) | RuntimeError(message: string)

  const AudioUnexpectedHeader := "[X] Unexpected Error:\n"
  const VideoUnexpectedHeader := "[X] Error:\n"
  const NonZeroHeader := "[X] Process returned non-zero exit code!\n"

  /** The message built from a CalledProcessError. */
  function NonZeroExitMessage(code: int, cmd: seq<string>, stderr: string, stdout: string): (m: string)
    ensures NonZeroHeader <= m
  {
    NonZeroHeader + ExitCodeLine(code) + CommandLine(cmd) + "\n"
    + StreamBlock("STDERR", stderr) + "\n" + StreamBlock("STDOUT", stdout)
  }

  function ExitCodeLine(code: int): string {
    "Exit code: " + IntToString(code) + "\n"
  }

  /** `' '.join(map(str, e.cmd))` on its own line. */
  function CommandLine(cmd: seq<string>): string {
    "Command: " + Join(" ", cmd) + "\n"
  }

  /** A captured stream under its heading, whitespace stripped. */
  function StreamBlock(name: string, text: string): string {
    name + ":\n" + Strip(text) + "\n"
  }

  /** The try/except around the process call; `unexpectedHeader` is the
      text that wraps any other exception, which the two download functions
      spell differently. */
  function Run(cmd: seq<string>, c: Completion, unexpectedHeader: string): (r: Outcome)
    ensures r.Ok? <==> c.Exited? && c.returnCode == 0
    ensures r.Ok? ==> r.stdout == c.stdout
    ensures c.Raised? ==> r == RuntimeError(unexpectedHeader + c.description)
  {
    match c
    case Exited(code, out, err) =>
      if code == 0 then Ok(out) else RuntimeError(NonZeroExitMessage(code, cmd, err, out))
    case Raised(d) => RuntimeError(unexpectedHeader + d)
  }

  /** `download_audio`, given how the process it starts ends. */
  function DownloadAudio(interpreter: string, req: Audio.AudioRequest, c: Completion): (r: Outcome)
    ensures r.Ok? <==> c.Exited? && c.returnCode == 0
    ensures r.Ok? ==> r.stdout == c.stdout
    ensures c.Raised? ==> r == RuntimeError(AudioUnexpectedHeader + c.description)
  {
    Run(Audio.AudioCommand(interpreter, req), c, AudioUnexpectedHeader)
  }

  /** `download_video`, given how the process it starts ends. */
  function DownloadVideo(interpreter: string, req: Video.VideoRequest, c: Completion): (r: Outcome)
    ensures r.Ok? <==> c.Exited? && c.returnCode == 0
    ensures r.Ok? ==> r.stdout == c.stdout
    ensures c.Raised? ==> r == RuntimeError(VideoUnexpectedHeader + c.description)
  {
    Run(Video.VideoCommand(interpreter, req), c, VideoUnexpectedHeader)
  }

  /** A non-zero exit is reported with its code, the space-joined command
      and both streams with surrounding whitespace removed. */
  lemma NonZeroExitReported(cmd: seq<string>, code: int, stdout: string, stderr: string, header: string)
    requires code != 0
    ensures var r := Run(cmd, Exited(code, stdout, stderr), header);
      && r.RuntimeError?
      && r.message[..|NonZeroHeader|] == NonZeroHeader
      && Contains(r.message, ExitCodeLine(code))
      && Contains(r.message, CommandLine(cmd))
      && Contains(r.message, StreamBlock("STDERR", stderr))
      && Contains(r.message, StreamBlock("STDOUT", stdout))
  {
    var e, c, se, so := ExitCodeLine(code), CommandLine(cmd), StreamBlock("STDERR", stderr), StreamBlock("STDOUT", stdout);
    var m1 := NonZeroHeader + e;
    var m2 := m1 + c;
    var m3 := m2 + "\n";
    var m4 := m3 + se;
    var m5 := m4 + "\n";
    var m := m5 + so;
    assert m == NonZeroExitMessage(code, cmd, stderr, stdout);
    ContainsSuffix(NonZeroHeader, e);
    ContainsExtend(m1, e, c);
    ContainsExtend(m2, e, "\n");
    ContainsExtend(m3, e, se);
    ContainsExtend(m4, e, "\n");
    ContainsExtend(m5, e, so);
    ContainsSuffix(m1, c);
    ContainsExtend(m2, c, "\n");
    ContainsExtend(m3, c, se);
    ContainsExtend(m4, c, "\n");
    ContainsExtend(m5, c, so);
    ContainsSuffix(m3, se);
    ContainsExtend(m4, se, "\n");
    ContainsExtend(m5, se, so);
    ContainsSuffix(m5, so);
  }

  /** The two download functions differ only in the words that wrap an
      unexpected exception. */
  lemma UnexpectedErrorWording(interpreter: string, a: Audio.AudioRequest, v: Video.VideoRequest, d: string)
    ensures DownloadAudio(interpreter, a, Raised(d)) == RuntimeError("[X] Unexpected Error:\n" + d)
    ensures DownloadVideo(interpreter, v, Raised(d)) == RuntimeError("[X] Error:\n" + d)
  {
  }

  /** A video download whose process exits with code 2 fails with a message
      naming code 2 and the whole command. */
  lemma ExitCodeTwoReported(interpreter: string, req: Video.VideoRequest, stdout: string, stderr: string)
    ensures var r := DownloadVideo(interpreter, req, Exited(2, stdout, stderr));
      && r.RuntimeError?
      && Contains(r.message, "Exit code: 2\n")
      && Contains(r.message, "Command: " + Join(" ", Video.VideoCommand(interpreter, req)) + "\n")
  {
    assert ExitCodeLine(2) == "Exit code: 2\n" by {
      assert DigitChar(2) == '2';
      assert IntToString(2) == "2";
    }
    NonZeroExitReported(Video.VideoCommand(interpreter, req), 2, stdout, stderr, VideoUnexpectedHeader);
  }
}
