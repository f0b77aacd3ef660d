/** The argument list `download_video` hands to the interpreter, the yt-dlp
    format selector inside it, and the menu answer that becomes the height
    cap. */
module Video {
  import opened Builtins

  /** The caller's choices for one video download: the container and an
      optional maximum height (any integer; None for no cap). */
  datatype VideoRequest = VideoRequest(url: string, specificQuality: Option<int>, videoFormat: string)

  /** The audio container paired with a video container: opus for webm and
      m4a for every other format string. */
  function AudioContainerFor(videoFormat: string): (a: string)
    ensures a == "opus" <==> videoFormat == "webm"
    ensures a != "opus" ==> a == "m4a"
  {
    if videoFormat == "webm" then "opus" else "m4a"
  }

  /** The `[height<=Q]` clause; present whenever a cap is given, including
      a cap of 0 (`download_video` tests `is not None`, not truthiness). */
  function HeightClause(q: Option<int>): string {
    if q.Some? then "[height<=" + IntToString(q.value) + "]" else ""
  }

  /** The selector up to the optional height clause. */
  function SelectorHead(videoFormat: string): string {
    "bv*[ext=" + videoFormat + "]"
  }

  /** The fallback chain after the height clause: best video with the paired
      audio, else best single file in the container, else best of anything. */
  function SelectorTail(videoFormat: string): string {
    "+ba[ext=" + AudioContainerFor(videoFormat) + "]/b[ext=" + videoFormat + "]/b"
  }

  /** The `fmt` string of `download_video`. */
  function FormatSelector(videoFormat: string, q: Option<int>): (s: string)
    ensures q.None? <==> |s| == |SelectorHead(videoFormat)| + |SelectorTail(videoFormat)|
  {
    SelectorHead(videoFormat) + HeightClause(q) + SelectorTail(videoFormat)
  }

  /** The command `download_video` runs: the four-word head and the four
      words it is extended with. */
  function VideoCommand(interpreter: string, req: VideoRequest): (cmd: seq<string>)
    ensures |cmd| == 8 && cmd[0] == interpreter && cmd[3] == req.url && cmd[7] == req.videoFormat
  {
    [interpreter, "-m", "yt_dlp", req.url]
      + ["-f", FormatSelector(req.videoFormat, req.specificQuality), "--merge-output-format", req.videoFormat]
  }

  /** Eight words, in this order, and the merge container is always the
      requested format. */
  lemma VideoCommandLayout(interpreter: string, req: VideoRequest)
    ensures var cmd := VideoCommand(interpreter, req);
      && |cmd| == 8
      && cmd[0] == interpreter && cmd[1] == "-m" && cmd[2] == "yt_dlp" && cmd[3] == req.url
      && cmd[4] == "-f" && cmd[5] == FormatSelector(req.videoFormat, req.specificQuality)
      && cmd[6] == "--merge-output-format" && cmd[7] == req.videoFormat
  {
  }

  /** Right after `bv*[ext=F]` the selector continues with `[height<=`
      exactly when a cap is given, whatever its value. */
  lemma HeightClauseIff(videoFormat: string, q: Option<int>)
    ensures var s := FormatSelector(videoFormat, q);
      var h := |SelectorHead(videoFormat)|;
      |s| >= h + 9 && (s[h..h + 9] == "[height<=" <==> q.Some?)
  {
    var s := FormatSelector(videoFormat, q);
    var h := |SelectorHead(videoFormat)|;
    if q.Some? {
      assert s[h..h + 9] == "[height<=";
    } else {
      assert s[h..] == SelectorTail(videoFormat);
      assert s[h] == '+';
    }
  }

  // ------------------------------------------------------------- decoding

  /** Reads the height cap back out of a selector for the given container:
      `Some(None)` for no clause, `Some(Some(n))` for `[height<=n]`, `None`
      for a string of another shape. */
  function DecodeSelector(s: string, videoFormat: string): Option<Option<int>> {
    var head, tail := SelectorHead(videoFormat), SelectorTail(videoFormat);
    if |s| < |head| + |tail| || s[..|head|] != head || s[|s| - |tail|..] != tail then None
    else
      var mid := s[|head|..|s| - |tail|];
      if mid == "" then Some(None)
      else if |mid| >= 10 && mid[..9] == "[height<=" && mid[|mid| - 1] == ']' then
        var n := ParseInt(mid[9..|mid| - 1]);
        if n.Some? then Some(Some(n.value)) else None
      else None
  }

  lemma SelectorRoundTrip(videoFormat: string, q: Option<int>)
    ensures DecodeSelector(FormatSelector(videoFormat, q), videoFormat) == Some(q)
  {
    var head, tail := SelectorHead(videoFormat), SelectorTail(videoFormat);
    var hc := HeightClause(q);
    var s := head + hc + tail;
    assert s[..|head|] == head;
    assert s[|s| - |tail|..] == tail;
    assert s[|head|..|s| - |tail|] == hc;
    if q.Some? {
      var digits := IntToString(q.value);
      assert hc[..9] == "[height<=";
      assert hc[9..|hc| - 1] == digits;
      IntToStringRoundTrip(q.value);
    }
  }

  /** The selector records the cap faithfully: different caps (or a cap and
      none) never give the same selector. */
  lemma SelectorInjective(videoFormat: string, q1: Option<int>, q2: Option<int>)
    ensures FormatSelector(videoFormat, q1) == FormatSelector(videoFormat, q2) <==> q1 == q2
  {
    SelectorRoundTrip(videoFormat, q1);
    SelectorRoundTrip(videoFormat, q2);
  }

  /** Reads the request back from a video command. */
  function DecodeVideoCommand(cmd: seq<string>): Option<VideoRequest> {
    if |cmd| != 8 || cmd[1] != "-m" || cmd[2] != "yt_dlp" || cmd[4] != "-f"
       || cmd[6] != "--merge-output-format" then None
    else
      var q := DecodeSelector(cmd[5], cmd[7]);
      if q.None? then None else Some(VideoRequest(cmd[3], q.value, cmd[7]))
  }

  lemma VideoCommandRoundTrip(interpreter: string, req: VideoRequest)
    ensures DecodeVideoCommand(VideoCommand(interpreter, req)) == Some(req)
  {
    SelectorRoundTrip(req.videoFormat, req.specificQuality);
  }

  /** Two video commands are equal exactly when the interpreter and the
      whole request are. */
  lemma VideoCommandInjective(i1: string, r1: VideoRequest, i2: string, r2: VideoRequest)
    ensures VideoCommand(i1, r1) == VideoCommand(i2, r2) <==> i1 == i2 && r1 == r2
  {
    VideoCommandRoundTrip(i1, r1);
    VideoCommandRoundTrip(i2, r2);
    if VideoCommand(i1, r1) == VideoCommand(i2, r2) {
      assert VideoCommand(i1, r1)[0] == i1 && VideoCommand(i2, r2)[0] == i2;
    }
  }

  // ------------------------------------------------------ the quality menu

  const QualityMenu: seq<string> := ["best", "1080", "720", "480", "360"]

  datatype ChoiceError = NoChoice | NotANumber(answer: string)

  /** `None if q_cap == "best" else int(q_cap)`: "best" is no cap, a
      numeral is that cap; a cancelled prompt (None) makes `int` fail with
      TypeError and any other answer with ValueError. */
  function QualityFromChoice(answer: Option<string>): (r: QualityAnswer)
    ensures answer == Some("best") ==> r == Cap(None)
  {
    if answer.None? then Failed(NoChoice)
    else if answer.value == "best" then Cap(None)
    else
      var n := ParseInt(answer.value);
      if n.Some? then Cap(Some(n.value)) else Failed(NotANumber(answer.value))
  }

  datatype QualityAnswer = Cap(cap: Option<int>) | Failed(error: ChoiceError)

  /** A numeral answer without leading zeros becomes a cap whose decimal
      form is the answer itself, so the height clause repeats the menu
      text. */
  lemma NumeralChoice(c: string)
    requires Canonical(c)
    ensures QualityFromChoice(Some(c)) == Cap(Some(DigitsValue(c)))
    ensures IntToString(DigitsValue(c)) == c
  {
    StripUnchanged(c);
    assert IsDigit(c[0]);
    assert ParseInt(c) == Some(DigitsValue(c) as int);
    CanonicalRoundTrip(c);
  }

  /** Every entry of the quality menu is accepted; the four numbers give a
      positive cap and the selector quotes them verbatim. */
  lemma MenuChoicesGiveCaps(c: string, videoFormat: string)
    requires c in QualityMenu
    ensures QualityFromChoice(Some(c)).Cap?
    ensures c != "best" ==> var q := QualityFromChoice(Some(c)).cap;
      && q.Some? && q.value > 0
      && FormatSelector(videoFormat, q) ==
         SelectorHead(videoFormat) + ("[height<=" + c + "]") + SelectorTail(videoFormat)
  {
    if c != "best" {
      MenuNumeralsCanonical(c);
      NumeralCap(c, videoFormat);
    } else {
      assert QualityFromChoice(Some(c)) == Cap(None);
    }
  }

  /** A numeral without leading zeros gives a positive cap whose clause
      quotes it. */
  lemma NumeralCap(c: string, videoFormat: string)
    requires Canonical(c) && c[0] != '0'
    ensures var q := QualityFromChoice(Some(c)).cap;
      && QualityFromChoice(Some(c)).Cap? && q.Some? && q.value > 0
      && FormatSelector(videoFormat, q) ==
         SelectorHead(videoFormat) + ("[height<=" + c + "]") + SelectorTail(videoFormat)
  {
    NumeralChoice(c);
    LeadingDigitPositive(c);
    assert HeightClause(Some(DigitsValue(c))) == "[height<=" + c + "]";
  }

  lemma MenuNumeralsCanonical(c: string)
    requires c in QualityMenu && c != "best"
    ensures Canonical(c) && c[0] != '0'
  {
  }

  // ------------------------------------------------------------ examples

  lemma Webm720Selector()
    ensures FormatSelector("webm", Some(720)) == "bv*[ext=webm][height<=720]+ba[ext=opus]/b[ext=webm]/b"
  {
    WebmParts();
    HeightClause720();
    Webm720Text();
  }

  lemma HeightClause720()
    ensures HeightClause(Some(720)) == "[height<=720]"
  {
    // `str(720)` digit by digit, then the clause two pieces at a time
    assert IntToString(720) == "720" by {
      assert NatToString(7) == "7";
      assert NatToString(72) == NatToString(7) + "2";
      assert NatToString(720) == NatToString(72) + "0";
    }
    assert "[height<=" + "720" == "[height<=720";
    assert "[height<=720" + "]" == "[height<=720]";
  }

  /** The expected webm/720 string cut where head, clause and tail meet; a
      lemma of its own because an equality between literals this long is
      costly for the verifier. */
  lemma Webm720Text()
    ensures "bv*[ext=webm]" + "[height<=720]" + "+ba[ext=opus]/b[ext=webm]/b"
         == "bv*[ext=webm][height<=720]+ba[ext=opus]/b[ext=webm]/b"
  {
    assert "bv*[ext=webm]" + "[height<=720]" == "bv*[ext=webm][height<=720]";
  }

  /** The literal pieces are joined two at a time: one equality between
      short literals is cheap for the verifier, a single equality across
      all of them is not. */
  lemma WebmParts()
    ensures SelectorHead("webm") == "bv*[ext=webm]"
    ensures SelectorTail("webm") == "+ba[ext=opus]/b[ext=webm]/b"
  {
    assert "bv*[ext=" + "webm" == "bv*[ext=webm";
    assert "bv*[ext=webm" + "]" == "bv*[ext=webm]";
    assert AudioContainerFor("webm") == "opus";
    assert "+ba[ext=" + "opus" == "+ba[ext=opus";
    assert "+ba[ext=opus" + "]/b[ext=" == "+ba[ext=opus]/b[ext=";
    assert "+ba[ext=opus]/b[ext=" + "webm" == "+ba[ext=opus]/b[ext=webm";
    assert "+ba[ext=opus]/b[ext=webm" + "]/b" == "+ba[ext=opus]/b[ext=webm]/b";
  }

  lemma Mp4NoCapSelector()
    ensures FormatSelector("mp4", None) == "bv*[ext=mp4]+ba[ext=m4a]/b[ext=mp4]/b"
  {
    // the literal pieces joined two at a time, as in WebmParts
    assert "bv*[ext=" + "mp4" == "bv*[ext=mp4";
    assert "bv*[ext=mp4" + "]" == "bv*[ext=mp4]";
    assert "+ba[ext=" + "m4a" == "+ba[ext=m4a";
    assert "+ba[ext=m4a" + "]/b[ext=" == "+ba[ext=m4a]/b[ext=";
    assert "+ba[ext=m4a]/b[ext=" + "mp4" == "+ba[ext=m4a]/b[ext=mp4";
    assert "+ba[ext=m4a]/b[ext=mp4" + "]/b" == "+ba[ext=m4a]/b[ext=mp4]/b";
    assert "bv*[ext=mp4]" + "" == "bv*[ext=mp4]";
    assert "bv*[ext=mp4]" + "+ba[ext=m4a]/b[ext=mp4]/b" == "bv*[ext=mp4]+ba[ext=m4a]/b[ext=mp4]/b";
  }

  /** A cap of 0 keeps its clause: the test is `is not None`. */
  lemma ZeroCapKeepsClause()
    ensures FormatSelector("webm", Some(0)) == "bv*[ext=webm][height<=0]+ba[ext=opus]/b[ext=webm]/b"
  {
    WebmParts();
    HeightClauseZero();
    WebmZeroText();
  }

  lemma HeightClauseZero()
    ensures HeightClause(Some(0)) == "[height<=0]"
  {
    assert IntToString(0) == "0" by {
      assert DigitChar(0) == '0';
    }
    assert "[height<=" + "0" == "[height<=0";
    assert "[height<=0" + "]" == "[height<=0]";
  }

  /** The same cut for the webm/0 string. */
  lemma WebmZeroText()
    ensures "bv*[ext=webm]" + "[height<=0]" + "+ba[ext=opus]/b[ext=webm]/b"
         == "bv*[ext=webm][height<=0]+ba[ext=opus]/b[ext=webm]/b"
  {
    assert "bv*[ext=webm]" + "[height<=0]" == "bv*[ext=webm][height<=0]";
  }
}
