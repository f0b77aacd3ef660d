# py-dlp command construction, in Dafny

py-dlp is an interactive front-end to yt-dlp. Everything it decides for
itself happens before it starts a process. It builds the yt-dlp argument
list for an audio download or a video download, with the yt-dlp format
selector for the video case. It checks that a typed URL starts with
`http://` or `https://`, and it maps the quality menu answer to a height
cap. After the process ends it turns the result into the function's return
value or a `RuntimeError` message.

This project models those parts as Dafny functions and proves what the
argument lists contain:

- `builtins.dfy`, module `Builtins`: the Python behaviour the builders rely
  on. It covers None-or-value, truthiness of strings, `filter(None, …)`,
  `str.strip()` with Python's whitespace set, decimal `str(int)` and
  `int(str)`, `' '.join` and `list.count`.
- `audio.dfy`, module `Audio`: the `download_audio` argument list. A function
  states what the list is. A method builds it the way `download_audio` does:
  first the fixed list, then an in-place `extend` with the filtered optional
  flags. Beside them are a decoder and the lemmas.
- `video.dfy`, module `Video`:
  - the audio container chosen for a video container;
  - the format selector and the `download_video` argument list;
  - the mapping from the quality menu answer to a cap;
  - decoders and the lemmas.
- `url.dfy`, module `UrlPrompt`:
  - the validator of the URL prompt, as an explicit prefix test under case
    folding;
  - the re-prompting `ask_url`;
  - a small backtracking matcher for the pattern `^https?://`, proved to
    agree with the prefix test.
- `runner.dfy`, module `ProcessRunner`: the try/except around
  `subprocess.run`. How the process ended is a parameter (`Completion`).
  The result is the captured standard output or the `RuntimeError` message
  `download_audio` and `download_video` build.

Modelling decisions:

- The interpreter path (`sys.executable`) is a parameter of every builder.
- The thumbnail and metadata answers are booleans. A cancelled prompt gives
  None, which is falsy, so it acts exactly like `false`.
- The destination path is `Option<string>`. It counts as given only when it
  is truthy, that is `Some` of a non-empty string. This is what
  `filter(None, …)` and the two `if destination_path` tests do. So `-P` and
  the path come together or not at all.
- The video builder tests the cap with `is not None`, so a cap of 0 still
  writes `[height<=0]`. The audio builder tests truthiness instead. The
  model keeps the two tests apart.
- Under `re.IGNORECASE`, Python's regular-expression engine lets the pattern
  letter `s` also match U+017F LATIN SMALL LETTER LONG S. So `httpſ://x`
  passes the validator. `FoldMatches` models this. The other pattern
  characters fold over ASCII only.
- `ask_url` is modelled from the whole sequence of answers the user types.
  The prompt re-asks while the validator rejects. The result is the first
  accepted answer, stripped. If the answers run out (the prompt is
  cancelled), the result is `None`: `ask_url` then calls `.strip()` on
  None and fails.

## Model

| member | source | states |
|---|---|---|
| `Audio.OptionalAudioFlags` | main.py:38-43 | The four slots before filtering: `-P` is in its slot exactly when the path is, and the path is there only when it is truthy. |
| `Audio.AudioCommand` | main.py:26-45 | The audio command: 9 to 13 words, starting with the interpreter, with the URL as ninth word. |
| `Audio.AudioCommandLayout` | main.py:26-45 | The command starts with exactly interpreter, `-m`, `yt_dlp`, `-x`, `--audio-format`, `mp3`, `--audio-quality`, `0`, url. Its length is 9 + [thumbnail] + [metadata] + 2·[path given]. The thumbnail flag sits at index 9. The metadata flag comes right after that. `-P` and the path are the last two words. |
| `Audio.AudioTail` | main.py:38-45 | Everything after the URL is the thumbnail flag if asked for, then the metadata flag if asked for, then `-P` and the path if the path is truthy, in that order. |
| `Audio.FilteredFlags` | main.py:38-45 | Filtering the four optional slots leaves the thumbnail flag, the metadata flag and the `-P` path pair, each only when asked for, in that order. |
| `Audio.TailCount` | main.py:38-45 | Any word occurs after the URL once for each optional part that is that word. |
| `Audio.ThumbnailFlagCount` | main.py:39-45 | After the URL, `--embed-thumbnail` occurs once when requested and never otherwise, except as the destination path itself. |
| `Audio.MetadataFlagCount` | main.py:40-45 | After the URL, `--add-metadata` occurs once when requested and never otherwise, except as the destination path itself. |
| `Audio.PathFlagIff` | main.py:41-45 | `-P` is the next-to-last word iff the path is truthy, and then the path is the last word. A None or "" path adds nothing. After the URL, `-P` occurs only as the flag (or as the path). |
| `Audio.FalsyPathsAgree` | main.py:41-42 | An empty-string destination and no destination give the same command. |
| `Audio.ExtendFiltered` | main.py:45 | `cmd.extend(filter(None, items))` appends, in order, exactly the truthy items to the existing list. |
| `Audio.BuildAudioCommand` | main.py:26-45 | Building the list step by step, as `download_audio` does, gives exactly the specified audio command. |
| `Audio.AudioCommandRoundTrip` | main.py:26-45 | Decoding the audio command gives back the URL, both flags and the destination (a falsy destination reads back as none). |
| `Audio.AudioCommandInjective` | main.py:26-45 | Two audio commands are equal iff the interpreter, URL and flags agree and their effective destinations agree. |
| `Audio.NoOptionsBareCommand` | main.py:26-45 | With both options off and no path, the command is the nine fixed words ending in the URL. It has no `--embed-thumbnail`, no `--add-metadata` and no `-P`. |
| `Builtins.Compact` | main.py:45 | `filter(None, …)` returns no more items than it was given. |
| `Builtins.CompactMembers` | main.py:45 | A string survives `filter(None, …)` iff it was present and non-empty, so no empty string survives. |
| `Builtins.CompactSnoc` | main.py:45 | Filtering a list with one more item appends exactly what that item contributes. |
| `Builtins.Strip` | main.py:157 | The stripped string is no longer than the input, and neither starts nor ends with whitespace. |
| `Builtins.StripSlice` | main.py:156-157 | The stripped string is a contiguous slice of the input, and only whitespace lies outside it on either side. |
| `Builtins.StripIdempotent` | main.py:156-157 | Stripping twice is stripping once. |
| `Builtins.IntToStringRoundTrip` | main.py:93 | For every integer, including negatives and 0, the decimal text written into the height clause parses back to the same integer (Python's limit on digit count is not modelled; see Left out). |
| `Builtins.IntToString` | main.py:93 | `str(n)`: never empty, and no whitespace at either end. |
| `Builtins.ParseInt` | main.py:185 | When `int(s)` succeeds, the stripped text is digits, or a sign followed by digits. |
| `Builtins.CanonicalRoundTrip` | main.py:185 | A numeral without leading zeros reads back as the same text once parsed and printed. |
| `Video.AudioContainerFor` | main.py:89 | The audio container is `opus` iff the video format is `webm`, and `m4a` for every other format string. |
| `Video.FormatSelector` | main.py:91-95 | The selector is exactly head and tail, with nothing between, iff no cap is given. |
| `Video.VideoCommand` | main.py:81-104 | The video command: 8 words, the interpreter first, the URL fourth, the format last. |
| `Video.VideoCommandLayout` | main.py:81-104 | The video command has exactly 8 words: interpreter, `-m`, `yt_dlp`, url, `-f`, selector, `--merge-output-format`, format. The merge container always equals the requested format. |
| `Video.HeightClauseIff` | main.py:91-95 | Right after `bv*[ext=F]`, the selector continues with `[height<=` iff a cap is given, whatever its value (0 included). |
| `Video.SelectorRoundTrip` | main.py:91-95 | The height cap (or its absence) can be read back from the selector for its container. |
| `Video.SelectorInjective` | main.py:91-95 | For a fixed container, two selectors are equal iff the caps are equal. |
| `Video.VideoCommandRoundTrip` | main.py:81-104 | Decoding the video command gives back URL, cap and format. |
| `Video.VideoCommandInjective` | main.py:81-104 | Two video commands are equal iff the interpreter and the whole request agree. |
| `Video.Webm720Selector` | main.py:91-95 | webm with cap 720 gives `bv*[ext=webm][height<=720]+ba[ext=opus]/b[ext=webm]/b`. |
| `Video.Mp4NoCapSelector` | main.py:91-95 | mp4 with no cap gives `bv*[ext=mp4]+ba[ext=m4a]/b[ext=mp4]/b` (no height clause). |
| `Video.ZeroCapKeepsClause` | main.py:93 | A cap of 0 still writes `[height<=0]`, because the test is `is not None`. |
| `Video.QualityFromChoice` | main.py:185 | The answer "best" means no cap. |
| `Video.NumeralChoice` | main.py:185 | A numeral answer becomes the cap of that value, and printing the cap gives back the answer text. |
| `Video.MenuChoicesGiveCaps` | main.py:183-185 | Every menu entry is accepted. Each of the four numbers gives a positive cap, and the selector quotes that number verbatim. |
| `Video.NumeralCap` | main.py:185 | Any numeral without leading zeros gives a positive cap, and the height clause repeats the numeral's own text. |
| `UrlPrompt.UrlAccepted` | main.py:151-156 | `URL_RE.match(s.strip())`: an accepted answer strips to at least the seven characters of `http://`. |
| `UrlPrompt.Validate` | main.py:156 | The validator answers True iff the stripped input starts with `http://` or `https://` under case folding. Otherwise it answers the fixed message. |
| `UrlPrompt.UrlPatternIsPrefixTest` | main.py:151 | Matching `^https?://` with IGNORECASE (greedy optional `s`, with backtracking) agrees on every string with the explicit two-prefix test. |
| `UrlPrompt.AskUrl` | main.py:153-157 | The URL `ask_url` returns exists only if some answer was typed, and has no surrounding whitespace. |
| `UrlPrompt.AskUrlNone` | main.py:153-157 | The prompt gives no URL iff every answer is rejected by the validator. |
| `UrlPrompt.AskUrlFirstAccepted` | main.py:153-157 | When the prompt gives a URL, it is the stripped form of an accepted answer before which every answer was rejected. |
| `UrlPrompt.AskUrlResultAccepted` | main.py:156-157 | The URL handed on passes the validator again and has no surrounding whitespace. |
| `UrlPrompt.UpperCaseSchemeAccepted` | main.py:151-157 | Any answer `HTTPS://` + host with no trailing whitespace is accepted and handed on unchanged. |
| `UrlPrompt.OtherSchemeRejected` | main.py:151-156 | `ftp://x` is rejected with "Must start with http:// or https://". |
| `UrlPrompt.SurroundingWhitespaceRemoved` | main.py:153-157 | After a rejected `ftp://x`, the answer ` http://` + host + newline is handed on as `http://` + host. |
| `UrlPrompt.WrappedHttpAccepted` | main.py:156-157 | ` http://` + host + newline passes the validator and strips to `http://` + host. |
| `UrlPrompt.LongSAccepted` | main.py:151 | `httpſ://` + host (long s) is accepted, as Python's case-insensitive matching allows. |
| `ProcessRunner.Run` | main.py:49-67 | The result is the captured stdout iff the process exited with 0. Any other exception that `except Exception` catches becomes a `RuntimeError` whose message is the wrapper text followed by the exception's text. |
| `ProcessRunner.NonZeroExitMessage` | main.py:58-65 | The CalledProcessError message always starts with the non-zero-exit header. |
| `ProcessRunner.DownloadAudio` | main.py:26-67 | `download_audio` returns the captured stdout iff the process exits with 0. Any other exception caught is wrapped as `[X] Unexpected Error:`. |
| `ProcessRunner.DownloadVideo` | main.py:81-126 | `download_video` returns the captured stdout iff the process exits with 0. Any other exception caught is wrapped as `[X] Error:`. |
| `ProcessRunner.NonZeroExitReported` | main.py:58-65 | On a non-zero exit, the message starts with the fixed header. It contains the exit code line, the space-joined command line, and both stripped stream blocks. |
| `ProcessRunner.UnexpectedErrorWording` | main.py:66-67 | An unexpected exception is wrapped as "[X] Unexpected Error:" by the audio download and as "[X] Error:" by the video download (main.py:125-126). |
| `ProcessRunner.ExitCodeTwoReported` | main.py:117-124 | A video download whose process exits with 2 fails with a message containing `Exit code: 2` and the joined command. |

## Left out

- `check_dependencies` (main.py:128-149) is left out. It runs external programs and ends the interpreter with `sys.exit`, and neither is modelled.
- The interactive shell (main.py:159-212) is left out: the menu loop that never ends, the `questionary` prompts other than the URL prompt, the `rich` console, panel and spinner, and the dispatch on the menu answer. Only the quality-answer mapping on line 185 is modelled.
- The debug `print(specific_quality)` (main.py:87) is left out. It is output only.
- `subprocess.run` itself is left out: the process, its streams and its exit code come from the `Completion` parameter.
- The `(e.stderr or '')` fallback is not modelled: with `capture_output=True, text=True` both streams are strings, so they are plain strings here.
- `Builtins.ParseInt`: `int()` is modelled only for optional surrounding whitespace, an optional sign and ASCII digits. Underscores between digits and non-ASCII digits are not modelled.
- `Builtins.ParseInt` strips with the `str.isspace` set. Python's `int()` does not treat U+001C to U+001F as surrounding whitespace, so `int("\x1c5")` raises ValueError, while `ParseInt` reads 5.
- `Builtins.ParseInt` has no limit on digit count. Since Python 3.11 (and the 2022 security releases), `int()` raises ValueError above `sys.get_int_max_str_digits()` digits, 4300 by default. The quality menu offers none of these inputs.
- `Builtins.IntToString` has no limit on digit count either. A cap of more than 4300 digits makes Python's f-string at main.py:93 raise ValueError before the `try`, and the model writes the digits instead. The menu caps have at most four digits.
- `Builtins.IsSpace`: it lists Python's whitespace characters as written in the code points. It is not derived from the Unicode database.
- `UrlPrompt.FoldMatches`: case folding covers only what the characters of `^https?://` need (ASCII letters and the long s). It is not a general case-insensitive comparison.
- A cancelled format prompt (None as `video_format`) is not modelled: the builder takes a string.
- `ProcessRunner.Run`: `Completion` has no case for KeyboardInterrupt or SystemExit. `except Exception` (main.py:66, 125) does not catch them, and `subprocess.run` re-raises KeyboardInterrupt after killing the child, so they escape unwrapped.
- The default arguments of `download_audio` (main.py:14) and `download_video` (main.py:69) are not modelled: every request passes all fields, as both call sites (main.py:187, 211) do.
