/** The argument list `download_audio` hands to the interpreter: yt-dlp run
    as a module, extracting the audio track as mp3 at the best quality, then
    the optional thumbnail, metadata and destination flags, keeping only the
    truthy ones. */
module Audio {
  import opened Builtins

  /** The caller's choices for one audio download. `destinationPath` is
      None when no answer was given; an empty answer is "" . */
  datatype AudioRequest = AudioRequest(
    url: string,
    embedThumbnail: bool,
    addMetadata: bool,
    destinationPath: Option<string>)

  const ThumbnailFlag := "--embed-thumbnail"
  const MetadataFlag := "--add-metadata"
  const PathFlag := "-P"

  /** The fixed part of the list, ending with the URL. */
  function AudioPrefix(interpreter: string, url: string): seq<string> {
    [interpreter, "-m", "yt_dlp", "-x", "--audio-format", "mp3", "--audio-quality", "0", url]
  }

  /** The four-slot `optional_flags` list before filtering; a slot whose
      condition is false holds None. */
  function OptionalAudioFlags(req: AudioRequest): (slots: seq<Option<string>>)
    ensures |slots| == 4
    ensures slots[2].Some? <==> slots[3].Some?
    ensures slots[3].Some? ==> Truthy(slots[3]) && slots[3] == req.destinationPath
  {
    [ if req.embedThumbnail then Some(ThumbnailFlag) else None,
      if req.addMetadata then Some(MetadataFlag) else None,
      if Truthy(req.destinationPath) then Some(PathFlag) else None,
      if Truthy(req.destinationPath) then req.destinationPath else None ]
  }

  /** The command `download_audio` runs. */
  function AudioCommand(interpreter: string, req: AudioRequest): (cmd: seq<string>)
    ensures 9 <= |cmd| <= 13
    ensures cmd[0] == interpreter && cmd[8] == req.url
  {
    AudioPrefix(interpreter, req.url) + Compact(OptionalAudioFlags(req))
  }

  /** `cmd.extend(filter(None, items))`: appends the truthy items one by one. */
  method ExtendFiltered(cmd: seq<string>, items: seq<Option<string>>) returns (r: seq<string>)
    ensures r == cmd + Compact(items)
  {
    r := cmd;
    var i := 0;
    while i < |items|
      invariant 0 <= i <= |items|
      invariant r == cmd + Compact(items[..i])
    {
      CompactSnoc(items[..i], items[i]);
      assert items[..i + 1] == items[..i] + [items[i]];
      if Truthy(items[i]) {
        r := r + [items[i].value];
      }
      i := i + 1;
    }
    assert items[..i] == items;
  }

  /** `download_audio` up to the process call, statement by statement. */
  method BuildAudioCommand(interpreter: string, req: AudioRequest) returns (cmd: seq<string>)
    ensures cmd == AudioCommand(interpreter, req)
  {
    cmd := [interpreter, "-m", "yt_dlp", "-x", "--audio-format", "mp3", "--audio-quality", "0", req.url];
    var optionalFlags := OptionalAudioFlags(req);
    cmd := ExtendFiltered(cmd, optionalFlags);
  }

  function Bit(b: bool): nat {
    if b then 1 else 0
  }

  /** The path that actually reaches the command: a falsy path is none. */
  function EffectivePath(p: Option<string>): (e: Option<string>)
    ensures e.Some? <==> Truthy(p)
    ensures e.Some? ==> e == p
  {
    if Truthy(p) then p else None
  }

  /** The request with a falsy destination replaced by None. */
  function Normalized(req: AudioRequest): AudioRequest {
    req.(destinationPath := EffectivePath(req.destinationPath))
  }

  /** Everything after the URL, as the three optional parts. */
  lemma AudioTail(interpreter: string, req: AudioRequest)
    ensures AudioCommand(interpreter, req) ==
      AudioPrefix(interpreter, req.url)
      + (if req.embedThumbnail then [ThumbnailFlag] else [])
      + (if req.addMetadata then [MetadataFlag] else [])
      + (if Truthy(req.destinationPath) then [PathFlag, req.destinationPath.value] else [])
  {
    var pre := AudioPrefix(interpreter, req.url);
    var t := if req.embedThumbnail then [ThumbnailFlag] else [];
    var m := if req.addMetadata then [MetadataFlag] else [];
    var p := if Truthy(req.destinationPath) then [PathFlag, req.destinationPath.value] else [];
    FilteredFlags(req);
    assert pre + (t + m + p) == pre + t + m + p;
  }

  /** The filtered `optional_flags`: the three optional parts in order. */
  lemma FilteredFlags(req: AudioRequest)
    ensures Compact(OptionalAudioFlags(req)) ==
      (if req.embedThumbnail then [ThumbnailFlag] else [])
      + (if req.addMetadata then [MetadataFlag] else [])
      + (if Truthy(req.destinationPath) then [PathFlag, req.destinationPath.value] else [])
  {
    var f := OptionalAudioFlags(req);
    CompactFour(f[0], f[1], f[2], f[3]);
    assert f == [f[0], f[1], f[2], f[3]];
    var t := if req.embedThumbnail then [ThumbnailFlag] else [];
    var m := if req.addMetadata then [MetadataFlag] else [];
    var p := if Truthy(req.destinationPath) then [PathFlag, req.destinationPath.value] else [];
    assert CompactOne(f[0]) == t;
    assert CompactOne(f[1]) == m;
    assert CompactOne(f[2]) + CompactOne(f[3]) == p;
    assert t + (m + p) == t + m + p;
  }

  lemma CompactLast(d: Option<string>)
    ensures Compact([d]) == CompactOne(d)
  {
    assert [d][1..] == [];
  }

  lemma CompactTwo(c: Option<string>, d: Option<string>)
    ensures Compact([c, d]) == CompactOne(c) + CompactOne(d)
  {
    assert [c, d][1..] == [d];
    CompactLast(d);
  }

  lemma CompactThree(b: Option<string>, c: Option<string>, d: Option<string>)
    ensures Compact([b, c, d]) == CompactOne(b) + (CompactOne(c) + CompactOne(d))
  {
    assert [b, c, d][1..] == [c, d];
    CompactTwo(c, d);
  }

  lemma CompactFour(a: Option<string>, b: Option<string>, c: Option<string>, d: Option<string>)
    ensures Compact([a, b, c, d]) == CompactOne(a) + (CompactOne(b) + (CompactOne(c) + CompactOne(d)))
  {
    assert [a, b, c, d][1..] == [b, c, d];
    CompactThree(b, c, d);
  }

  /** The command always starts with the same nine words ending in the URL,
      and grows by one word per requested flag and two for a destination. */
  lemma AudioCommandLayout(interpreter: string, req: AudioRequest)
    ensures var cmd := AudioCommand(interpreter, req);
      && |cmd| == 9 + Bit(req.embedThumbnail) + Bit(req.addMetadata) + 2 * Bit(Truthy(req.destinationPath))
      && cmd[..9] == [interpreter, "-m", "yt_dlp", "-x", "--audio-format", "mp3", "--audio-quality", "0", req.url]
      && (req.embedThumbnail ==> cmd[9] == ThumbnailFlag)
      && (req.addMetadata ==> cmd[9 + Bit(req.embedThumbnail)] == MetadataFlag)
      && (Truthy(req.destinationPath) ==>
            cmd[|cmd| - 2] == PathFlag && cmd[|cmd| - 1] == req.destinationPath.value)
  {
    AudioTail(interpreter, req);
  }

  /** After the URL, `--embed-thumbnail` occurs once if it was asked for and
      not at all otherwise; the only other way the word can occur there is as
      the destination path. */
  lemma ThumbnailFlagCount(interpreter: string, req: AudioRequest)
    ensures Count(AudioCommand(interpreter, req)[9..], ThumbnailFlag) ==
      Bit(req.embedThumbnail) + Bit(Truthy(req.destinationPath) && req.destinationPath.value == ThumbnailFlag)
  {
    TailCount(interpreter, req, ThumbnailFlag);
  }

  /** The same for `--add-metadata`. */
  lemma MetadataFlagCount(interpreter: string, req: AudioRequest)
    ensures Count(AudioCommand(interpreter, req)[9..], MetadataFlag) ==
      Bit(req.addMetadata) + Bit(Truthy(req.destinationPath) && req.destinationPath.value == MetadataFlag)
  {
    TailCount(interpreter, req, MetadataFlag);
  }

  /** `-P` occurs after the URL exactly when the path is truthy, then as the
      next-to-last word followed by the path; a None or "" path adds
      nothing. */
  lemma PathFlagIff(interpreter: string, req: AudioRequest)
    ensures var cmd := AudioCommand(interpreter, req);
      && (Truthy(req.destinationPath) <==> |cmd| >= 11 && cmd[|cmd| - 2] == PathFlag)
      && (Truthy(req.destinationPath) ==> cmd[|cmd| - 1] == req.destinationPath.value)
      && Count(cmd[9..], PathFlag) ==
           2 * Bit(Truthy(req.destinationPath) && req.destinationPath.value == PathFlag)
           + Bit(Truthy(req.destinationPath) && req.destinationPath.value != PathFlag)
  {
    AudioTail(interpreter, req);
    TailCount(interpreter, req, PathFlag);
  }

  /** How often a word occurs after the URL: once per optional part that is
      that word. */
  lemma TailCount(interpreter: string, req: AudioRequest, w: string)
    ensures Count(AudioCommand(interpreter, req)[9..], w) ==
      Bit(req.embedThumbnail && w == ThumbnailFlag) + Bit(req.addMetadata && w == MetadataFlag)
      + Bit(Truthy(req.destinationPath) && w == PathFlag)
      + Bit(Truthy(req.destinationPath) && req.destinationPath.value == w)
  {
    FilteredFlags(req);
    assert AudioCommand(interpreter, req)[9..] == Compact(OptionalAudioFlags(req));
    FlagsCount(req, w);
  }

  lemma FlagsCount(req: AudioRequest, w: string)
    ensures Count(Compact(OptionalAudioFlags(req)), w) ==
      Bit(req.embedThumbnail && w == ThumbnailFlag) + Bit(req.addMetadata && w == MetadataFlag)
      + Bit(Truthy(req.destinationPath) && w == PathFlag)
      + Bit(Truthy(req.destinationPath) && req.destinationPath.value == w)
  {
    var t := if req.embedThumbnail then [ThumbnailFlag] else [];
    var m := if req.addMetadata then [MetadataFlag] else [];
    var p := if Truthy(req.destinationPath) then [PathFlag, req.destinationPath.value] else [];
    FilteredFlags(req);
    CountAppend(t + m, p, w);
    CountAppend(t, m, w);
    if req.embedThumbnail { CountSingle(ThumbnailFlag, w); }
    if req.addMetadata { CountSingle(MetadataFlag, w); }
    if Truthy(req.destinationPath) { CountPair(PathFlag, req.destinationPath.value, w); }
  }

  /** None and "" as destination give the same command. */
  lemma FalsyPathsAgree(interpreter: string, req: AudioRequest)
    ensures AudioCommand(interpreter, Normalized(req)) == AudioCommand(interpreter, req)
  {
  }

  // ------------------------------------------------------------- decoding

  /** Reads the request back from an audio command: the inverse of
      `AudioCommand` up to falsy destinations. */
  function DecodeAudioCommand(cmd: seq<string>): (r: Option<AudioRequest>)
    ensures r.Some? ==> |cmd| >= 9 && r.value.url == cmd[8]
  {
    if |cmd| < 9 || cmd[..9] != AudioPrefix(cmd[0], cmd[8]) then None
    else
      var rest := cmd[9..];
      var thumb := rest != [] && rest[0] == ThumbnailFlag;
      var rest1 := if thumb then rest[1..] else rest;
      var meta := rest1 != [] && rest1[0] == MetadataFlag;
      var rest2 := if meta then rest1[1..] else rest1;
      if rest2 == [] then Some(AudioRequest(cmd[8], thumb, meta, None))
      else if |rest2| == 2 && rest2[0] == PathFlag && rest2[1] != "" then
        Some(AudioRequest(cmd[8], thumb, meta, Some(rest2[1])))
      else None
  }

  /** Decoding a built command gives back the request, with a falsy
      destination read as none. */
  lemma AudioCommandRoundTrip(interpreter: string, req: AudioRequest)
    ensures DecodeAudioCommand(AudioCommand(interpreter, req)) == Some(Normalized(req))
  {
    AudioTail(interpreter, req);
  }

  /** Two requests give the same command exactly when they agree on the
      interpreter, URL and both flags, and either both name the same
      non-empty destination or neither names one. */
  lemma AudioCommandInjective(i1: string, r1: AudioRequest, i2: string, r2: AudioRequest)
    ensures AudioCommand(i1, r1) == AudioCommand(i2, r2) <==> i1 == i2 && Normalized(r1) == Normalized(r2)
  {
    AudioCommandRoundTrip(i1, r1);
    AudioCommandRoundTrip(i2, r2);
    AudioCommandLayout(i1, r1);
    AudioCommandLayout(i2, r2);
    FalsyPathsAgree(i1, r1);
    FalsyPathsAgree(i2, r2);
  }

  /** With every option switched off no optional flag is present, and the
      fixed extraction flags still are. */
  lemma NoOptionsBareCommand(interpreter: string, url: string)
    ensures AudioCommand(interpreter, AudioRequest(url, false, false, None)) ==
      [interpreter, "-m", "yt_dlp", "-x", "--audio-format", "mp3", "--audio-quality", "0", url]
  {
    AudioTail(interpreter, AudioRequest(url, false, false, None));
  }
}
