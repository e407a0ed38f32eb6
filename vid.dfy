/**
 * The two decisions of the downloader script: which stream URL a playlist
 * URL resolves to (`fetch_m3u8_playlist`), and which external `ffmpeg`
 * command, if any, a download runs (`download_highest_quality_video`).
 *
 * The outside world is an `Environment` of functions the model does not
 * interpret: the HTTP fetch, URL reference resolution, path joining and
 * directory creation.
 */
module Vid {
  import opened Wrappers
  import opened PyStrings

  /** The tag that marks an HLS master playlist */
  const StreamInfTag := "#EXT-X-STREAM-INF"
  /** The extension of a playlist URL and of a variant line */
  const PlaylistExt := ".m3u8"

  /** What a GET of the manifest URL gives: a response, or an exception before one */
  datatype HttpOutcome =
    | Response(status: int, text: string)
    | TransportError  // connection failure, timeout, invalid URL, undecodable body

  /** `raise_for_status` raises an HTTP error for a client (4xx) or server (5xx) status */
  predicate RaisesForStatus(status: int) {
    400 <= status < 600
  }

  /** The library and operating-system calls the script makes, left uninterpreted */
  datatype Environment = Environment(
    makedirs: string -> bool,                 // does `os.makedirs(path, exist_ok=True)` return normally?
    fetch: string -> HttpOutcome,             // `requests.get(url, headers=...)`
    urljoin: (string, string) -> string,      // `urllib.parse.urljoin(base, ref)`
    pathJoin: (string, string) -> string)     // `os.path.join(dir, name)`

  predicate IsVariantLine(line: string) {
    EndsWith(line, PlaylistExt)
  }

  /** Line `i` names a variant and no line before it does */
  predicate IsFirstVariantAt(lines: seq<string>, i: nat) {
    i < |lines| && IsVariantLine(lines[i]) && forall j :: 0 <= j < i ==> !IsVariantLine(lines[j])
  }

  predicate HasVariantLine(lines: seq<string>) {
    exists i :: 0 <= i < |lines| && IsVariantLine(lines[i])
  }

  /** The first line that names a variant playlist, scanning from the first line */
  function FirstVariant(lines: seq<string>): (r: Option<string>)
    ensures r.Some? ==> r.value in lines && IsVariantLine(r.value)
    ensures r.None? <==> forall i :: 0 <= i < |lines| ==> !IsVariantLine(lines[i])
  {
    if lines == [] then None
    else if IsVariantLine(lines[0]) then Some(lines[0])
    else FirstVariant(lines[1..])
  }

  /** What `fetch_m3u8_playlist(url)` returns when the GET of `url` gives `response` */
  function ResolvePlaylist(url: string, response: HttpOutcome, urljoin: (string, string) -> string): Option<string> {
    match response
    case TransportError => None
    case Response(status, content) =>
      if RaisesForStatus(status) then None
      else if Contains(content, StreamInfTag) then
        match FirstVariant(SplitLines(content))
        case Some(line) => Some(urljoin(url, line))
        case None => None
      else Some(url)
  }

  /** `fetch_m3u8_playlist`: the scan loop as written, returning at the first variant line */
  method FetchM3u8Playlist(m3u8Url: string, response: HttpOutcome, urljoin: (string, string) -> string)
    returns (r: Option<string>)
    ensures r == ResolvePlaylist(m3u8Url, response, urljoin)
  {
    if response.TransportError? || RaisesForStatus(response.status) {
      return None;
    }
    var content := response.text;
    if Contains(content, StreamInfTag) {
      var lines := SplitLines(content);
      var i := 0;
      while i < |lines|
        invariant 0 <= i <= |lines|
        invariant forall j :: 0 <= j < i ==> !IsVariantLine(lines[j])
      {
        if IsVariantLine(lines[i]) {
          FirstVariantAt(lines, i);
          return Some(urljoin(m3u8Url, lines[i]));
        }
        i := i + 1;
      }
      return None;
    } else {
      return Some(m3u8Url);
    }
  }

  /** The URL handed to `ffmpeg`: a playlist URL goes through the resolver, any other URL is kept */
  function ResolveVideoUrl(videoUrl: string, env: Environment): Option<string> {
    if EndsWith(videoUrl, PlaylistExt) then ResolvePlaylist(videoUrl, env.fetch(videoUrl), env.urljoin)
    else Some(videoUrl)
  }

  /** Python truthiness of a `str` or `None`: neither `None` nor the empty string */
  predicate IsUsableUrl(u: Option<string>) {
    u.Some? && u.value != ""
  }

  /** Stream-copy the first video and the first audio stream of `input` into `outputPath` */
  function FfmpegCommand(input: string, outputPath: string): seq<string> {
    ["ffmpeg", "-i", input, "-c", "copy", "-map", "0:v:0", "-map", "0:a:0", outputPath]
  }

  /** The command `download_highest_quality_video` runs, or `None` when it runs none */
  function DownloadCommand(videoUrl: string, savePath: string, outputFile: string, env: Environment): Option<seq<string>> {
    if !env.makedirs(savePath) then None
    else
      var url := ResolveVideoUrl(videoUrl, env);
      if IsUsableUrl(url) then Some(FfmpegCommand(url.value, env.pathJoin(savePath, outputFile)))
      else None
  }

  /** `download_highest_quality_video`, step by step; the result is the command passed to `subprocess.run` */
  method DownloadHighestQualityVideo(videoUrl: string, savePath: string, outputFile: string, env: Environment)
    returns (command: Option<seq<string>>)
    ensures command == DownloadCommand(videoUrl, savePath, outputFile, env)
  {
    if !env.makedirs(savePath) {
      return None;
    }
    var outputPath := env.pathJoin(savePath, outputFile);
    var url := Some(videoUrl);
    if EndsWith(videoUrl, PlaylistExt) {
      url := FetchM3u8Playlist(videoUrl, env.fetch(videoUrl), env.urljoin);
    }
    if url.None? || url.value == "" {
      return None;
    }
    command := Some(["ffmpeg", "-i", url.value, "-c", "copy", "-map", "0:v:0", "-map", "0:a:0", outputPath]);
  }

  // ---------------------------------------------------------------------
  // The first-match scan

  /** A variant line with no variant line before it is the one the scan picks. */
  lemma {:induction false} FirstVariantAt(lines: seq<string>, i: nat)
    requires IsFirstVariantAt(lines, i)
    ensures FirstVariant(lines) == Some(lines[i])
  {
    if i > 0 {
      FirstVariantAt(lines[1..], i - 1);
    }
  }

  /** Whatever the scan picks is some line `i` that names a variant, with none before it. */
  lemma {:induction false} FirstVariantIsFirst(lines: seq<string>)
    requires FirstVariant(lines).Some?
    ensures exists i: nat :: IsFirstVariantAt(lines, i) && lines[i] == FirstVariant(lines).value
  {
    if IsVariantLine(lines[0]) {
      assert lines[0] == FirstVariant(lines).value;
    } else {
      FirstVariantIsFirst(lines[1..]);
      var i :| 0 <= i < |lines[1..]| && lines[1..][i] == FirstVariant(lines[1..]).value
               && forall j :: 0 <= j < i ==> !IsVariantLine(lines[1..][j]);
      assert forall j :: 0 <= j < i + 1 ==> !IsVariantLine(lines[j]) by {
        forall j | 0 <= j < i + 1 ensures !IsVariantLine(lines[j]) {
          if j > 0 { assert lines[j] == lines[1..][j - 1]; }
        }
      }
      assert IsFirstVariantAt(lines, i + 1) && lines[i + 1] == FirstVariant(lines).value;
    }
  }

  // ---------------------------------------------------------------------
  // The playlist resolver

  /** A playlist without the master tag is a single stream: its own URL is returned unchanged. */
  lemma ResolveMediaPlaylist(url: string, status: int, content: string, urljoin: (string, string) -> string)
    requires !RaisesForStatus(status) && !Contains(content, StreamInfTag)
    ensures ResolvePlaylist(url, Response(status, content), urljoin) == Some(url)
  {
  }

  /** A master playlist resolves to its first variant line `i`, joined against the playlist URL. */
  lemma ResolveMasterPlaylist(url: string, status: int, content: string, urljoin: (string, string) -> string, i: nat)
    requires !RaisesForStatus(status) && Contains(content, StreamInfTag)
    requires IsFirstVariantAt(SplitLines(content), i)
    ensures ResolvePlaylist(url, Response(status, content), urljoin) == Some(urljoin(url, SplitLines(content)[i]))
  {
    FirstVariantAt(SplitLines(content), i);
  }

  /** A master playlist whose lines name no variant falls through to `None`. */
  lemma ResolveMasterWithoutVariant(url: string, status: int, content: string, urljoin: (string, string) -> string)
    requires !RaisesForStatus(status) && Contains(content, StreamInfTag)
    requires !HasVariantLine(SplitLines(content))
    ensures ResolvePlaylist(url, Response(status, content), urljoin) == None
  {
  }

  /** A failed GET or an error status gives `None`; the resolver never raises. */
  lemma ResolveFailedFetch(url: string, response: HttpOutcome, urljoin: (string, string) -> string)
    requires response.TransportError? || RaisesForStatus(response.status)
    ensures ResolvePlaylist(url, response, urljoin) == None
  {
  }

  /**
   * The resolver's result is `None` exactly when the fetch failed or the
   * playlist is a master playlist with no variant line; otherwise it is
   * the URL itself or the join of the URL with the first variant line.
   */
  lemma ResolveCases(url: string, response: HttpOutcome, urljoin: (string, string) -> string)
    ensures ResolvePlaylist(url, response, urljoin).None? <==>
      (response.TransportError? || RaisesForStatus(response.status)
       || (Contains(response.text, StreamInfTag) && !HasVariantLine(SplitLines(response.text))))
    ensures ResolvePlaylist(url, response, urljoin).Some? ==>
      ResolvePlaylist(url, response, urljoin).value == url
      || exists i: nat :: IsFirstVariantAt(SplitLines(response.text), i)
                          && ResolvePlaylist(url, response, urljoin).value == urljoin(url, SplitLines(response.text)[i])
  {
    if response.Response? && !RaisesForStatus(response.status) && Contains(response.text, StreamInfTag) {
      var lines := SplitLines(response.text);
      if FirstVariant(lines).Some? {
        FirstVariantIsFirst(lines);
        var i: nat :| IsFirstVariantAt(lines, i) && lines[i] == FirstVariant(lines).value;
        assert HasVariantLine(lines);
      } else {
        assert !HasVariantLine(lines);
      }
    }
  }

  /**
   * The scan starts at the first line, not after the tag: in a playlist
   * whose first line names a variant and whose second line carries the tag,
   * the first line is the one selected.
   */
  lemma VariantBeforeTagIsSelected(url: string, status: int, variant: string, tagLine: string, rest: seq<string>,
                                   urljoin: (string, string) -> string)
    requires !RaisesForStatus(status)
    requires IsVariantLine(variant) && NoLineBreak(variant)
    requires StartsWith(tagLine, StreamInfTag) && NoLineBreak(tagLine)
    requires forall i :: 0 <= i < |rest| ==> NoLineBreak(rest[i])
    ensures ResolvePlaylist(url, Response(status, Terminated([variant, tagLine] + rest)), urljoin)
            == Some(urljoin(url, variant))
  {
    var lines := [variant, tagLine] + rest;
    assert forall i :: 0 <= i < |lines| ==> NoLineBreak(lines[i]) by {
      forall i | 0 <= i < |lines| ensures NoLineBreak(lines[i]) {
        if i >= 2 { assert lines[i] == rest[i - 2]; }
      }
    }
    SplitTerminated(lines);
    TagOnSecondLine(variant, tagLine, rest);
    assert IsFirstVariantAt(lines, 0);
    ResolveMasterPlaylist(url, status, Terminated(lines), urljoin, 0);
  }

  lemma TagOnSecondLine(variant: string, tagLine: string, rest: seq<string>)
    requires StartsWith(tagLine, StreamInfTag)
    ensures Contains(Terminated([variant, tagLine] + rest), StreamInfTag)
  {
    var content := Terminated([variant, tagLine] + rest);
    assert content == variant + "\n" + Terminated([tagLine] + rest) by {
      assert [variant, tagLine] + rest == [variant] + ([tagLine] + rest);
      TerminatedCons(variant, [tagLine] + rest);
    }
    TerminatedCons(tagLine, rest);
    var after := tagLine[|StreamInfTag|..] + "\n" + Terminated(rest);
    assert content == (variant + "\n") + StreamInfTag + after by {
      assert tagLine == StreamInfTag + tagLine[|StreamInfTag|..];
    }
    ContainsMiddle(variant + "\n", StreamInfTag, after);
  }

  /** The master playlist `#EXT-X-STREAM-INF` / `720p.m3u8` resolves to its one variant. */
  lemma MasterPlaylistScenario(urljoin: (string, string) -> string)
    requires urljoin("https://x/master.m3u8", "720p.m3u8") == "https://x/720p.m3u8"
    ensures ResolvePlaylist("https://x/master.m3u8", Response(200, Terminated([StreamInfTag, "720p.m3u8"])), urljoin)
            == Some("https://x/720p.m3u8")
  {
    var lines := [StreamInfTag, "720p.m3u8"];
    assert NoLineBreak(StreamInfTag) && NoLineBreak("720p.m3u8");
    SplitTerminated(lines);
    assert lines[1..] == ["720p.m3u8"];
    assert Terminated(lines) == "" + StreamInfTag + ("\n" + Terminated(["720p.m3u8"]));
    ContainsMiddle("", StreamInfTag, "\n" + Terminated(["720p.m3u8"]));
    assert !IsVariantLine(StreamInfTag) by {
      assert StreamInfTag[|StreamInfTag| - |PlaylistExt|..][4] == 'F';
    }
    assert IsVariantLine("720p.m3u8") by {
      assert "720p.m3u8"[4..] == PlaylistExt;
    }
    ResolveMasterPlaylist("https://x/master.m3u8", 200, Terminated(lines), urljoin, 1);
  }

  // ---------------------------------------------------------------------
  // The download orchestration

  /** A URL that is not a playlist is passed on unchanged, and the network is not consulted. */
  lemma DirectUrlSkipsResolver(videoUrl: string, savePath: string, outputFile: string, env: Environment, fetch': string -> HttpOutcome)
    requires !EndsWith(videoUrl, PlaylistExt)
    ensures ResolveVideoUrl(videoUrl, env) == Some(videoUrl)
    ensures DownloadCommand(videoUrl, savePath, outputFile, env)
            == DownloadCommand(videoUrl, savePath, outputFile, env.(fetch := fetch'))
  {
  }

  /** Only the response for the playlist URL itself matters to a download. */
  lemma OnlyPlaylistResponseMatters(videoUrl: string, savePath: string, outputFile: string, env: Environment, fetch': string -> HttpOutcome)
    requires fetch'(videoUrl) == env.fetch(videoUrl)
    ensures DownloadCommand(videoUrl, savePath, outputFile, env)
            == DownloadCommand(videoUrl, savePath, outputFile, env.(fetch := fetch'))
  {
  }

  /** No command is built without a usable URL, nor when the directory cannot be created; otherwise there is one. */
  lemma NoCommandWithoutUrl(videoUrl: string, savePath: string, outputFile: string, env: Environment)
    ensures DownloadCommand(videoUrl, savePath, outputFile, env).Some? <==>
            (env.makedirs(savePath) && IsUsableUrl(ResolveVideoUrl(videoUrl, env)))
  {
  }

  /** A command, when there is one, is the exact ten-word `ffmpeg` stream-copy invocation. */
  lemma {:induction false} CommandShape(videoUrl: string, savePath: string, outputFile: string, env: Environment)
    requires DownloadCommand(videoUrl, savePath, outputFile, env).Some?
    ensures ResolveVideoUrl(videoUrl, env).Some? && ResolveVideoUrl(videoUrl, env).value != ""
    ensures DownloadCommand(videoUrl, savePath, outputFile, env)
            == Some(["ffmpeg", "-i", ResolveVideoUrl(videoUrl, env).value, "-c", "copy", "-map", "0:v:0", "-map", "0:a:0",
                     env.pathJoin(savePath, outputFile)])
  {
  }

  /** An empty URL never produces a command. */
  lemma EmptyUrlRunsNothing(savePath: string, outputFile: string, env: Environment)
    ensures DownloadCommand("", savePath, outputFile, env) == None
  {
  }

  /** A failed or empty-variant playlist resolution produces no command. */
  lemma UnresolvedPlaylistRunsNothing(videoUrl: string, savePath: string, outputFile: string, env: Environment)
    requires EndsWith(videoUrl, PlaylistExt)
    requires ResolvePlaylist(videoUrl, env.fetch(videoUrl), env.urljoin).None?
    ensures DownloadCommand(videoUrl, savePath, outputFile, env) == None
  {
  }

  /** A direct media URL goes to `ffmpeg` as it is. */
  lemma DirectUrlScenario(savePath: string, outputFile: string, env: Environment)
    requires env.makedirs(savePath)
    ensures DownloadCommand("https://x/video.mp4", savePath, outputFile, env)
            == Some(["ffmpeg", "-i", "https://x/video.mp4", "-c", "copy", "-map", "0:v:0", "-map", "0:a:0",
                     env.pathJoin(savePath, outputFile)])
  {
    assert "https://x/video.mp4"[19 - |PlaylistExt|..] != PlaylistExt by {
      assert "https://x/video.mp4"[19 - |PlaylistExt|..][0] == 'o';
    }
  }
}
