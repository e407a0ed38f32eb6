# Highest-quality video downloader: a Dafny model

The downloader is a command-line script. It takes a video URL and hands it to `ffmpeg`, which copies the streams into a local file. If the URL names an HLS playlist (it ends in `.m3u8`), the script first fetches the playlist. When the playlist is a master playlist (it contains `#EXT-X-STREAM-INF`), the script replaces the URL with the first variant listed in it.

This project models the two decisions the script makes. Both are pure functions of their inputs once the outside world is abstracted away:

- **Playlist resolution** (`fetch_m3u8_playlist`). `Vid.ResolvePlaylist` says what the resolver returns for a given HTTP outcome. `Vid.FetchM3u8Playlist` is the scan loop as written, and it is proved to return that value. The scan is a first-match search (`Vid.FirstVariant`) over the lines of the body.
- **Download orchestration** (`download_highest_quality_video`). `Vid.DownloadCommand` gives the exact `ffmpeg` argument vector the script would run, or `None` when it runs nothing. `Vid.DownloadHighestQualityVideo` follows the source step by step, reassigning the URL, and is proved to produce that command.

The outside world is a value of type `Vid.Environment`, made of four functions the model does not interpret:
- `fetch` stands for `requests.get`. Its result is `Vid.HttpOutcome`: either a response with a status and a text body, or a transport error (the exception raised before any response exists).
- `urljoin` stands for `urllib.parse.urljoin`, the reference resolution of section 5.2 of RFC 3986.
- `pathJoin` stands for `os.path.join`.
- `makedirs` says whether `os.makedirs(path, exist_ok=True)` returns normally.

Module `PyStrings` models the three Python `str` operations the script uses: `in`, `endswith` and `splitlines`. `splitlines` follows Python's full set of line boundaries: LF, CR, CR LF taken as a single boundary, VT, FF, FS, GS, RS, NEL, LS and PS.

Two details of the code are easy to miss:
- The variant scan covers every line from the first one, wherever the tag is. A `.m3u8` line placed before the tag line is therefore the one selected (`Vid.VariantBeforeTagIsSelected`).
- `raise_for_status` raises only for 4xx and 5xx statuses. A 1xx or 3xx response is treated as a success, and its body is scanned (`Vid.RaisesForStatus`).

## Model

| member | source | states |
|---|---|---|
| `Vid.FirstVariant` | vid.py:19-22 | the selected line is one of the lines and ends in `.m3u8` (`Vid.IsVariantLine`, the `line.endswith(".m3u8")` test of vid.py:20, via `PyStrings.EndsWith`); there is no result exactly when no line ends in `.m3u8` |
| `Vid.FirstVariantAt` | vid.py:19-22 | a `.m3u8` line with no `.m3u8` line before it is the line the scan returns |
| `Vid.FirstVariantIsFirst` | vid.py:19-22 | whatever the scan returns is at some index `i`, ends in `.m3u8`, and no earlier line does |
| `Vid.FetchM3u8Playlist` | vid.py:11-28 | the for-loop with an early return gives exactly the resolver value `Vid.ResolvePlaylist` (the functional model of vid.py:11-28) for the same URL, response and `urljoin` |
| `Vid.ResolveMediaPlaylist` | vid.py:17-25 | a fetched body without `#EXT-X-STREAM-INF` anywhere gives back the input URL unchanged |
| `Vid.ResolveMasterPlaylist` | vid.py:17-22 | a body with the tag gives `urljoin(url, L)`, where `L` is the first line ending in `.m3u8` |
| `Vid.ResolveMasterWithoutVariant` | vid.py:17-22 | a body with the tag but no line ending in `.m3u8` falls off the end of the loop and gives `None` |
| `Vid.ResolveFailedFetch` | vid.py:11-28 | a transport error or a 4xx/5xx status (`Vid.RaisesForStatus`, the `raise_for_status` call of vid.py:13) gives `None`; nothing is raised to the caller |
| `Vid.ResolveCases` | vid.py:11-28 | the result of `Vid.ResolvePlaylist` is `None` if and only if the fetch failed or the body has the tag but no variant line; otherwise it is the URL itself or the join with the first variant line |
| `Vid.VariantBeforeTagIsSelected` | vid.py:18-20 | the scan starts at the first line: in a body whose first line is a variant and whose second line carries the tag, the first line is selected |
| `Vid.MasterPlaylistScenario` | vid.py:17-22 | `https://x/master.m3u8` with body `#EXT-X-STREAM-INF` / `720p.m3u8` resolves to `https://x/720p.m3u8` when `urljoin` maps that pair so |
| `Vid.DownloadHighestQualityVideo` | vid.py:34-56 | directory creation, the conditional resolution, the truthiness check and the command literal give exactly `Vid.DownloadCommand` (the functional model of vid.py:34-55) |
| `Vid.DirectUrlSkipsResolver` | vid.py:39-40 | `Vid.ResolveVideoUrl` (vid.py:39-40, with the `video_url.endswith(".m3u8")` test modelled by `PyStrings.EndsWith`) passes a URL not ending in `.m3u8` on unchanged, and changing what the network answers does not change the command |
| `Vid.OnlyPlaylistResponseMatters` | vid.py:39-40 | the command depends on the network only through the response for the input URL itself |
| `Vid.NoCommandWithoutUrl` | vid.py:34-44 | a command exists if and only if the directory was created and the resolved URL is neither `None` nor empty (`Vid.IsUsableUrl`, the `not video_url` test of vid.py:42) |
| `Vid.CommandShape` | vid.py:36-55 | a command (`Vid.FfmpegCommand`, the list literal of vid.py:48-55) has ten words: `ffmpeg -i u -c copy -map 0:v:0 -map 0:a:0 out`, with the non-empty resolved URL `u` at index 2 and `os.path.join(save_path, output_file)` last |
| `Vid.EmptyUrlRunsNothing` | vid.py:42-44 | an empty input URL never produces a command |
| `Vid.UnresolvedPlaylistRunsNothing` | vid.py:39-44 | a playlist URL that resolves to `None` produces no command |
| `Vid.DirectUrlScenario` | vid.py:39-55 | `https://x/video.mp4` goes to `ffmpeg` directly as the `-i` argument |
| `PyStrings.EndsWithIff` | vid.py:20 | `s.endswith(suffix)` holds if and only if `s` is some string followed by `suffix` |
| `PyStrings.ContainsIff` | vid.py:17 | the substring test `tag in content` holds if and only if the tag occurs at some position of the body |
| `PyStrings.ContainsMiddle` | vid.py:17 | a body that has the tag somewhere inside passes the substring test |
| `PyStrings.LineEnd` | vid.py:18 | the first line ends at the first line boundary, or at the end of the text when there is none |
| `PyStrings.SplitLines` | vid.py:18 | no line holds a line boundary; there are no more lines than characters; only the empty text has no lines |
| `PyStrings.SplitTerminated` | vid.py:18 | splitting lines that each end in a line feed gives the lines back |
| `PyStrings.SplitTerminatedThen` | vid.py:18 | splitting terminated lines followed by any text gives those lines followed by the lines of that text |
| `PyStrings.SplitUnterminatedLast` | vid.py:18 | a last line without a line ending is still a line of its own: splitting terminated lines followed by a non-empty unterminated line gives all of them back |
| `PyStrings.LoneCrIsBoundary` | vid.py:18 | a CR not followed by LF ends a line by itself |
| `PyStrings.CrLfIsOneBoundary` | vid.py:18 | a CR LF pair ends one line and does not add an empty line |

## Left out

- The HTTP request itself (vid.py:12-13): the User-Agent header, redirects, timeouts and text decoding. The request is the `fetch` input, and any exception it raises is the `TransportError` outcome.
- The internals of `urljoin` and `os.path.join`. They are uninterpreted functions, and the model assumes they return normally.
- `os.makedirs` (vid.py:35). Only whether it returns normally (`makedirs`) is modelled. The directory it creates is not.
- `subprocess.run` and its `CalledProcessError` (vid.py:56-61). The model stops at the command that would be run. Every outcome of the process is handled by printing, and the function returns `None` either way.
- All printed messages, and the interactive `__main__` block (vid.py:63-78): its prompts, `strip()`, the early `exit()` on a blank URL, and the defaults `./downloads` and `output.mp4` (also the parameter defaults on vid.py:30). This is console input and output.
- Any exception raised by `urljoin` or `os.path.join` inside the `try` blocks. These calls are modelled as total, so this path does not exist in the model.
