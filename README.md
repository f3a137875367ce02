# YouTube downloader: sanitizer and download bookkeeping in Dafny

This project models the core of a small command-line downloader written in
Python on top of the pytube library. It covers two pieces:

- **`sanitize_filename`** (utils.py). It turns a video title into a file
  name. It deletes the characters `< > : " / \ | ? *`, then every code point
  from 0x00 to 0x1F. It keeps the first 200 remaining characters and strips
  whitespace from both ends. Module `Utils` models it as functions over
  strings.
- **`YouTubeDownloader`** (downloader.py). Module `Duration` models
  `_format_duration`; `Decimal` models the `str(int)` it prints with. Module
  `Downloader` models the class itself: the cached metadata (`yt`), the
  sanitized `title`, the counters `current_filesize` and `downloaded`, the
  output names, and the check-exists / download / convert steps of
  `download_video`, `download_audio_only` and `extract_audio`. The disk is a
  `FileStore` object holding a map from path to bytes, which the methods
  update in place.

## Modelling choices

The library's part comes in as parameters:

- `Metadata` is what `YouTube(url)` returns: the title, plus the stream that
  each filter-and-sort query picks, or none. `None` stands for a failed
  fetch.
- `Fetch` is one `stream.download` call: the `bytes_remaining` values it
  reports to the progress callback, and the bytes it writes. `data == None`
  means the call raised.

`DownloadStream` has a loop that calls `OnProgress` once per report. That
loop is the library's chunk loop seen from the downloader's side. Python's
`divmod(_, 60)` floors; Dafny's `/` and `%` give the same result for the
positive divisor 60, so `FormatDuration` is total over `int`. For a negative
length it prints `"{m}m {s}s"` with both numbers in 0..59.
The contract of `FormatDuration` states exactly what such a length reads back as.

Paths are strings: `dir / name` is `dir + "/" + name`. The working directory
is a constructor parameter, and the `downloads/videos` and `downloads/audio`
directories live below it.

Facts about the code that the model keeps:

- reserved characters are deleted; nothing is put in their place;
- the 200-character limit is applied after both deletions and before the
  strip;
- a title that sanitizes to "" is used as is, so the names become
  `_<resolution>.<subtype>`, `_temp.<subtype>` and `.mp3`;
- the URL is passed to the library unchanged.

## Model

| member | source | states |
|---|---|---|
| `Utils.ReservedNotControl` | utils.py:32-34 | `IsReserved` (the nine characters of the class on line 32) and `IsControl` (the class `[\x00-\x1f]` of line 34) are disjoint: no character is both, so the two substitutions do not overlap |
| `Utils.SpaceAfterDeletion` | utils.py:34-36 | `IsSpace`, the characters Python's `str.strip` removes: the only ones that survive both deletions are ' ' and the non-ASCII spaces at 0x85 or above |
| `Utils.Delete` | utils.py:32-34 | a regex deletion: no character matching the class survives, and the text never gets longer |
| `Utils.DeleteConcat` | utils.py:32-34 | deletion works piecewise: surviving characters keep their relative order |
| `Utils.DeleteSingle` | utils.py:32-34 | each character is either removed or kept unchanged, never replaced |
| `Utils.DeleteNothing` | utils.py:32-34 | a string with no character of the class is left unchanged |
| `Utils.DeleteEverything` | utils.py:32-34 | a string made only of characters of the class becomes empty |
| `Utils.DeleteFrom` | utils.py:32-34 | every surviving character occurs in the input |
| `Utils.DeleteTwice` | utils.py:32-34 | the two substitutions in a row equal one deletion of reserved-or-control characters |
| `Utils.Truncate` | utils.py:36 | `s[:200]` is the prefix of length min(\|s\|, 200) |
| `Utils.StripLeading` | utils.py:36 | the result is a suffix of the input; everything dropped is whitespace; it does not start with whitespace |
| `Utils.StripTrailing` | utils.py:36 | the result is a prefix of the input; everything dropped is whitespace; it does not end with whitespace |
| `Utils.Strip` | utils.py:36 | the result is a slice of the input with only whitespace before and after it, and it neither starts nor ends with whitespace |
| `Utils.StripBothEnds` | utils.py:36 | lstrip then rstrip leaves a slice of the input with only whitespace before and after it |
| `Utils.StripKeepsSafe` | utils.py:36 | stripping a string with no deleted character leaves none |
| `Utils.StripStripped` | utils.py:36 | a string without whitespace at either end is unchanged by strip |
| `Utils.StripEmpty` | utils.py:36 | strip gives "" exactly when every character is whitespace |
| `Utils.SanitizeFilename` | utils.py:29-36 | no reserved and no control character in the result, at most 200 characters, no whitespace at either end |
| `Utils.SanitizeIsStrippedPrefixOfSafe` | utils.py:32-36 | the result is the stripped 200-character prefix of the input with the unsafe characters deleted |
| `Utils.SanitizeIdempotent` | utils.py:32-36 | sanitizing twice gives the same name as sanitizing once |
| `Utils.SanitizeEmptyIff` | utils.py:32-36 | the result is "" exactly when the first 200 surviving characters are all whitespace |
| `Utils.SanitizeOnlyJunk` | utils.py:32-36 | a title made only of deleted characters and whitespace sanitizes to "" |
| `Utils.SanitizeDeletesColon` | utils.py:32 | "a:b" sanitizes to "ab" |
| `Decimal.NatToString` | downloader.py:222-224 | an f-string field for a non-negative int is canonical: at least one digit, all digits, and it starts with '0' only when it is "0", which it is exactly for 0 |
| `Decimal.CanonicalRoundTrip` | downloader.py:222-224 | every canonical digit string is what `NatToString` prints for its value, so printing is onto the canonical strings |
| `Decimal.DigitsValuePositive` | downloader.py:222-224 | a digit string that does not start with '0' denotes a positive number |
| `Decimal.NatToStringRoundTrip` | downloader.py:222-224 | the printed digits denote the number printed |
| `Decimal.LeadingDigits` | downloader.py:222-224 | the length of the run of digits at the front of a text |
| `Decimal.LeadingDigitsOf` | downloader.py:222-224 | a printed number followed by a non-digit is read as exactly that run of digits |
| `Duration.DurationParts` | downloader.py:219-220 | the two divmods split n into h*3600 + m*60 + s with 0 <= m < 60 and 0 <= s < 60 |
| `Duration.DurationPartsUnique` | downloader.py:219-220 | that split is the only one with minutes and seconds below 60 |
| `Duration.Field` | downloader.py:222-224 | one f-string field `{n}<unit>` followed by `rest`: a reader finds n and `rest` again when the unit is not a digit |
| `Duration.MinutesSecondsText` | downloader.py:224 | f"{m}m {s}s" reads back as m*60 + s exactly when both fields are below 60, and is rejected otherwise |
| `Duration.ParseFieldSound` | downloader.py:222-224 | whatever the field reader accepts is exactly the printed field `{n}<unit>` followed by the rest, so it takes no padded or other spelling |
| `Duration.ParseFieldOtherUnit` | downloader.py:222-224 | a printed field is never read under another unit letter, so the minutes form is not mistaken for the hours form |
| `Duration.ParseMinutesSecondsSound` | downloader.py:224 | a text the minutes reader accepts is the f-string of two fields below 60 whose seconds sum to the value read |
| `Duration.DurationTextRoundTrip` | downloader.py:222-224 | `DurationText`, the choice between the two f-strings: for fields below 60 its text reads back as the seconds of the fields, the hours counted only when positive |
| `Duration.PrintedValue` | downloader.py:219-224 | the seconds the printed fields stand for equal n, or n mod 3600 if n is negative (its hours are never printed) |
| `Duration.DurationPartsRoundTrip` | downloader.py:219-224 | the text printed for the split of n reads back as n, or n mod 3600 for negative n |
| `Duration.FormatDuration` | downloader.py:217-224 | `_format_duration`: reading the printed text gives back n, or n mod 3600 for negative n |
| `Duration.ParseDurationSound` | downloader.py:217-224 | every text the reader accepts as v is exactly `FormatDuration(v)`; with the row above this pins the printed text: "1m 30s" and no other spelling of 90 |
| `Duration.ParseDurationInjective` | downloader.py:217-224 | two accepted texts that read as the same number are the same text |
| `Duration.NinetySeconds` | downloader.py:219-224 | 90 seconds prints as "1m 30s", which reads back as 90 |
| `Duration.NoOverflowingField` | downloader.py:224 | "0m 90s" is not a printed duration: a seconds field of 60 or more is rejected |
| `Duration.NoPaddedField` | downloader.py:224 | "01m 30s" is not a printed duration: a zero-padded field is rejected |
| `Duration.FormatDurationShowsHours` | downloader.py:222-224 | the hours field appears exactly when n >= 3600 |
| `Downloader.JoinParts` | downloader.py:73 | `Join`, the `/` operator on paths: the directory, one '/', then the name |
| `Downloader.DirsBelowCwd` | downloader.py:27-29 | `VideoDir` and `AudioDir` are `<cwd>/downloads/videos` and `<cwd>/downloads/audio` |
| `Downloader.TempAudioFileNameParts` | downloader.py:97 | `TempAudioFileName` is the title, "_temp", and the stream's subtype as extension |
| `Downloader.Mp3FileNameParts` | downloader.py:100 | `Mp3FileName` is the title followed by ".mp3" |
| `Downloader.JoinInjective` | downloader.py:73 | two names joined to the same directory give the same path only if the names are equal |
| `Downloader.TempIsNotMp3` | downloader.py:97-101 | the temporary audio path and the mp3 path of a title are always different |
| `Downloader.VideoIsNotAudio` | downloader.py:28-29 | no path under the video directory is a path under the audio directory |
| `Downloader.Convert` | downloader.py:192-204 | conversion on a file map: None if the input is absent; otherwise the output maps to the former input bytes, a different input is removed, and every other path is unchanged |
| `Downloader.ConvertAsWritten` | downloader.py:192-199 | `_convert_to_mp3` as written: None if the input is absent; otherwise the output holds the input's bytes, or nothing when it is the input itself; a different input is removed; every other path is unchanged |
| `Downloader.ConvertAsWrittenAgrees` | downloader.py:192-199 | for distinct paths the code as written behaves as `Convert` |
| `Downloader.ConvertOntoItselfLosesData` | downloader.py:193-199 | as written, converting a non-empty file onto itself leaves it empty |
| `Downloader.DownloadThenConvert` | downloader.py:106-110 | download then convert leaves the mp3 holding the downloaded bytes and no temporary file |
| `Downloader.ExtractDeletesVideo` | downloader.py:129-131 | converting a downloaded video to its mp3 removes the video file |
| `Downloader.DownloadedAfterStep` | downloader.py:206-209 | `DownloadedAfter`, the counter after the callbacks: each report sets it to filesize minus the bytes remaining, unless a zero filesize already raised at the first report |
| `Downloader.YouTubeDownloader.constructor` | downloader.py:18-31 | no metadata, empty title, zero counters, and the two directories below the working directory |
| `Downloader.YouTubeDownloader.GetVideoInfo` | downloader.py:38-57 | on success caches the metadata and sets the title to its sanitized form; on failure changes nothing; the result says which |
| `Downloader.YouTubeDownloader.EnsureYtObject` | downloader.py:150-154 | fetches only when no metadata is cached; true exactly when metadata is cached afterwards |
| `Downloader.YouTubeDownloader.CheckExistingFile` | downloader.py:156-161 | true exactly when the path is in the file map |
| `Downloader.YouTubeDownloader.OnProgress` | downloader.py:206-210 | `downloaded` becomes `current_filesize - bytes_remaining`; raises (false) exactly when `current_filesize` is 0 |
| `Downloader.YouTubeDownloader.DownloadStream` | downloader.py:163-176 | `current_filesize` is the stream's size and `downloaded` the last report's value; the path is returned and holds the bytes exactly when `Completes` holds, that is, the library wrote bytes and no callback raised (one raises when the size is 0 and a report came); otherwise None and the files are unchanged |
| `Downloader.YouTubeDownloader.ConvertToMp3` | downloader.py:178-204 | truncates the output before reading the input, as the code does: the new file map is `ConvertAsWritten` of the old one, hence `Convert` of it for different paths, and the result is the output path exactly when the input existed |
| `Downloader.YouTubeDownloader.DownloadVideo` | downloader.py:59-82 | returns `video_dir/<title>_<resolution>.<subtype>` unchanged when it exists; otherwise downloads it; None with nothing changed without metadata or stream |
| `Downloader.YouTubeDownloader.DownloadAudioOnly` | downloader.py:84-114 | returns an existing mp3 without download; a failed download gives None with no mp3; success leaves the mp3 with the bytes and removes the temp file |
| `Downloader.YouTubeDownloader.ExtractAudio` | downloader.py:116-135 | missing video: None, nothing changed; existing mp3: returned, video kept; otherwise the mp3 gets the video's bytes and the video is deleted |
| `Downloader.DownloadVideoTwice` | downloader.py:72-78 | after a successful `download_video`, a second one returns the same path, which is on disk |
| `Downloader.DownloadAudioTwice` | downloader.py:97-110 | after a successful `download_audio_only`, a second one returns the same mp3, which is on disk |

## Findings

| source | as written | input that shows it | evidently intended | confidence | as-written member | corrected member |
|---|---|---|---|---|---|---|
| downloader.py:193-199 | the output is opened with 'wb', which truncates it, before `source.read()`; with `input_path == output_path` the read returns no bytes, and the guard only skips the unlink | `_convert_to_mp3(p, p)` when `p` holds bytes: `p` ends up empty | the output holds the input's bytes, and converting a file onto itself leaves it as it was (the guard exists for that case) | not executed; medium: it rests on CPython's lazy buffered read and on `O_TRUNC` at open; no caller in the class passes equal paths | `Downloader.ConvertAsWritten` (used by `ConvertToMp3`; shown by `Downloader.ConvertOntoItselfLosesData`) | `Downloader.Convert` (the class's callers are stated with it, through `ConvertAsWrittenAgrees`, since they never pass equal paths) |

## Left out

- pytube: `YouTube(url)`, the stream queries and `stream.download` are parameters (`Metadata`, `Fetch`). The model does not check that the chosen stream satisfies its filter (progressive mp4, or audio only); the library's ordering and tie-breaks are not visible.
- Exceptions are collapsed into one failure per call (`None`, or `false` from `GetVideoInfo`).
- `GetVideoInfo` treats the metadata fetch as all-or-nothing. pytube can raise lazily after `self.yt` is assigned: when the title is read (then `yt` is set and `title` is not), or when `author`, `length` or `views` are read for display (then both `yt` and `title` are set and the method still returns False). Neither case is modelled.
- A failed download is modelled as leaving the files unchanged. Partially written files and pytube's own skip of an existing file of the right size are not modelled.
- A zero-size stream whose download reports progress raises inside `_on_progress`. The model counts this as a failed download.
- `create_progress_bar`, the float progress fraction, all coloured printing, the `_on_complete` callback, and the simulated conversion loop with `time.sleep`: they are terminal output and have no effect on files or counters.
- The metadata display in `get_video_info` (author, `FormatDuration` of the length, views with thousands separators): printing only. `FormatDuration` is modelled on its own.
- `_create_directories` and `setup_environment`: the directories are assumed to exist; writes into them always succeed.
- main.py: interactive input, screen clearing, menu dispatch, `sys.exit` and interrupt handling.
- Paths: `pathlib` normalization is not modelled. A path is the directory text, "/", and the name. `stream.resolution` is taken as the text the f-string prints (for example "720p").
- Strings: a Python `str` is modelled as a Dafny `string` (Unicode scalar values). Lone surrogate code points cannot be represented.
