/**
 * The bookkeeping of `YouTubeDownloader` (downloader.py): the metadata it
 * caches, the byte counters its progress callback keeps, the file names
 * it derives, and the check-exists / download / convert steps it runs
 * over the files on disk, here an in-memory map from path to contents.
 *
 * The video library is not modelled; what it answers is passed in:
 * `Metadata` is what `YouTube(url)` yields (including the stream its
 * filter-and-sort query picks, or none), and `Fetch` is what one
 * `stream.download` call does (the `bytes_remaining` values it reports to
 * the progress callback, and the bytes it writes, or none when it raises).
 */
module Downloader {
  import opened Wrappers
  import Utils

  newtype byte = x: int | 0 <= x < 256

  /** The attributes of a pytube `Stream` that the downloader reads. */
  datatype Stream = Stream(resolution: string, subtype: string, filesize: int)

  /** A fetched `YouTube` object: its title and the best streams of each kind. */
  datatype Metadata = Metadata(
    title: string,
    author: string,
    length: int,
    views: int,
    bestVideo: Option<Stream>,  // the highest-resolution progressive mp4 stream, if any
    bestAudio: Option<Stream>)  // the highest-bitrate audio-only stream, if any

  /** One `stream.download` call as the library performs it. */
  datatype Fetch = Fetch(reports: seq<int>, data: Option<seq<byte>>)

  // ---------------------------------------------------------------------
  // Paths

  /** `Path / name`. */
  function Join(dir: string, name: string): string
  {
    dir + "/" + name
  }

  /** `Path(cwd) / "downloads" / "videos"`. */
  function VideoDir(cwd: string): string
  {
    Join(Join(cwd, "downloads"), "videos")
  }

  /** `Path(cwd) / "downloads" / "audio"`. */
  function AudioDir(cwd: string): string
  {
    Join(Join(cwd, "downloads"), "audio")
  }

  /** f"{title}_{stream.resolution}.{stream.subtype}" */
  function VideoFileName(title: string, stream: Stream): string
  {
    title + "_" + stream.resolution + "." + stream.subtype
  }

  /** f"{title}_temp.{stream.subtype}" */
  function TempAudioFileName(title: string, stream: Stream): string
  {
    title + "_temp." + stream.subtype
  }

  /** f"{title}.mp3" */
  function Mp3FileName(title: string): string
  {
    title + ".mp3"
  }

  /** A joined path is the directory, one separator, then the name. */
  lemma JoinParts(dir: string, name: string)
    ensures var p := Join(dir, name);
      |p| == |dir| + 1 + |name| && p[..|dir|] == dir && p[|dir|] == '/' && p[|dir| + 1..] == name
  {
  }

  /** Both download directories lie below the working directory, under "downloads". */
  lemma DirsBelowCwd(cwd: string)
    ensures VideoDir(cwd) == cwd + "/downloads/videos"
    ensures AudioDir(cwd) == cwd + "/downloads/audio"
  {
  }

  /** The temporary name starts with the title and "_temp" and has the stream's subtype as its extension. */
  lemma TempAudioFileNameParts(title: string, stream: Stream)
    ensures var n := TempAudioFileName(title, stream);
      |n| == |title| + 6 + |stream.subtype|
      && n[..|title|] == title && n[|title|..|title| + 5] == "_temp"
      && n[|n| - |stream.subtype| - 1..] == "." + stream.subtype
  {
    var n := TempAudioFileName(title, stream);
    assert n == title + ("_temp" + ("." + stream.subtype));
  }

  /** The mp3 name is the title followed by ".mp3". */
  lemma Mp3FileNameParts(title: string)
    ensures var n := Mp3FileName(title); |n| == |title| + 4 && n[..|title|] == title && n[|title|..] == ".mp3"
  {
  }

  /** Two files in the same directory are the same path only if their names agree. */
  lemma JoinInjective(dir: string, a: string, b: string)
    requires Join(dir, a) == Join(dir, b)
    ensures a == b
  {
    JoinParts(dir, a);
    JoinParts(dir, b);
  }

  /**
   * The temporary download and the mp3 of the same title are different
   * files: their names first differ right after the title, '_' against '.'.
   */
  lemma TempIsNotMp3(dir: string, title: string, stream: Stream)
    ensures Join(dir, TempAudioFileName(title, stream)) != Join(dir, Mp3FileName(title))
  {
    var temp, mp3 := TempAudioFileName(title, stream), Mp3FileName(title);
    TempAudioFileNameParts(title, stream);
    Mp3FileNameParts(title);
    assert temp[|title|] == '_' && mp3[|title|] == '.';
    if Join(dir, temp) == Join(dir, mp3) {
      JoinInjective(dir, temp, mp3);
    }
  }

  /**
   * Nothing under the video directory is a file under the audio directory:
   * the paths differ at the first letter after "downloads/".
   */
  lemma VideoIsNotAudio(cwd: string, video: string, audio: string)
    ensures Join(VideoDir(cwd), video) != Join(AudioDir(cwd), audio)
  {
    DirsBelowCwd(cwd);
    JoinParts(VideoDir(cwd), video);
    JoinParts(AudioDir(cwd), audio);
    var i := |cwd| + |"/downloads/"|;
    assert Join(VideoDir(cwd), video)[i] == VideoDir(cwd)[i] == 'v';
    assert Join(AudioDir(cwd), audio)[i] == AudioDir(cwd)[i] == 'a';
  }

  // ---------------------------------------------------------------------
  // Conversion as a change to the files on disk

  /**
   * `_convert_to_mp3(input, output)` on the files `files`: None when the
   * input cannot be opened; otherwise the output holds the input's bytes
   * and the input is unlinked when it is a different file.
   */
  function Convert(files: map<string, seq<byte>>, input: string, output: string): (r: Option<map<string, seq<byte>>>)
    ensures r.Some? <==> input in files
    ensures r.Some? ==> output in r.value && r.value[output] == files[input]
    ensures r.Some? && input != output ==> input !in r.value
    ensures r.Some? ==> forall p :: p != input && p != output ==>
      (p in r.value <==> p in files) && (p in files ==> r.value[p] == files[p])
  {
    if input !in files then None
    else if input == output then Some(files)
    else Some(files[output := files[input]] - {input})
  }

  /**
   * `_convert_to_mp3` as written: the output is opened with 'wb', which
   * truncates it, before the input is read, so converting a file onto
   * itself reads and writes zero bytes.
   */
  function ConvertAsWritten(files: map<string, seq<byte>>, input: string, output: string): (r: Option<map<string, seq<byte>>>)
    ensures r.Some? <==> input in files
    ensures r.Some? ==> output in r.value && r.value[output] == if input == output then [] else files[input]
    ensures r.Some? && input != output ==> input !in r.value
    ensures r.Some? ==> forall p :: p != input && p != output ==>
      (p in r.value <==> p in files) && (p in files ==> r.value[p] == files[p])
  {
    if input !in files then None
    else if input == output then Some(files[output := []])
    else Some(files[output := files[input]] - {input})
  }

  /** For two different paths the code as written does what `Convert` says. */
  lemma ConvertAsWrittenAgrees(files: map<string, seq<byte>>, input: string, output: string)
    requires input != output
    ensures ConvertAsWritten(files, input, output) == Convert(files, input, output)
  {
  }

  /** Converting a non-empty file onto itself, as written, empties it. */
  lemma ConvertOntoItselfLosesData()
    ensures var files := map["a.mp3" := [1 as byte]];
      ConvertAsWritten(files, "a.mp3", "a.mp3") == Some(map["a.mp3" := []])
      && Convert(files, "a.mp3", "a.mp3") == Some(files)
      && files["a.mp3"] != []
  {
    var files := map["a.mp3" := [1 as byte]];
    assert files["a.mp3" := []] == map["a.mp3" := []];
  }

  /**
   * Downloading to the temporary file and converting it leaves the mp3
   * with the downloaded bytes and no temporary file.
   */
  lemma DownloadThenConvert(files: map<string, seq<byte>>, temp: string, mp3: string, data: seq<byte>)
    requires temp != mp3
    ensures Convert(files[temp := data], temp, mp3) == Some(files[mp3 := data] - {temp})
  {
    assert files[temp := data][mp3 := data] - {temp} == files[mp3 := data] - {temp};
  }

  /** Extracting audio from a downloaded video deletes the video. */
  lemma ExtractDeletesVideo(files: map<string, seq<byte>>, cwd: string, video: string, title: string)
    requires Join(VideoDir(cwd), video) in files
    ensures var r := Convert(files, Join(VideoDir(cwd), video), Join(AudioDir(cwd), Mp3FileName(title)));
      r.Some? && Join(VideoDir(cwd), video) !in r.value
      && r.value[Join(AudioDir(cwd), Mp3FileName(title))] == files[Join(VideoDir(cwd), video)]
  {
    VideoIsNotAudio(cwd, video, Mp3FileName(title));
  }

  // ---------------------------------------------------------------------
  // Download counters

  /**
   * `downloaded` after the progress callback has seen `reports`: unchanged
   * from 0 when there were none; `filesize - bytes_remaining` of the last
   * one otherwise, except that with a zero filesize the first callback
   * raises on its division and no further callback runs.
   */
  function DownloadedAfter(filesize: int, reports: seq<int>): int
  {
    if reports == [] then 0
    else if filesize == 0 then filesize - reports[0]
    else filesize - reports[|reports| - 1]
  }

  /** Whether a download of a stream of this size completes without raising. */
  predicate Completes(filesize: int, fetch: Fetch)
  {
    fetch.data.Some? && (filesize != 0 || fetch.reports == [])
  }

  /**
   * One more progress report: `downloaded` becomes `filesize - remaining`,
   * unless a zero filesize already raised at the first report.
   */
  lemma DownloadedAfterStep(filesize: int, reports: seq<int>, remaining: int)
    ensures DownloadedAfter(filesize, reports + [remaining]) ==
      if reports != [] && filesize == 0 then DownloadedAfter(filesize, reports) else filesize - remaining
  {
    if reports != [] {
      assert (reports + [remaining])[0] == reports[0];
    }
  }

  /** The files on disk. */
  class FileStore {
    var files: map<string, seq<byte>>

    constructor(files: map<string, seq<byte>>)
      ensures this.files == files
    {
      this.files := files;
    }
  }

  class YouTubeDownloader {
    const url: string
    const videoDir: string
    const audioDir: string
    const fs: FileStore
    var yt: Option<Metadata>
    var title: string
    var currentFilesize: int
    var downloaded: int

    /** `title` is always the sanitized title of the cached metadata, or "" before any. */
    predicate Valid()
      reads this
    {
      title == if yt.Some? then Utils.SanitizeFilename(yt.value.title) else ""
    }

    /** `__init__`, with the working directory as a parameter. */
    constructor(url: string, cwd: string, fs: FileStore)
      ensures Valid()
      ensures this.url == url && this.fs == fs
      ensures videoDir == VideoDir(cwd) && audioDir == AudioDir(cwd)
      ensures yt == None && title == "" && currentFilesize == 0 && downloaded == 0
    {
      this.url := url;
      this.fs := fs;
      videoDir := VideoDir(cwd);
      audioDir := AudioDir(cwd);
      yt := None;
      title := "";
      currentFilesize := 0;
      downloaded := 0;
    }

    /** `get_video_info`: on success caches the metadata and the sanitized title. */
    method GetVideoInfo(meta: Option<Metadata>) returns (ok: bool)
      requires Valid()
      modifies this`yt, this`title
      ensures Valid()
      ensures ok == meta.Some?
      ensures yt == if meta.Some? then meta else old(yt)
    {
      if meta.None? {
        return false;
      }
      yt := meta;
      title := Utils.SanitizeFilename(meta.value.title);
      ok := true;
    }

    /** `_ensure_yt_object`: fetch the metadata unless it is already cached. */
    method EnsureYtObject(meta: Option<Metadata>) returns (ok: bool)
      requires Valid()
      modifies this`yt, this`title
      ensures Valid()
      ensures yt == if old(yt).Some? then old(yt) else meta
      ensures ok == yt.Some?
    {
      if yt.None? {
        ok := GetVideoInfo(meta);
      } else {
        ok := true;
      }
    }

    /** `_check_existing_file`. */
    method CheckExistingFile(path: string) returns (found: bool)
      ensures found <==> path in fs.files
    {
      found := path in fs.files;
    }

    /** `_on_progress`: records the bytes received; the division raises for a zero filesize. */
    method OnProgress(bytesRemaining: int) returns (ok: bool)
      modifies this`downloaded
      ensures downloaded == currentFilesize - bytesRemaining
      ensures ok <==> currentFilesize != 0
    {
      downloaded := currentFilesize - bytesRemaining;
      ok := currentFilesize != 0;
    }

    /**
     * `_download_stream`: reset the counters, let the library download
     * (calling `_on_progress` once per report), and give back the path when
     * the download completed.
     */
    method DownloadStream(stream: Stream, path: string, fetch: Fetch) returns (r: Option<string>)
      modifies this`currentFilesize, this`downloaded, fs
      ensures currentFilesize == stream.filesize
      ensures downloaded == DownloadedAfter(stream.filesize, fetch.reports)
      ensures Completes(stream.filesize, fetch) ==> r == Some(path) && fs.files == old(fs.files)[path := fetch.data.value]
      ensures !Completes(stream.filesize, fetch) ==> r == None && fs.files == old(fs.files)
    {
      currentFilesize := stream.filesize;
      downloaded := 0;
      var i := 0;
      var raised := false;
      while i < |fetch.reports| && !raised
        invariant 0 <= i <= |fetch.reports|
        invariant currentFilesize == stream.filesize
        invariant raised <==> (i > 0 && stream.filesize == 0)
        invariant raised ==> i == 1
        invariant downloaded == DownloadedAfter(stream.filesize, fetch.reports[..i])
        invariant fs.files == old(fs.files)
      {
        var ok := OnProgress(fetch.reports[i]);
        raised := !ok;
        i := i + 1;
      }
      assert raised || fetch.reports[..i] == fetch.reports;
      if raised || fetch.data.None? {
        return None;
      }
      fs.files := fs.files[path := fetch.data.value];
      r := Some(path);
    }

    /**
     * `_convert_to_mp3`, in the code's order: open the input, open (and
     * truncate) the output, read the input, write what was read, then unlink
     * a different input. None when the input cannot be opened. For two
     * different paths this is `Convert`.
     */
    method ConvertToMp3(input: string, output: string) returns (r: Option<string>)
      modifies fs
      ensures r == if input in old(fs.files) then Some(output) else None
      ensures ConvertAsWritten(old(fs.files), input, output) == if r.Some? then Some(fs.files) else None
      ensures input != output ==> Convert(old(fs.files), input, output) == if r.Some? then Some(fs.files) else None
      ensures r.None? ==> fs.files == old(fs.files)
    {
      if input !in fs.files {
        return None;
      }
      ghost var before := fs.files;
      fs.files := fs.files[output := []];
      var contents := fs.files[input];
      fs.files := fs.files[output := contents];
      if input != output && input in fs.files {
        fs.files := fs.files - {input};
      }
      if input == output {
        assert fs.files == before[output := []];
      } else {
        assert fs.files == before[output := before[input]] - {input};
        ConvertAsWrittenAgrees(before, input, output);
      }
      r := Some(output);
    }

    /**
     * `download_video`: the best combined stream saved as
     * `<title>_<resolution>.<subtype>` in the video directory, unless that
     * file exists already.
     */
    method DownloadVideo(meta: Option<Metadata>, fetch: Fetch) returns (r: Option<string>)
      requires Valid()
      modifies this, fs
      ensures Valid()
      ensures yt == if old(yt).Some? then old(yt) else meta
      ensures yt.None? || yt.value.bestVideo.None? ==>
        r == None && fs.files == old(fs.files)
        && currentFilesize == old(currentFilesize) && downloaded == old(downloaded)
      ensures yt.Some? && yt.value.bestVideo.Some? ==>
        var stream := yt.value.bestVideo.value;
        var path := Join(videoDir, VideoFileName(title, stream));
        if path in old(fs.files) then
          r == Some(path) && fs.files == old(fs.files)
          && currentFilesize == old(currentFilesize) && downloaded == old(downloaded)
        else
          currentFilesize == stream.filesize
          && downloaded == DownloadedAfter(stream.filesize, fetch.reports)
          && (Completes(stream.filesize, fetch) ==> r == Some(path) && fs.files == old(fs.files)[path := fetch.data.value])
          && (!Completes(stream.filesize, fetch) ==> r == None && fs.files == old(fs.files))
    {
      var ok := EnsureYtObject(meta);
      if !ok {
        return None;
      }
      var stream := yt.value.bestVideo;
      if stream.None? {
        return None;
      }
      var path := Join(videoDir, VideoFileName(title, stream.value));
      var existing := CheckExistingFile(path);
      if existing {
        return Some(path);
      }
      r := DownloadStream(stream.value, path, fetch);
    }

    /**
     * `download_audio_only`: the best audio-only stream downloaded to
     * `<title>_temp.<subtype>`, then converted to `<title>.mp3`, both in
     * the audio directory, unless the mp3 exists already.
     */
    method DownloadAudioOnly(meta: Option<Metadata>, fetch: Fetch) returns (r: Option<string>)
      requires Valid()
      modifies this, fs
      ensures Valid()
      ensures yt == if old(yt).Some? then old(yt) else meta
      ensures yt.None? || yt.value.bestAudio.None? ==>
        r == None && fs.files == old(fs.files)
        && currentFilesize == old(currentFilesize) && downloaded == old(downloaded)
      ensures yt.Some? && yt.value.bestAudio.Some? ==>
        var stream := yt.value.bestAudio.value;
        var temp := Join(audioDir, TempAudioFileName(title, stream));
        var mp3 := Join(audioDir, Mp3FileName(title));
        if mp3 in old(fs.files) then
          r == Some(mp3) && fs.files == old(fs.files)
          && currentFilesize == old(currentFilesize) && downloaded == old(downloaded)
        else
          currentFilesize == stream.filesize
          && downloaded == DownloadedAfter(stream.filesize, fetch.reports)
          && (Completes(stream.filesize, fetch) ==>
                r == Some(mp3) && fs.files == old(fs.files)[mp3 := fetch.data.value] - {temp})
          && (!Completes(stream.filesize, fetch) ==> r == None && fs.files == old(fs.files))
    {
      var ok := EnsureYtObject(meta);
      if !ok {
        return None;
      }
      var stream := yt.value.bestAudio;
      if stream.None? {
        return None;
      }
      var temp := Join(audioDir, TempAudioFileName(title, stream.value));
      var mp3 := Join(audioDir, Mp3FileName(title));
      var existing := CheckExistingFile(mp3);
      if existing {
        return Some(mp3);
      }
      ghost var before := fs.files;
      var downloadedPath := DownloadStream(stream.value, temp, fetch);
      if downloadedPath.None? {
        return None;
      }
      TempIsNotMp3(audioDir, title, stream.value);
      DownloadThenConvert(before, temp, mp3, fetch.data.value);
      r := ConvertToMp3(downloadedPath.value, mp3);
    }

    /**
     * `extract_audio(video_path)`: the video copied to `<title>.mp3` in the
     * audio directory, which deletes the video; nothing happens when the
     * video is missing or the mp3 exists already.
     */
    method ExtractAudio(videoPath: string) returns (r: Option<string>)
      modifies fs
      ensures var mp3 := Join(audioDir, Mp3FileName(title));
        if videoPath !in old(fs.files) then
          r == None && fs.files == old(fs.files)
        else if mp3 in old(fs.files) then
          r == Some(mp3) && fs.files == old(fs.files)
        else
          r == Some(mp3) && videoPath != mp3
          && fs.files == old(fs.files)[mp3 := old(fs.files)[videoPath]] - {videoPath}
    {
      var present := CheckExistingFile(videoPath);
      if !present {
        return None;
      }
      var mp3 := Join(audioDir, Mp3FileName(title));
      var existing := CheckExistingFile(mp3);
      if existing {
        return Some(mp3);
      }
      r := ConvertToMp3(videoPath, mp3);
    }
  }

  /**
   * A second `download_video` after a successful one finds the file it
   * saved and returns the same path without downloading again.
   */
  method DownloadVideoTwice(d: YouTubeDownloader, meta: Option<Metadata>, first: Fetch, second: Fetch)
    returns (r1: Option<string>, r2: Option<string>)
    requires d.Valid()
    modifies d, d.fs
    ensures r1.Some? ==> r2 == r1 && r1.value in d.fs.files
  {
    r1 := d.DownloadVideo(meta, first);
    ghost var files := d.fs.files;
    r2 := d.DownloadVideo(meta, second);
    assert r1.Some? ==> d.fs.files == files;
  }

  /**
   * A second `download_audio_only` after a successful one finds the mp3
   * and returns it without downloading again.
   */
  method DownloadAudioTwice(d: YouTubeDownloader, meta: Option<Metadata>, first: Fetch, second: Fetch)
    returns (r1: Option<string>, r2: Option<string>)
    requires d.Valid()
    modifies d, d.fs
    ensures r1.Some? ==> r2 == r1 && r1.value in d.fs.files
  {
    r1 := d.DownloadAudioOnly(meta, first);
    ghost var files := d.fs.files;
    r2 := d.DownloadAudioOnly(meta, second);
    assert r1.Some? ==> d.fs.files == files;
  }
}
