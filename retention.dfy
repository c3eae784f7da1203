/**
 * Retention: the cutoff timestamp `getIgnoreBeforeTimestamp` computes from a channel's
 * `daysToKeepVideos`, and `deleteOldVideos`, which removes the files of stored videos released
 * before that cutoff. The file system is a set of existing paths; `rm` succeeds exactly on a
 * path in the set and removes it.
 */
module Retention {
  import opened Options
  import opened Content

  const MsPerDay: int := 24 * 60 * 60 * 1000

  /** `Date.now() - (channel.daysToKeepVideos ?? 0) * 24 * 60 * 60 * 1000`, at time `now`. */
  function IgnoreBeforeTimestamp(now: int, channel: Channel): (cutoff: int)
    ensures channel.daysToKeepVideos.None? ==> cutoff == now
    ensures channel.daysToKeepVideos.Some? && channel.daysToKeepVideos.value >= 0 ==> cutoff <= now
  {
    now - channel.daysToKeepVideos.GetOr(0) * MsPerDay
  }

  /** The early-return test of `matchChannel`: a retention window is set and the post is older. */
  predicate Expired(now: int, channel: Channel, releaseDate: int) {
    channel.daysToKeepVideos.Some? && releaseDate < IgnoreBeforeTimestamp(now, channel)
  }

  /** A video release is before the cutoff exactly when it lies more than the window before `now`. */
  lemma ExpiredIffOlderThanWindow(now: int, channel: Channel, releaseDate: int)
    requires channel.daysToKeepVideos.Some?
    ensures Expired(now, channel, releaseDate)
      <==> now - releaseDate > channel.daysToKeepVideos.value * 86400000
  {
  }

  /** A video as the local store knows it. */
  datatype StoredVideo = StoredVideo(filePath: string, releaseDate: int, videoTitle: string, channelTitle: string)

  /** The filter handed to `VideoBase.find`: released before the cutoff, title equal to the channel's. */
  predicate SelectedForDeletion(video: StoredVideo, channel: Channel, cutoff: int) {
    video.releaseDate < cutoff && video.videoTitle == channel.title
  }

  /** The stored videos one channel deletes, in store order. */
  function Candidates(store: seq<StoredVideo>, channel: Channel, cutoff: int): (r: seq<StoredVideo>)
    ensures |r| <= |store|
    ensures forall v :: v in r <==> v in store && SelectedForDeletion(v, channel, cutoff)
  {
    if store == [] then []
    else
      (if SelectedForDeletion(store[0], channel, cutoff) then [store[0]] else [])
      + Candidates(store[1..], channel, cutoff)
  }

  /** The extensions `rm` is asked to remove for every selected video. */
  const Extensions: seq<string> := [".mp4", ".partial", ".nfo", ".png"]

  /** The paths `rm` is asked to remove for one file path: the path with each extension. */
  function Paths(filePath: string, extensions: seq<string>): set<string> {
    if extensions == [] then {}
    else Paths(filePath, extensions[..|extensions| - 1]) + {filePath + extensions[|extensions| - 1]}
  }

  /** The paths removed for a list of videos. */
  function TargetFiles(videos: seq<StoredVideo>): set<string> {
    if videos == [] then {}
    else TargetFiles(videos[..|videos| - 1]) + Paths(videos[|videos| - 1].filePath, Extensions)
  }

  /** Exactly the selected videos' paths, with exactly the four extensions, are targeted. */
  lemma {:induction false} TargetFilesAreVideoFiles(videos: seq<StoredVideo>, p: string)
    ensures p in TargetFiles(videos) <==> exists v, e :: v in videos && e in Extensions && p == v.filePath + e
  {
    if videos != [] {
      var init, last := videos[..|videos| - 1], videos[|videos| - 1];
      TargetFilesAreVideoFiles(init, p);
      PathsAreExtensions(last.filePath, Extensions, p);
      assert videos == init + [last];
      if p in TargetFiles(videos) {
        if p in TargetFiles(init) {
          var v, e :| v in init && e in Extensions && p == v.filePath + e;
          assert v in videos;
        } else {
          var e :| e in Extensions && p == last.filePath + e;
          assert last in videos;
        }
      } else {
        forall v, e | v in videos && e in Extensions ensures p != v.filePath + e {
          if v == last {
            assert p !in Paths(last.filePath, Extensions);
          } else {
            assert v in init;
          }
        }
      }
    }
  }

  lemma {:induction false} PathsAreExtensions(filePath: string, extensions: seq<string>, p: string)
    ensures p in Paths(filePath, extensions) <==> exists e :: e in extensions && p == filePath + e
  {
    if extensions != [] {
      var init, last := extensions[..|extensions| - 1], extensions[|extensions| - 1];
      PathsAreExtensions(filePath, init, p);
      assert extensions == init + [last];
      if p in Paths(filePath, extensions) {
        if p in Paths(filePath, init) {
          var e :| e in init && p == filePath + e;
          assert e in extensions;
        } else {
          assert last in extensions;
        }
      } else {
        forall e | e in extensions ensures p != filePath + e {
          if e != last {
            assert e in init;
          }
        }
      }
    }
  }

  /** The `rm` calls for one video, one per extension: each existing path goes, successes are counted. */
  method RemoveVideoFiles(filePath: string, extensions: seq<string>, files: set<string>)
    returns (remaining: set<string>, deleted: nat)
    ensures remaining == files - Paths(filePath, extensions)
    ensures deleted == |files| - |remaining|
  {
    remaining := files;
    deleted := 0;
    for e := 0 to |extensions|
      invariant remaining == files - Paths(filePath, extensions[..e])
      invariant remaining <= files
      invariant deleted == |files| - |remaining|
    {
      var path := filePath + extensions[e];
      PathStep(files, filePath, extensions, e);
      if path in remaining {
        RemovedOne(remaining, path);
        remaining := remaining - {path};
        deleted := deleted + 1;
      }
    }
    assert extensions[..|extensions|] == extensions;
  }

  lemma PathStep(files: set<string>, filePath: string, extensions: seq<string>, e: nat)
    requires e < |extensions|
    ensures files - Paths(filePath, extensions[..e + 1])
         == (files - Paths(filePath, extensions[..e])) - {filePath + extensions[e]}
  {
    assert extensions[..e + 1][..e] == extensions[..e];
  }

  lemma RemovedOne(s: set<string>, x: string)
    requires x in s
    ensures |s - {x}| == |s| - 1
  {
    assert s == (s - {x}) + {x};
  }

  /** The inner loop over one channel's selected videos. */
  method RemoveAllVideoFiles(selected: seq<StoredVideo>, files: set<string>)
    returns (remaining: set<string>, deletedVideos: nat, deletedFiles: nat)
    ensures remaining == files - TargetFiles(selected)
    ensures deletedVideos == |selected|
    ensures deletedFiles == |files| - |remaining|
  {
    remaining := files;
    deletedVideos := 0;
    deletedFiles := 0;
    for j := 0 to |selected|
      invariant deletedVideos == j
      invariant remaining == files - TargetFiles(selected[..j])
      invariant remaining <= files
      invariant deletedFiles == |files| - |remaining|
    {
      assert selected[..j + 1][..j] == selected[..j];
      deletedVideos := deletedVideos + 1;
      var left, count := RemoveVideoFiles(selected[j].filePath, Extensions, remaining);
      remaining := left;
      deletedFiles := deletedFiles + count;
    }
    assert selected[..|selected|] == selected;
  }

  /** The files of every channel with a retention window, channels taken in order. */
  function ChannelTargets(channels: seq<Channel>, store: seq<StoredVideo>, now: int): set<string> {
    if channels == [] then {}
    else
      var c := channels[|channels| - 1];
      ChannelTargets(channels[..|channels| - 1], store, now)
        + (if c.daysToKeepVideos.Some? then TargetFiles(Candidates(store, c, IgnoreBeforeTimestamp(now, c))) else {})
  }

  /** The line printed per channel: how many videos were selected and how many files went. */
  datatype DeletionReport = DeletionReport(channelTitle: string, deletedVideos: nat, deletedFiles: nat)

  /** The channels `deleteOldVideos` looks at: those with `daysToKeepVideos` set. */
  function Retained(channels: seq<Channel>): (r: seq<Channel>)
    ensures |r| <= |channels|
    ensures forall c :: c in r <==> c in channels && c.daysToKeepVideos.Some?
  {
    if channels == [] then []
    else
      Retained(channels[..|channels| - 1])
      + (if channels[|channels| - 1].daysToKeepVideos.Some? then [channels[|channels| - 1]] else [])
  }

  function TotalDeletedFiles(reports: seq<DeletionReport>): nat {
    if reports == [] then 0 else TotalDeletedFiles(reports[..|reports| - 1]) + reports[|reports| - 1].deletedFiles
  }

  /** Report `i` names retained channel `i` and counts the videos that channel selects. */
  ghost predicate Describes(reports: seq<DeletionReport>, retained: seq<Channel>, store: seq<StoredVideo>, now: int) {
    |reports| == |retained|
    && forall i :: 0 <= i < |reports| ==> DescribesOne(reports[i], retained[i], store, now)
  }

  ghost predicate DescribesOne(report: DeletionReport, c: Channel, store: seq<StoredVideo>, now: int) {
    report.channelTitle == c.title
    && report.deletedVideos == |Candidates(store, c, IgnoreBeforeTimestamp(now, c))|
  }

  /** One more channel: what the first `n + 1` channels retain and target, given the first `n`. */
  lemma ChannelStep(channels: seq<Channel>, n: nat, store: seq<StoredVideo>, now: int)
    requires n < |channels|
    ensures channels[n].daysToKeepVideos.None? ==>
              Retained(channels[..n + 1]) == Retained(channels[..n])
              && ChannelTargets(channels[..n + 1], store, now) == ChannelTargets(channels[..n], store, now)
    ensures channels[n].daysToKeepVideos.Some? ==>
              Retained(channels[..n + 1]) == Retained(channels[..n]) + [channels[n]]
              && ChannelTargets(channels[..n + 1], store, now)
                 == ChannelTargets(channels[..n], store, now)
                    + TargetFiles(Candidates(store, channels[n], IgnoreBeforeTimestamp(now, channels[n])))
  {
    assert channels[..n + 1][..n] == channels[..n];
    assert Retained(channels[..n]) + [] == Retained(channels[..n]);
    assert ChannelTargets(channels[..n], store, now) + {} == ChannelTargets(channels[..n], store, now);
  }

  lemma MinusUnion(a: set<string>, b: set<string>, c: set<string>)
    ensures (a - b) - c == a - (b + c)
  {
  }

  lemma DescribesSnoc(reports: seq<DeletionReport>, retained: seq<Channel>, store: seq<StoredVideo>, now: int,
                      report: DeletionReport, c: Channel)
    requires Describes(reports, retained, store, now)
    requires DescribesOne(report, c, store, now)
    ensures Describes(reports + [report], retained + [c], store, now)
  {
    assert forall i :: 0 <= i < |reports| ==> (reports + [report])[i] == reports[i];
    assert forall i :: 0 <= i < |retained| ==> (retained + [c])[i] == retained[i];
  }

  lemma TotalSnoc(reports: seq<DeletionReport>, report: DeletionReport)
    ensures TotalDeletedFiles(reports + [report]) == TotalDeletedFiles(reports) + report.deletedFiles
  {
    assert (reports + [report])[..|reports|] == reports;
  }

  /** One channel of `deleteOldVideos`: select its old videos and remove their files. */
  method DeleteChannelVideos(channel: Channel, store: seq<StoredVideo>, files: set<string>, now: int)
    returns (report: DeletionReport, remaining: set<string>)
    requires channel.daysToKeepVideos.Some?
    ensures remaining == files - TargetFiles(Candidates(store, channel, IgnoreBeforeTimestamp(now, channel)))
    ensures DescribesOne(report, channel, store, now)
    ensures report.deletedFiles == |files| - |remaining|
  {
    var ignoreBeforeTimestamp := IgnoreBeforeTimestamp(now, channel);
    var selected := Candidates(store, channel, ignoreBeforeTimestamp);
    var deletedVideos, deletedFiles;
    remaining, deletedVideos, deletedFiles := RemoveAllVideoFiles(selected, files);
    report := DeletionReport(channel.title, deletedVideos, deletedFiles);
  }

  /**
   * `deleteOldVideos`: for every channel with a window, every selected video, every extension,
   * try to remove the file and count the successes.
   */
  method DeleteOldVideos(channels: seq<Channel>, store: seq<StoredVideo>, files: set<string>, now: int)
    returns (reports: seq<DeletionReport>, remaining: set<string>)
    ensures remaining == files - ChannelTargets(channels, store, now)
    ensures Describes(reports, Retained(channels), store, now)
    ensures TotalDeletedFiles(reports) == |files| - |remaining|
  {
    reports := [];
    remaining := files;
    for n := 0 to |channels|
      invariant remaining == files - ChannelTargets(channels[..n], store, now)
      invariant Describes(reports, Retained(channels[..n]), store, now)
      invariant TotalDeletedFiles(reports) == |files| - |remaining|
      invariant remaining <= files
    {
      var channel := channels[n];
      ChannelStep(channels, n, store, now);
      if channel.daysToKeepVideos.Some? {
        var report, left := DeleteChannelVideos(channel, store, remaining, now);
        MinusUnion(files, ChannelTargets(channels[..n], store, now),
          TargetFiles(Candidates(store, channel, IgnoreBeforeTimestamp(now, channel))));
        DescribesSnoc(reports, Retained(channels[..n]), store, now, report, channel);
        TotalSnoc(reports, report);
        remaining := left;
        reports := reports + [report];
      }
    }
    assert channels[..|channels|] == channels;
  }
}
