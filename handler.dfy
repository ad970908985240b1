/**
 * The watcher's per-file work: `VideoHandler.on_created` filters and
 * de-duplicates creation events, and `_process_video` renames, uploads,
 * moves to the drive folder and cleans up, restoring the original from a
 * backup copy when a step fails.
 *
 * The filesystem is a map from path to contents, updated in place by the
 * `shutil`/`os` calls the handler makes; the channel is the list of videos
 * YouTube has accepted. Whether the upload and the drive move succeed is a
 * parameter, as are the clock readings.
 */
module Handler {
  import opened Wrappers
  import opened PyStrings
  import opened PyPath
  import opened Calendar
  import opened Naming
  import opened Title

  type Content = seq<bv8>

  /** A video as the upload request describes it. */
  datatype Video = Video(title: string, description: string, category: string, privacy: string, content: Content)

  const VideoExtension := ".mp4"
  const BackupSuffix := ".backup"
  const UploadDescription := "Raid Upload"
  const GamingCategory := "20"
  const UploadPrivacy := "unlisted"

  /** What the upload request carries for a file with this title and these contents. */
  function VideoOf(title: string, content: Content): (v: Video)
    ensures v.title == title && v.content == content
    ensures v.description == UploadDescription && v.category == GamingCategory && v.privacy == UploadPrivacy
  {
    Video(title, UploadDescription, GamingCategory, UploadPrivacy, content)
  }

  function Last(s: string): char
    requires |s| > 0
  {
    s[|s| - 1]
  }

  // ---- the filesystem ----

  /**
   * `os.rename(src, dst)` / `shutil.move(src, dst)` between file paths:
   * `dst` gets the contents of `src`, which disappears unless the two are
   * the same path; nothing else changes.
   */
  function Moved(files: map<string, Content>, src: string, dst: string): (r: map<string, Content>)
    requires src in files
    ensures dst in r && r[dst] == files[src]
    ensures src != dst ==> src !in r
    ensures forall q :: q != src && q != dst ==> (q in r <==> q in files) && (q in r ==> r[q] == files[q])
  {
    if src == dst then files else (files - {src})[dst := files[src]]
  }

  /** The files the handler reads and writes. */
  class FileSystem {
    var files: map<string, Content>

    constructor (initial: map<string, Content>)
      ensures files == initial
    {
      files := initial;
    }

    /** `os.path.exists(p)`. */
    predicate Exists(p: string)
      reads this
    {
      p in files
    }

    /** `shutil.copy2(src, dst)`: `dst` gets a copy of `src`, replacing what was there. */
    method Copy(src: string, dst: string)
      requires src in files
      modifies this
      ensures files == old(files)[dst := old(files)[src]]
    {
      files := files[dst := files[src]];
    }

    /** `shutil.move(src, dst)` / `os.rename(src, dst)` for a file. */
    method Move(src: string, dst: string)
      requires src in files
      modifies this
      ensures files == Moved(old(files), src, dst)
    {
      if src != dst {
        var content := files[src];
        files := (files - {src})[dst := content];
      }
    }

    /** `os.remove(p)`. */
    method Remove(p: string)
      requires p in files
      modifies this
      ensures files == old(files) - {p}
    {
      files := files - {p};
    }
  }

  // ---- the channel ----

  /** The videos the channel has accepted, oldest first. */
  class Channel {
    var videos: seq<Video>

    constructor ()
      ensures videos == []
    {
      videos := [];
    }

    /** The upload request; `accepted` is what the service answers. */
    method Insert(title: string, content: Content, accepted: bool) returns (ok: bool)
      modifies this
      ensures ok == accepted
      ensures videos == if accepted then old(videos) + [VideoOf(title, content)] else old(videos)
    {
      ok := accepted;
      if accepted {
        videos := videos + [VideoOf(title, content)];
      }
    }
  }

  /**
   * `upload_to_youtube`: a missing file fails before anything is sent;
   * otherwise its contents go up under `title` if the service accepts them.
   */
  method UploadToYoutube(fs: FileSystem, youtube: Channel, filePath: string, title: string, accepted: bool)
    returns (ok: bool)
    modifies youtube
    ensures ok == (filePath in fs.files && accepted)
    ensures youtube.videos == if ok then old(youtube.videos) + [VideoOf(title, fs.files[filePath])] else old(youtube.videos)
  {
    if !fs.Exists(filePath) {
      return false;
    }
    ok := youtube.Insert(title, fs.files[filePath], accepted);
  }

  /** Where `move_to_drive` puts a file. */
  function DriveTarget(filePath: string, destFolder: string): string {
    PathJoin(destFolder, Basename(filePath))
  }

  /**
   * `move_to_drive`: with no drive folder nothing happens; otherwise the
   * file is renamed into that folder under its own base name, which may
   * fail.
   */
  method MoveToDrive(fs: FileSystem, filePath: string, destFolder: string, succeeds: bool) returns (ok: bool)
    requires filePath in fs.files
    modifies fs
    ensures ok == (destFolder == "" || succeeds)
    ensures fs.files == if destFolder != "" && succeeds
      then Moved(old(fs.files), filePath, DriveTarget(filePath, destFolder)) else old(fs.files)
  {
    if destFolder == "" {
      return true;
    }
    if !succeeds {
      return false;
    }
    fs.Move(filePath, DriveTarget(filePath, destFolder));
    ok := true;
  }

  // ---- the processing sequence, on values ----

  /** The state after processing one file, and whether it succeeded. */
  datatype Outcome = Outcome(files: map<string, Content>, videos: seq<Video>, ok: bool)

  /** Where the drive move puts the renamed file: nowhere when no drive folder is set. */
  function DriveDestination(temp: string, driveFolder: string): Option<string> {
    if driveFolder == "" then None else Some(DriveTarget(temp, driveFolder))
  }

  /** Where a successfully processed file ends up. */
  function FinalPath(temp: string, drive: Option<string>): string {
    if drive.Some? then drive.value else temp
  }

  /** The failure path: the backup, if there is one, is moved back over the original. */
  function Restored(files: map<string, Content>, filePath: string, backup: string): map<string, Content> {
    if backup in files then Moved(files, backup, filePath) else files
  }

  /**
   * `_process_video` once the new name is known: back up, rename to
   * `temp` (the new name in the watch folder), upload under `title`, move
   * to the `drive` destination if there is one, then delete the backup,
   * or on a failure restore the original from it.
   */
  function ProcessFiles(files: map<string, Content>, filePath: string, temp: string, title: string,
                        drive: Option<string>, uploadOk: bool, driveOk: bool): Outcome
    requires filePath in files
  {
    var backup := filePath + BackupSuffix;
    var staged := Moved(files[backup := files[filePath]], filePath, temp);
    var videos := if uploadOk then [VideoOf(title, staged[temp])] else [];
    if !uploadOk || (drive.Some? && !driveOk) then
      Outcome(Restored(staged, filePath, backup), videos, false)
    else
      var delivered := if drive.Some? then Moved(staged, temp, drive.value) else staged;
      Outcome(if backup in delivered then delivered - {backup} else delivered, videos, true)
  }

  /**
   * The whole of `_process_video` on a file renamed to `name`: a missing
   * file fails before anything changes; otherwise it is processed under its
   * new name in the watch folder.
   */
  function Handled(files: map<string, Content>, filePath: string, name: string,
                   watchFolder: string, driveFolder: string, uploadOk: bool, driveOk: bool): Outcome
  {
    if filePath !in files then Outcome(files, [], false)
    else
      var temp := PathJoin(watchFolder, name);
      ProcessFiles(files, filePath, temp, YoutubeTitle(name), DriveDestination(temp, driveFolder), uploadOk, driveOk)
  }

  /** `Handled` on a file that is there. */
  lemma HandledPresent(files: map<string, Content>, filePath: string, name: string,
                       watchFolder: string, driveFolder: string, uploadOk: bool, driveOk: bool)
    requires filePath in files
    ensures var temp := PathJoin(watchFolder, name);
      Handled(files, filePath, name, watchFolder, driveFolder, uploadOk, driveOk)
        == ProcessFiles(files, filePath, temp, YoutubeTitle(name), DriveDestination(temp, driveFolder), uploadOk, driveOk)
  {
  }

  /** The pull counts after `_process_video`: only a file that is there is counted. */
  function CountsAfter(files: map<string, Content>, counts: map<string, nat>, filePath: string, now: DateTime)
    : map<string, nat>
    requires now.Valid()
  {
    if filePath !in files then counts else Counted(counts, NameKey(filePath, now))
  }

  /** The backup is a different path from the renamed file and from its drive destination. */
  predicate Apart(filePath: string, temp: string, drive: Option<string>) {
    var backup := filePath + BackupSuffix;
    backup != temp && (drive.Some? ==> backup != drive.value)
  }

  /**
   * When everything succeeds, the original contents sit at the final path
   * (the drive destination, or the renamed file when there is none), the
   * original path and the backup are gone, and the uploaded video carries
   * the original contents.
   */
  lemma ProcessSuccess(files: map<string, Content>, filePath: string, temp: string, title: string,
                       drive: Option<string>, uploadOk: bool, driveOk: bool)
    requires filePath in files && Apart(filePath, temp, drive)
    requires uploadOk && (drive.None? || driveOk)
    ensures var o := ProcessFiles(files, filePath, temp, title, drive, uploadOk, driveOk);
      var final := FinalPath(temp, drive);
      o.ok && final in o.files && o.files[final] == files[filePath] &&
      filePath + BackupSuffix !in o.files &&
      (filePath != final ==> filePath !in o.files) &&
      o.videos == [VideoOf(title, files[filePath])]
  {
    var backup := filePath + BackupSuffix;
    assert backup != filePath by { assert |backup| > |filePath|; }
  }

  /**
   * When the upload or the drive move fails, the original path holds the
   * original contents again and the backup is gone; the renamed file is
   * left in the watch folder, and a video that was accepted stays uploaded.
   */
  lemma ProcessFailure(files: map<string, Content>, filePath: string, temp: string, title: string,
                       drive: Option<string>, uploadOk: bool, driveOk: bool)
    requires filePath in files && Apart(filePath, temp, drive)
    requires !uploadOk || (drive.Some? && !driveOk)
    ensures var o := ProcessFiles(files, filePath, temp, title, drive, uploadOk, driveOk);
      !o.ok && filePath in o.files && o.files[filePath] == files[filePath] &&
      filePath + BackupSuffix !in o.files &&
      temp in o.files && o.files[temp] == files[filePath] &&
      o.videos == if uploadOk then [VideoOf(title, files[filePath])] else []
  {
    var backup := filePath + BackupSuffix;
    assert backup != filePath by { assert |backup| > |filePath|; }
  }

  /** Processing touches only the original, the backup, the renamed file and its final place. */
  lemma ProcessFrame(files: map<string, Content>, filePath: string, temp: string, title: string,
                     drive: Option<string>, uploadOk: bool, driveOk: bool, q: string)
    requires filePath in files
    requires q != filePath && q != filePath + BackupSuffix && q != temp && q != FinalPath(temp, drive)
    ensures var o := ProcessFiles(files, filePath, temp, title, drive, uploadOk, driveOk);
      (q in o.files <==> q in files) && (q in files ==> o.files[q] == files[q])
  {
  }

  // ---- why the backup never collides for a `.mp4` file ----

  lemma LastOfAppend(a: string, b: string)
    requires |b| > 0
    ensures Last(a + b) == Last(b)
  {
  }

  /** A suffix ends where the whole string ends. */
  lemma LastOfSuffix(s: string, suffix: string)
    requires EndsWith(s, suffix) && |suffix| > 0
    ensures Last(s) == Last(suffix)
  {
    assert s[|s| - |suffix|..][|suffix| - 1] == s[|s| - 1];
  }

  /** A new name ends with the extension, or with the `M` of `AM`/`PM` when there is none. */
  lemma ComposedLast(week: string, context: string, pull: nat, t: DateTime, ext: string)
    requires t.Valid()
    ensures var n := ComposeName(week, context, pull, t, ext);
      |n| > 0 && Last(n) == if ext == [] then 'M' else Last(ext)
  {
    var head := week + "_" + context + "_Pull" + NatToString(pull) + "_" + DateToken(t.date) + "_"
      + PadDigits(Hour12(t.hour), 2) + "-" + PadDigits(t.minute, 2);
    var mer := Meridiem(t.hour);
    assert ComposeName(week, context, pull, t, ext) == head + mer + ext;
    if ext == [] {
      assert head + mer + ext == head + mer;
      LastOfAppend(head, mer);
    } else {
      LastOfAppend(head + mer, ext);
    }
  }

  /** The new name of a `.mp4` file ends in `4` (or `M` for a file named just `.mp4`). */
  lemma NiceNameLast(filePath: string, pull: nat, now: DateTime, today: Date, setting: string)
    requires now.Valid() && today.Valid() && EndsWith(filePath, VideoExtension)
    ensures var n := NiceName(filePath, pull, now, today, setting);
      |n| > 0 && (Last(n) == '4' || Last(n) == 'M')
  {
    var fileName := Basename(filePath);
    var (t, context) := ExtractContext(fileName, now);
    var ext := SplitExt(fileName).1;
    ComposedLast(RaidWeek(None, setting, today), context, pull, t, ext);
    if ext != [] {
      var stem := SplitExt(fileName).0;
      assert fileName == stem + ext;
      LastOfAppend(stem, ext);
      LastOfSuffix(filePath, fileName);
      LastOfSuffix(filePath, VideoExtension);
    }
  }

  /**
   * A renamed file ending in neither `p` nor `/` keeps the backup (which ends in the
   * `p` of `.backup`) apart from the renamed file and from its drive copy.
   */
  lemma ApartByLastChar(filePath: string, temp: string, driveFolder: string)
    requires |temp| > 0 && Last(temp) != 'p' && Last(temp) != '/'
    ensures Apart(filePath, temp, DriveDestination(temp, driveFolder))
  {
    var base := Basename(temp);
    assert |base| > 0 by {
      assert Last(temp) != '/';
    }
    LastOfSuffix(temp, base);
    LastOfSuffix(DriveTarget(temp, driveFolder), base);
    LastOfAppend(filePath, BackupSuffix);
  }

  /**
   * The guarantees of `_process_video` for a file that exists, renamed to a
   * name ending like the names `make_nice_name` gives a `.mp4` file (see
   * `NiceNameLast`): it succeeds exactly when the upload and the drive move
   * do; on success the original contents end at the final path, were
   * uploaded under the title made from the new name, and the backup is
   * gone; on failure the original is back in place and the backup is gone.
   */
  lemma HandledVideo(files: map<string, Content>, filePath: string, name: string,
                     watchFolder: string, driveFolder: string, uploadOk: bool, driveOk: bool)
    requires filePath in files && |name| > 0 && (Last(name) == '4' || Last(name) == 'M')
    ensures var o := Handled(files, filePath, name, watchFolder, driveFolder, uploadOk, driveOk);
      var temp := PathJoin(watchFolder, name);
      var final := FinalPath(temp, DriveDestination(temp, driveFolder));
      (o.ok <==> uploadOk && (driveFolder == "" || driveOk)) &&
      filePath + BackupSuffix !in o.files &&
      (o.ok ==>
        final in o.files && o.files[final] == files[filePath] &&
        o.videos == [VideoOf(YoutubeTitle(name), files[filePath])]) &&
      (!o.ok ==> filePath in o.files && o.files[filePath] == files[filePath])
  {
    var temp := PathJoin(watchFolder, name);
    TempApart(filePath, name, watchFolder, driveFolder);
    HandledPresent(files, filePath, name, watchFolder, driveFolder, uploadOk, driveOk);
    ProcessOutcome(files, filePath, temp, YoutubeTitle(name), DriveDestination(temp, driveFolder), uploadOk, driveOk);
  }

  /**
   * `HandledVideo` for the file of a creation event `on_created` acts on,
   * renamed as `make_nice_name` names it with the pull number it is given:
   * the upload and drive outcome, the backup and the restore all behave as
   * stated there, and the uploaded title is the one made from that name.
   */
  lemma HandledCreatedVideo(files: map<string, Content>, event: FileEvent, processing: set<string>, pull: nat,
                            now: DateTime, today: Date, setting: string,
                            watchFolder: string, driveFolder: string, uploadOk: bool, driveOk: bool)
    requires now.Valid() && today.Valid() && !Ignored(event, processing) && event.srcPath in files
    ensures var name := NiceName(event.srcPath, pull, now, today, setting);
      var o := Handled(files, event.srcPath, name, watchFolder, driveFolder, uploadOk, driveOk);
      var temp := PathJoin(watchFolder, name);
      var final := FinalPath(temp, DriveDestination(temp, driveFolder));
      (o.ok <==> uploadOk && (driveFolder == "" || driveOk)) &&
      event.srcPath + BackupSuffix !in o.files &&
      (o.ok ==>
        final in o.files && o.files[final] == files[event.srcPath] &&
        o.videos == [VideoOf(YoutubeTitle(name), files[event.srcPath])]) &&
      (!o.ok ==> event.srcPath in o.files && o.files[event.srcPath] == files[event.srcPath])
  {
    NiceNameLast(event.srcPath, pull, now, today, setting);
    HandledVideo(files, event.srcPath, NiceName(event.srcPath, pull, now, today, setting),
      watchFolder, driveFolder, uploadOk, driveOk);
  }

  /** A file renamed to a name ending in `4` or `M` goes where its backup is not. */
  lemma TempApart(filePath: string, name: string, watchFolder: string, driveFolder: string)
    requires |name| > 0 && (Last(name) == '4' || Last(name) == 'M')
    ensures var temp := PathJoin(watchFolder, name); Apart(filePath, temp, DriveDestination(temp, driveFolder))
  {
    var temp := PathJoin(watchFolder, name);
    LastOfSuffix(temp, name);
    ApartByLastChar(filePath, temp, driveFolder);
  }

  /** Success and failure of the processing sequence together. */
  lemma ProcessOutcome(files: map<string, Content>, filePath: string, temp: string, title: string,
                       drive: Option<string>, uploadOk: bool, driveOk: bool)
    requires filePath in files && Apart(filePath, temp, drive)
    ensures var o := ProcessFiles(files, filePath, temp, title, drive, uploadOk, driveOk);
      var final := FinalPath(temp, drive);
      (o.ok <==> uploadOk && (drive.None? || driveOk)) &&
      filePath + BackupSuffix !in o.files &&
      (o.ok ==>
        final in o.files && o.files[final] == files[filePath] &&
        o.videos == [VideoOf(title, files[filePath])]) &&
      (!o.ok ==> filePath in o.files && o.files[filePath] == files[filePath])
  {
    if uploadOk && (drive.None? || driveOk) {
      ProcessSuccess(files, filePath, temp, title, drive, uploadOk, driveOk);
    } else {
      ProcessFailure(files, filePath, temp, title, drive, uploadOk, driveOk);
    }
  }

  /** A file that is not there: nothing changes and the call fails. */
  lemma HandledMissing(files: map<string, Content>, counts: map<string, nat>, filePath: string, name: string,
                       now: DateTime, watchFolder: string, driveFolder: string, uploadOk: bool, driveOk: bool)
    requires now.Valid() && filePath !in files
    ensures Handled(files, filePath, name, watchFolder, driveFolder, uploadOk, driveOk) == Outcome(files, [], false)
    ensures CountsAfter(files, counts, filePath, now) == counts
  {
  }

  /**
   * The body of `_process_video` from the backup copy on: back up, rename,
   * upload, move to the drive folder, then delete the backup or restore
   * the original from it.
   */
  method RunSteps(fs: FileSystem, youtube: Channel, filePath: string, tempPath: string, title: string,
                  driveFolder: string, uploadOk: bool, driveOk: bool) returns (ok: bool)
    requires filePath in fs.files
    modifies fs, youtube
    ensures var o := ProcessFiles(old(fs.files), filePath, tempPath, title,
        DriveDestination(tempPath, driveFolder), uploadOk, driveOk);
      fs.files == o.files && youtube.videos == old(youtube.videos) + o.videos && ok == o.ok
  {
    var backupPath := filePath + BackupSuffix;
    fs.Copy(filePath, backupPath);
    fs.Move(filePath, tempPath);
    ok := UploadToYoutube(fs, youtube, tempPath, title, uploadOk);
    if ok {
      ok := MoveToDrive(fs, tempPath, driveFolder, driveOk);
    }
    if ok {
      if fs.Exists(backupPath) {
        fs.Remove(backupPath);
      }
    } else {
      if fs.Exists(backupPath) {
        fs.Move(backupPath, filePath);
      }
    }
  }

  /** The processing of a file that is there once its new name is known, in the watch folder. */
  method ProcessRenamed(fs: FileSystem, youtube: Channel, filePath: string, newName: string,
                        watchFolder: string, driveFolder: string, uploadOk: bool, driveOk: bool) returns (ok: bool)
    requires filePath in fs.files
    modifies fs, youtube
    ensures var o := Handled(old(fs.files), filePath, newName, watchFolder, driveFolder, uploadOk, driveOk);
      fs.files == o.files && youtube.videos == old(youtube.videos) + o.videos && ok == o.ok
  {
    ghost var files := fs.files;
    var tempPath := PathJoin(watchFolder, newName);
    ok := RunSteps(fs, youtube, filePath, tempPath, YoutubeTitle(newName), driveFolder, uploadOk, driveOk);
    HandledPresent(files, filePath, newName, watchFolder, driveFolder, uploadOk, driveOk);
  }

  // ---- the handler ----

  /** A watchdog creation event. */
  datatype FileEvent = FileEvent(srcPath: string, isDirectory: bool)

  /** The events `on_created` passes over: directories, non-`.mp4` paths and paths already in progress. */
  predicate Ignored(event: FileEvent, processing: set<string>) {
    event.isDirectory || !EndsWith(event.srcPath, VideoExtension) || event.srcPath in processing
  }

  class VideoHandler {
    const fs: FileSystem
    const youtube: Channel
    const pullTracker: PullTracker
    var processingFiles: set<string>
    const watchFolder: string
    const driveFolder: string
    const seasonStart: string

    constructor (fs: FileSystem, youtube: Channel, watchFolder: string, driveFolder: string, seasonStart: string)
      ensures this.fs == fs && this.youtube == youtube
      ensures fresh(pullTracker) && pullTracker.counts == map[] && processingFiles == {}
      ensures this.watchFolder == watchFolder && this.driveFolder == driveFolder && this.seasonStart == seasonStart
    {
      this.fs := fs;
      this.youtube := youtube;
      this.watchFolder := watchFolder;
      this.driveFolder := driveFolder;
      this.seasonStart := seasonStart;
      pullTracker := new PullTracker();
      processingFiles := {};
    }

    /** `_process_video`; the result says whether it finished without raising. */
    method ProcessVideo(filePath: string, now: DateTime, today: Date, uploadOk: bool, driveOk: bool)
      returns (ok: bool)
      requires now.Valid() && today.Valid()
      modifies fs, youtube, pullTracker
      ensures var name := NiceName(filePath, NextCount(old(pullTracker.counts), NameKey(filePath, now)), now, today, seasonStart);
        var o := Handled(old(fs.files), filePath, name, watchFolder, driveFolder, uploadOk, driveOk);
        fs.files == o.files && youtube.videos == old(youtube.videos) + o.videos && ok == o.ok &&
        pullTracker.counts == CountsAfter(old(fs.files), old(pullTracker.counts), filePath, now)
    {
      if !fs.Exists(filePath) {
        return false;
      }
      var newName := MakeNiceName(filePath, pullTracker, now, today, seasonStart);
      assert newName == NiceName(filePath, NextCount(old(pullTracker.counts), NameKey(filePath, now)), now, today, seasonStart);
      ok := ProcessRenamed(fs, youtube, filePath, newName, watchFolder, driveFolder, uploadOk, driveOk);
    }

    /**
     * `on_created`: an ignored event changes nothing; any other is marked
     * in progress, processed, and unmarked again whatever the outcome.
     */
    method OnCreated(event: FileEvent, now: DateTime, today: Date, uploadOk: bool, driveOk: bool)
      requires now.Valid() && today.Valid()
      modifies this, fs, youtube, pullTracker
      ensures processingFiles == old(processingFiles)
      ensures Ignored(event, old(processingFiles)) ==>
        fs.files == old(fs.files) && youtube.videos == old(youtube.videos) &&
        pullTracker.counts == old(pullTracker.counts)
      ensures !Ignored(event, old(processingFiles)) ==>
        var name := NiceName(event.srcPath, NextCount(old(pullTracker.counts), NameKey(event.srcPath, now)), now, today, seasonStart);
        var o := Handled(old(fs.files), event.srcPath, name, watchFolder, driveFolder, uploadOk, driveOk);
        fs.files == o.files && youtube.videos == old(youtube.videos) + o.videos &&
        pullTracker.counts == CountsAfter(old(fs.files), old(pullTracker.counts), event.srcPath, now)
    {
      if !Ignored(event, processingFiles) {
        var saved := processingFiles;
        processingFiles := saved + {event.srcPath};
        var _ := ProcessVideo(event.srcPath, now, today, uploadOk, driveOk);
        processingFiles := saved;
      }
    }
  }
}
