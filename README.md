# WoW raid POV uploader, modelled in Dafny

`youtube_uploader.py` watches the Warcraft Recorder output folder. When a new
`.mp4` appears it does the following:

- It reads the recording time and the encounter from the recorder's file name
  (`YYYY-MM-DD HH-MM-SS - Player - Encounter...`).
- It renames the file to `W<week>_<encounter>_Pull<n>_<Mon><dd>_<hh>-<mm><AM|PM>.mp4`.
  The raid week is counted from the season start. The pull number counts the
  pulls of that encounter on that day.
- It uploads the file to YouTube under a title built from the new name, and
  optionally moves it into a Google Drive sync folder.
- It keeps a backup copy while it works. The backup is deleted on success and
  moved back over the original on failure.

The model has six modules:

- `PyStrings` (`strings.dfy`): the `str` operations the uploader uses, i.e.
  `split`, `replace`, `strip` and decimal rendering. `find` and `sep.join` are
  the helpers `split` and `replace` are defined through.
- `PyPath` (`paths.dfy`): `os.path.basename`, `splitext` and `join`.
- `Calendar` (`calendar.dfy`): dates, strict `%Y-%m-%d %H-%M-%S` parsing,
  day ordinals, and the `%b%d` / `%I-%M%p` tokens.
- `Naming` (`naming.dfy`):
  - `extract_context_from_filename`, `get_raid_week` and `get_boss_pull_count`;
  - the pull tracker, as a class whose map is updated in place;
  - `make_nice_name`.
- `Title` (`title.dfy`): `_create_youtube_title`, and what it makes of the
  names `make_nice_name` produces.
- `Handler` (`handler.dfy`):
  - the filesystem and the channel, as classes updated in place;
  - `upload_to_youtube` and `move_to_drive`;
  - `VideoHandler` with `_process_video` and `on_created`. Each is specified
    against a function on values (`Handled`, `ProcessFiles`). Lemmas over
    those functions state the success, failure and backup guarantees.

Several inputs are parameters rather than outside calls:

- the clock (`now`, `today`);
- the season-start setting;
- the watch and drive folders;
- whether YouTube accepts an upload;
- whether the drive move succeeds.

The title of a renamed file follows the code as written. The month expansion
turns `Sep03` into `September03`, and the split after three characters then
gives `Sep tember03`. Only May comes out as `May 03`. `Title.DateTitle` and
`Title.TitleOfNiceName` state this outcome.

## Model

| member | source | states |
|---|---|---|
| PyStrings.IndexOf | youtube_uploader.py:60 | the first occurrence of the separator, or -1 when there is none; no earlier occurrence exists |
| PyStrings.Split | youtube_uploader.py:60 | `str.split(sep)`: at least one part, the parts joined with `sep` give the string back, and no part contains `sep` |
| PyStrings.SplitKeepsAbsent | youtube_uploader.py:60 | `split` introduces no character: one absent from the text is absent from every part |
| PyStrings.SplitJoinChar | youtube_uploader.py:269 | splitting at `c` a join of parts free of `c` gives the same parts back |
| PyStrings.ReplaceIsJoinOfSplit | youtube_uploader.py:70 | `str.replace(pat, repl)` equals splitting at `pat` and joining with `repl` |
| PyStrings.Replace | youtube_uploader.py:70 | `str.replace(pat, repl)`, scanning left to right (definition; its properties are `ReplaceIsJoinOfSplit`, `ReplaceWithoutOccurrence` and `ReplaceKeepsAbsent`) |
| PyStrings.ReplaceKeepsAbsent | youtube_uploader.py:70 | `replace` introduces no character that is in neither the text nor the replacement |
| PyStrings.ReplaceWithoutOccurrence | youtube_uploader.py:70 | replacing a pattern that does not occur leaves the string unchanged |
| PyStrings.Strip | youtube_uploader.py:70 | `str.strip()`: the result has no whitespace at either end |
| PyStrings.StripLeft | youtube_uploader.py:70 | the leading-whitespace cut: a suffix of the input, everything removed is whitespace, and the first kept character is not |
| PyStrings.StripRight | youtube_uploader.py:70 | the trailing-whitespace cut: a prefix of the input, everything removed is whitespace, and the last kept character is not |
| PyStrings.StripUnchanged | youtube_uploader.py:70 | a string without whitespace at either end is not changed by `strip` |
| PyStrings.StripKeepsAbsent | youtube_uploader.py:70 | `strip` only removes characters |
| PyStrings.NatToString | youtube_uploader.py:98 | decimal rendering: non-empty digits whose value is the number, with no leading zero unless the number is 0 |
| PyStrings.NatToStringInjective | youtube_uploader.py:146 | distinct numbers render as distinct strings |
| PyStrings.PadDigits | youtube_uploader.py:111 | zero-padded rendering of fixed width whose decimal value is the number |
| PyStrings.PadDigitsInjective | youtube_uploader.py:111 | distinct numbers below the width's bound render differently |
| PyPath.Basename | youtube_uploader.py:129 | `os.path.basename`: the result contains no `/` |
| PyPath.BasenameSuffix | youtube_uploader.py:129 | the base name is a suffix of the path, preceded by `/` whenever it is shorter than the path |
| PyPath.SplitExt | youtube_uploader.py:130 | `os.path.splitext`: the root and the extension make up the path again |
| PyPath.SplitExtShape | youtube_uploader.py:130 | the extension is empty, or one dot followed by no dot and no `/` |
| PyPath.SplitExtOfDotted | youtube_uploader.py:57 | a name not starting with a dot splits at its only dot |
| PyPath.SplitExtOfUndotted | youtube_uploader.py:266 | a name without a dot has an empty extension |
| PyPath.PathJoin | youtube_uploader.py:225 | `os.path.join(a, b)` ends with `b`, and its base name is `b` when `b` has no `/` |
| Calendar.DaysInMonth | youtube_uploader.py:67 | month lengths of the proleptic Gregorian calendar, 28 to 31 days |
| Calendar.FormatDate | youtube_uploader.py:111 | `strftime("%Y-%m-%d")`: ten characters with dashes at positions 4 and 7 (its inverse is `ParseFormatDate`, its injectivity `FormatDateInjective`) |
| Calendar.DigitsAt | youtube_uploader.py:67 | a fixed-width digit field is read only when all its characters are ASCII digits, and its value is below 10 to the width |
| Calendar.ParseDate | youtube_uploader.py:90 | `strptime(s, "%Y-%m-%d").date()`: a parsed date is valid and formats back to exactly `s` |
| Calendar.ParseFormatDate | youtube_uploader.py:90 | every valid date formats to a string that parses back to that date |
| Calendar.ParseClock | youtube_uploader.py:67 | the `%H-%M-%S` half: parsed fields are in range and format back to exactly the input |
| Calendar.ParseFormatClock | youtube_uploader.py:67 | every in-range clock time formats to a string that parses back to it |
| Calendar.ParseTimestamp | youtube_uploader.py:67 | `strptime(s, "%Y-%m-%d %H-%M-%S")`: a parsed timestamp is valid and formats back to exactly `s` |
| Calendar.ParseFormatTimestamp | youtube_uploader.py:67 | every valid timestamp formats to a string that parses back to it |
| Calendar.FormatDateInjective | youtube_uploader.py:111 | distinct dates format to distinct `%Y-%m-%d` strings |
| Calendar.Ordinal | youtube_uploader.py:96 | `date.toordinal()`: the day count from 0001-01-01, at least 1 |
| Calendar.OrdinalMonotone | youtube_uploader.py:96 | a later date has a strictly larger ordinal |
| Calendar.MonthAbbr | youtube_uploader.py:142 | `%b`: a capitalised three-letter abbreviation |
| Calendar.MonthOfAbbrInverse | youtube_uploader.py:142 | each abbreviation determines its month |
| Calendar.MonthAbbrInjective | youtube_uploader.py:142 | distinct months have distinct abbreviations |
| Calendar.MonthName | youtube_uploader.py:281-283 | full English month names, which begin with the month's abbreviation |
| Calendar.Hour12 | youtube_uploader.py:143 | `%I`: an hour from 1 to 12 congruent to the 24-hour hour modulo 12 |
| Calendar.Hour12RoundTrip | youtube_uploader.py:143 | the 12-hour hour and the `%p` marker determine the 24-hour hour |
| Calendar.DateToken | youtube_uploader.py:142 | `%b%d`: five characters, the month abbreviation then two digits |
| Calendar.TimeToken | youtube_uploader.py:143 | `strftime("%I-%M%p")` (definition; its shape and read-back are `TimeTokenShape`) |
| Calendar.TimeTokenShape | youtube_uploader.py:143 | `%I-%M%p`: seven characters; a two-digit hour 01 to 12, a dash, the minute, and `PM` exactly from noon on; it reads back to the hour |
| Naming.CleanContext | youtube_uploader.py:70 | the encounter after removing `...` and stripping has no whitespace at either end |
| Naming.CleanContextKeeps | youtube_uploader.py:70 | an encounter field without `...` and without surrounding whitespace is kept as it is |
| Naming.ExtractContext | youtube_uploader.py:49-77 | the recording time returned is always a valid date and time |
| Naming.ExtractContextFields | youtube_uploader.py:55-77 | with three or more ` - ` fields and a timestamp first: exactly that timestamp and the cleaned third field; otherwise `now` and `Unknown` |
| Naming.ContextWithoutSlash | youtube_uploader.py:49-77 | a file name without `/` gives an encounter without `/` |
| Naming.RecorderNameRoundTrip | youtube_uploader.py:49-77 | a name in the recorder's format reads back to its timestamp and its cleaned encounter field |
| Naming.SeasonStart | youtube_uploader.py:87-93 | a valid start date; the parsed setting when it parses (rendering back to it), else 2024-09-01 |
| Naming.WeekNumber | youtube_uploader.py:96-97 | `max(1, days // 7 + 1)`: at least 1; for days from the start, the seven-day block the day falls in |
| Naming.WeekNumberMonotone | youtube_uploader.py:97 | a later day never has an earlier week |
| Naming.RaidWeek | youtube_uploader.py:79-98 | `get_raid_week` (definition; its shape is `RaidWeekShape`, its monotonicity `RaidWeekMonotone`) |
| Naming.RaidWeekShape | youtube_uploader.py:79-98 | `W` then the week number in decimal without leading zero, counted from the given or configured start |
| Naming.RaidWeekMonotone | youtube_uploader.py:95-97 | the raid week never decreases as the calendar advances |
| Naming.PullKeyInjective | youtube_uploader.py:111-112 | distinct (date, encounter) pairs get distinct tracker keys |
| Naming.PullKey | youtube_uploader.py:111-112 | the tracker key `f"{date:%Y-%m-%d}_{boss}"` (definition; `PullKeyInjective` states that distinct pairs get distinct keys) |
| Naming.NextCount | youtube_uploader.py:114-118 | the count handed out is at least 1, and exactly 1 for a key not yet present |
| Naming.TallyCounts | youtube_uploader.py:100-118 | counting a sequence of keys from empty leaves exactly the counted keys, each at its number of occurrences |
| Naming.PullNumberIsOccurrence | youtube_uploader.py:100-118 | the pull number handed out is how many pulls with that key there have been, this one included |
| Naming.PullTracker.constructor | youtube_uploader.py:236 | a new tracker is empty |
| Naming.PullTracker.GetBossPullCount | youtube_uploader.py:100-118 | the key's count goes up by one and is returned; no other key changes |
| Naming.ComposeName | youtube_uploader.py:146 | the new name from its fields (definition; `SplitNiceName` states that it splits back into them) |
| Naming.MakeNiceName | youtube_uploader.py:120-149 | the new name with the tracker's next count for the file's key, which goes up by one; without a tracker the pull number is 1 |
| Title.YoutubeTitle | youtube_uploader.py:258-296 | `_create_youtube_title` (definition; its fallback is `YoutubeTitleFallback`, its value on new names `TitleOfNiceName`) |
| Title.YoutubeTitleFallback | youtube_uploader.py:264-296 | a name with fewer than five `_` fields before its extension is its own title |
| Title.ReadableTime | youtube_uploader.py:278 | the time field's replacements (definition; their effect on a time token is `TimeTitle`) |
| Title.ReadableDate | youtube_uploader.py:281-289 | the month expansions and the split after three characters (definition; their effect on a date token is `DateTitle`) |
| Title.DateTitle | youtube_uploader.py:281-289 | the `%b%d` field as the title shows it, as written: `Sep03` becomes `Sep tember03` |
| Title.TimeTitle | youtube_uploader.py:278 | the `%I-%M%p` field as the title shows it: `10-16PM` becomes `10:16 PM` |
| Title.SplitNiceName | youtube_uploader.py:264-275 | a composed name loses exactly its extension and splits at `_` into week, encounter, pull, date and time |
| Title.TitleOfNiceName | youtube_uploader.py:258-296 | the title of a composed name: prefix, week, encounter and `Pull<n>` verbatim, then the readable date and time |
| Title.TitleOfGeneratedName | youtube_uploader.py:258-296 | the same for the name `make_nice_name` gives a file, with its raid week, its encounter and its extension, whenever the encounter has no `_` |
| Handler.VideoOf | youtube_uploader.py:165-174 | the request carries the title and contents with description `Raid Upload`, category 20 and `unlisted` |
| Handler.Moved | youtube_uploader.py:321 | a move: the destination gets the source's contents, the source disappears, and nothing else changes |
| Handler.Restored | youtube_uploader.py:339-341 | the failure path: the backup, when present, is moved back over the original (definition; its effect is stated by `ProcessFailure`) |
| Handler.ProcessFiles | youtube_uploader.py:315-342 | the files and uploads after backup, rename, upload, drive move and clean-up or restore (definition; stated by `ProcessSuccess`, `ProcessFailure`, `ProcessOutcome` and `ProcessFrame`) |
| Handler.Handled | youtube_uploader.py:298-342 | `_process_video` on values: a missing file changes nothing, any other is processed under its new name (definition; stated by `HandledMissing` and `HandledVideo`) |
| Handler.FileSystem.Copy | youtube_uploader.py:317 | `copy2`: the destination gets the source's contents |
| Handler.FileSystem.Move | youtube_uploader.py:321 | `shutil.move` / `os.rename` of a file, as `Moved` |
| Handler.FileSystem.Remove | youtube_uploader.py:335 | `os.remove`: exactly that path disappears |
| Handler.Channel.Insert | youtube_uploader.py:177-194 | an accepted upload appends exactly this video; a refused one changes nothing |
| Handler.UploadToYoutube | youtube_uploader.py:152-218 | fails on a missing file, otherwise succeeds exactly when accepted, appending the file's contents under the title |
| Handler.MoveToDrive | youtube_uploader.py:220-227 | with no drive folder nothing happens; otherwise the file moves under its base name into the folder, or the call fails |
| Handler.ProcessSuccess | youtube_uploader.py:315-336 | on success the contents are at the final path, the original and the backup are gone, and the upload carried the original contents |
| Handler.ProcessFailure | youtube_uploader.py:337-342 | on failure the original is restored, the backup is gone, the renamed file stays, and an accepted upload stays uploaded |
| Handler.ProcessOutcome | youtube_uploader.py:315-342 | success exactly when the upload and any drive move succeed, together with both guarantees above |
| Handler.ProcessFrame | youtube_uploader.py:315-342 | no path other than the original, the backup, the renamed file and its final place changes |
| Handler.HandledMissing | youtube_uploader.py:306 | a missing file fails before anything changes, and no pull is counted |
| Handler.ComposedLast | youtube_uploader.py:146 | a new name ends with its extension's last character, or with `M` when it has none |
| Handler.NiceNameLast | youtube_uploader.py:146 | the new name of a `.mp4` path ends in `4` (or `M` for a file named just `.mp4`) |
| Handler.ApartByLastChar | youtube_uploader.py:316 | a renamed file ending in neither `p` nor `/` differs from the backup and from its drive destination |
| Handler.TempApart | youtube_uploader.py:313-316 | a new name ending in `4` or `M` keeps the renamed file and its drive destination apart from the backup |
| Handler.HandledVideo | youtube_uploader.py:298-342 | for an existing file renamed like a `.mp4`: success iff upload and drive move succeed; the backup is always gone; on success the contents are at the final path and uploaded under the name's title; on failure the original is back |
| Handler.HandledCreatedVideo | youtube_uploader.py:298-342 | the same guarantees for the file of a creation event that is not ignored, renamed as `make_nice_name` names it |
| Handler.RunSteps | youtube_uploader.py:315-342 | backup, rename, upload, drive move, then delete the backup or restore from it, with the result of `ProcessFiles` |
| Handler.ProcessRenamed | youtube_uploader.py:312-342 | the files, the channel and the result after processing an existing file under its new name, as `Handled` says |
| Handler.VideoHandler.constructor | youtube_uploader.py:232-236 | no file in progress and an empty pull tracker |
| Handler.Ignored | youtube_uploader.py:240-247 | the events `on_created` returns early on: directories, non-`.mp4` paths, paths in progress (definition; `OnCreated` states their effect) |
| Handler.VideoHandler.ProcessVideo | youtube_uploader.py:298-342 | the new files, videos and result are `Handled` applied to the name `make_nice_name` gives with the tracker's next count; the count rises only for a file that exists |
| Handler.VideoHandler.OnCreated | youtube_uploader.py:238-256 | directories, non-`.mp4` paths and paths in progress change nothing; any other event is processed as `ProcessVideo` says; the in-progress set is restored |

## Left out

- Naming.MakeNiceName: paths follow POSIX `os.path`, where only `/` separates. The configured folders are Windows paths, and there `\` also separates. So for a Windows event path such as `C:\R\2025-09-03 22-16-58 - P - Fo.mp4`, the model's base name is the whole path. The timestamp then fails to parse, and the file is named `W<n>_Unknown_...` with the current time.
- PyPath.PathJoin: Windows `join` rules (drive letters, `\`) are not modelled, for the same reason.
- Naming.ExtractContext: the timestamp is parsed strictly, with fixed-width ASCII digit fields and a single space. Python's `strptime` also accepts one-digit fields (`2025-9-3`), a leading space in `%d` and runs of whitespace. For such names the model falls back to `now` and `Unknown`.
- Naming.SeasonStart: the setting is parsed with the same strict rules. For example, `2025-1-5` falls back to 2024-09-01 in the model, while Python reads it.
- Handler.RunSteps: `copy2`, the rename, `os.remove` of the backup and the restoring move never fail. Only the upload and the drive move can fail.
- Handler.HandledCreatedVideo: the same as the next line, as it rests on `HandledVideo`.
- Handler.HandledVideo: the success outcome assumes the backup's removal succeeds. In the uploader, a failing `os.remove` after a successful upload and drive move falls into the failure path, which moves the backup back over the original.
- Handler.VideoHandler.ProcessVideo: the waits and the file-size stability check before renaming are not modelled, because they are timing only. A missing file fails as `os.path.getsize` would; any raised exception is the result `false`.
- Handler.UploadToYoutube: the chunked transfer, the progress reports and the returned URL are not modelled. Acceptance is a parameter. Playlist insertion is left out because no playlist is configured and a failure there is only logged.
- Handler.MoveToDrive: `os.makedirs` of the drive folder is not modelled, and neither is the printed message.
- `authenticate_youtube` is not modelled, because it is OAuth and network I/O. Neither is the `__main__` block: configuration checks, the watchdog observer and its loop.
- Logging and `print` are not modelled.
- Concurrency is not modelled: the watchdog delivers events on its own thread, and the model handles one event at a time.
- The pull tracker lives in memory only and is lost when the program restarts. The model covers one run of the handler.
- `datetime.now()`, `date.today()` and the microseconds of `now` are not modelled. The clock readings are parameters with whole seconds, and names use only the date, the hour and the minute.
- `generate_config.py` and `reset_pending_uploads.py` are not part of this model.
