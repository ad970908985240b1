/**
 * How the uploader renames a Warcraft Recorder video. The recorder names a
 * file `2025-09-03 22-16-58 - Marpally - Fo....mp4` (recording time, player,
 * abbreviated encounter); the uploader turns it into
 * `W1_Fo_Pull1_Sep03_10-16PM.mp4` (raid week, encounter, how many times that
 * encounter was pulled that day, date, 12-hour time, original extension).
 */
module Naming {
  import opened Wrappers
  import opened PyStrings
  import opened PyPath
  import opened Calendar

  /** The recorder's field separator. */
  const FieldSeparator: string := " - "

  /** The encounter name used when a file name cannot be read. */
  const UnknownContext: string := "Unknown"

  // ---- reading the recorder's file name ----

  /**
   * The encounter field with the recorder's `...` abbreviation marks removed
   * and surrounding whitespace stripped; it never has whitespace at either
   * end.
   */
  function CleanContext(part: string): (r: string)
    ensures r == [] || (!IsSpace(r[0]) && !IsSpace(r[|r| - 1]))
  {
    Strip(Replace(part, "...", ""))
  }

  /** A field with no `...` and no surrounding whitespace is kept as it is. */
  lemma CleanContextKeeps(part: string)
    requires IndexOf(part, "...") < 0 && (part == [] || (!IsSpace(part[0]) && !IsSpace(part[|part| - 1])))
    ensures CleanContext(part) == part
  {
    ReplaceWithoutOccurrence(part, "...", "");
    StripUnchanged(part);
  }

  /**
   * `extract_context_from_filename`: the recording time and the encounter.
   * Without the extension the name must have at least three fields and its
   * first field must be a timestamp; then the time is exactly what that
   * field says and the encounter is the cleaned third field. Otherwise the
   * current time `now` and `Unknown` are returned.
   */
  function ExtractContext(fileName: string, now: DateTime): (r: (DateTime, string))
    requires now.Valid()
    ensures r.0.Valid()
  {
    var parts := Split(SplitExt(fileName).0, FieldSeparator);
    if |parts| >= 3 then
      match ParseTimestamp(parts[0])
      case Some(t) => (t, CleanContext(parts[2]))
      case None => (now, UnknownContext)
    else
      (now, UnknownContext)
  }

  /**
   * What `ExtractContext` reads: with at least three fields and a timestamp
   * first, the time is exactly what that field says and the encounter is
   * the cleaned third field; otherwise `now` and `Unknown`.
   */
  lemma ExtractContextFields(fileName: string, now: DateTime)
    requires now.Valid()
    ensures var r := ExtractContext(fileName, now);
      var parts := Split(SplitExt(fileName).0, FieldSeparator);
      if |parts| >= 3 && ParseTimestamp(parts[0]).Some? then
        FormatTimestamp(r.0) == parts[0] && r.1 == CleanContext(parts[2])
      else
        r == (now, UnknownContext)
  {
  }

  /** A file name without `/` gives an encounter without `/`. */
  lemma ContextWithoutSlash(fileName: string, now: DateTime)
    requires now.Valid() && '/' !in fileName
    ensures '/' !in ExtractContext(fileName, now).1
  {
    var root := SplitExt(fileName).0;
    assert forall i :: 0 <= i < |root| ==> root[i] == fileName[i];
    var parts := Split(root, FieldSeparator);
    if |parts| >= 3 && ParseTimestamp(parts[0]).Some? {
      SplitKeepsAbsent(root, FieldSeparator, '/', 2);
      ReplaceKeepsAbsent(parts[2], "...", "", '/');
      StripKeepsAbsent(Replace(parts[2], "...", ""), '/');
    }
  }

  /** Text without spaces ends before the first separator added to it. */
  lemma SeparatorAfter(a: string)
    requires ' ' !in a
    ensures IndexOf(a + FieldSeparator, FieldSeparator) == |a|
  {
    IndexOfSkip(a, FieldSeparator, FieldSeparator);
    assert FieldSeparator[..3] == FieldSeparator;
  }

  /**
   * Two space-free texts joined by one space, the second not starting with
   * `-`, end before the first separator added to them.
   */
  lemma SeparatorAfterSpaced(x: string, y: string)
    requires ' ' !in x && ' ' !in y && |y| > 0 && y[0] != '-'
    ensures IndexOf(x + " " + y + FieldSeparator, FieldSeparator) == |x| + 1 + |y|
  {
    PrefixRegroup(x, " ", y, FieldSeparator);
    SeparatorAfterSpace(y);
    IndexOfSkip(x, " " + y + FieldSeparator, FieldSeparator);
  }

  lemma PrefixRegroup(x: string, a: string, b: string, c: string)
    ensures x + a + b + c == x + (a + b + c)
  {
  }

  lemma SeparatorAfterSpace(y: string)
    requires ' ' !in y && |y| > 0 && y[0] != '-'
    ensures IndexOf(" " + y + FieldSeparator, FieldSeparator) == 1 + |y|
  {
    var b := " " + y + FieldSeparator;
    assert b[1] == y[0];
    assert !(FieldSeparator <= b);
    IndexOfTail(b, FieldSeparator);
    assert b[1..] == y + FieldSeparator;
    SeparatorAfter(y);
  }

  /**
   * A file name the recorder writes is read back: its recording time, and
   * the cleaned first field after the player name as the encounter.
   */
  lemma RecorderNameRoundTrip(t: DateTime, player: string, rest: string, ext: string, now: DateTime)
    requires t.Valid() && now.Valid()
    requires ' ' !in player && '/' !in player && '/' !in rest
    requires '.' !in ext && '/' !in ext
    ensures ExtractContext(FormatTimestamp(t) + FieldSeparator + player + FieldSeparator + rest + "." + ext, now)
      == (t, CleanContext(Split(rest, FieldSeparator)[0]))
  {
    var date, clock := FormatDate(t.date), FormatClock(t.hour, t.minute, t.second);
    FormatDateChars(t.date);
    FormatClockChars(t.hour, t.minute, t.second);
    SeparatorAfterSpaced(date, clock);
    ParseFormatTimestamp(t);
    ReadRecorderName(date + " " + clock, t, player, rest, ext, now);
  }

  lemma ReadRecorderName(stamp: string, t: DateTime, player: string, rest: string, ext: string, now: DateTime)
    requires now.Valid() && ParseTimestamp(stamp) == Some(t)
    requires |stamp| > 0 && stamp[0] != '.' && '/' !in stamp
    requires IndexOf(stamp + FieldSeparator, FieldSeparator) == |stamp|
    requires ' ' !in player && '/' !in player && '/' !in rest
    requires '.' !in ext && '/' !in ext
    ensures ExtractContext(stamp + FieldSeparator + player + FieldSeparator + rest + "." + ext, now)
      == (t, CleanContext(Split(rest, FieldSeparator)[0]))
  {
    SeparatorAfter(player);
    RecorderFields(stamp, player, rest, ext);
    var name := stamp + FieldSeparator + player + FieldSeparator + rest + "." + ext;
    var parts := [stamp, player] + Split(rest, FieldSeparator);
    assert parts[0] == stamp && parts[2] == Split(rest, FieldSeparator)[0];
    ExtractFromFields(name, parts, t, now);
  }

  lemma ExtractFromFields(fileName: string, parts: seq<string>, t: DateTime, now: DateTime)
    requires now.Valid() && parts == Split(SplitExt(fileName).0, FieldSeparator)
    requires |parts| >= 3 && ParseTimestamp(parts[0]) == Some(t)
    ensures ExtractContext(fileName, now) == (t, CleanContext(parts[2]))
  {
  }

  /** Cutting `stamp - player - rest.ext` into its extension and fields. */
  lemma RecorderFields(stamp: string, player: string, rest: string, ext: string)
    requires |stamp| > 0 && stamp[0] != '.' && '/' !in stamp && '/' !in player && '/' !in rest
    requires '.' !in ext && '/' !in ext
    requires IndexOf(stamp + FieldSeparator, FieldSeparator) == |stamp|
    requires IndexOf(player + FieldSeparator, FieldSeparator) == |player|
    ensures var base := SplitExt(stamp + FieldSeparator + player + FieldSeparator + rest + "." + ext).0;
      Split(base, FieldSeparator) == [stamp, player] + Split(rest, FieldSeparator)
  {
    var base := stamp + FieldSeparator + player + FieldSeparator + rest;
    assert '/' !in FieldSeparator;
    assert base[0] == stamp[0];
    SplitExtOfDotted(base, ext);
    SplitRecorderFields(stamp, player, rest);
  }

  lemma SplitRecorderFields(stamp: string, player: string, rest: string)
    requires IndexOf(stamp + FieldSeparator, FieldSeparator) == |stamp|
    requires IndexOf(player + FieldSeparator, FieldSeparator) == |player|
    ensures Split(stamp + FieldSeparator + player + FieldSeparator + rest, FieldSeparator)
      == [stamp, player] + Split(rest, FieldSeparator)
  {
    var tail := player + FieldSeparator + rest;
    assert stamp + FieldSeparator + player + FieldSeparator + rest == stamp + FieldSeparator + tail;
    SplitFirst(stamp, FieldSeparator, tail);
    SplitFirst(player, FieldSeparator, rest);
  }

  // ---- raid week ----

  /** The season start the uploader is configured with. */
  const SeasonStartSetting: string := "2024-09-01"

  /** The season start used when the configured one does not parse. */
  const FallbackSeasonStart: Date := Date(2024, 9, 1)

  /**
   * The configured season start read as `%Y-%m-%d`, or the fallback date
   * when it does not parse; a parsed start renders back to the setting.
   */
  function SeasonStart(setting: string): (d: Date)
    ensures d.Valid()
    ensures ParseDate(setting).Some? ==> FormatDate(d) == setting
    ensures ParseDate(setting).None? ==> d == FallbackSeasonStart
  {
    match ParseDate(setting)
    case Some(d) => d
    case None => FallbackSeasonStart
  }

  /**
   * `max(1, days // 7 + 1)`: day 0 to 6 after the start is week 1, each
   * further seven days one more, and any day before the start is week 1.
   */
  function WeekNumber(days: int): (w: nat)
    ensures w >= 1
    ensures days >= 0 ==> 7 * (w - 1) <= days < 7 * w
    ensures days < 7 ==> w == 1
  {
    var w := days / 7 + 1;
    if w < 1 then 1 else w
  }

  /** Later days never fall in an earlier week. */
  lemma WeekNumberMonotone(a: int, b: int)
    requires a <= b
    ensures WeekNumber(a) <= WeekNumber(b)
  {
    assert a / 7 <= b / 7 by {
      assert 7 * (a / 7) <= a <= b < 7 * (b / 7) + 7;
    }
  }

  /** The week of the season `today` falls in, counted from `start`. */
  function RaidWeekNumber(start: Date, today: Date): nat
    requires start.Valid() && today.Valid()
  {
    WeekNumber(Ordinal(today) - Ordinal(start))
  }

  /**
   * `get_raid_week(start_date)`: `W` followed by the week number in decimal,
   * counted from `start_date` when one is given and from the configured
   * season start otherwise.
   */
  function RaidWeek(startDate: Option<Date>, setting: string, today: Date): string
    requires today.Valid() && (startDate.Some? ==> startDate.value.Valid())
  {
    var start := if startDate.Some? then startDate.value else SeasonStart(setting);
    "W" + NatToString(RaidWeekNumber(start, today))
  }

  /**
   * A raid week is `W` and then the week number in decimal without leading
   * zeros (the number is at least 1).
   */
  lemma RaidWeekShape(startDate: Option<Date>, setting: string, today: Date)
    requires today.Valid() && (startDate.Some? ==> startDate.value.Valid())
    ensures var r := RaidWeek(startDate, setting, today);
      var start := if startDate.Some? then startDate.value else SeasonStart(setting);
      |r| >= 2 && r[0] == 'W' && AllDigits(r[1..]) && r[1] != '0'
      && DecimalValue(r[1..]) == RaidWeekNumber(start, today)
  {
    var start := if startDate.Some? then startDate.value else SeasonStart(setting);
    var digits := NatToString(RaidWeekNumber(start, today));
    assert ("W" + digits)[1..] == digits;
  }

  /** The raid week never goes back as the calendar moves on. */
  lemma RaidWeekMonotone(start: Date, a: Date, b: Date)
    requires start.Valid() && a.Valid() && b.Valid() && Before(a, b)
    ensures RaidWeekNumber(start, a) <= RaidWeekNumber(start, b)
  {
    OrdinalMonotone(a, b);
    WeekNumberMonotone(Ordinal(a) - Ordinal(start), Ordinal(b) - Ordinal(start));
  }

  // ---- pull counting ----

  /** `f"{date:%Y-%m-%d}_{boss}"`: the key a pull is counted under. */
  function PullKey(date: Date, boss: string): string
    requires date.Valid()
  {
    FormatDate(date) + "_" + boss
  }

  /** Distinct (day, encounter) pairs are counted under distinct keys. */
  lemma PullKeyInjective(d1: Date, b1: string, d2: Date, b2: string)
    requires d1.Valid() && d2.Valid() && PullKey(d1, b1) == PullKey(d2, b2)
    ensures d1 == d2 && b1 == b2
  {
    KeyFields(FormatDate(d1), b1);
    KeyFields(FormatDate(d2), b2);
    FormatDateInjective(d1, d2);
  }

  lemma KeyFields(day: string, boss: string)
    requires |day| == 10
    ensures (day + "_" + boss)[..10] == day && (day + "_" + boss)[11..] == boss
  {
  }

  /** The count a key gets next: one more than it had, a missing key counting as 0. */
  function NextCount(counts: map<string, nat>, key: string): (n: nat)
    ensures n >= 1
    ensures key !in counts ==> n == 1
  {
    (if key in counts then counts[key] else 0) + 1
  }

  /** The counts after one more pull under `key`. */
  function Counted(counts: map<string, nat>, key: string): map<string, nat> {
    counts[key := NextCount(counts, key)]
  }

  /** How often `key` occurs in `keys`. */
  function Occurrences(keys: seq<string>, key: string): nat
    decreases |keys|
  {
    if |keys| == 0 then 0
    else Occurrences(keys[..|keys| - 1], key) + (if keys[|keys| - 1] == key then 1 else 0)
  }

  /** The tracker's contents after counting `keys` in order, starting empty. */
  function Tally(keys: seq<string>): map<string, nat>
    decreases |keys|
  {
    if |keys| == 0 then map[]
    else
      Counted(Tally(keys[..|keys| - 1]), keys[|keys| - 1])
  }

  /** The tracker holds exactly the keys counted so far, each with how often it was counted. */
  lemma {:induction false} TallyCounts(keys: seq<string>, key: string)
    ensures key in Tally(keys) <==> Occurrences(keys, key) > 0
    ensures key in Tally(keys) ==> Tally(keys)[key] == Occurrences(keys, key)
    decreases |keys|
  {
    if |keys| > 0 {
      TallyCounts(keys[..|keys| - 1], key);
    }
  }

  /** The number handed out for a pull is how many pulls with its key there have been, itself included. */
  lemma PullNumberIsOccurrence(keys: seq<string>, key: string)
    ensures NextCount(Tally(keys), key) == Occurrences(keys + [key], key)
  {
    TallyCounts(keys, key);
    assert (keys + [key])[..|keys|] == keys;
  }

  /**
   * The per-day pull counts, a dictionary updated in place and kept across
   * files by the handler.
   */
  class PullTracker {
    var counts: map<string, nat>

    constructor ()
      ensures counts == map[]
    {
      counts := map[];
    }

    /**
     * `get_boss_pull_count`: count one more pull of `boss` on `date` and
     * return the new count; no other key changes.
     */
    method GetBossPullCount(boss: string, date: Date) returns (n: nat)
      requires date.Valid()
      modifies this
      ensures n == NextCount(old(counts), PullKey(date, boss))
      ensures counts == Counted(old(counts), PullKey(date, boss))
    {
      var key := PullKey(date, boss);
      if key !in counts {
        counts := counts[key := 0];
      }
      counts := counts[key := counts[key] + 1];
      n := counts[key];
    }
  }

  // ---- the new name ----

  /** `f"{raid_week}_{context}_Pull{pull_count}_{date_str}_{time_str}{ext}"`. */
  function ComposeName(week: string, context: string, pull: nat, t: DateTime, ext: string): string
    requires t.Valid()
  {
    week + "_" + context + "_Pull" + NatToString(pull) + "_" + DateToken(t.date) + "_" + TimeToken(t) + ext
  }

  /** The key the pull of a file is counted under. */
  function NameKey(filePath: string, now: DateTime): string
    requires now.Valid()
  {
    var (t, context) := ExtractContext(Basename(filePath), now);
    PullKey(t.date, context)
  }

  /** The name `make_nice_name` gives a file whose pull is number `pull`. */
  function NiceName(filePath: string, pull: nat, now: DateTime, today: Date, setting: string): string
    requires now.Valid() && today.Valid()
  {
    var fileName := Basename(filePath);
    var (t, context) := ExtractContext(fileName, now);
    ComposeName(RaidWeek(None, setting, today), context, pull, t, SplitExt(fileName).1)
  }

  /**
   * `make_nice_name(file_path, pull_tracker)`: the new name of the file.
   * With a tracker, its count for the file's (day, encounter) key goes up by
   * one and that count is the pull number; without one (`None`) a fresh
   * tracker is used, so the pull number is 1.
   */
  method MakeNiceName(filePath: string, tracker: PullTracker?, now: DateTime, today: Date, setting: string)
    returns (newName: string)
    requires now.Valid() && today.Valid()
    modifies tracker
    ensures tracker == null ==> newName == NiceName(filePath, 1, now, today, setting)
    ensures tracker != null ==>
      var key := NameKey(filePath, now);
      tracker.counts == Counted(old(tracker.counts), key) &&
      newName == NiceName(filePath, NextCount(old(tracker.counts), key), now, today, setting)
  {
    var counter := tracker;
    if counter == null {
      counter := new PullTracker();
    }
    var fileName := Basename(filePath);
    var ext := SplitExt(fileName).1;
    var (recordTime, context) := ExtractContext(fileName, now);
    var raidWeek := RaidWeek(None, setting, today);
    var pullCount := counter.GetBossPullCount(context, recordTime.date);
    newName := ComposeName(raidWeek, context, pullCount, recordTime, ext);
  }
}
