/**
 * `VideoHandler._create_youtube_title`: the YouTube title built from a
 * renamed file, e.g. `W1_Fo_Pull1_Sep03_10-16PM.mp4` becomes
 * `WoW Raid - W1 Fo Pull1 - Sep tember03 10:16 PM`. The month expansion is
 * modelled as written: every abbreviation except `May` is replaced by the
 * full name before the first three characters are split off, so the month
 * reads `Sep tember` rather than `Sep` or `September`.
 */
module Title {
  import opened Wrappers
  import opened PyStrings
  import opened PyPath
  import opened Calendar
  import opened Naming

  const TitlePrefix: string := "WoW Raid - "

  /** The separator of the renamed file's fields. */
  const NameSeparator: string := "_"

  /** `.replace('-', ':').replace('PM', ' PM').replace('AM', ' AM')`. */
  function ReadableTime(s: string): string {
    Replace(Replace(Replace(s, "-", ":"), "PM", " PM"), "AM", " AM")
  }

  /** The month replacements, in the order `VideoHandler._create_youtube_title` applies them. */
  const MonthExpansions: seq<(string, string)> := [
    ("Sep", "September"), ("Oct", "October"), ("Nov", "November"), ("Dec", "December"),
    ("Jan", "January"), ("Feb", "February"), ("Mar", "March"), ("Apr", "April"),
    ("May", "May"), ("Jun", "June"), ("Jul", "July"), ("Aug", "August")]

  /** Each `(pattern, replacement)` of `table` applied in turn with `str.replace`. */
  function ReplaceEach(s: string, table: seq<(string, string)>): string
    requires forall k :: 0 <= k < |table| ==> |table[k].0| > 0
    decreases |table|
  {
    if |table| == 0 then s
    else ReplaceEach(Replace(s, table[0].0, table[0].1), table[1..])
  }

  /** The month replacements of the date field. */
  function ExpandMonths(s: string): string {
    ExpansionsHaveNoDigits(MonthExpansions);
    ReplaceEach(s, MonthExpansions)
  }

  /**
   * The date field made readable: the month replacements, then, when the
   * result is longer than three characters, a space after the third.
   */
  function ReadableDate(s: string): string {
    SpaceAfterMonth(ExpandMonths(s))
  }

  /** A space inserted after the third character of a longer string. */
  function SpaceAfterMonth(d: string): string {
    if |d| > 3 then d[..3] + " " + d[3..] else d
  }

  /**
   * `_create_youtube_title(filename)`: with the extension removed, a name
   * of at least five `_`-separated fields becomes a title that starts with
   * `WoW Raid - ` and carries the week, encounter and pull fields verbatim;
   * any other name is returned unchanged.
   */
  function YoutubeTitle(fileName: string): string {
    var parts := Split(SplitExt(fileName).0, NameSeparator);
    if |parts| >= 5 then
      TitlePrefix + parts[0] + " " + parts[1] + " " + parts[2] + " - "
        + ReadableDate(parts[3]) + " " + ReadableTime(parts[4])
    else
      fileName
  }

  /**
   * The fallback of `_create_youtube_title`: a name with fewer than five
   * `_`-separated fields before its extension is returned unchanged.
   */
  lemma YoutubeTitleFallback(fileName: string)
    requires |Split(SplitExt(fileName).0, NameSeparator)| < 5
    ensures YoutubeTitle(fileName) == fileName
  {
  }

  // ---- the month expansion ----

  /**
   * `pat` cannot occur in `s`: either its first character is absent, or
   * it is present only at the start and `s` differs from `pat` at the
   * second or third character.
   */
  predicate Misses(s: string, pat: string) {
    |pat| > 0 &&
    (pat[0] !in s ||
     (|s| > 0 && pat[0] !in s[1..] &&
      ((|pat| > 1 && |s| > 1 && pat[1] != s[1]) || (|pat| > 2 && |s| > 2 && pat[2] != s[2]))))
  }

  lemma MissesKeeps(s: string, pat: string, repl: string)
    requires Misses(s, pat)
    ensures Replace(s, pat, repl) == s
  {
    if pat[0] !in s {
      ReplaceAbsent(s, pat, repl);
    } else if |pat| > 1 && |s| > 1 && pat[1] != s[1] {
      ReplaceMismatch(s, pat, repl, 1);
    } else {
      ReplaceMismatch(s, pat, repl, 2);
    }
  }

  /** Replacements none of whose patterns can occur leave the text as it is. */
  lemma {:induction false} ReplaceEachKeeps(s: string, table: seq<(string, string)>)
    requires forall k :: 0 <= k < |table| ==> |table[k].0| > 0 && Misses(s, table[k].0)
    ensures ReplaceEach(s, table) == s
    decreases |table|
  {
    if |table| > 0 {
      MissesKeeps(s, table[0].0, table[0].1);
      ReplaceEachKeeps(s, table[1..]);
    }
  }

  /** Applying a table is applying its first `i` entries, then the rest. */
  lemma {:induction false} ReplaceEachSplit(s: string, table: seq<(string, string)>, i: int)
    requires forall k :: 0 <= k < |table| ==> |table[k].0| > 0
    requires 0 <= i <= |table|
    ensures ReplaceEach(s, table) == ReplaceEach(ReplaceEach(s, table[..i]), table[i..])
    decreases i
  {
    if i > 0 {
      assert table[..i][1..] == table[1..][..i - 1];
      ReplaceEachSplit(Replace(s, table[0].0, table[0].1), table[1..], i - 1);
      assert table[1..][i - 1..] == table[i..];
    }
  }

  /**
   * Entry `i`'s pattern, run through the whole table, comes out as entry
   * `i`'s replacement when no earlier pattern can occur in it and no later
   * pattern can occur in the replacement.
   */
  lemma ExpandEntry(table: seq<(string, string)>, i: int)
    requires forall k :: 0 <= k < |table| ==> |table[k].0| > 0
    requires 0 <= i < |table|
    requires forall k :: 0 <= k < i ==> Misses(table[i].0, table[k].0)
    requires forall k :: i < k < |table| ==> Misses(table[i].1, table[k].0)
    ensures ReplaceEach(table[i].0, table) == table[i].1
  {
    var (pat, repl) := table[i];
    ReplaceEachSplit(pat, table, i);
    ReplaceEachKeeps(pat, table[..i]);
    ReplaceWhole(pat, repl);
    assert table[i..][1..] == table[i + 1..];
    ReplaceEachKeeps(repl, table[i + 1..]);
  }

  /** Where month `m` sits in the replacement table. */
  function ExpansionIndex(m: int): (i: int)
    requires 1 <= m <= 12
    ensures 0 <= i < |MonthExpansions|
    ensures MonthExpansions[i] == (MonthAbbr(m), MonthName(m))
  {
    (m + 3) % 12
  }

  /**
   * A capitalised word cannot contain a different three-letter capitalised
   * pattern: the capital can only match at the start, and the first three
   * letters differ somewhere.
   */
  lemma MissesDistinct(s: string, pat: string)
    requires |s| >= 3 && Capitalised(s) && |pat| == 3 && Capitalised(pat) && s[..3] != pat
    ensures Misses(s, pat)
  {
    assert pat[0] !in s[1..] by {
      forall i | 0 <= i < |s| - 1 ensures s[1..][i] != pat[0] {
        assert s[1..][i] == s[i + 1];
      }
    }
    if pat[0] == s[0] && pat[1] == s[1] {
      assert s[..3] == [s[0], s[1], s[2]] && pat == [pat[0], pat[1], pat[2]];
    }
  }

  /** The month at position `k` of the replacement table. */
  function MonthAtIndex(k: int): (m: int)
    requires 0 <= k < 12
    ensures 1 <= m <= 12 && (m + 3) % 12 == k
  {
    (k + 8) % 12 + 1
  }

  /** The abbreviation of every month comes out of the replacements as its full name. */
  lemma ExpandMonth(m: int)
    requires 1 <= m <= 12
    ensures ExpandMonths(MonthAbbr(m)) == MonthName(m)
  {
    ExpandAt(MonthExpansions, m);
  }

  /**
   * The table is a parameter equal to the constant, which keeps the
   * verifier from unfolding the constant table eagerly.
   */
  lemma ExpandAt(t: seq<(string, string)>, m: int)
    requires t == MonthExpansions && 1 <= m <= 12
    ensures ReplaceEach(MonthAbbr(m), t) == MonthName(m)
  {
    var i := ExpansionIndex(m);
    forall k | 0 <= k < i ensures Misses(t[i].0, t[k].0) {
      var other := MonthAtIndex(k);
      var _ := ExpansionIndex(other);
      MonthAbbrInjective(m, other);
      MissesDistinct(MonthAbbr(m), MonthAbbr(other));
    }
    forall k | i < k < 12 ensures Misses(t[i].1, t[k].0) {
      var other := MonthAtIndex(k);
      var _ := ExpansionIndex(other);
      MonthAbbrInjective(m, other);
      MissesDistinct(MonthName(m), MonthAbbr(other));
    }
    forall k | 0 <= k < |t| ensures |t[k].0| > 0 {
      var _ := ExpansionIndex(MonthAtIndex(k));
    }
    ExpandEntry(t, i);
  }



  // ---- the date and time fields of a renamed file ----

  /** No character of `p` is a digit. */
  predicate NoDigits(p: string) {
    forall i :: 0 <= i < |p| ==> !IsDigit(p[i])
  }

  /** Digits appended after the text pass through replacements whose patterns have no digits. */
  lemma {:induction false} ReplaceEachDigits(s: string, d: string, table: seq<(string, string)>)
    requires AllDigits(d)
    requires forall k :: 0 <= k < |table| ==> |table[k].0| > 0 && NoDigits(table[k].0)
    ensures ReplaceEach(s + d, table) == ReplaceEach(s, table) + d
    decreases |table|
  {
    if |table| > 0 {
      var (pat, repl) := table[0];
      forall i | 0 <= i < |d| ensures d[i] !in pat {
        DigitAt(d, i);
      }
      ReplaceAppendForeign(s, d, pat, repl);
      ReplaceEachDigits(Replace(s, pat, repl), d, table[1..]);
    }
  }

  lemma ExpandDigits(t: seq<(string, string)>, s: string, d: string)
    requires t == MonthExpansions && AllDigits(d)
    ensures ExpandMonths(s + d) == ExpandMonths(s) + d
  {
    ExpansionsHaveNoDigits(t);
    ReplaceEachDigits(s, d, t);
  }

  lemma ExpansionsHaveNoDigits(t: seq<(string, string)>)
    requires t == MonthExpansions
    ensures forall k :: 0 <= k < |t| ==> |t[k].0| > 0 && NoDigits(t[k].0)
  {
  }

  /**
   * The `%b%d` field as the title shows it, as written: the month's three
   * letters, a space, the rest of the full month name and the two-digit
   * day, e.g. `Sep03` gives `Sep tember03`; only May comes out as
   * `May 03`.
   */
  lemma DateTitle(d: Date)
    requires d.Valid()
    ensures ReadableDate(DateToken(d)) == MonthAbbr(d.month) + " " + MonthName(d.month)[3..] + PadDigits(d.day, 2)
  {
    var abbr, name, day := MonthAbbr(d.month), MonthName(d.month), PadDigits(d.day, 2);
    ExpandMonth(d.month);
    ReadableMonthDay(abbr, name, day);
  }

  lemma ReadableMonthDay(abbr: string, name: string, day: string)
    requires |name| >= 3 && |day| > 0 && name[..3] == abbr && AllDigits(day)
    requires ExpandMonths(abbr) == name
    ensures ReadableDate(abbr + day) == abbr + " " + name[3..] + day
  {
    ExpandDigits(MonthExpansions, abbr, day);
    SpaceInName(name, day);
  }

  lemma SpaceInName(name: string, day: string)
    requires |name| >= 3 && |name + day| > 3
    ensures SpaceAfterMonth(name + day) == name[..3] + " " + name[3..] + day
  {
    var e := name + day;
    assert e[..3] == name[..3] && e[3..] == name[3..] + day;
  }

  /**
   * The `%I-%M%p` field as the title shows it: the dash becomes a colon and
   * a space goes before the marker, e.g. `10-16PM` gives `10:16 PM`.
   */
  lemma TimeTitle(t: DateTime)
    requires t.Valid()
    ensures ReadableTime(TimeToken(t))
      == PadDigits(Hour12(t.hour), 2) + ":" + PadDigits(t.minute, 2) + " " + Meridiem(t.hour)
  {
    ReadableClock(PadDigits(Hour12(t.hour), 2), PadDigits(t.minute, 2), Meridiem(t.hour));
  }

  lemma ReadableClock(h: string, mm: string, mer: string)
    requires AllDigits(h) && AllDigits(mm) && (mer == "AM" || mer == "PM")
    ensures ReadableTime(h + "-" + mm + mer) == h + ":" + mm + " " + mer
  {
    NonDigitAbsent(h, '-');
    NonDigitAbsent(mm, '-');
    NonDigitAbsent(h, 'P');
    NonDigitAbsent(mm, 'P');
    NonDigitAbsent(h, 'A');
    NonDigitAbsent(mm, 'A');
    DashToColon(h, mm, mer);
    SpaceBeforeMarker(h + ":" + mm, mer);
  }

  lemma DashToColon(h: string, mm: string, mer: string)
    requires '-' !in h && '-' !in mm && '-' !in mer
    ensures Replace(h + "-" + mm + mer, "-", ":") == h + ":" + mm + mer
  {
    ConcatRegroup(h, "-", mm, mer);
    ConcatRegroup(h, ":", mm, mer);
    ReplaceOnce(h, mm + mer, "-", ":");
  }

  lemma ConcatRegroup(a: string, b: string, c: string, d: string)
    ensures a + b + c + d == a + b + (c + d)
  {
  }

  lemma SpaceBeforeMarker(clock: string, mer: string)
    requires 'P' !in clock && 'A' !in clock && (mer == "AM" || mer == "PM")
    ensures Replace(Replace(clock + mer, "PM", " PM"), "AM", " AM") == clock + " " + mer
  {
    if mer == "PM" {
      ReplaceSkip(clock, "PM", "PM", " PM");
      ReplaceWhole("PM", " PM");
      assert 'A' !in clock + " PM";
      ReplaceAbsent(clock + " PM", "AM", " AM");
    } else {
      assert 'P' !in clock + "AM";
      ReplaceAbsent(clock + "AM", "PM", " PM");
      ReplaceSkip(clock, "AM", "AM", " AM");
      ReplaceWhole("AM", " AM");
    }
  }

  // ---- from the new name to the title ----

  /** `sep.join` of five fields. */
  lemma JoinFive(a: string, b: string, c: string, d: string, e: string, sep: string)
    ensures Join([a, b, c, d, e], sep) == a + sep + b + sep + c + sep + d + sep + e
  {
    assert [a, b, c, d, e][1..] == [b, c, d, e];
    assert [b, c, d, e][1..] == [c, d, e];
    assert [c, d, e][1..] == [d, e];
    assert [d, e][1..] == [e];
    assert Join([d, e], sep) == d + sep + e;
    assert Join([c, d, e], sep) == c + sep + (d + sep + e);
    assert Join([b, c, d, e], sep) == b + sep + (c + sep + (d + sep + e));
  }

  /** The fields of a renamed file, as `make_nice_name` puts them together. */
  function NameFields(week: string, context: string, pull: nat, t: DateTime): seq<string>
    requires t.Valid()
  {
    [week, context, "Pull" + NatToString(pull), DateToken(t.date), TimeToken(t)]
  }

  /** No field separator, path separator or extension dot. */
  predicate Plain(s: string) {
    '_' !in s && '/' !in s && '.' !in s
  }

  lemma PlainDigits(s: string)
    requires AllDigits(s)
    ensures Plain(s)
  {
    NonDigitAbsent(s, '_');
    NonDigitAbsent(s, '/');
    NonDigitAbsent(s, '.');
  }

  lemma PlainLetters(s: string)
    requires Capitalised(s)
    ensures Plain(s)
  {
    forall i | 0 <= i < |s| ensures s[i] != '_' && s[i] != '/' && s[i] != '.' {
      assert i == 0 || 'a' <= s[i] <= 'z';
    }
  }

  /** The pull, date and time fields are made of digits, letters and a dash. */
  lemma PlainTokens(n: string, abbr: string, day: string, h: string, mm: string, mer: string)
    requires AllDigits(n) && Capitalised(abbr) && AllDigits(day)
    requires AllDigits(h) && AllDigits(mm) && (mer == "AM" || mer == "PM")
    ensures Plain("Pull" + n) && Plain(abbr + day) && Plain(h + "-" + mm + mer)
  {
    PlainDigits(n);
    PlainLetters(abbr);
    PlainDigits(day);
    PlainDigits(h);
    PlainDigits(mm);
  }

  /** The three fields the uploader generates contain no `_`, `/` or `.`. */
  lemma GeneratedFieldChars(pull: nat, t: DateTime)
    requires t.Valid()
    ensures Plain("Pull" + NatToString(pull)) && Plain(DateToken(t.date)) && Plain(TimeToken(t))
  {
    PlainTokens(NatToString(pull), MonthAbbr(t.date.month), PadDigits(t.date.day, 2),
      PadDigits(Hour12(t.hour), 2), PadDigits(t.minute, 2), Meridiem(t.hour));
  }

  /**
   * Five fields joined with `_` and followed by an extension split back
   * into the same five fields.
   */
  lemma SplitFields(a: string, b: string, c: string, d: string, e: string, ext: string)
    requires |a| > 0 && a[0] != '.' && Plain(a)
    requires '_' !in b && '/' !in b && Plain(c) && Plain(d) && Plain(e)
    requires ext == [] ==> '.' !in b
    requires ext != [] ==> ext[0] == '.' && '.' !in ext[1..] && '/' !in ext
    ensures Split(SplitExt(a + "_" + b + "_" + c + "_" + d + "_" + e + ext).0, NameSeparator)
      == [a, b, c, d, e]
  {
    JoinFive(a, b, c, d, e, "_");
    var base := Join([a, b, c, d, e], "_");
    assert '/' !in base && base[0] == a[0];
    if ext == [] {
      SplitExtOfUndotted(base);
      assert base + ext == base;
    } else {
      SplitExtOfDotted(base, ext[1..]);
      assert base + "." + ext[1..] == base + ext;
    }
    SplitJoinChar([a, b, c, d, e], '_');
  }

  lemma PullField(w: string, c: string, n: string, d: string, t: string, e: string)
    ensures w + "_" + c + "_Pull" + n + "_" + d + "_" + t + e
      == w + "_" + c + "_" + ("Pull" + n) + "_" + d + "_" + t + e
  {
  }

  /**
   * A renamed file splits back into its five fields: the extension comes
   * off as `splitext` takes it and the rest splits at `_` into week,
   * encounter, pull, date and time.
   */
  lemma SplitNiceName(week: string, context: string, pull: nat, t: DateTime, ext: string)
    requires t.Valid()
    requires |week| > 0 && week[0] != '.' && '_' !in week && '/' !in week && '.' !in week
    requires '_' !in context && '/' !in context
    requires ext == [] ==> '.' !in context
    requires ext != [] ==> ext[0] == '.' && '.' !in ext[1..] && '/' !in ext
    ensures Split(SplitExt(ComposeName(week, context, pull, t, ext)).0, NameSeparator)
      == NameFields(week, context, pull, t)
  {
    var n, date, time := NatToString(pull), DateToken(t.date), TimeToken(t);
    GeneratedFieldChars(pull, t);
    PullField(week, context, n, date, time, ext);
    SplitFields(week, context, "Pull" + n, date, time, ext);
  }

  /**
   * The title of a renamed file: the week, encounter and pull fields
   * verbatim, then the date and time fields made readable as written.
   */
  lemma TitleOfNiceName(week: string, context: string, pull: nat, t: DateTime, ext: string)
    requires t.Valid()
    requires |week| > 0 && week[0] != '.' && '_' !in week && '/' !in week && '.' !in week
    requires '_' !in context && '/' !in context
    requires ext == [] ==> '.' !in context
    requires ext != [] ==> ext[0] == '.' && '.' !in ext[1..] && '/' !in ext
    ensures YoutubeTitle(ComposeName(week, context, pull, t, ext))
      == TitlePrefix + week + " " + context + " Pull" + NatToString(pull) + " - "
        + MonthAbbr(t.date.month) + " " + MonthName(t.date.month)[3..] + PadDigits(t.date.day, 2) + " "
        + PadDigits(Hour12(t.hour), 2) + ":" + PadDigits(t.minute, 2) + " " + Meridiem(t.hour)
  {
    GeneratedFieldChars(pull, t);
    DateTitle(t.date);
    TimeTitle(t);
    TitleOfTokens(week, context, NatToString(pull), DateToken(t.date), TimeToken(t), ext,
      MonthAbbr(t.date.month), MonthName(t.date.month)[3..], PadDigits(t.date.day, 2),
      PadDigits(Hour12(t.hour), 2), PadDigits(t.minute, 2), Meridiem(t.hour));
  }

  /**
   * The title of the name `make_nice_name` gives a file: the raid week, the
   * encounter read from the file name, the pull number, then the readable
   * recording date and time. It holds whenever that encounter contains no
   * `_` (and, for a file without extension, no `.`), the characters that
   * would move the field boundaries the title is read back by.
   */
  lemma TitleOfGeneratedName(filePath: string, pull: nat, now: DateTime, today: Date, setting: string)
    requires now.Valid() && today.Valid()
    requires var context := ExtractContext(Basename(filePath), now).1;
      '_' !in context && (SplitExt(Basename(filePath)).1 == [] ==> '.' !in context)
    ensures var (t, context) := ExtractContext(Basename(filePath), now);
      YoutubeTitle(NiceName(filePath, pull, now, today, setting))
      == TitlePrefix + RaidWeek(None, setting, today) + " " + context + " Pull" + NatToString(pull) + " - "
        + MonthAbbr(t.date.month) + " " + MonthName(t.date.month)[3..] + PadDigits(t.date.day, 2) + " "
        + PadDigits(Hour12(t.hour), 2) + ":" + PadDigits(t.minute, 2) + " " + Meridiem(t.hour)
  {
    var fileName := Basename(filePath);
    var (t, context) := ExtractContext(fileName, now);
    var week := RaidWeek(None, setting, today);
    ContextWithoutSlash(fileName, now);
    RaidWeekShape(None, setting, today);
    NonDigitAbsent(week[1..], '_');
    NonDigitAbsent(week[1..], '/');
    NonDigitAbsent(week[1..], '.');
    assert week == [week[0]] + week[1..];
    SplitExtShape(fileName);
    TitleOfNiceName(week, context, pull, t, SplitExt(fileName).1);
  }

  /** `TitleOfNiceName` for any tokens of the shape the uploader generates. */
  lemma TitleOfTokens(week: string, context: string, n: string, date: string, time: string, ext: string,
                      abbr: string, rest: string, day: string, h: string, mm: string, mer: string)
    requires |week| > 0 && week[0] != '.' && '_' !in week && '/' !in week && '.' !in week
    requires '_' !in context && '/' !in context
    requires ext == [] ==> '.' !in context
    requires ext != [] ==> ext[0] == '.' && '.' !in ext[1..] && '/' !in ext
    requires Plain("Pull" + n) && Plain(date) && Plain(time)
    requires ReadableDate(date) == abbr + " " + rest + day
    requires ReadableTime(time) == h + ":" + mm + " " + mer
    ensures YoutubeTitle(week + "_" + context + "_Pull" + n + "_" + date + "_" + time + ext)
      == TitlePrefix + week + " " + context + " Pull" + n + " - " + abbr + " " + rest + day + " "
        + h + ":" + mm + " " + mer
  {
    var name := week + "_" + context + "_Pull" + n + "_" + date + "_" + time + ext;
    PullField(week, context, n, date, time, ext);
    SplitFields(week, context, "Pull" + n, date, time, ext);
    TitleOfFields(name, week, context, "Pull" + n, date, time);
    TitleRegroup(week, context, n, abbr, rest, day, h, mm, mer);
  }

  /** The title of any name whose stem splits into five fields. */
  lemma TitleOfFields(fileName: string, a: string, b: string, c: string, d: string, e: string)
    requires Split(SplitExt(fileName).0, NameSeparator) == [a, b, c, d, e]
    ensures YoutubeTitle(fileName)
      == TitlePrefix + a + " " + b + " " + c + " - " + ReadableDate(d) + " " + ReadableTime(e)
  {
  }

  lemma TitleRegroup(w: string, c: string, n: string, abbr: string, rest: string, day: string,
                     h: string, mm: string, mer: string)
    ensures TitlePrefix + w + " " + c + " " + ("Pull" + n) + " - " + (abbr + " " + rest + day)
        + " " + (h + ":" + mm + " " + mer)
      == TitlePrefix + w + " " + c + " Pull" + n + " - " + abbr + " " + rest + day
        + " " + h + ":" + mm + " " + mer
  {
  }
}
