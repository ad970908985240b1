/**
 * The Python `str` operations the uploader's naming code relies on:
 * `split(sep)`, `replace`, `strip()`, `endswith`, and the decimal rendering
 * of integers used by f-strings and `strftime`. `find` and `sep.join` are the
 * helpers `split` and `replace` are defined through.
 * Each is modelled with Python's semantics for a non-empty separator or pattern.
 */
module PyStrings {

  /** `sep` occurs in `s` starting at index `i`. */
  predicate OccursAt(s: string, sep: string, i: int) {
    0 <= i && i + |sep| <= |s| && s[i..i + |sep|] == sep
  }

  lemma OccursAtTail(s: string, sep: string, j: int)
    requires |s| > 0 && 0 <= j
    ensures OccursAt(s[1..], sep, j) <==> OccursAt(s, sep, j + 1)
  {
    if j + |sep| <= |s| - 1 {
      assert s[1..][j..j + |sep|] == s[j + 1..j + 1 + |sep|];
    }
  }

  /** `str.find`: the first index at which `sep` occurs, or -1. */
  function IndexOf(s: string, sep: string): (r: int)
    requires |sep| > 0
    ensures r >= -1
    ensures r >= 0 ==> OccursAt(s, sep, r)
    ensures forall j :: 0 <= j && (r < 0 || j < r) ==> !OccursAt(s, sep, j)
    decreases |s|
  {
    if |s| < |sep| then -1
    else if s[..|sep|] == sep then 0
    else
      var k := IndexOf(s[1..], sep);
      assert !OccursAt(s, sep, 0);
      forall j | 1 <= j
        ensures OccursAt(s[1..], sep, j - 1) <==> OccursAt(s, sep, j)
      {
        OccursAtTail(s, sep, j - 1);
      }
      if k < 0 then -1 else k + 1
  }

  /** The first occurrence is determined by where `sep` occurs and where it does not. */
  lemma IndexOfIs(s: string, sep: string, i: int)
    requires |sep| > 0 && OccursAt(s, sep, i)
    requires forall j :: 0 <= j < i ==> !OccursAt(s, sep, j)
    ensures IndexOf(s, sep) == i
  {
  }

  lemma OccursAtAppend(s: string, t: string, sep: string, j: int)
    requires 0 <= j && j + |sep| <= |s|
    ensures OccursAt(s + t, sep, j) <==> OccursAt(s, sep, j)
  {
    assert (s + t)[j..j + |sep|] == s[j..j + |sep|];
  }

  /** Appending text after the first occurrence does not move it. */
  lemma IndexOfAppend(s: string, t: string, sep: string)
    requires |sep| > 0 && IndexOf(s, sep) >= 0
    ensures IndexOf(s + t, sep) == IndexOf(s, sep)
  {
    var i := IndexOf(s, sep);
    OccursAtAppend(s, t, sep, i);
    forall j | 0 <= j < i ensures !OccursAt(s + t, sep, j) {
      OccursAtAppend(s, t, sep, j);
    }
    IndexOfIs(s + t, sep, i);
  }

  /** `sep.join(parts)`. */
  function Join(parts: seq<string>, sep: string): string
    decreases |parts|
  {
    if |parts| == 0 then ""
    else if |parts| == 1 then parts[0]
    else parts[0] + sep + Join(parts[1..], sep)
  }

  /**
   * `s.split(sep)` for a non-empty `sep`: cut at the leftmost occurrence,
   * then go on after it. Joining the parts with `sep` gives `s` back, and no
   * part contains `sep`.
   */
  function Split(s: string, sep: string): (parts: seq<string>)
    requires |sep| > 0
    ensures |parts| >= 1
    ensures Join(parts, sep) == s
    ensures forall k :: 0 <= k < |parts| ==> IndexOf(parts[k], sep) < 0
    decreases |s|
  {
    var i := IndexOf(s, sep);
    if i < 0 then [s]
    else
      var head, rest := s[..i], Split(s[i + |sep|..], sep);
      assert IndexOf(head, sep) < 0 by {
        var h := IndexOf(head, sep);
        if h >= 0 {
          assert head[h..h + |sep|] == s[h..h + |sep|];
          assert OccursAt(s, sep, h);
        }
      }
      assert s == head + sep + s[i + |sep|..] by {
        assert s[i..i + |sep|] == sep;
      }
      [head] + rest
  }

  /** Text without `sep` followed by `sep`: the first cut is right there. */
  lemma SplitFirst(a: string, sep: string, b: string)
    requires |sep| > 0 && IndexOf(a + sep, sep) == |a|
    ensures Split(a + sep + b, sep) == [a] + Split(b, sep)
  {
    IndexOfAppend(a + sep, b, sep);
    var s := a + sep + b;
    assert s[..|a|] == a;
    assert s[|a| + |sep|..] == b;
  }

  /** For a one-character separator, a part without it ends right at the separator. */
  lemma IndexOfAtSeparator(a: string, c: char)
    requires c !in a
    ensures IndexOf(a + [c], [c]) == |a|
  {
    var s := a + [c];
    assert s[|a|..|a| + 1] == [c];
    forall j | 0 <= j < |a| ensures !OccursAt(s, [c], j) {
      assert s[j..j + 1] == [a[j]];
    }
    IndexOfIs(s, [c], |a|);
  }

  /**
   * Splitting on a one-character separator undoes joining parts that do not
   * contain it.
   */
  lemma {:induction false} SplitJoinChar(parts: seq<string>, c: char)
    requires |parts| >= 1
    requires forall k :: 0 <= k < |parts| ==> c !in parts[k]
    ensures Split(Join(parts, [c]), [c]) == parts
    decreases |parts|
  {
    if |parts| == 1 {
      var p := parts[0];
      if IndexOf(p, [c]) >= 0 {
        var h := IndexOf(p, [c]);
        assert p[h..h + 1] == [c];
      }
    } else {
      IndexOfAtSeparator(parts[0], c);
      SplitFirst(parts[0], [c], Join(parts[1..], [c]));
      SplitJoinChar(parts[1..], c);
    }
  }

  /**
   * `s.replace(pat, repl)`: every non-overlapping occurrence of `pat`,
   * scanning left to right, is replaced by `repl`.
   */
  function Replace(s: string, pat: string, repl: string): string
    requires |pat| > 0
    decreases |s|
  {
    if |s| == 0 then ""
    else if pat <= s then repl + Replace(s[|pat|..], pat, repl)
    else [s[0]] + Replace(s[1..], pat, repl)
  }

  /** Text in which `pat` does not occur is left as it is. */
  lemma {:induction false} ReplaceWithoutOccurrence(s: string, pat: string, repl: string)
    requires |pat| > 0 && IndexOf(s, pat) < 0
    ensures Replace(s, pat, repl) == s
    decreases |s|
  {
    if |s| > 0 {
      assert !OccursAt(s, pat, 0);
      assert !(pat <= s);
      IndexOfTail(s, pat);
      ReplaceWithoutOccurrence(s[1..], pat, repl);
      assert s == [s[0]] + s[1..];
    }
  }

  lemma IndexOfTail(s: string, sep: string)
    requires |sep| > 0 && |s| > 0 && !(sep <= s)
    ensures IndexOf(s, sep) == (if IndexOf(s[1..], sep) < 0 then -1 else IndexOf(s[1..], sep) + 1)
  {
    if |s| < |sep| {
      assert IndexOf(s[1..], sep) < 0;
    } else {
      assert s[..|sep|] != sep;
    }
  }

  /** A prefix without the first character of `sep` only shifts where `sep` is found. */
  lemma {:induction false} IndexOfSkip(p: string, q: string, sep: string)
    requires |sep| > 0 && sep[0] !in p
    ensures IndexOf(p + q, sep) == if IndexOf(q, sep) < 0 then -1 else |p| + IndexOf(q, sep)
    decreases |p|
  {
    if |p| > 0 {
      var s := p + q;
      assert s[0] == p[0];
      assert !(sep <= s);
      IndexOfTail(s, sep);
      assert s[1..] == p[1..] + q;
      IndexOfSkip(p[1..], q, sep);
    } else {
      assert p + q == q;
    }
  }

  /** Gluing a prefix onto the first part prefixes the joined text. */
  lemma JoinExtendHead(x: string, parts: seq<string>, sep: string)
    requires |parts| >= 1
    ensures Join([x + parts[0]] + parts[1..], sep) == x + Join(parts, sep)
  {
    var q := [x + parts[0]] + parts[1..];
    assert q[1..] == parts[1..];
  }

  /** Where `s` does not start with `sep`, its first character belongs to the first part. */
  lemma SplitTail(s: string, sep: string)
    requires |sep| > 0 && |s| > 0 && !(sep <= s)
    ensures Split(s, sep) == [[s[0]] + Split(s[1..], sep)[0]] + Split(s[1..], sep)[1..]
  {
    var tail := s[1..];
    IndexOfTail(s, sep);
    var i := IndexOf(s, sep);
    if i < 0 {
      assert s == [s[0]] + tail;
    } else {
      var k := IndexOf(tail, sep);
      assert tail[k + |sep|..] == s[i + |sep|..];
      assert s[..i] == [s[0]] + tail[..k];
    }
  }

  /**
   * Python's identity `s.replace(pat, repl) == repl.join(s.split(pat))`:
   * replacing is splitting at every occurrence and gluing with `repl`.
   */
  lemma {:induction false} ReplaceIsJoinOfSplit(s: string, pat: string, repl: string)
    requires |pat| > 0
    ensures Replace(s, pat, repl) == Join(Split(s, pat), repl)
    decreases |s|
  {
    if |s| == 0 {
      assert Split(s, pat) == [s];
    } else if pat <= s {
      var rest := s[|pat|..];
      SplitAtStart(s, pat);
      JoinEmptyHead(Split(rest, pat), repl);
      ReplaceIsJoinOfSplit(rest, pat, repl);
    } else {
      ReplaceIsJoinOfSplit(s[1..], pat, repl);
      SplitTail(s, pat);
      JoinExtendHead([s[0]], Split(s[1..], pat), repl);
    }
  }

  /** Text that starts with `sep` splits into an empty first part and the rest. */
  lemma SplitAtStart(s: string, sep: string)
    requires |sep| > 0 && sep <= s
    ensures Split(s, sep) == [""] + Split(s[|sep|..], sep)
  {
    assert s[..|sep|] == sep;
    assert IndexOf(s, sep) == 0;
  }

  lemma JoinEmptyHead(parts: seq<string>, sep: string)
    requires |parts| >= 1
    ensures Join([""] + parts, sep) == sep + Join(parts, sep)
  {
    assert ([""] + parts)[1..] == parts;
  }

  /** A prefix in which `pat`'s first character never appears is copied unchanged. */
  lemma {:induction false} ReplaceSkip(p: string, q: string, pat: string, repl: string)
    requires |pat| > 0 && pat[0] !in p
    ensures Replace(p + q, pat, repl) == p + Replace(q, pat, repl)
    decreases |p|
  {
    if |p| > 0 {
      var s := p + q;
      assert s[0] == p[0];
      assert !(pat <= s);
      assert s[1..] == p[1..] + q;
      ReplaceSkip(p[1..], q, pat, repl);
    } else {
      assert p + q == q;
    }
  }

  /** Text that begins with `pat` has that occurrence replaced first. */
  lemma ReplaceAtStart(q: string, pat: string, repl: string)
    requires |pat| > 0
    ensures Replace(pat + q, pat, repl) == repl + Replace(q, pat, repl)
  {
    assert (pat + q)[|pat|..] == q;
  }

  /** Text that does not contain the first character of `pat` is left as it is. */
  lemma ReplaceAbsent(s: string, pat: string, repl: string)
    requires |pat| > 0 && pat[0] !in s
    ensures Replace(s, pat, repl) == s
  {
    ReplaceSkip(s, "", pat, repl);
    assert s + "" == s;
  }

  /** A single occurrence flanked by text without the pattern's first character. */
  lemma ReplaceOnce(a: string, b: string, pat: string, repl: string)
    requires |pat| > 0 && pat[0] !in a && pat[0] !in b
    ensures Replace(a + pat + b, pat, repl) == a + repl + b
  {
    assert a + pat + b == a + (pat + b);
    ReplaceSkip(a, pat + b, pat, repl);
    ReplaceAtStart(b, pat, repl);
    ReplaceAbsent(b, pat, repl);
    assert a + (repl + b) == a + repl + b;
  }

  /** Text that is exactly `pat` becomes exactly `repl`. */
  lemma ReplaceWhole(pat: string, repl: string)
    requires |pat| > 0
    ensures Replace(pat, pat, repl) == repl
  {
    ReplaceAtStart("", pat, repl);
    assert pat + "" == pat;
  }

  /**
   * Text that differs from `pat` at some position after the first and does
   * not contain the first character of `pat` again is left as it is.
   */
  lemma ReplaceMismatch(s: string, pat: string, repl: string, k: int)
    requires 0 < k < |pat| && k < |s| && pat[k] != s[k] && pat[0] !in s[1..]
    ensures Replace(s, pat, repl) == s
  {
    if pat <= s {
      PrefixCharAt(pat, s, k);
    }
    ReplaceAbsent(s[1..], pat, repl);
    assert s == [s[0]] + s[1..];
  }

  lemma ForeignSuffixOutsidePrefix(t: string, d: string, pat: string)
    requires pat <= t + d
    requires forall i :: 0 <= i < |d| ==> d[i] !in pat
    ensures |pat| <= |t|
  {
    if |pat| > |t| {
      PrefixCharAt(pat, t + d, |t|);
    }
  }

  lemma PrefixCharAt(pat: string, s: string, k: int)
    requires pat <= s && 0 <= k < |pat|
    ensures pat[k] == s[k]
  {
  }

  /**
   * A suffix none of whose characters occur in `pat` can take part in no
   * occurrence, so it is carried through unchanged.
   */
  lemma {:induction false} ReplaceAppendForeign(t: string, d: string, pat: string, repl: string)
    requires |pat| > 0
    requires forall i :: 0 <= i < |d| ==> d[i] !in pat
    ensures Replace(t + d, pat, repl) == Replace(t, pat, repl) + d
    decreases |t|
  {
    if |t| == 0 {
      assert t + d == d;
      if |d| > 0 {
        assert d[0] != pat[0];
        assert pat[0] !in d;
      }
      ReplaceSkip(d, "", pat, repl);
      assert d + "" == d;
    } else {
      var s := t + d;
      if pat <= s {
        ForeignSuffixOutsidePrefix(t, d, pat);
        assert pat <= t by { assert t[..|pat|] == s[..|pat|]; }
        assert s[|pat|..] == t[|pat|..] + d;
        ReplaceAppendForeign(t[|pat|..], d, pat, repl);
      } else {
        assert !(pat <= t);
        assert s[1..] == t[1..] + d;
        ReplaceAppendForeign(t[1..], d, pat, repl);
      }
    }
  }

  /** The characters Python's `str.isspace` accepts, which `str.strip()` removes. */
  predicate IsSpace(c: char) {
    ('\t' <= c <= '\r') || ('\U{1C}' <= c <= ' ') || c == '\U{85}' || c == '\U{A0}' ||
    c == '\U{1680}' || ('\U{2000}' <= c <= '\U{200A}') || c == '\U{2028}' || c == '\U{2029}' ||
    c == '\U{202F}' || c == '\U{205F}' || c == '\U{3000}'
  }

  /** `str.lstrip()`: the suffix left after dropping leading whitespace. */
  function StripLeft(s: string): (r: string)
    ensures |r| <= |s| && r == s[|s| - |r|..]
    ensures forall i :: 0 <= i < |s| - |r| ==> IsSpace(s[i])
    ensures r == [] || !IsSpace(r[0])
    decreases |s|
  {
    if |s| > 0 && IsSpace(s[0]) then StripLeft(s[1..]) else s
  }

  /** `str.rstrip()`: the prefix left after dropping trailing whitespace. */
  function StripRight(s: string): (r: string)
    ensures |r| <= |s| && r == s[..|r|]
    ensures forall i :: |r| <= i < |s| ==> IsSpace(s[i])
    ensures r == [] || !IsSpace(r[|r| - 1])
    decreases |s|
  {
    if |s| > 0 && IsSpace(s[|s| - 1]) then StripRight(s[..|s| - 1]) else s
  }

  /** `str.strip()`: whitespace removed from both ends. */
  function Strip(s: string): (r: string)
    ensures r == [] || (!IsSpace(r[0]) && !IsSpace(r[|r| - 1]))
  {
    StripRight(StripLeft(s))
  }

  /** Text with no whitespace at either end is left as it is by `strip()`. */
  lemma StripUnchanged(s: string)
    requires s == [] || (!IsSpace(s[0]) && !IsSpace(s[|s| - 1]))
    ensures Strip(s) == s
  {
  }

  // ---- characters the operations never introduce ----

  /** A character absent from a joined text is absent from every part. */
  lemma {:induction false} AbsentFromParts(parts: seq<string>, sep: string, c: char, k: int)
    requires 0 <= k < |parts| && c !in Join(parts, sep)
    ensures c !in parts[k]
    decreases |parts|
  {
    if |parts| > 1 {
      assert Join(parts, sep) == parts[0] + sep + Join(parts[1..], sep);
      if k > 0 {
        AbsentFromParts(parts[1..], sep, c, k - 1);
      }
    }
  }

  /** `split` adds no character: one absent from `s` is absent from every part. */
  lemma SplitKeepsAbsent(s: string, sep: string, c: char, k: int)
    requires |sep| > 0 && c !in s && 0 <= k < |Split(s, sep)|
    ensures c !in Split(s, sep)[k]
  {
    AbsentFromParts(Split(s, sep), sep, c, k);
  }

  /** `replace` adds only the replacement's characters. */
  lemma {:induction false} ReplaceKeepsAbsent(s: string, pat: string, repl: string, c: char)
    requires |pat| > 0 && c !in s && c !in repl
    ensures c !in Replace(s, pat, repl)
    decreases |s|
  {
    if |s| > 0 {
      if pat <= s {
        assert forall i :: 0 <= i < |s| - |pat| ==> s[|pat|..][i] == s[|pat| + i];
        ReplaceKeepsAbsent(s[|pat|..], pat, repl, c);
      } else {
        assert forall i :: 0 <= i < |s| - 1 ==> s[1..][i] == s[1 + i];
        ReplaceKeepsAbsent(s[1..], pat, repl, c);
      }
    }
  }

  /** `strip()` only removes characters. */
  lemma StripKeepsAbsent(s: string, c: char)
    requires c !in s
    ensures c !in Strip(s)
  {
    var l := StripLeft(s);
    SuffixKeepsAbsent(s, |s| - |l|, c);
    PrefixKeepsAbsent(l, |StripRight(l)|, c);
  }

  lemma SuffixKeepsAbsent(s: string, lo: int, c: char)
    requires 0 <= lo <= |s| && c !in s
    ensures c !in s[lo..]
  {
    assert forall i :: 0 <= i < |s| - lo ==> s[lo..][i] == s[lo + i];
  }

  lemma PrefixKeepsAbsent(s: string, hi: int, c: char)
    requires 0 <= hi <= |s| && c !in s
    ensures c !in s[..hi]
  {
    assert forall i :: 0 <= i < hi ==> s[..hi][i] == s[i];
  }

  /** `s.endswith(suffix)`, case-sensitive. */
  predicate EndsWith(s: string, suffix: string) {
    |suffix| <= |s| && s[|s| - |suffix|..] == suffix
  }

  // ---- decimal digits ----

  predicate IsDigit(c: char) {
    '0' <= c <= '9'
  }

  /** An ASCII capital followed by ASCII lower-case letters only, as English month names are written. */
  predicate Capitalised(s: string) {
    |s| > 0 && 'A' <= s[0] <= 'Z' && forall i :: 1 <= i < |s| ==> 'a' <= s[i] <= 'z'
  }

  /** Every character is an ASCII digit; read from the last character back, as numbers are built. */
  predicate AllDigits(s: string)
    decreases |s|
  {
    |s| == 0 || (IsDigit(s[|s| - 1]) && AllDigits(s[..|s| - 1]))
  }

  function DigitValue(c: char): (d: nat)
    requires IsDigit(c)
    ensures d < 10
  {
    c as int - '0' as int
  }

  function DigitChar(d: nat): (c: char)
    requires d < 10
    ensures IsDigit(c) && DigitValue(c) == d
  {
    ('0' as int + d) as char
  }

  /** Each character of a digit string is a digit. */
  lemma {:induction false} DigitAt(s: string, i: int)
    requires AllDigits(s) && 0 <= i < |s|
    ensures IsDigit(s[i])
    decreases |s|
  {
    if i < |s| - 1 {
      DigitAt(s[..|s| - 1], i);
    }
  }

  /** A character that is not a digit does not occur in a digit string. */
  lemma NonDigitAbsent(s: string, c: char)
    requires AllDigits(s) && !IsDigit(c)
    ensures c !in s
  {
    forall i | 0 <= i < |s| ensures s[i] != c {
      DigitAt(s, i);
    }
  }

  /** The number a string of decimal digits denotes (leading zeros allowed). */
  function DecimalValue(s: string): nat
    requires AllDigits(s)
    decreases |s|
  {
    if |s| == 0 then 0 else DecimalValue(s[..|s| - 1]) * 10 + DigitValue(s[|s| - 1])
  }

  function Pow10(w: nat): (r: nat)
    ensures r >= 1
  {
    if w == 0 then 1 else 10 * Pow10(w - 1)
  }

  /**
   * `n` written with exactly `width` digits, zero-padded on the left, as
   * `strftime` does for `%m`, `%d`, `%H`, `%I`, `%M` and `%S`.
   */
  function PadDigits(n: nat, width: nat): (r: string)
    requires n < Pow10(width)
    ensures |r| == width && AllDigits(r)
    ensures DecimalValue(r) == n
    decreases width, n
  {
    if width == 0 then ""
    else
      var r := PadDigits(n / 10, width - 1) + [DigitChar(n % 10)];
      assert r[..|r| - 1] == PadDigits(n / 10, width - 1);
      r
  }

  /** `str(n)` for a natural number: decimal, no leading zeros. */
  function NatToString(n: nat): (r: string)
    ensures |r| >= 1 && AllDigits(r)
    ensures r[0] == '0' ==> n == 0
    ensures DecimalValue(r) == n
    decreases n
  {
    if n < 10 then [DigitChar(n)]
    else
      var r := NatToString(n / 10) + [DigitChar(n % 10)];
      assert r[..|r| - 1] == NatToString(n / 10);
      r
  }

  /** Distinct numbers are rendered as distinct strings. */
  lemma NatToStringInjective(a: nat, b: nat)
    requires NatToString(a) == NatToString(b)
    ensures a == b
  {
  }

  /** Fixed-width renderings of distinct numbers differ. */
  lemma PadDigitsInjective(a: nat, b: nat, width: nat)
    requires a < Pow10(width) && b < Pow10(width)
    requires PadDigits(a, width) == PadDigits(b, width)
    ensures a == b
  {
  }
}
