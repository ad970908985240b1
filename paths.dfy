/**
 * POSIX path helpers the uploader uses: `os.path.basename`,
 * `os.path.splitext` and a two-argument `os.path.join`.
 */
module PyPath {
  import opened PyStrings

  /** `str.rfind` for one character: the last index of `c`, or -1. */
  function LastIndexOf(s: string, c: char): (r: int)
    ensures -1 <= r < |s|
    ensures r >= 0 ==> s[r] == c
    ensures forall j :: r < j < |s| ==> s[j] != c
    decreases |s|
  {
    if |s| == 0 then -1
    else if s[|s| - 1] == c then |s| - 1
    else LastIndexOf(s[..|s| - 1], c)
  }

  /** No character after index `i` is `c`. */
  lemma CharNotInSuffix(s: string, i: int, c: char)
    requires -1 <= i < |s|
    requires forall j :: i < j < |s| ==> s[j] != c
    ensures c !in s[i + 1..]
  {
    var t := s[i + 1..];
    forall k | 0 <= k < |t| ensures t[k] != c {
      assert t[k] == s[i + 1 + k];
    }
  }

  /** `os.path.basename`: the text after the last `/`. */
  function Basename(p: string): (r: string)
    ensures '/' !in r
  {
    var i := LastIndexOf(p, '/');
    CharNotInSuffix(p, i, '/');
    p[i + 1..]
  }

  /** The base name is what follows the last `/` of the path, or the whole path. */
  lemma BasenameSuffix(p: string)
    ensures var r := Basename(p);
      EndsWith(p, r) && (|r| < |p| ==> p[|p| - |r| - 1] == '/')
  {
  }

  /** Every character is a dot (true of the empty string). */
  predicate AllDots(s: string) {
    |s| == 0 || (s[0] == '.' && AllDots(s[1..]))
  }

  /**
   * `os.path.splitext`: cut before the last `.` of the last path component,
   * unless everything in that component before it is a dot (a leading-dot
   * name such as `.mp4` has no extension). The two halves make up the path,
   * and the extension is empty or one dot followed by no dot and no `/`.
   */
  function SplitExt(p: string): (r: (string, string))
    ensures r.0 + r.1 == p
  {
    var i := ExtensionStart(p);
    assert p[..i] + p[i..] == p;
    if i < |p| then (p[..i], p[i..]) else (p, [])
  }

  /** The extension `SplitExt` cuts off is empty or one dot followed by no dot and no `/`. */
  lemma SplitExtShape(p: string)
    ensures var e := SplitExt(p).1;
      e == [] || (e[0] == '.' && '.' !in e[1..] && '/' !in e)
  {
    var i := ExtensionStart(p);
    if i < |p| {
      ExtensionStartShape(p);
      assert p[i..][1..] == p[i + 1..];
    }
  }

  /** Where `SplitExt` cuts: the last dot of a name that has an extension, else the end. */
  function ExtensionStart(p: string): (i: int)
    ensures 0 <= i <= |p|
  {
    var sepIndex := LastIndexOf(p, '/');
    var dotIndex := LastIndexOf(p, '.');
    if dotIndex > sepIndex && !AllDots(p[sepIndex + 1..dotIndex]) then dotIndex else |p|
  }

  /** The cut is at a dot after which the name holds no dot and no `/`. */
  lemma ExtensionStartShape(p: string)
    ensures var i := ExtensionStart(p);
      i < |p| ==> p[i] == '.' && '.' !in p[i + 1..] && '/' !in p[i..]
  {
    var sepIndex := LastIndexOf(p, '/');
    var dotIndex := LastIndexOf(p, '.');
    if dotIndex > sepIndex && !AllDots(p[sepIndex + 1..dotIndex]) {
      ExtensionShape(p, sepIndex, dotIndex);
    }
  }

  lemma ExtensionShape(p: string, sepIndex: int, dotIndex: int)
    requires -1 <= sepIndex < dotIndex < |p| && p[dotIndex] == '.'
    requires forall j :: dotIndex < j < |p| ==> p[j] != '.'
    requires forall j :: sepIndex < j < |p| ==> p[j] != '/'
    ensures '.' !in p[dotIndex + 1..] && '/' !in p[dotIndex..]
  {
    CharNotInSuffix(p, dotIndex, '.');
    CharNotInSuffix(p, dotIndex - 1, '/');
  }

  /** A name without `/` that does not start with a dot keeps a `.ext` suffix apart. */
  lemma SplitExtOfDotted(b: string, e: string)
    requires |b| > 0 && b[0] != '.' && '/' !in b
    requires '.' !in e && '/' !in e
    ensures SplitExt(b + "." + e) == (b, "." + e)
  {
    var p := b + "." + e;
    var dotIndex := LastIndexOf(p, '.');
    assert p[|b|] == '.';
    assert forall j :: |b| < j < |p| ==> p[j] == e[j - |b| - 1];
    assert dotIndex == |b|;
    assert LastIndexOf(p, '/') == -1 by {
      assert forall j :: 0 <= j < |p| ==> p[j] != '/' by {
        forall j | 0 <= j < |p| ensures p[j] != '/' {
          if j < |b| { assert p[j] == b[j]; }
        }
      }
    }
    assert p[0..dotIndex][0] == b[0];
    assert p[..dotIndex] == b;
    assert p[dotIndex..] == "." + e;
  }

  /** A name without any dot has no extension. */
  lemma SplitExtOfUndotted(p: string)
    requires '.' !in p
    ensures SplitExt(p) == (p, [])
  {
  }

  /**
   * `os.path.join(a, b)`: `b` alone when it is absolute, otherwise `b`
   * appended to `a` with one `/` between them unless `a` is empty or already
   * ends with `/`.
   */
  function PathJoin(a: string, b: string): (r: string)
    ensures EndsWith(r, b)
    ensures '/' !in b ==> Basename(r) == b
  {
    var r := if |b| > 0 && b[0] == '/' then b
      else if |a| == 0 || a[|a| - 1] == '/' then a + b
      else a + "/" + b;
    assert r[|r| - |b|..] == b;
    if '/' !in b then
      assert |b| < |r| ==> r[|r| - |b| - 1] == '/';
      var i := LastIndexOf(r, '/');
      assert i < |r| - |b| by {
        forall j | |r| - |b| <= j < |r| ensures r[j] != '/' {
          assert r[j] == b[j - (|r| - |b|)];
        }
      }
      assert |b| < |r| ==> i == |r| - |b| - 1;
      r
    else
      r
  }
}
