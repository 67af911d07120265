/** The string operations of Python that the sorter relies on (`str.lower`,
    `str.title`, `in` on strings, `str.rfind`, `os.path.splitext`,
    `os.path.join` and `str(int)`), over ASCII characters. */
module Strings {

  predicate IsUpperChar(c: char) { 'A' <= c <= 'Z' }
  predicate IsLowerChar(c: char) { 'a' <= c <= 'z' }

  /** A character with case, in the sense of `str.title` (ASCII letters). */
  predicate IsCased(c: char) { IsUpperChar(c) || IsLowerChar(c) }

  /** The lower case of an ASCII letter: an upper-case letter becomes the
      lower-case letter at the same place in the alphabet, and every other
      character is kept. */
  function LowerChar(c: char): (r: char)
    ensures !IsUpperChar(r)
    ensures IsCased(r) <==> IsCased(c)
    ensures !IsUpperChar(c) ==> r == c
    ensures IsUpperChar(c) ==> r as int - 'a' as int == c as int - 'A' as int
  {
    if IsUpperChar(c) then (c as int + 32) as char else c
  }

  /** The upper case of an ASCII letter, the mirror of `LowerChar`. */
  function UpperChar(c: char): (r: char)
    ensures !IsLowerChar(r)
    ensures IsCased(r) <==> IsCased(c)
    ensures !IsLowerChar(c) ==> r == c
    ensures IsLowerChar(c) ==> r as int - 'A' as int == c as int - 'a' as int
    ensures LowerChar(r) == LowerChar(c)
  {
    if IsLowerChar(c) then (c as int - 32) as char else c
  }

  /** `s.lower()`: the one string of the same length that has no upper-case
      letter and agrees with `s` up to case at every index. */
  function Lower(s: string): (r: string)
    ensures |r| == |s|
    ensures forall i :: 0 <= i < |s| ==> !IsUpperChar(r[i]) && UpperChar(r[i]) == UpperChar(s[i])
  {
    seq(|s|, i requires 0 <= i < |s| => LowerChar(s[i]))
  }

  /** A string without upper-case letters is its own lower case. */
  lemma LowerIdentity(s: string)
    requires forall i :: 0 <= i < |s| ==> !IsUpperChar(s[i])
    ensures Lower(s) == s
  {
  }

  lemma LowerIdempotent(s: string)
    ensures Lower(Lower(s)) == Lower(s)
  {
  }

  /** `str.title` with `afterCased` telling whether the character before `s`
      was cased: a cased character that follows an uncased one (or starts the
      string) is upper-cased, every other cased character is lower-cased. */
  function TitleFrom(s: string, afterCased: bool): (r: string)
    ensures |r| == |s|
    ensures forall i :: 0 <= i < |s| && !IsCased(s[i]) ==> r[i] == s[i]
    ensures forall i :: 0 <= i < |s| ==> LowerChar(r[i]) == LowerChar(s[i])
    ensures |s| > 0 && IsCased(s[0]) ==> (IsUpperChar(r[0]) <==> !afterCased)
    ensures forall i {:trigger r[i]} :: 0 < i < |s| && IsCased(s[i]) ==> (IsUpperChar(r[i]) <==> !IsCased(s[i - 1]))
  {
    if s == [] then []
    else
      var c := s[0];
      var rest := TitleFrom(s[1..], IsCased(c));
      var head := if !IsCased(c) then c else if afterCased then LowerChar(c) else UpperChar(c);
      assert forall i :: 1 < i < |s| && IsCased(s[i]) ==> (IsUpperChar(rest[i - 1]) <==> !IsCased(s[1..][i - 2]));
      [head] + rest
  }

  /** `s.title()`: every letter that starts the string or follows a
      non-letter is upper-cased, every other letter is lower-cased, and
      non-letters are kept. */
  function Title(s: string): (r: string)
    ensures |r| == |s|
    ensures forall i :: 0 <= i < |s| && !IsCased(s[i]) ==> r[i] == s[i]
    ensures forall i :: 0 <= i < |s| ==> LowerChar(r[i]) == LowerChar(s[i])
    ensures forall i {:trigger r[i]} :: 0 <= i < |s| && IsCased(s[i]) ==>
              (IsUpperChar(r[i]) <==> i == 0 || !IsCased(s[i - 1]))
  {
    TitleFrom(s, false)
  }

  /** Title-casing changes only the case of letters. */
  lemma TitleSameLetters(s: string)
    ensures Lower(Title(s)) == Lower(s)
  {
  }

  /** Title-casing a title-cased string changes nothing. */
  lemma TitleIdempotent(s: string)
    ensures Title(Title(s)) == Title(s)
  {
    var t := Title(s);
    var u := Title(t);
    forall i | 0 <= i < |s|
      ensures u[i] == t[i]
    {
      assert IsCased(t[i]) <==> IsCased(s[i]) by {
        assert LowerChar(t[i]) == LowerChar(s[i]);
      }
      if i > 0 {
        assert IsCased(t[i - 1]) <==> IsCased(s[i - 1]) by {
          assert LowerChar(t[i - 1]) == LowerChar(s[i - 1]);
        }
      }
      if IsCased(t[i]) {
        assert IsUpperChar(u[i]) <==> IsUpperChar(t[i]);
        assert LowerChar(u[i]) == LowerChar(t[i]);
        CaseDetermined(u[i], t[i]);
      }
    }
  }

  /** Two cased characters with the same lower case and the same case are equal. */
  lemma CaseDetermined(a: char, b: char)
    requires IsCased(a) && IsCased(b)
    requires LowerChar(a) == LowerChar(b)
    requires IsUpperChar(a) <==> IsUpperChar(b)
    ensures a == b
  {
  }

  predicate StartsWith(s: string, p: string) {
    |p| <= |s| && s[..|p|] == p
  }

  /** Python's `k in s` on strings: `k` occurs in `s` as a contiguous substring. */
  predicate Contains(s: string, k: string)
    decreases |s|
  {
    StartsWith(s, k) || (s != [] && Contains(s[1..], k))
  }

  /** `k` occurs in `s` starting at index `i`. */
  predicate OccursAt(s: string, k: string, i: int) {
    0 <= i <= |s| - |k| && s[i..i + |k|] == k
  }

  lemma {:induction false} ContainsAt(s: string, k: string)
    ensures Contains(s, k) <==> exists i :: OccursAt(s, k, i)
    decreases |s|
  {
    if StartsWith(s, k) {
      assert OccursAt(s, k, 0);
    }
    if s != [] {
      ContainsAt(s[1..], k);
      if Contains(s[1..], k) {
        var i :| OccursAt(s[1..], k, i);
        assert OccursAt(s, k, i + 1);
      }
      if exists i :: OccursAt(s, k, i) {
        var i :| OccursAt(s, k, i);
        if i > 0 {
          assert OccursAt(s[1..], k, i - 1);
        }
      }
    } else if exists i :: OccursAt(s, k, i) {
      var i :| OccursAt(s, k, i);
      assert StartsWith(s, k);
    }
  }

  /** Whatever occurs in `b` occurs in `a + b`. */
  lemma {:induction false} ContainsInSuffix(a: string, b: string, k: string)
    requires Contains(b, k)
    ensures Contains(a + b, k)
    decreases |a|
  {
    if a != [] {
      ContainsInSuffix(a[1..], b, k);
      assert (a + b)[1..] == a[1..] + b;
      assert Contains((a + b)[1..], k);
    } else {
      assert a + b == b;
    }
  }

  /** `k` occurs in `a + k + c`. */
  lemma ContainsInMiddle(a: string, k: string, c: string)
    ensures Contains(a + k + c, k)
  {
    assert StartsWith(k + c, k);
    ContainsInSuffix(a, k + c, k);
    assert a + k + c == a + (k + c);
  }

  /** Every character of a substring occurs in the string. */
  lemma ContainsHasChars(s: string, k: string, i: int)
    requires Contains(s, k) && 0 <= i < |k|
    ensures k[i] in s
  {
    ContainsAt(s, k);
    var at :| OccursAt(s, k, at);
    assert s[at + i] == s[at..at + |k|][i];
  }

  /** `str.rfind` of a single character: the last index holding `c`, or -1. */
  function RFind(s: string, c: char): (r: int)
    ensures -1 <= r < |s|
    ensures r >= 0 ==> s[r] == c
    ensures forall j :: r < j < |s| ==> s[j] != c
  {
    if s == [] then -1
    else if s[|s| - 1] == c then |s| - 1
    else RFind(s[..|s| - 1], c)
  }

  /** Some character of `p` strictly between indices `lo` and `hi` is not a dot. */
  predicate NonDotBetween(p: string, lo: int, hi: int) {
    exists i :: lo < i < hi && 0 <= i < |p| && p[i] != '.'
  }

  /** No `/` occurs in `p` from index `i` on: index `i` is in the basename. */
  predicate InBasename(p: string, i: int) {
    forall k :: 0 <= k < |p| && i <= k ==> p[k] != '/'
  }

  /** The basename of `p` holds a `.` that follows some character other than
      `.`: the condition under which `os.path.splitext` splits anything off. */
  predicate HasExtension(p: string) {
    exists i, j :: 0 <= i < j < |p| && p[i] != '.' && p[j] == '.' && InBasename(p, i)
  }

  /** `os.path.splitext` on a POSIX path. The root and the extension make up
      the path; the extension is empty unless the basename has a dot after a
      non-dot character, and otherwise runs from the last dot to the end.
      These clauses leave exactly one possible result. */
  function SplitExt(p: string): (r: (string, string))
    ensures r.0 + r.1 == p
    ensures r.1 != [] <==> HasExtension(p)
    ensures r.1 != [] ==> r.1[0] == '.'
    ensures forall j :: 0 < j < |r.1| ==> r.1[j] != '.'
    ensures forall j :: 0 <= j < |r.1| ==> r.1[j] != '/'
  {
    var sep := RFind(p, '/');
    var dot := RFind(p, '.');
    HasExtensionAt(p);
    if dot > sep && NonDotBetween(p, sep, dot) then
      (p[..dot], p[dot..])
    else
      (p, [])
  }

  /** `HasExtension` in terms of the last `/` and the last `.` of `p`. */
  lemma HasExtensionAt(p: string)
    ensures HasExtension(p) <==>
              RFind(p, '.') > RFind(p, '/') && NonDotBetween(p, RFind(p, '/'), RFind(p, '.'))
  {
    var sep, dot := RFind(p, '/'), RFind(p, '.');
    if HasExtension(p) {
      var i, j :| 0 <= i < j < |p| && p[i] != '.' && p[j] == '.' && InBasename(p, i);
      assert sep < i;
      assert i < j <= dot;
    }
    if dot > sep && NonDotBetween(p, sep, dot) {
      var i :| sep < i < dot && 0 <= i < |p| && p[i] != '.';
      assert InBasename(p, i);
    }
  }

  /** A suffix of `p` that starts with `.` and holds no other `.` starts at
      the last `.` of `p`. */
  lemma DotSuffixAtLastDot(p: string, a: string)
    requires |a| <= |p| && p[|p| - |a|..] == a
    requires a != [] && a[0] == '.' && forall j :: 0 < j < |a| ==> a[j] != '.'
    ensures RFind(p, '.') == |p| - |a|
  {
    forall j | |p| - |a| < j < |p| ensures p[j] != '.' {
      assert p[j] == a[j - (|p| - |a|)];
    }
    RFindIs(p, '.', |p| - |a|);
  }

  /** The three facts that pin down `RFind`. */
  lemma RFindIs(s: string, c: char, r: int)
    requires -1 <= r < |s| && (r >= 0 ==> s[r] == c)
    requires forall j :: r < j < |s| ==> s[j] != c
    ensures RFind(s, c) == r
  {
  }

  /** Splitting a path whose directory part ends in `/` yields the extension
      of its basename. */
  lemma SplitExtAfterDirectory(d: string, name: string)
    requires |d| > 0 && d[|d| - 1] == '/'
    requires forall i :: 0 <= i < |name| ==> name[i] != '/'
    ensures SplitExt(d + name).1 == SplitExt(name).1
  {
    var p := d + name;
    RFindIs(p, '/', |d| - 1);
    RFindIs(name, '/', -1);
    var dotN := RFind(name, '.');
    if dotN >= 0 {
      RFindIs(p, '.', |d| + dotN);
      if NonDotBetween(name, -1, dotN) {
        var i :| -1 < i < dotN && 0 <= i < |name| && name[i] != '.';
        assert p[|d| + i] != '.';
      }
      if NonDotBetween(p, |d| - 1, |d| + dotN) {
        var i :| |d| - 1 < i < |d| + dotN && 0 <= i < |p| && p[i] != '.';
        assert name[i - |d|] != '.';
      }
      assert p[|d| + dotN..] == name[dotN..];
    }
  }

  /** Putting a prefix free of dots and slashes in front of a name that does
      not start with a dot leaves its extension unchanged. */
  lemma ExtAfterPrefix(a: string, name: string)
    requires forall i :: 0 <= i < |a| ==> a[i] != '.' && a[i] != '/'
    requires forall i :: 0 <= i < |name| ==> name[i] != '/'
    requires name == [] || name[0] != '.'
    ensures SplitExt(a + name).1 == SplitExt(name).1
  {
    var p := a + name;
    RFindIs(p, '/', -1);
    RFindIs(name, '/', -1);
    var dotN := RFind(name, '.');
    if dotN >= 0 {
      RFindIs(p, '.', |a| + dotN);
      assert NonDotBetween(name, -1, dotN) by { assert name[0] != '.'; }
      assert NonDotBetween(p, -1, |a| + dotN) by { assert p[|a|] == name[0]; }
      assert p[|a| + dotN..] == name[dotN..];
    } else {
      RFindIs(p, '.', -1);
    }
  }

  /** `os.path.splitext` of a joined path yields the extension of the name
      that was joined, so matching on the full path or on the basename is
      the same. */
  lemma ExtOfJoinedPath(dir: string, name: string)
    requires forall i :: 0 <= i < |name| ==> name[i] != '/'
    ensures SplitExt(Join(dir, name)).1 == SplitExt(name).1
  {
    assert !StartsWith(name, "/") by {
      if |name| > 0 { assert name[..1][0] == name[0] != '/'; }
    }
    if dir == [] {
      assert Join(dir, name) == name;
    } else if dir[|dir| - 1] == '/' {
      SplitExtAfterDirectory(dir, name);
    } else {
      assert Join(dir, name) == (dir + "/") + name;
      SplitExtAfterDirectory(dir + "/", name);
    }
  }

  /** Examples of `os.path.splitext`: only the last extension is split off,
      and a leading dot does not start one. */
  lemma SplitExtExamples()
    ensures SplitExt("a.tar.gz") == ("a.tar", ".gz")
    ensures SplitExt(".bashrc") == (".bashrc", "")
    ensures SplitExt("photo.png") == ("photo", ".png")
    ensures SplitExt("README") == ("README", "")
    ensures SplitExt("dir.d/file") == ("dir.d/file", "")
  {
    RFindIs("a.tar.gz", '/', -1);
    RFindIs("a.tar.gz", '.', 5);
    assert NonDotBetween("a.tar.gz", -1, 5) by { assert "a.tar.gz"[0] != '.'; }
    assert "a.tar.gz"[..5] == "a.tar" && "a.tar.gz"[5..] == ".gz";
    RFindIs("photo.png", '/', -1);
    RFindIs("photo.png", '.', 5);
    assert NonDotBetween("photo.png", -1, 5) by { assert "photo.png"[0] != '.'; }
    assert "photo.png"[..5] == "photo" && "photo.png"[5..] == ".png";
    RFindIs("dir.d/file", '/', 5);
    RFindIs("dir.d/file", '.', 3);
  }

  /** `os.path.join(a, b)` on POSIX paths: an absolute `b` replaces `a`,
      otherwise `b` follows `a` with exactly the one `/` needed between them. */
  function Join(a: string, b: string): (r: string)
    ensures StartsWith(b, "/") ==> r == b
    ensures !StartsWith(b, "/") && (a == [] || a[|a| - 1] == '/') ==> r == a + b
    ensures !StartsWith(b, "/") && a != [] && a[|a| - 1] != '/' ==> r == a + "/" + b
  {
    if StartsWith(b, "/") then b
    else if a == [] || a[|a| - 1] == '/' then a + b
    else a + "/" + b
  }

  /** `os.path.basename(p)`: what follows the last `/`. */
  function Basename(p: string): (r: string)
    ensures InBasename(r, 0)
    ensures |r| <= |p| && p[|p| - |r|..] == r
    ensures |r| < |p| ==> p[|p| - |r| - 1] == '/'
  {
    p[RFind(p, '/') + 1..]
  }

  /** Joining a name without `/` onto a directory and taking the basename
      gives the name back. */
  lemma BasenameOfJoin(dir: string, name: string)
    requires InBasename(name, 0)
    ensures Basename(Join(dir, name)) == name
  {
    var p := Join(dir, name);
    assert !StartsWith(name, "/") by {
      if |name| > 0 { assert name[..1][0] == name[0]; }
    }
    if dir != [] {
      RFindIs(p, '/', |p| - |name| - 1);
    } else {
      RFindIs(p, '/', -1);
    }
  }

  /** No two `/` follow each other in `s`. */
  predicate NoDoubleSlash(s: string) {
    forall i :: 0 <= i < |s| - 1 ==> s[i] != '/' || s[i + 1] != '/'
  }

  /** `s` with every run of `/` collapsed into one, as the kernel reads a
      path: `a//b` and `a/b` name the same file. */
  function Squeeze(s: string): (r: string)
    ensures |r| <= |s| && NoDoubleSlash(r)
    ensures s != [] ==> r != [] && r[0] == s[0] && r[|r| - 1] == s[|s| - 1]
    ensures NoDoubleSlash(s) ==> r == s
  {
    if |s| < 2 then s
    else if s[0] == '/' && s[1] == '/' then Squeeze(s[1..])
    else
      var rest := Squeeze(s[1..]);
      assert NoDoubleSlash(s) ==> NoDoubleSlash(s[1..]) by {
        if NoDoubleSlash(s) {
          forall i | 0 <= i < |s[1..]| - 1 ensures s[1..][i] != '/' || s[1..][i + 1] != '/' {
            assert s[1..][i] == s[i + 1] && s[1..][i + 1] == s[i + 2];
          }
        }
      }
      [s[0]] + rest
  }

  /** The spelling of a path that the kernel resolves: runs of `/` collapsed
      and a trailing `/` dropped, except for the root `/` itself. Paths with
      the same `NormPath` name the same file or directory. */
  function NormPath(p: string): (r: string)
    ensures NoDoubleSlash(r)
    ensures |r| > 1 ==> r[|r| - 1] != '/'
    ensures p != [] ==> r != [] && r[0] == p[0]
    ensures NoDoubleSlash(p) && (|p| <= 1 || p[|p| - 1] != '/') ==> r == p
  {
    var s := Squeeze(p);
    if |s| > 1 && s[|s| - 1] == '/' then s[..|s| - 1] else s
  }

  /** Appending a `/` to a path adds one unless the path already ends in one. */
  lemma {:induction false} SqueezeAppendSlash(s: string)
    ensures Squeeze(s + "/") == if s != [] && s[|s| - 1] == '/' then Squeeze(s) else Squeeze(s) + "/"
    decreases |s|
  {
    var x := s + "/";
    if |s| == 1 {
      assert x[1..] == "/";
    } else if |s| >= 2 {
      assert x[0] == s[0] && x[1] == s[1];
      assert x[1..] == s[1..] + "/";
      SqueezeAppendSlash(s[1..]);
    }
  }

  /** A trailing `/` does not change which directory a path names. */
  lemma NormTrailingSlash(d: string)
    requires d != []
    ensures NormPath(d + "/") == NormPath(d)
  {
    SqueezeAppendSlash(d);
  }

  /** A doubled `/` inside a path names the same place as a single one. */
  lemma {:induction false} SqueezeDoubleSlash(a: string, b: string)
    ensures Squeeze(a + "//" + b) == Squeeze(a + "/" + b)
    decreases |a|
  {
    var x := a + "//" + b;
    var y := a + "/" + b;
    if a == [] {
      assert x[1..] == y;
    } else {
      assert x[0] == y[0] && x[1] == y[1];
      assert x[1..] == a[1..] + "//" + b;
      assert y[1..] == a[1..] + "/" + b;
      SqueezeDoubleSlash(a[1..], b);
    }
  }

  lemma NormDoubleSlash(a: string, b: string)
    ensures NormPath(a + "//" + b) == NormPath(a + "/" + b)
  {
    SqueezeDoubleSlash(a, b);
  }

  predicate IsDigit(c: char) { '0' <= c <= '9' }

  function DigitChar(d: nat): (c: char)
    requires d < 10
    ensures IsDigit(c)
  {
    ('0' as int + d) as char
  }

  function DigitValue(c: char): (d: nat)
    requires IsDigit(c)
    ensures d < 10 && DigitChar(d) == c
  {
    c as int - '0' as int
  }

  /** `str(n)` for a natural number: its decimal digits, most significant
      first, with no leading zero. */
  function NatToString(n: nat): (r: string)
    ensures |r| >= 1
    ensures forall i :: 0 <= i < |r| ==> IsDigit(r[i])
    ensures r[0] == '0' <==> n == 0
    ensures n == 0 ==> r == "0"
    decreases n
  {
    if n < 10 then [DigitChar(n)] else NatToString(n / 10) + [DigitChar(n % 10)]
  }

  /** `int(s)` for a string of decimal digits. */
  function DecimalValue(s: string): nat
    requires forall i :: 0 <= i < |s| ==> IsDigit(s[i])
  {
    if s == [] then 0
    else DecimalValue(s[..|s| - 1]) * 10 + DigitValue(s[|s| - 1])
  }

  /** Reading back the decimal digits of `n` gives `n`. */
  lemma {:induction false} DecimalRoundTrip(n: nat)
    ensures DecimalValue(NatToString(n)) == n
    decreases n
  {
    if n >= 10 {
      var s := NatToString(n);
      DecimalRoundTrip(n / 10);
      assert s[..|s| - 1] == NatToString(n / 10);
    }
  }

  /** Distinct numbers have distinct decimal forms. */
  lemma NatToStringInjective(a: nat, b: nat)
    requires NatToString(a) == NatToString(b)
    ensures a == b
  {
    DecimalRoundTrip(a);
    DecimalRoundTrip(b);
  }
}
