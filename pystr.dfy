/**
 * The few Python string and path operations the pipeline relies on:
 * `str.strip()`, `str.split('\n')` (with `'\n'.join` as its inverse),
 * `str.lower()`, `str.endswith`, `os.path.splitext` and `os.path.join`
 * (POSIX flavour).
 */
module PyStr {

  /** How many code-point ranges hold the characters for which Python's `str.isspace()` holds. */
  const SpaceRangeCount: nat := 10

  /** The `k`-th of those ranges, lowest first, as its first and last code points. */
  function SpaceRange(k: nat): (int, int)
  {
    match k
    case 0 => (0x09, 0x0d)      // '\t' '\n' '\v' '\f' '\r'
    case 1 => (0x1c, 0x20)      // the four separators, then ' '
    case 2 => (0x85, 0x85)
    case 3 => (0xa0, 0xa0)
    case 4 => (0x1680, 0x1680)
    case 5 => (0x2000, 0x200a)
    case 6 => (0x2028, 0x2029)
    case 7 => (0x202f, 0x202f)
    case 8 => (0x205f, 0x205f)
    case _ => (0x3000, 0x3000)
  }

  /** Code point `n` lies in one of the ranges from the `k`-th on. */
  predicate InSpaceRanges(n: int, k: nat)
    decreases SpaceRangeCount - k
  {
    k < SpaceRangeCount && (SpaceRange(k).0 <= n <= SpaceRange(k).1 || InSpaceRanges(n, k + 1))
  }

  /** Python's `c.isspace()`: the characters `strip()` removes. */
  predicate IsSpace(c: char) {
    InSpaceRanges(c as int, 0)
  }

  /** A string with no whitespace at either end. */
  predicate IsStripped(s: string) {
    s == [] || (!IsSpace(s[0]) && !IsSpace(s[|s| - 1]))
  }

  /** `s.lstrip()`: the suffix left after dropping leading whitespace. */
  function LStrip(s: string): (r: string)
    ensures |r| <= |s| && r == s[|s| - |r|..]
    ensures r != [] ==> !IsSpace(r[0])
  {
    if s != [] && IsSpace(s[0]) then LStrip(s[1..]) else s
  }

  /** `s.rstrip()`: the prefix left after dropping trailing whitespace. */
  function RStrip(s: string): (r: string)
    ensures |r| <= |s| && r == s[..|r|]
    ensures r != [] ==> !IsSpace(r[|r| - 1])
  {
    if s != [] && IsSpace(s[|s| - 1]) then RStrip(s[..|s| - 1]) else s
  }

  /** What `lstrip()` drops is whitespace. */
  lemma {:induction false} LStripDropsSpaces(s: string)
    ensures forall i :: 0 <= i < |s| - |LStrip(s)| ==> IsSpace(s[i])
    decreases |s|
  {
    if s != [] && IsSpace(s[0]) {
      LStripDropsSpaces(s[1..]);
      forall i | 1 <= i < |s| - |LStrip(s)|
        ensures IsSpace(s[i])
      {
        assert s[i] == s[1..][i - 1];
      }
    }
  }

  /** What `rstrip()` drops is whitespace. */
  lemma {:induction false} RStripDropsSpaces(s: string)
    ensures forall i :: |RStrip(s)| <= i < |s| ==> IsSpace(s[i])
    decreases |s|
  {
    if s != [] && IsSpace(s[|s| - 1]) {
      RStripDropsSpaces(s[..|s| - 1]);
      forall i | |RStrip(s)| <= i < |s| - 1
        ensures IsSpace(s[i])
      {
        assert s[i] == s[..|s| - 1][i];
      }
    }
  }

  /**
   * `s.strip()`: leading whitespace is dropped, then trailing whitespace,
   * one character at a time.
   */
  function Strip(s: string): (r: string)
    ensures |r| <= |s|
    decreases |s|
  {
    if s != [] && IsSpace(s[0]) then Strip(s[1..])
    else if s != [] && IsSpace(s[|s| - 1]) then Strip(s[..|s| - 1])
    else s
  }

  /** `s.strip()` is `s.lstrip().rstrip()`. */
  lemma {:induction false} StripIsRStripOfLStrip(s: string)
    ensures Strip(s) == RStrip(LStrip(s))
    decreases |s|
  {
    if s != [] && IsSpace(s[0]) {
      StripIsRStripOfLStrip(s[1..]);
    } else if s != [] && IsSpace(s[|s| - 1]) {
      var front := s[..|s| - 1];
      StripIsRStripOfLStrip(front);
      if front != [] {
        assert front[0] == s[0];
      }
      assert LStrip(front) == front;
    }
  }

  /** The stripped string has no whitespace at either end. */
  lemma {:induction false} StripIsStripped(s: string)
    ensures IsStripped(Strip(s))
    decreases |s|
  {
    if s != [] && IsSpace(s[0]) {
      StripIsStripped(s[1..]);
    } else if s != [] && IsSpace(s[|s| - 1]) {
      StripIsStripped(s[..|s| - 1]);
    }
  }

  /** `s.strip()` is the slice of `s` that starts where `s.lstrip()` does. */
  lemma {:induction false} StripIsSlice(s: string)
    ensures var i := |s| - |LStrip(s)|;
            i + |Strip(s)| <= |s| && Strip(s) == s[i..i + |Strip(s)|]
  {
    var l := LStrip(s);
    var r := RStrip(l);
    var i := |s| - |l|;
    assert Strip(s) == r by {
      StripIsRStripOfLStrip(s);
    }
    assert r == s[i..][..|r|];
  }

  /** Everything `s.strip()` drops, before or after the slice it keeps, is whitespace. */
  lemma {:induction false} StripDropsSpaces(s: string)
    ensures var i := |s| - |LStrip(s)|;
            i + |Strip(s)| <= |s|
            && (forall k :: 0 <= k < i ==> IsSpace(s[k]))
            && (forall k :: i + |Strip(s)| <= k < |s| ==> IsSpace(s[k]))
  {
    var l := LStrip(s);
    var r := RStrip(l);
    var i := |s| - |l|;
    assert |Strip(s)| == |r| by {
      StripIsRStripOfLStrip(s);
    }
    LStripDropsSpaces(s);
    RStripDropsSpaces(l);
    forall k | i + |r| <= k < |s|
      ensures IsSpace(s[k])
    {
      assert s[k] == l[k - i];
    }
  }

  /** Stripping a stripped string changes nothing. */
  lemma {:induction false} StripStripped(s: string)
    requires IsStripped(s)
    ensures Strip(s) == s
  {
  }

  /** `strip()` is idempotent. */
  lemma {:induction false} StripIdempotent(s: string)
    ensures Strip(Strip(s)) == Strip(s)
  {
    StripIsStripped(s);
    StripStripped(Strip(s));
  }

  /** `s.strip()` is empty exactly when `s` is all whitespace. */
  lemma {:induction false} StripEmpty(s: string)
    ensures Strip(s) == [] <==> forall k :: 0 <= k < |s| ==> IsSpace(s[k])
    decreases |s|
  {
    if s != [] && IsSpace(s[0]) {
      StripEmpty(s[1..]);
      assert forall k :: 1 <= k < |s| ==> s[k] == s[1..][k - 1];
    } else if s != [] && IsSpace(s[|s| - 1]) {
      StripEmpty(s[..|s| - 1]);
      assert forall k :: 0 <= k < |s| - 1 ==> s[k] == s[..|s| - 1][k];
    }
  }

  /** `s.split(sep)` for a one-character separator: never empty, separators removed. */
  function Split(s: string, sep: char): (r: seq<string>)
    ensures |r| >= 1
    ensures forall i :: 0 <= i < |r| ==> sep !in r[i]
  {
    if s == [] then [""]
    else
      var rest := Split(s[1..], sep);
      if s[0] == sep then [""] + rest else [[s[0]] + rest[0]] + rest[1..]
  }

  /** `sep.join(parts)` for a one-character separator. */
  function Join(parts: seq<string>, sep: char): string
  {
    if parts == [] then ""
    else if |parts| == 1 then parts[0]
    else parts[0] + [sep] + Join(parts[1..], sep)
  }

  /** Joining the pieces of a split with the same separator gives back the string. */
  lemma {:induction false} JoinSplit(s: string, sep: char)
    ensures Join(Split(s, sep), sep) == s
  {
    if s != [] {
      var rest := Split(s[1..], sep);
      JoinSplit(s[1..], sep);
      if s[0] == sep {
        assert Split(s, sep) == [""] + rest;
        assert s == [sep] + s[1..];
      } else {
        if |rest| == 1 {
          assert Join(Split(s, sep), sep) == [s[0]] + rest[0];
        } else {
          assert Join(Split(s, sep), sep) == [s[0]] + rest[0] + [sep] + Join(rest[1..], sep);
        }
        assert s == [s[0]] + s[1..];
      }
    }
  }

  /** Splitting a join of separator-free pieces gives back the pieces. */
  lemma {:induction false} SplitJoin(parts: seq<string>, sep: char)
    requires |parts| >= 1
    requires forall i :: 0 <= i < |parts| ==> sep !in parts[i]
    ensures Split(Join(parts, sep), sep) == parts
  {
    if |parts| == 1 {
      SplitNoSep(parts[0], sep);
    } else {
      SplitJoin(parts[1..], sep);
      SplitPrefix(parts[0], Join(parts[1..], sep), sep);
      assert [parts[0]] + parts[1..] == parts;
    }
  }

  /** A string without the separator splits into itself. */
  lemma {:induction false} SplitNoSep(s: string, sep: char)
    requires sep !in s
    ensures Split(s, sep) == [s]
  {
    if s != [] {
      SplitNoSep(s[1..], sep);
      assert [s[0]] + s[1..] == s;
    }
  }

  /** Splitting `p + sep + t` where `p` has no separator splits off `p` first. */
  lemma {:induction false} SplitPrefix(p: string, t: string, sep: char)
    requires sep !in p
    ensures Split(p + [sep] + t, sep) == [p] + Split(t, sep)
  {
    if p == [] {
      assert p + [sep] + t == [sep] + t;
      assert ([sep] + t)[1..] == t;
    } else {
      SplitPrefix(p[1..], t, sep);
      assert (p + [sep] + t)[1..] == p[1..] + [sep] + t;
      assert [p[0]] + p[1..] == p;
    }
  }

  /** Python's `str.lower()` on one character, for the ASCII letters. */
  function LowerChar(c: char): char
  {
    if 'A' <= c <= 'Z' then (c as int + 32) as char else c
  }

  /** `s.lower()`, character by character. */
  function Lower(s: string): (r: string)
    ensures |r| == |s|
    ensures forall i :: 0 <= i < |s| ==> r[i] == LowerChar(s[i])
  {
    seq(|s|, i requires 0 <= i < |s| => LowerChar(s[i]))
  }

  /** `s.endswith(suffix)`. */
  predicate EndsWith(s: string, suffix: string)
  {
    |suffix| <= |s| && s[|s| - |suffix|..] == suffix
  }

  /** Index of the last occurrence of `c` in `s`, or -1 (Python's `str.rfind`). */
  function RFind(s: string, c: char): (r: int)
    ensures -1 <= r < |s|
    ensures r >= 0 ==> s[r] == c
    ensures forall k :: r < k < |s| ==> s[k] != c
  {
    if s == [] then -1
    else if s[|s| - 1] == c then |s| - 1
    else RFind(s[..|s| - 1], c)
  }

  /**
   * `os.path.splitext(p)` for '/'-separated paths: the extension starts at
   * the last '.' after the last '/', unless everything in the file name
   * before that dot is a dot too (so ".jpg" has no extension).
   */
  function SplitExt(p: string): (r: (string, string))
    ensures r.0 + r.1 == p
    ensures r.1 == [] || (r.1[0] == '.' && '.' !in r.1[1..] && '/' !in r.1)
  {
    var sepIndex := RFind(p, '/');
    var dotIndex := RFind(p, '.');
    if dotIndex > sepIndex && exists k :: sepIndex + 1 <= k < dotIndex && p[k] != '.' then
      assert forall k :: dotIndex < k < |p| ==> p[k] != '.' && p[k] != '/';
      (p[..dotIndex], p[dotIndex..])
    else
      (p, "")
  }

  /** `os.path.join(a, b)` (POSIX): an absolute `b` wins, otherwise a single '/' joins them. */
  function PathJoin(a: string, b: string): string
  {
    if b != [] && b[0] == '/' then b
    else if a == [] || a[|a| - 1] == '/' then a + b
    else a + "/" + b
  }

  /** Appending characters other than `c` leaves the last occurrence of `c` where it was. */
  lemma {:induction false} RFindAppend(s: string, t: string, c: char)
    requires c !in t
    ensures RFind(s + t, c) == RFind(s, c)
    decreases |t|
  {
    if t == [] {
      assert s + t == s;
    } else {
      var u := s + t;
      var front := t[..|t| - 1];
      assert u[|u| - 1] == t[|t| - 1] != c;
      assert u[..|u| - 1] == s + front;
      assert c !in front by {
        assert forall k :: 0 <= k < |front| ==> front[k] == t[k];
      }
      RFindAppend(s, front, c);
    }
  }

  /**
   * A file name joined to a folder is the joined path's last component:
   * the path ends with the name, and its last '/' comes right before it
   * (there is none when the folder is empty).
   */
  lemma {:induction false} PathJoinBasename(a: string, b: string)
    requires b != [] && '/' !in b
    ensures var p := PathJoin(a, b);
            |b| <= |p| && p[|p| - |b|..] == b && RFind(p, '/') == |p| - |b| - 1
  {
    if a == [] {
      assert [] + b == b;
      RFindAppend([], b, '/');
    } else if a[|a| - 1] == '/' {
      RFindAppend(a, b, '/');
    } else {
      assert a + "/" + b == (a + "/") + b;
      RFindAppend(a + "/", b, '/');
    }
  }
}
