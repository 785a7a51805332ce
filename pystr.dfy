/** The few Python string and path operations the protocol parser relies on:
    `str.strip()` with no argument, `str.split(sep)` with a one-character
    separator, its inverse `sep.join(...)`, and `posixpath.join` of two
    components. Strings are sequences of Unicode code points. */
module PyStr {

  /** `c.isspace()`: the code points `str.strip()` removes when called with
      no argument (the ASCII controls TAB to CR, the four information
      separators, SPACE, NEL, NO-BREAK SPACE and the Unicode space, line and
      paragraph separators). */
  predicate IsSpace(c: char) {
    var n := c as int;
    (0x09 <= n <= 0x0D) || (0x1C <= n <= 0x20) || n == 0x85 || n == 0xA0 || n == 0x1680 ||
    (0x2000 <= n <= 0x200A) || n == 0x2028 || n == 0x2029 || n == 0x202F || n == 0x205F || n == 0x3000
  }

  /** The code points of Python 3 for which `str.isspace()` holds, written
      out one by one. */
  const WhiteSpace: set<char> := {
    '\U{09}', '\U{0A}', '\U{0B}', '\U{0C}', '\U{0D}',
    '\U{1C}', '\U{1D}', '\U{1E}', '\U{1F}', ' ',
    '\U{85}', '\U{A0}', '\U{1680}',
    '\U{2000}', '\U{2001}', '\U{2002}', '\U{2003}', '\U{2004}', '\U{2005}',
    '\U{2006}', '\U{2007}', '\U{2008}', '\U{2009}', '\U{200A}',
    '\U{2028}', '\U{2029}', '\U{202F}', '\U{205F}', '\U{3000}'
  }

  /** `IsSpace` holds for exactly the 29 code points of that table. */
  lemma IsSpaceTable(c: char)
    ensures IsSpace(c) <==> c in WhiteSpace
  {
  }

  /** No character of `s` is white space. */
  predicate NoSpace(s: string) {
    forall k :: 0 <= k < |s| ==> !IsSpace(s[k])
  }

  /** `s[i..j]` is what is left of `s` once its leading and trailing white
      space is removed: everything outside is white space, and a non-empty
      middle starts and ends with a non-space character. */
  ghost predicate Trimmed(s: string, i: int, j: int) {
    && 0 <= i <= j <= |s|
    && (forall k :: 0 <= k < i ==> IsSpace(s[k]))
    && (forall k :: j <= k < |s| ==> IsSpace(s[k]))
    && (i < j ==> !IsSpace(s[i]) && !IsSpace(s[j - 1]))
  }

  /** `s.lstrip()` */
  function StripLeading(s: string): (r: string)
    ensures |r| <= |s| && r == s[|s| - |r|..]
    ensures forall k :: 0 <= k < |s| - |r| ==> IsSpace(s[k])
    ensures r == [] || !IsSpace(r[0])
  {
    if s != [] && IsSpace(s[0]) then StripLeading(s[1..]) else s
  }

  /** `s.rstrip()` */
  function StripTrailing(s: string): (r: string)
    ensures |r| <= |s| && r == s[..|r|]
    ensures forall k :: |r| <= k < |s| ==> IsSpace(s[k])
    ensures r == [] || !IsSpace(r[|r| - 1])
  {
    if s != [] && IsSpace(s[|s| - 1]) then StripTrailing(s[..|s| - 1]) else s
  }

  /** Cutting trailing white space off `s` to get `t`, then leading white
      space off `t` to get `r`, leaves a trimmed middle of `s`. */
  lemma TrimmedOfCuts(s: string, t: string, r: string)
    requires |t| <= |s| && t == s[..|t|] && (forall k :: |t| <= k < |s| ==> IsSpace(s[k]))
    requires t == [] || !IsSpace(t[|t| - 1])
    requires |r| <= |t| && r == t[|t| - |r|..] && (forall k :: 0 <= k < |t| - |r| ==> IsSpace(t[k]))
    requires r == [] || !IsSpace(r[0])
    ensures Trimmed(s, |t| - |r|, |t|) && r == s[|t| - |r|..|t|]
  {
    var i, j := |t| - |r|, |t|;
    assert r == s[i..j];
    forall k | 0 <= k < i ensures IsSpace(s[k]) {
      assert s[k] == t[k];
    }
    if i < j {
      assert s[i] == r[0] && s[j - 1] == t[j - 1];
    }
  }

  /** `s.strip()` */
  function Strip(s: string): (r: string)
    ensures exists i, j :: Trimmed(s, i, j) && r == s[i..j]
  {
    var t := StripTrailing(s);
    var r := StripLeading(t);
    TrimmedOfCuts(s, t, r);
    r
  }

  /** Some character of `s` is not white space. */
  ghost predicate HasNonSpace(s: string) {
    exists k :: 0 <= k < |s| && !IsSpace(s[k])
  }

  /** A trimmed middle is empty exactly when the string is all white space. */
  lemma TrimmedEmpty(s: string, i: int, j: int)
    requires Trimmed(s, i, j)
    ensures i < j <==> HasNonSpace(s)
  {
    if i < j {
      assert !IsSpace(s[i]);
    }
  }

  /** Two trimmings of one string leave the same middle. */
  lemma TrimmedUnique(s: string, i: int, j: int, i': int, j': int)
    requires Trimmed(s, i, j) && Trimmed(s, i', j')
    ensures s[i..j] == s[i'..j']
  {
    TrimmedEmpty(s, i, j);
    TrimmedEmpty(s, i', j');
    if i < j {
      assert !IsSpace(s[i]) && !IsSpace(s[i']);
      assert i == i';
      assert !IsSpace(s[j - 1]) && !IsSpace(s[j' - 1]);
      assert j == j';
    }
  }

  /** There is only one way to trim a string, so `Strip` is exactly Python's
      `strip()`, however it is computed. */
  lemma StripUnique(s: string, i: int, j: int)
    requires Trimmed(s, i, j)
    ensures Strip(s) == s[i..j]
  {
    var i', j' :| Trimmed(s, i', j') && Strip(s) == s[i'..j'];
    TrimmedUnique(s, i, j, i', j');
  }

  /** A string with no white space at either end is left alone. */
  lemma StripUnchanged(s: string)
    requires s == [] || (!IsSpace(s[0]) && !IsSpace(s[|s| - 1]))
    ensures Strip(s) == s
  {
    StripUnique(s, 0, |s|);
  }

  /** A trailing white-space character, such as the newline `readlines()`
      keeps, makes no difference. */
  lemma StripTrailingSpace(s: string, c: char)
    requires IsSpace(c)
    ensures Strip(s + [c]) == Strip(s)
  {
    assert (s + [c])[..|s|] == s;
  }

  /** Any run of trailing white space makes no difference. */
  lemma {:induction false} StripTrailingSpaces(s: string, w: string)
    requires forall k :: 0 <= k < |w| ==> IsSpace(w[k])
    ensures Strip(s + w) == Strip(s)
  {
    if w == [] {
      assert s + w == s;
    } else {
      var v := w[..|w| - 1];
      assert s + w == (s + v) + [w[|w| - 1]];
      StripTrailingSpace(s + v, w[|w| - 1]);
      StripTrailingSpaces(s, v);
    }
  }

  /** A string made only of white space strips to the empty string. */
  lemma StripAllSpace(s: string)
    requires forall k :: 0 <= k < |s| ==> IsSpace(s[k])
    ensures Strip(s) == []
  {
    StripUnique(s, 0, 0);
  }

  /** `s.split(sep)`: the pieces between consecutive occurrences of `sep`,
      so two separators in a row give an empty piece and the empty string
      gives one empty piece. */
  function Split(s: string, sep: char): (r: seq<string>)
    ensures |r| >= 1
  {
    if s == [] then [[]]
    else
      var rest := Split(s[1..], sep);
      if s[0] == sep then [[]] + rest else [[s[0]] + rest[0]] + rest[1..]
  }

  /** `sep.join(ts)` */
  function Join(ts: seq<string>, sep: char): string {
    if |ts| == 0 then []
    else if |ts| == 1 then ts[0]
    else ts[0] + [sep] + Join(ts[1..], sep)
  }

  /** Number of occurrences of `c` in `s`. */
  function Count(s: string, c: char): nat {
    if s == [] then 0 else (if s[0] == c then 1 else 0) + Count(s[1..], c)
  }

  /** Joining the pieces of a split with the same separator gives back the
      original string. */
  lemma {:induction false} JoinSplit(s: string, sep: char)
    ensures Join(Split(s, sep), sep) == s
  {
    if s != [] {
      var rest := Split(s[1..], sep);
      JoinSplit(s[1..], sep);
      if s[0] == sep {
        assert Split(s, sep) == [[]] + rest;
        assert ([[]] + rest)[1..] == rest;
      } else {
        var r := Split(s, sep);
        assert r == [[s[0]] + rest[0]] + rest[1..];
        if |rest| == 1 {
          assert Join(r, sep) == [s[0]] + rest[0];
        } else {
          assert r[1..] == rest[1..];
          assert Join(rest, sep) == rest[0] + [sep] + Join(rest[1..], sep);
          assert Join(r, sep) == [s[0]] + rest[0] + [sep] + Join(rest[1..], sep);
        }
      }
    }
  }

  /** No piece of a split contains the separator. */
  lemma {:induction false} SplitPiecesLackSep(s: string, sep: char)
    ensures forall k :: 0 <= k < |Split(s, sep)| ==> sep !in Split(s, sep)[k]
  {
    if s != [] {
      SplitPiecesLackSep(s[1..], sep);
      var rest := Split(s[1..], sep);
      if s[0] == sep {
        assert forall k :: 0 < k < |Split(s, sep)| ==> Split(s, sep)[k] == rest[k - 1];
      } else {
        assert forall k :: 0 < k < |Split(s, sep)| ==> Split(s, sep)[k] == rest[k];
      }
    }
  }

  /** A split has one piece more than there are separators. */
  lemma {:induction false} SplitCount(s: string, sep: char)
    ensures |Split(s, sep)| == Count(s, sep) + 1
  {
    if s != [] {
      SplitCount(s[1..], sep);
    }
  }

  /** A string without the separator splits into itself alone. */
  lemma {:induction false} SplitWithoutSep(s: string, sep: char)
    requires sep !in s
    ensures Split(s, sep) == [s]
  {
    if s != [] {
      SplitWithoutSep(s[1..], sep);
      assert [s[0]] + s[1..] == s;
    }
  }

  /** Splitting `a + sep + b`, where `a` has no separator, gives `a` and then
      the pieces of `b`. */
  lemma {:induction false} SplitAtFirstSep(a: string, b: string, sep: char)
    requires sep !in a
    ensures Split(a + [sep] + b, sep) == [a] + Split(b, sep)
  {
    if a == [] {
      assert [] + [sep] + b == [sep] + b;
      assert ([sep] + b)[1..] == b;
    } else {
      var s := a + [sep] + b;
      assert s[1..] == a[1..] + [sep] + b;
      SplitAtFirstSep(a[1..], b, sep);
      assert [a[0]] + a[1..] == a;
    }
  }

  /** Splitting a join of separator-free pieces gives back the pieces: the
      other half of the round trip. */
  lemma {:induction false} SplitJoin(ts: seq<string>, sep: char)
    requires |ts| >= 1
    requires forall k :: 0 <= k < |ts| ==> sep !in ts[k]
    ensures Split(Join(ts, sep), sep) == ts
  {
    if |ts| == 1 {
      SplitWithoutSep(ts[0], sep);
    } else {
      SplitJoin(ts[1..], sep);
      SplitAtFirstSep(ts[0], Join(ts[1..], sep), sep);
      assert [ts[0]] + ts[1..] == ts;
    }
  }

  /** A join starts with the first piece and ends with the last one. */
  lemma {:induction false} JoinEnds(ts: seq<string>, sep: char)
    requires |ts| >= 1
    ensures |Join(ts, sep)| >= |ts[0]| && Join(ts, sep)[..|ts[0]|] == ts[0]
    ensures var j, l := Join(ts, sep), ts[|ts| - 1]; |j| >= |l| && j[|j| - |l|..] == l
  {
    if |ts| > 1 {
      JoinEnds(ts[1..], sep);
      assert ts[1..][|ts[1..]| - 1] == ts[|ts| - 1];
    }
  }

  /** `posixpath.join(a, b)`: an absolute `b` replaces `a`; otherwise `b` is
      appended, with a `/` in between unless `a` is empty or already ends
      with one. */
  function PathJoin(a: string, b: string): (r: string)
    ensures |b| > 0 && b[0] == '/' ==> r == b
    ensures (b == [] || b[0] != '/') ==> |r| >= |a| + |b|
  {
    if |b| > 0 && b[0] == '/' then b
    else if a == [] || a[|a| - 1] == '/' then a + b
    else a + "/" + b
  }

  /** The joined path ends with `b`; for a relative `b` it starts with `a`,
      and exactly one `/` separates the two when `a` does not end in one. */
  lemma PathJoinShape(a: string, b: string)
    ensures var r := PathJoin(a, b); |r| >= |b| && r[|r| - |b|..] == b
    ensures var r := PathJoin(a, b); (b == [] || b[0] != '/') ==> |r| >= |a| && r[..|a|] == a
    ensures var r := PathJoin(a, b);
      (b == [] || b[0] != '/') && a != [] && a[|a| - 1] != '/' ==> |r| == |a| + 1 + |b| && r[|a|] == '/'
  {
  }
}
