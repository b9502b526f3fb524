/** The pieces of Python's string methods that the exclusion engine relies on:
    str.startswith, str.endswith, `in` on strings, str.find, str.split with a
    separator, str.join, str.replace, str.strip, str.rstrip with a character
    and an ASCII-only str.lower. Strings are sequences of characters. */
module Strings {
  import opened Wrappers

  /** `c * n`: n copies of c. */
  function Repeat(c: char, n: nat): (r: string)
    ensures |r| == n
    ensures forall i :: 0 <= i < n ==> r[i] == c
  {
    if n == 0 then "" else [c] + Repeat(c, n - 1)
  }

  /** `s.startswith(p)` */
  predicate StartsWith(s: string, p: string) {
    |p| <= |s| && s[..|p|] == p
  }

  /** `s.endswith(p)` */
  predicate EndsWith(s: string, p: string) {
    |p| <= |s| && s[|s| - |p|..] == p
  }

  /** x occurs in s starting at index j. */
  predicate OccursAt(s: string, x: string, j: int) {
    0 <= j && j + |x| <= |s| && s[j..j + |x|] == x
  }

  lemma OccursAtShift(s: string, x: string, j: nat)
    requires s != []
    ensures OccursAt(s[1..], x, j) <==> OccursAt(s, x, j + 1)
  {
    if j + |x| <= |s[1..]| {
      assert s[1..][j..j + |x|] == s[j + 1..j + 1 + |x|];
    }
  }

  /** `s.find(x)`, with None for Python's -1. */
  function Find(s: string, x: string): (r: Option<nat>)
    requires x != []
    ensures r.Some? ==> r.value + |x| <= |s|
    decreases |s|
  {
    if |s| < |x| then None
    else if s[..|x|] == x then Some(0)
    else
      match Find(s[1..], x)
      case None => None
      case Some(k) => Some(k + 1)
  }

  /** Find gives the first index at which x occurs, and None exactly when
      x occurs nowhere. */
  lemma {:induction false} FindSpec(s: string, x: string)
    requires x != []
    ensures Find(s, x).Some? ==> OccursAt(s, x, Find(s, x).value)
    ensures Find(s, x).Some? ==> forall j :: 0 <= j < Find(s, x).value ==> !OccursAt(s, x, j)
    ensures Find(s, x).None? ==> forall j :: !OccursAt(s, x, j)
    decreases |s|
  {
    if |s| >= |x| && s[..|x|] != x {
      FindSpec(s[1..], x);
      forall j: nat ensures OccursAt(s[1..], x, j) <==> OccursAt(s, x, j + 1) {
        OccursAtShift(s, x, j);
      }
      assert forall j :: OccursAt(s, x, j) ==> j == 0 || OccursAt(s[1..], x, j - 1);
    }
  }

  /** `x in s` for strings. */
  predicate Contains(s: string, x: string)
    requires x != []
  {
    Find(s, x).Some?
  }

  /** A single character never occurs in a string that does not hold it. */
  lemma FindAbsentChar(s: string, c: char)
    requires c !in s
    ensures Find(s, [c]) == None
  {
    FindSpec(s, [c]);
    forall j | 0 <= j < |s| ensures !OccursAt(s, [c], j) {
      assert s[j] != c;
      assert s[j..j + 1] != [c];
    }
  }

  /** A string in which x does not occur loses none by dropping its first
      character. */
  lemma FindTail(u: string, x: string)
    requires x != [] && u != [] && Find(u, x) == None
    ensures Find(u[1..], x) == None
  {
    if |u| >= |x| {
      assert u[..|x|] != x;
    }
  }

  /** When x does not start s, its first occurrence in s is one past its
      first occurrence in s without its first character. */
  lemma FindPastStart(s: string, x: string)
    requires x != [] && |x| <= |s| && s[..|x|] != x
    ensures Find(s[1..], x).None? ==> Find(s, x) == None
    ensures Find(s[1..], x).Some? ==> Find(s, x) == Some(Find(s[1..], x).value + 1)
  {
  }

  /** x does not start u + v when it does not start u and v's first
      character appears in x only at its start. */
  lemma NoMatchAtStart(u: string, v: string, x: string)
    requires x != [] && v != [] && u != []
    requires |x| <= |u| ==> u[..|x|] != x
    requires forall k :: 1 <= k < |x| ==> x[k] != v[0]
    ensures !(|x| <= |u + v| && (u + v)[..|x|] == x)
  {
    var s := u + v;
    if |x| <= |s| {
      if |x| <= |u| {
        assert s[..|x|] == u[..|x|];
      } else {
        assert s[..|x|][|u|] == v[0] != x[|u|];
      }
    }
  }

  /** Find in a concatenation u + v, when x does not occur in u and cannot
      straddle the seam because v's first character appears in x only at
      its start: every occurrence lies in v. */
  lemma {:induction false} FindInConcat(u: string, v: string, x: string)
    requires x != [] && v != [] && Find(u, x) == None
    requires forall k :: 1 <= k < |x| ==> x[k] != v[0]
    ensures Find(v, x).None? ==> Find(u + v, x) == None
    ensures Find(v, x).Some? ==> Find(u + v, x) == Some(|u| + Find(v, x).value)
  {
    if u == [] {
      assert u + v == v;
    } else {
      var s := u + v;
      assert s[1..] == u[1..] + v;
      FindTail(u, x);
      FindInConcat(u[1..], v, x);
      NoMatchAtStart(u, v, x);
      if |x| <= |s| {
        FindPastStart(s, x);
      }
    }
  }

  /** Concatenation regroups freely. */
  lemma ConcatAssoc(a: string, b: string, c: string)
    ensures (a + b) + c == a + (b + c)
  {
  }

  /** `sep.join(parts)` */
  function Join(parts: seq<string>, sep: string): string
  {
    if parts == [] then ""
    else if |parts| == 1 then parts[0]
    else parts[0] + sep + Join(parts[1..], sep)
  }

  /** Joining two non-empty lists: the two joins with one separator
      between them. */
  lemma {:induction false} JoinAppend(a: seq<string>, b: seq<string>, sep: string)
    requires a != [] && b != []
    ensures Join(a + b, sep) == Join(a, sep) + sep + Join(b, sep)
  {
    var ab := a + b;
    if |a| == 1 {
      assert ab[0] == a[0] && ab[1..] == b;
    } else {
      assert ab[0] == a[0] && ab[1..] == a[1..] + b;
      JoinAppend(a[1..], b, sep);
    }
  }

  /** `s.split(sep)` for a non-empty separator: the pieces between the
      non-overlapping occurrences of sep, found from left to right. Joining
      them again with sep gives back s, and no piece holds sep. */
  function Split(s: string, sep: string): (parts: seq<string>)
    requires sep != []
    ensures |parts| >= 1
    ensures Join(parts, sep) == s
    ensures forall k :: 0 <= k < |parts| ==> Find(parts[k], sep) == None
    decreases |s|
  {
    match Find(s, sep)
    case None => [s]
    case Some(i) =>
      FindSpec(s, sep);
      var head := s[..i];
      assert Find(head, sep) == None by {
        FindSpec(head, sep);
        forall j | 0 <= j ensures !OccursAt(head, sep, j) {
          if OccursAt(head, sep, j) {
            assert s[j..j + |sep|] == head[j..j + |sep|];
            assert OccursAt(s, sep, j);
          }
        }
      }
      var tail := Split(s[i + |sep|..], sep);
      assert s == head + sep + s[i + |sep|..] by {
        assert s[i..i + |sep|] == sep;
      }
      [head] + tail
  }

  /** Splitting on a single character inverts joining with it, provided no
      piece holds that character. */
  lemma {:induction false} SplitJoin(parts: seq<string>, c: char)
    requires parts != []
    requires forall k :: 0 <= k < |parts| ==> c !in parts[k]
    ensures Split(Join(parts, [c]), [c]) == parts
  {
    var s := Join(parts, [c]);
    if |parts| == 1 {
      FindAbsentChar(parts[0], c);
    } else {
      var rest := Join(parts[1..], [c]);
      assert s == parts[0] + [c] + rest;
      var h := parts[0];
      assert OccursAt(s, [c], |h|) by {
        assert s[|h|..|h| + 1] == [c];
      }
      forall j | 0 <= j < |h| ensures !OccursAt(s, [c], j) {
        assert s[j] == h[j] != c;
        assert s[j..j + 1] != [c];
      }
      FindSpec(s, [c]);
      var r := Find(s, [c]).value;
      assert r == |h|;
      assert s[..r] == h;
      assert s[r + 1..] == rest;
      SplitJoin(parts[1..], c);
    }
  }

  /** Splitting at a separator character: everything before its first
      occurrence is the first part. */
  lemma SplitAtChar(x: string, c: char, y: string)
    requires c !in x
    ensures Split(x + [c] + y, [c]) == [x] + Split(y, [c])
  {
    var s := x + [c] + y;
    assert OccursAt(s, [c], |x|) by {
      assert s[|x|..|x| + 1] == [c];
    }
    forall j | 0 <= j < |x| ensures !OccursAt(s, [c], j) {
      assert s[j] == x[j] != c;
      assert s[j..j + 1] != [c];
    }
    FindSpec(s, [c]);
    assert Find(s, [c]) == Some(|x|);
    assert s[..|x|] == x;
    assert s[|x| + 1..] == y;
  }

  /** `s.replace(target, repl)`: every non-overlapping occurrence of
      target, found from left to right, replaced by repl. */
  function ReplaceAll(s: string, target: string, repl: string): (r: string)
    requires target != []
    decreases |s|
  {
    if StartsWith(s, target) then repl + ReplaceAll(s[|target|..], target, repl)
    else if s == [] then []
    else [s[0]] + ReplaceAll(s[1..], target, repl)
  }

  /** A prefix that cannot start an occurrence of target (because it never
      holds target's first character) passes through a replacement unchanged. */
  lemma {:induction false} ReplaceAllKeepsPrefix(a: string, b: string, target: string, repl: string)
    requires target != []
    requires target[0] !in a
    ensures ReplaceAll(a + b, target, repl) == a + ReplaceAll(b, target, repl)
  {
    if a != [] {
      assert (a + b)[0] == a[0] != target[0];
      assert !StartsWith(a + b, target);
      assert (a + b)[1..] == a[1..] + b;
      ReplaceAllKeepsPrefix(a[1..], b, target, repl);
      calc {
        ReplaceAll(a + b, target, repl);
        [a[0]] + ReplaceAll(a[1..] + b, target, repl);
        [a[0]] + (a[1..] + ReplaceAll(b, target, repl));
        { assert a == [a[0]] + a[1..]; }
        a + ReplaceAll(b, target, repl);
      }
    } else {
      assert a + b == b;
    }
  }

  /** The characters Python's str.isspace() accepts, used by str.strip(). */
  predicate IsSpace(c: char) {
    || c == '\t' || c == '\n' || c == '\U{0B}' || c == '\U{0C}' || c == '\r'
    || ('\U{1C}' <= c <= '\U{1F}') || c == ' ' || c == '\U{85}' || c == '\U{A0}'
    || c == '\U{1680}' || ('\U{2000}' <= c <= '\U{200A}') || c == '\U{2028}' || c == '\U{2029}'
    || c == '\U{202F}' || c == '\U{205F}' || c == '\U{3000}'
  }

  /** `s.lstrip()` */
  function StripLeft(s: string): string
    decreases |s|
  {
    if s != [] && IsSpace(s[0]) then StripLeft(s[1..]) else s
  }

  /** `s.rstrip()` */
  function StripRight(s: string): string
    decreases |s|
  {
    if s != [] && IsSpace(s[|s| - 1]) then StripRight(s[..|s| - 1]) else s
  }

  /** `s.strip()`: s without its leading and trailing whitespace. */
  function Strip(s: string): string {
    StripRight(StripLeft(s))
  }

  /** lstrip removes a run of whitespace from the front and stops at the
      first character that is not whitespace. */
  lemma {:induction false} StripLeftSpec(s: string)
    ensures var r := StripLeft(s);
            && |r| <= |s| && r == s[|s| - |r|..]
            && (forall i :: 0 <= i < |s| - |r| ==> IsSpace(s[i]))
            && (r != [] ==> !IsSpace(r[0]))
    decreases |s|
  {
    if s != [] && IsSpace(s[0]) {
      StripLeftSpec(s[1..]);
      var r := StripLeft(s);
      assert r == StripLeft(s[1..]);
      assert s[1..][|s| - 1 - |r|..] == s[|s| - |r|..];
      forall i | 0 <= i < |s| - |r| ensures IsSpace(s[i]) {
        if i > 0 {
          assert s[i] == s[1..][i - 1];
        }
      }
    }
  }

  /** rstrip removes a run of whitespace from the back and stops at the
      last character that is not whitespace. */
  lemma {:induction false} StripRightSpec(s: string)
    ensures var r := StripRight(s);
            && |r| <= |s| && r == s[..|r|]
            && (forall i :: |r| <= i < |s| ==> IsSpace(s[i]))
            && (r != [] ==> !IsSpace(r[|r| - 1]))
    decreases |s|
  {
    if s != [] && IsSpace(s[|s| - 1]) {
      var t := s[..|s| - 1];
      StripRightSpec(t);
      var r := StripRight(s);
      assert r == StripRight(t);
      assert t[..|r|] == s[..|r|];
      forall i | |r| <= i < |s| ensures IsSpace(s[i]) {
        if i < |s| - 1 {
          assert s[i] == t[i];
        }
      }
    }
  }

  /** s is r with whitespace in front (i characters of it) and behind. */
  predicate PaddedAt(s: string, r: string, i: int) {
    && 0 <= i <= |s| - |r| && r == s[i..i + |r|]
    && (forall k :: 0 <= k < i ==> IsSpace(s[k]))
    && (forall k :: i + |r| <= k < |s| ==> IsSpace(s[k]))
  }

  /** s has no whitespace at either end. */
  predicate Unpadded(s: string) {
    s == [] || (!IsSpace(s[0]) && !IsSpace(s[|s| - 1]))
  }

  /** strip removes exactly the whitespace around the string: what is left
      has none at either end, and it sits in s between whitespace only. */
  lemma StripSpec(s: string)
    ensures Unpadded(Strip(s))
    ensures exists i :: PaddedAt(s, Strip(s), i)
  {
    var left := StripLeft(s);
    var r := Strip(s);
    StripLeftSpec(s);
    StripRightSpec(left);
    var i := |s| - |left|;
    if r != [] {
      assert r[0] == left[0];
    }
    forall k | i + |r| <= k < |s| ensures IsSpace(s[k]) {
      assert s[k] == left[k - i];
    }
    assert r == s[i..i + |r|];
    assert PaddedAt(s, r, i);
  }

  /** A string with no surrounding whitespace is its own strip. */
  lemma StripUnpadded(s: string)
    requires Unpadded(s)
    ensures Strip(s) == s
  {
  }

  /** Stripping keeps a first character that is not whitespace. */
  lemma StripKeepsFirst(s: string)
    requires s != [] && !IsSpace(s[0])
    ensures Strip(s) != [] && Strip(s)[0] == s[0]
  {
    var r := Strip(s);
    StripSpec(s);
    var i :| PaddedAt(s, r, i);
    assert i == 0 && r != [];
    assert r[0] == s[i];
  }

  /** A string made only of whitespace strips to the empty string. */
  lemma {:induction false} StripAllSpace(s: string)
    requires forall k :: 0 <= k < |s| ==> IsSpace(s[k])
    ensures Strip(s) == ""
  {
    if s != [] {
      StripAllSpace(s[1..]);
      assert StripLeft(s) == StripLeft(s[1..]);
    }
  }

  /** `s.rstrip(c)` for one character c. */
  function RStripChar(s: string, c: char): (r: string)
    ensures |r| <= |s| && r == s[..|r|]
    ensures forall i :: |r| <= i < |s| ==> s[i] == c
    ensures r == [] || r[|r| - 1] != c
    decreases |s|
  {
    if s != [] && s[|s| - 1] == c then RStripChar(s[..|s| - 1], c) else s
  }

  /** str.lower() restricted to ASCII letters. */
  function LowerChar(c: char): char {
    if 'A' <= c <= 'Z' then (c as int + 32) as char else c
  }

  /** Lowering leaves no capital behind, turns each capital into the same
      letter in lower case and touches nothing else. */
  function AsciiLower(s: string): (r: string)
    ensures |r| == |s|
    ensures forall i :: 0 <= i < |r| ==> !('A' <= r[i] <= 'Z')
    ensures forall i :: 0 <= i < |s| && !('A' <= s[i] <= 'Z') ==> r[i] == s[i]
    ensures forall i :: 0 <= i < |s| && 'A' <= s[i] <= 'Z'
                        ==> 'a' <= r[i] <= 'z' && r[i] as int - 'a' as int == s[i] as int - 'A' as int
  {
    seq(|s|, i requires 0 <= i < |s| => LowerChar(s[i]))
  }

  /** Lowering twice is lowering once. */
  lemma AsciiLowerIdempotent(s: string)
    ensures AsciiLower(AsciiLower(s)) == AsciiLower(s)
  {
  }
}
