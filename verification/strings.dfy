/**
 * Character classes and string helpers shared by every converter.
 *
 * Python's `str.isspace` set is modelled exactly; `\w`, `\d` and
 * `str.lower` are modelled on ASCII (see README, "Left out").
 */
module Strings {

  import opened Wrappers

  /** The characters `str.isspace` accepts; also what `\s` matches in a str pattern. */
  predicate IsSpace(c: char)
  {
    var n := c as int;
    (9 <= n <= 13) || (28 <= n <= 32) || n == 0x85 || n == 0xA0 || n == 0x1680
    || (0x2000 <= n <= 0x200A) || n == 0x2028 || n == 0x2029 || n == 0x202F
    || n == 0x205F || n == 0x3000
  }

  predicate IsDigit(c: char) { '0' <= c <= '9' }

  predicate IsAsciiLower(c: char) { 'a' <= c <= 'z' }

  predicate IsAsciiUpper(c: char) { 'A' <= c <= 'Z' }

  /** `\w` on ASCII: letters, digits and underscore. */
  predicate IsWordChar(c: char)
  {
    IsDigit(c) || IsAsciiLower(c) || IsAsciiUpper(c) || c == '_'
  }

  predicate IsLowerHex(c: char) { IsDigit(c) || 'a' <= c <= 'f' }

  function Lower(c: char): char
  {
    if IsAsciiUpper(c) then (c as int + 32) as char else c
  }

  function Upper(c: char): char
  {
    if IsAsciiLower(c) then (c as int - 32) as char else c
  }

  function LowerStr(s: string): (r: string)
    ensures |r| == |s|
    ensures forall i :: 0 <= i < |s| ==> r[i] == Lower(s[i])
  {
    seq(|s|, i requires 0 <= i < |s| => Lower(s[i]))
  }

  function UpperStr(s: string): (r: string)
    ensures |r| == |s|
    ensures forall i :: 0 <= i < |s| ==> r[i] == Upper(s[i])
  {
    seq(|s|, i requires 0 <= i < |s| => Upper(s[i]))
  }

  /** Lower-casing forgets an earlier upper-casing: the comparisons that ignore case agree. */
  lemma LowerUpper(s: string)
    ensures LowerStr(UpperStr(s)) == LowerStr(s)
  {
  }

  /** `not s.strip()`: nothing but whitespace. */
  predicate IsBlank(s: string)
  {
    forall i :: 0 <= i < |s| ==> IsSpace(s[i])
  }

  predicate StartsWith(s: string, p: string)
  {
    |p| <= |s| && s[..|p|] == p
  }

  predicate EndsWith(s: string, p: string)
  {
    |p| <= |s| && s[|s| - |p|..] == p
  }

  predicate OccursAt(s: string, t: string, i: int)
  {
    0 <= i && i + |t| <= |s| && s[i..i + |t|] == t
  }

  /** Python's `t in s`. */
  predicate Contains(s: string, t: string)
  {
    exists i :: 0 <= i <= |s| && OccursAt(s, t, i)
  }

  predicate ContainsChar(s: string, c: char)
  {
    exists i :: 0 <= i < |s| && s[i] == c
  }

  /** The first index at or after `i` where `t` occurs in `s` (`s.find(t, i)`). */
  function FindFrom(s: string, t: string, i: nat): (r: Option<nat>)
    requires i <= |s|
    ensures r.Some? ==> i <= r.value && OccursAt(s, t, r.value)
    ensures r.Some? ==> forall k :: i <= k < r.value ==> !OccursAt(s, t, k)
    ensures r.None? ==> forall k :: i <= k ==> !OccursAt(s, t, k)
    decreases |s| - i
  {
    if OccursAt(s, t, i) then Some(i)
    else if i == |s| then None
    else FindFrom(s, t, i + 1)
  }

  /** `t in s`, computed. */
  function HasSub(s: string, t: string): (b: bool)
    ensures b <==> Contains(s, t)
  {
    var r := FindFrom(s, t, 0);
    assert r.Some? ==> r.value <= |s|;
    r.Some?
  }

  /** The first index at or after `i` holding a character of `cs`, or `|s|`. */
  function FirstIn(s: string, cs: set<char>, i: nat): (j: nat)
    requires i <= |s|
    ensures i <= j <= |s|
    ensures forall k :: i <= k < j ==> s[k] !in cs
    ensures j < |s| ==> s[j] in cs
    decreases |s| - i
  {
    if i == |s| || s[i] in cs then i else FirstIn(s, cs, i + 1)
  }

  /** `FirstIn` is pinned down by the first hit. */
  lemma FirstInIs(s: string, cs: set<char>, i: nat, j: nat)
    requires i <= j <= |s|
    requires j < |s| ==> s[j] in cs
    requires forall k :: i <= k < j ==> s[k] !in cs
    ensures FirstIn(s, cs, i) == j
  {
  }

  /** `FindFrom` is pinned down by the first occurrence. */
  lemma {:induction false} FindFromIs(s: string, t: string, i: nat, j: nat)
    requires i <= j && OccursAt(s, t, j)
    requires forall k :: i <= k < j ==> !OccursAt(s, t, k)
    ensures FindFrom(s, t, i) == Some(j)
    decreases j - i
  {
    if i < j {
      FindFromIs(s, t, i + 1, j);
    }
  }

  /** Some keyword of `kws` occurs somewhere in `s`. */
  function AnyContained(s: string, kws: seq<string>): (b: bool)
    ensures b <==> exists k :: 0 <= k < |kws| && Contains(s, kws[k])
  {
    if kws == [] then false
    else
      var found := FindFrom(s, kws[0], 0);
      assert found.Some? ==> Contains(s, kws[0]);
      assert Contains(s, kws[0]) ==> found.Some?;
      found.Some? || AnyContained(s, kws[1..])
  }

  /** Python's `s.count(c)` for a single character. */
  function Count(s: string, c: char): (n: nat)
    ensures n <= |s|
    ensures n == 0 <==> !ContainsChar(s, c)
  {
    if s == [] then 0
    else (if s[|s| - 1] == c then 1 else 0) + Count(s[..|s| - 1], c)
  }

  /** Index of the first non-space character at or after `i`. */
  function SkipSpaces(s: string, i: nat): (j: nat)
    requires i <= |s|
    ensures i <= j <= |s|
    ensures forall k :: i <= k < j ==> IsSpace(s[k])
    ensures j == |s| || !IsSpace(s[j])
    decreases |s| - i
  {
    if i == |s| || !IsSpace(s[i]) then i else SkipSpaces(s, i + 1)
  }

  /** Index just past the last non-space character. */
  function TrimEndLength(s: string): (n: nat)
    ensures n <= |s|
    ensures forall k :: n <= k < |s| ==> IsSpace(s[k])
    ensures n == 0 || !IsSpace(s[n - 1])
  {
    if |s| > 0 && IsSpace(s[|s| - 1]) then TrimEndLength(s[..|s| - 1]) else |s|
  }

  predicate IsStripped(s: string)
  {
    s == [] || (!IsSpace(s[0]) && !IsSpace(s[|s| - 1]))
  }

  /** `r` is the slice of `s` starting at `a`. */
  predicate SliceAt(s: string, r: string, a: int)
  {
    0 <= a <= |s| - |r| && r == s[a..a + |r|]
  }

  /** Python's `s.strip()`: the slice of `s` between its leading and trailing whitespace. */
  function Strip(s: string): (r: string)
    ensures IsStripped(r)
    ensures r == [] <==> IsBlank(s)
    ensures exists a :: SliceAt(s, r, a) && IsBlank(s[..a]) && IsBlank(s[a + |r|..])
  {
    var a := SkipSpaces(s, 0);
    var b := TrimEndLength(s);
    if a == |s| then
      assert s[..a] == s;
      assert SliceAt(s, [], a) && IsBlank(s[a..]);
      []
    else
      assert a < b;
      var r := s[a..b];
      assert SliceAt(s, r, a) && IsBlank(s[a + |r|..]);
      r
  }

  /** Where `Strip` cuts: blank text before it and after it. */
  lemma StripAt(s: string) returns (a: nat)
    ensures SliceAt(s, Strip(s), a) && IsBlank(s[..a]) && IsBlank(s[a + |Strip(s)|..])
    ensures forall i :: 0 <= i < |Strip(s)| ==> Strip(s)[i] == s[a + i]
  {
    a := SkipSpaces(s, 0);
    if a == |s| {
      assert s[..a] == s;
    }
  }

  /** Every character of a stripped text comes from the text. */
  lemma StripFromText(s: string)
    ensures forall x :: x in Strip(s) ==> x in s
  {
    var r := Strip(s);
    var a := StripAt(s);
    forall x | x in r ensures x in s {
      var i :| 0 <= i < |r| && r[i] == x;
      assert s[a + i] == x;
    }
  }

  /** No two spaces in a row. */
  predicate NoDoubleSpace(s: string)
  {
    forall i :: 0 <= i < |s| - 1 ==> !(s[i] == ' ' && s[i + 1] == ' ')
  }

  /** A slice of a text without double spaces has none either. */
  lemma SliceNoDoubleSpace(s: string, a: nat, b: nat)
    requires NoDoubleSpace(s) && a <= b <= |s|
    ensures NoDoubleSpace(s[a..b])
  {
    var p := s[a..b];
    forall i | 0 <= i < |p| - 1 ensures !(p[i] == ' ' && p[i + 1] == ' ') {
      assert p[i] == s[a + i] && p[i + 1] == s[a + i + 1];
    }
  }

  /** Stripping a text without double spaces leaves none. */
  lemma StripNoDoubleSpace(s: string)
    requires NoDoubleSpace(s)
    ensures NoDoubleSpace(Strip(s))
  {
    var a := StripAt(s);
    SliceNoDoubleSpace(s, a, a + |Strip(s)|);
  }

  /** Two texts are blank together exactly when their concatenation is. */
  lemma BlankConcat(p: string, q: string)
    ensures IsBlank(p + q) <==> IsBlank(p) && IsBlank(q)
  {
    if IsBlank(p + q) {
      forall i | 0 <= i < |p| ensures IsSpace(p[i]) { assert (p + q)[i] == p[i]; }
      forall i | 0 <= i < |q| ensures IsSpace(q[i]) { assert (p + q)[|p| + i] == q[i]; }
    }
  }

  /** Stripping text that is already stripped changes nothing. */
  lemma StripStripped(s: string)
    requires IsStripped(s)
    ensures Strip(s) == s
  {
    if s != [] {
      assert SkipSpaces(s, 0) == 0;
      assert TrimEndLength(s) == |s|;
      assert s[0..|s|] == s;
    }
  }

  /** Index of the first character at or after `i` that is not in `chars`. */
  function SkipChars(s: string, chars: set<char>, i: nat): (j: nat)
    requires i <= |s|
    ensures i <= j <= |s|
    ensures forall k :: i <= k < j ==> s[k] in chars
    ensures j == |s| || s[j] !in chars
    decreases |s| - i
  {
    if i == |s| || s[i] !in chars then i else SkipChars(s, chars, i + 1)
  }

  /** Index just past the last character of `s[a..]` that is not in `chars`. */
  function TrimCharsEnd(s: string, chars: set<char>, a: nat, n: nat): (m: nat)
    requires a <= n <= |s|
    ensures a <= m <= n
    ensures m == a || s[m - 1] !in chars
    ensures forall k :: m <= k < n ==> s[k] in chars
    decreases n
  {
    if n > a && s[n - 1] in chars then TrimCharsEnd(s, chars, a, n - 1) else n
  }

  /** Everything of `s` outside `s[a..b]` is in `chars`. */
  predicate StrippedOff(s: string, chars: set<char>, a: int, b: int)
    requires 0 <= a <= b <= |s|
  {
    (forall k :: 0 <= k < a ==> s[k] in chars) && (forall k :: b <= k < |s| ==> s[k] in chars)
  }

  /** A suffix is the slice up to `j` followed by the suffix from `j`. */
  lemma SuffixSplit<T>(s: seq<T>, i: nat, j: nat)
    requires i <= j <= |s|
    ensures s[i..] == s[i..j] + s[j..]
  {
  }

  /** Where `strip(chars)` cuts: the text before it and after it is all in `chars`. */
  lemma StripCharsAt(s: string, chars: set<char>) returns (a: nat)
    ensures SliceAt(s, StripChars(s, chars), a)
    ensures StrippedOff(s, chars, a, a + |StripChars(s, chars)|)
    ensures forall c :: c in s[..a] ==> c in chars
    ensures forall c :: c in s[a + |StripChars(s, chars)|..] ==> c in chars
  {
    a := SkipChars(s, chars, 0);
    var b := a + |StripChars(s, chars)|;
    assert forall k :: 0 <= k < a ==> s[..a][k] == s[k];
    assert forall k :: 0 <= k < |s| - b ==> s[b..][k] == s[b + k];
  }

  /** Python's `s.strip(chars)` for an explicit set of characters. */
  function StripChars(s: string, chars: set<char>): (r: string)
    ensures |r| <= |s|
    ensures r == [] || (r[0] !in chars && r[|r| - 1] !in chars)
    ensures exists a :: SliceAt(s, r, a) && StrippedOff(s, chars, a, a + |r|)
  {
    var a := SkipChars(s, chars, 0);
    var b := TrimCharsEnd(s, chars, a, |s|);
    assert SliceAt(s, s[a..b], a) && StrippedOff(s, chars, a, b);
    s[a..b]
  }

  /** The non-whitespace characters of `s`, in order. */
  function NonSpace(s: string): string
  {
    if s == [] then []
    else if IsSpace(s[0]) then NonSpace(s[1..])
    else [s[0]] + NonSpace(s[1..])
  }

  lemma {:induction false} NonSpaceSkipsBlank(s: string, j: nat)
    requires j <= |s|
    requires IsBlank(s[..j])
    ensures NonSpace(s) == NonSpace(s[j..])
    decreases j
  {
    if j > 0 {
      assert IsSpace(s[..j][0]);
      assert s[1..][..j - 1] == s[1..j];
      NonSpaceSkipsBlank(s[1..], j - 1);
      assert s[1..][j - 1..] == s[j..];
    }
  }

  /** Whitespace only as single `' '` characters. */
  predicate SingleSpaced(s: string)
  {
    && (forall i :: 0 <= i < |s| && IsSpace(s[i]) ==> s[i] == ' ')
    && (forall i :: 0 <= i < |s| - 1 ==> !(IsSpace(s[i]) && IsSpace(s[i + 1])))
  }

  /** Stripping keeps single spacing and adds no character. */
  lemma StripSingleSpaced(s: string)
    requires SingleSpaced(s)
    ensures SingleSpaced(Strip(s))
    ensures forall c :: c in Strip(s) ==> c in s
  {
    var a := StripAt(s);
  }

  /**
   * `re.sub(r'\s+', ' ', s)`: every maximal whitespace run becomes one space.
   * The result holds no whitespace but ' ' and no two whitespace characters in a row.
   */
  function SqueezeSpaces(s: string): (r: string)
    ensures forall i :: 0 <= i < |r| && IsSpace(r[i]) ==> r[i] == ' '
    ensures forall i :: 0 <= i < |r| - 1 ==> !(IsSpace(r[i]) && IsSpace(r[i + 1]))
    ensures r == [] <==> s == []
    ensures r != [] ==> (IsSpace(r[0]) <==> IsSpace(s[0]))
    ensures forall i :: 0 <= i < |r| && r[i] != ' ' ==> r[i] in s
    decreases |s|
  {
    if s == [] then []
    else if IsSpace(s[0]) then
      var j := SkipSpaces(s, 0);
      [' '] + SqueezeSpaces(s[j..])
    else [s[0]] + SqueezeSpaces(s[1..])
  }

  /** Squeezing whitespace never adds, drops or reorders a non-space character. */
  lemma {:induction false} SqueezeKeepsText(s: string)
    ensures NonSpace(SqueezeSpaces(s)) == NonSpace(s)
    decreases |s|
  {
    if s != [] {
      if IsSpace(s[0]) {
        var j := SkipSpaces(s, 0);
        SqueezeKeepsText(s[j..]);
        NonSpaceSkipsBlank(s, j);
        var r := SqueezeSpaces(s);
        assert r == [' '] + SqueezeSpaces(s[j..]);
        assert r[1..] == SqueezeSpaces(s[j..]);
      } else {
        SqueezeKeepsText(s[1..]);
        var r := SqueezeSpaces(s);
        assert r[1..] == SqueezeSpaces(s[1..]);
      }
    }
  }

  /** Text already squeezed is its own squeeze. */
  lemma {:induction false} SqueezeIdentity(s: string)
    requires forall i :: 0 <= i < |s| && IsSpace(s[i]) ==> s[i] == ' '
    requires forall i :: 0 <= i < |s| - 1 ==> !(IsSpace(s[i]) && IsSpace(s[i + 1]))
    ensures SqueezeSpaces(s) == s
    decreases |s|
  {
    if s != [] {
      if IsSpace(s[0]) {
        assert SkipSpaces(s, 0) == 1 by {
          assert |s| == 1 || !IsSpace(s[1]);
        }
      }
      SqueezeIdentity(s[1..]);
      assert s == [s[0]] + s[1..];
    }
  }

  /** Python's `str.split()` with no separator: the maximal non-whitespace runs. */
  function Words(s: string): (ws: seq<string>)
    ensures forall k :: 0 <= k < |ws| ==> ws[k] != [] && !exists i :: 0 <= i < |ws[k]| && IsSpace(ws[k][i])
    decreases |s|
  {
    var a := SkipSpaces(s, 0);
    if a == |s| then []
    else
      var b := WordEnd(s, a);
      [s[a..b]] + Words(s[b..])
  }

  /** Index of the first whitespace character at or after `i`. */
  function WordEnd(s: string, i: nat): (j: nat)
    requires i <= |s|
    ensures i <= j <= |s|
    ensures forall k :: i <= k < j ==> !IsSpace(s[k])
    ensures j == |s| || IsSpace(s[j])
    decreases |s| - i
  {
    if i == |s| || IsSpace(s[i]) then i else WordEnd(s, i + 1)
  }

  /** `WordEnd` is pinned down by the first whitespace character. */
  lemma {:induction false} WordEndIs(s: string, i: nat, j: nat)
    requires i <= j <= |s|
    requires forall k :: i <= k < j ==> !IsSpace(s[k])
    requires j == |s| || IsSpace(s[j])
    ensures WordEnd(s, i) == j
    decreases j - i
  {
    if i < j {
      WordEndIs(s, i + 1, j);
    }
  }

  /** A word followed by text that starts with whitespace is split off first. */
  lemma WordsCons(w: string, rest: string)
    requires w != [] && forall k :: 0 <= k < |w| ==> !IsSpace(w[k])
    requires rest == [] || IsSpace(rest[0])
    ensures Words(w + rest) == [w] + Words(rest)
  {
    var s := w + rest;
    assert SkipSpaces(s, 0) == 0 by {
      assert s[0] == w[0];
    }
    WordEndIs(s, 0, |w|);
    assert s[0..|w|] == w && s[|w|..] == rest;
  }

  /** Text without adjacent `c` is left as it is. */
  lemma {:induction false} CollapseRunsIdentity(s: string, c: char)
    requires forall i :: 0 <= i < |s| - 1 ==> !(s[i] == c && s[i + 1] == c)
    ensures CollapseRuns(s, c) == s
    decreases |s|
  {
    if s != [] {
      if s[0] == c {
        assert SkipChars(s, {c}, 0) == 1 by {
          assert |s| == 1 || s[1] != c;
        }
      }
      CollapseRunsIdentity(s[1..], c);
      assert s == [s[0]] + s[1..];
    }
  }

  /** The characters of `s` that satisfy `keep`, in order (`re.sub` of a character class with `''`). */
  function Filter(s: string, keep: char -> bool): (r: string)
    ensures |r| <= |s|
    ensures forall i :: 0 <= i < |r| ==> keep(r[i])
    ensures forall c :: c in r <==> c in s && keep(c)
    ensures (forall i :: 0 <= i < |s| ==> keep(s[i])) ==> r == s
    decreases |s|
  {
    if s == [] then []
    else if keep(s[0]) then [s[0]] + Filter(s[1..], keep)
    else Filter(s[1..], keep)
  }

  /** Python's `s.split(c)` for one separator character: every piece, empty ones included. */
  function Split(s: string, c: char): (parts: seq<string>)
    ensures |parts| >= 1
    ensures forall k :: 0 <= k < |parts| ==> c !in parts[k]
    ensures forall k, x :: 0 <= k < |parts| && x in parts[k] ==> x in s
    decreases |s|
  {
    var j := FirstIn(s, {c}, 0);
    if j == |s| then [s]
    else
      var rest := Split(s[j + 1..], c);
      var parts := [s[..j]] + rest;
      assert forall k, x :: 0 <= k < |parts| && x in parts[k] ==> x in s by {
        forall k, x | 0 <= k < |parts| && x in parts[k] ensures x in s {
          if k == 0 {
            var i :| 0 <= i < j && s[..j][i] == x;
            assert s[i] == x;
          } else {
            assert x in rest[k - 1];
            var t := s[j + 1..];
            assert x in t;
            var i :| 0 <= i < |t| && t[i] == x;
            assert s[j + 1 + i] == x;
          }
        }
      }
      parts
  }

  /** Splitting and joining with the same separator gives the text back. */
  lemma {:induction false} JoinSplit(s: string, c: char)
    ensures Join(Split(s, c), [c]) == s
    decreases |s|
  {
    var j := FirstIn(s, {c}, 0);
    if j < |s| {
      JoinSplit(s[j + 1..], c);
      var rest := Split(s[j + 1..], c);
      assert Split(s, c) == [s[..j]] + rest;
      assert (Split(s, c))[1..] == rest;
      assert s == s[..j] + [c] + s[j + 1..];
    }
  }

  /** Joining pieces free of the separator and splitting again gives the pieces back. */
  lemma {:induction false} SplitJoin(parts: seq<string>, c: char)
    requires parts != []
    requires forall k :: 0 <= k < |parts| ==> c !in parts[k]
    ensures Split(Join(parts, [c]), c) == parts
    decreases |parts|
  {
    var s := Join(parts, [c]);
    var p := parts[0];
    if |parts| == 1 {
      FirstInIs(s, {c}, 0, |s|);
    } else {
      var tail := parts[1..];
      var rest := Join(tail, [c]);
      assert s == p + [c] + rest;
      assert c !in p;
      forall k | 0 <= k < |tail| ensures c !in tail[k] {
        assert tail[k] == parts[k + 1];
      }
      SplitCons(p, rest, c);
      SplitJoin(tail, c);
      assert parts == [p] + tail;
    }
  }

  /** A piece free of `c`, then `c`: splitting peels the piece off. */
  lemma SplitCons(p: string, rest: string, c: char)
    requires c !in p
    ensures Split(p + [c] + rest, c) == [p] + Split(rest, c)
  {
    var s := p + [c] + rest;
    FirstInIs(s, {c}, 0, |p|);
    var head, tail := s[..|p|], s[|p| + 1..];
    assert head == p && tail == rest;
  }

  /** `re.sub(c + '+', c, s)`: every run of `c` becomes one `c`. */
  function CollapseRuns(s: string, c: char): (r: string)
    ensures forall i :: 0 <= i < |r| - 1 ==> !(r[i] == c && r[i + 1] == c)
    ensures r == [] <==> s == []
    ensures r != [] ==> (r[0] == c <==> s[0] == c)
    ensures forall x :: x in r ==> x in s
    decreases |s|
  {
    if s == [] then []
    else if s[0] == c then
      var j := SkipChars(s, {c}, 0);
      [c] + CollapseRuns(s[j..], c)
    else [s[0]] + CollapseRuns(s[1..], c)
  }

  /** Collapsing runs keeps every other character, in order. */
  lemma {:induction false} CollapseRunsKeeps(s: string, c: char)
    ensures Filter(CollapseRuns(s, c), x => x != c) == Filter(s, x => x != c)
    decreases |s|
  {
    if s != [] {
      var r := CollapseRuns(s, c);
      if s[0] == c {
        var j := SkipChars(s, {c}, 0);
        CollapseRunsKeeps(s[j..], c);
        assert r[1..] == CollapseRuns(s[j..], c);
        FilterSkips(s, c, j);
      } else {
        CollapseRunsKeeps(s[1..], c);
        assert r[1..] == CollapseRuns(s[1..], c);
      }
    }
  }

  /** A leading run of `c` is dropped by the filter that removes `c`. */
  lemma {:induction false} FilterSkips(s: string, c: char, j: nat)
    requires j <= |s|
    requires forall k :: 0 <= k < j ==> s[k] == c
    ensures Filter(s, x => x != c) == Filter(s[j..], x => x != c)
    decreases j
  {
    if j > 0 {
      FilterSkips(s[1..], c, j - 1);
      assert s[1..][j - 1..] == s[j..];
    }
  }

  /** Filtering distributes over concatenation. */
  lemma FilterConcat(a: string, b: string, keep: char -> bool)
    ensures Filter(a + b, keep) == Filter(a, keep) + Filter(b, keep)
  {
    FilterIsKept(a + b, keep);
    FilterIsKept(a, keep);
    FilterIsKept(b, keep);
    KeptConcat(a, b, keep);
  }

  /** Dropping everything around `r` filters down to `r`'s own kept characters. */
  lemma FilterMiddle(pre: string, r: string, post: string, keep: char -> bool)
    requires Filter(pre, keep) == [] && Filter(post, keep) == []
    ensures Filter(pre + r + post, keep) == Filter(r, keep)
  {
    FilterConcat(pre + r, post, keep);
    FilterConcat(pre, r, keep);
  }

  /** `Filter` without its contract: what each character contributes, in order. */
  function Kept(s: string, keep: char -> bool): string
  {
    if s == [] then [] else (if keep(s[0]) then [s[0]] else []) + Kept(s[1..], keep)
  }

  lemma {:induction false} FilterIsKept(s: string, keep: char -> bool)
    ensures Filter(s, keep) == Kept(s, keep)
    decreases |s|
  {
    if s != [] {
      FilterIsKept(s[1..], keep);
    }
  }

  lemma {:induction false} KeptConcat(a: string, b: string, keep: char -> bool)
    ensures Kept(a + b, keep) == Kept(a, keep) + Kept(b, keep)
    decreases |a|
  {
    if a != [] {
      KeptConcat(a[1..], b, keep);
      assert (a + b)[0] == a[0] && (a + b)[1..] == a[1..] + b;
      ConcatAssoc(if keep(a[0]) then [a[0]] else [], Kept(a[1..], keep), Kept(b, keep));
    } else {
      assert a + b == b;
    }
  }

  /** A leading stretch of rejected characters leaves the filter unchanged. */
  lemma {:induction false} FilterDrops(s: string, j: nat, keep: char -> bool)
    requires j <= |s|
    requires forall k :: 0 <= k < j ==> !keep(s[k])
    ensures Filter(s, keep) == Filter(s[j..], keep)
    decreases j
  {
    if j > 0 {
      FilterDrops(s[1..], j - 1, keep);
      assert s[1..][j - 1..] == s[j..];
    }
  }

  function Join(parts: seq<string>, sep: string): (r: string)
    ensures parts == [] ==> r == []
    ensures |parts| == 1 ==> r == parts[0]
  {
    if parts == [] then []
    else if |parts| == 1 then parts[0]
    else parts[0] + sep + Join(parts[1..], sep)
  }

  /** Joining brings in no character beyond the parts' and the separator's. */
  lemma {:induction false} JoinChars(parts: seq<string>, sep: string, ok: char -> bool)
    requires forall k, x :: 0 <= k < |parts| && x in parts[k] ==> ok(x)
    requires forall x :: x in sep ==> ok(x)
    ensures forall x :: x in Join(parts, sep) ==> ok(x)
    decreases |parts|
  {
    if |parts| > 1 {
      JoinChars(parts[1..], sep, ok);
      assert forall k :: 0 <= k < |parts| - 1 ==> parts[1..][k] == parts[k + 1];
    }
  }

  function Repeat(s: string, n: nat): (r: string)
    ensures |r| == n * |s|
  {
    if n == 0 then [] else s + Repeat(s, n - 1)
  }

  /** A repeated single character is that character at every position. */
  lemma RepeatChar(c: char, n: nat)
    ensures forall k :: 0 <= k < n ==> Repeat([c], n)[k] == c
  {
    if n > 0 {
      RepeatChar(c, n - 1);
      assert forall k :: 1 <= k < n ==> Repeat([c], n)[k] == Repeat([c], n - 1)[k - 1];
    }
  }

  function Zeros(n: nat): (r: string)
    ensures |r| == n
    ensures forall i :: 0 <= i < n ==> r[i] == '0'
  {
    if n == 0 then [] else "0" + Zeros(n - 1)
  }

  /** The two-space indentation unit of the outline renderers, `"  " * level`. */
  function Indent(level: nat): (r: string)
    ensures |r| == 2 * level
    ensures forall i :: 0 <= i < |r| ==> r[i] == ' '
  {
    if level == 0 then [] else "  " + Indent(level - 1)
  }

  function DigitChar(d: nat): (c: char)
    requires d < 10
    ensures IsDigit(c)
  {
    ('0' as int + d) as char
  }

  /** `str(n)` for a natural number. */
  function NatToString(n: nat): (r: string)
    ensures r != []
    ensures forall i :: 0 <= i < |r| ==> IsDigit(r[i])
    ensures n < 10 ==> |r| == 1
    ensures 10 <= n < 100 ==> |r| == 2
    ensures 100 <= n < 1000 ==> |r| == 3
  {
    if n < 10 then [DigitChar(n)] else NatToString(n / 10) + [DigitChar(n % 10)]
  }

  /** The value of a string of decimal digits, `int(s)`. */
  function DigitsValue(s: string): nat
    requires forall i :: 0 <= i < |s| ==> IsDigit(s[i])
  {
    if s == [] then 0
    else
      assert IsDigit(s[|s| - 1]);
      10 * DigitsValue(s[..|s| - 1]) + (s[|s| - 1] as int - '0' as int)
  }

  /** Reading back a printed number gives the number: `int(str(n)) == n`. */
  lemma {:induction false} NatToStringValue(n: nat)
    ensures DigitsValue(NatToString(n)) == n
  {
    if n >= 10 {
      NatToStringValue(n / 10);
      var r := NatToString(n);
      assert r[..|r| - 1] == NatToString(n / 10);
    }
  }

  /** Python's `s.zfill(width)` on a string without a sign. */
  function ZeroFill(s: string, width: nat): (r: string)
    ensures |s| >= width ==> r == s
    ensures |s| < width ==> |r| == width && r[width - |s|..] == s
    ensures |s| < width ==> forall i :: 0 <= i < width - |s| ==> r[i] == '0'
  {
    if |s| >= width then s else Zeros(width - |s|) + s
  }

  /** Leading zeros do not change a number's value. */
  lemma {:induction false} ZerosValue(z: string, s: string)
    requires forall i :: 0 <= i < |z| ==> z[i] == '0'
    requires forall i :: 0 <= i < |s| ==> IsDigit(s[i])
    ensures DigitsValue(z + s) == DigitsValue(s)
    decreases |s|
  {
    if s == [] {
      LeadingZerosValue(z);
      assert z + s == z;
    } else {
      ZerosValue(z, s[..|s| - 1]);
      assert (z + s)[..|z + s| - 1] == z + s[..|s| - 1];
    }
  }

  lemma {:induction false} LeadingZerosValue(z: string)
    requires forall i :: 0 <= i < |z| ==> z[i] == '0'
    ensures DigitsValue(z) == 0
    decreases |z|
  {
    if z != [] {
      LeadingZerosValue(z[..|z| - 1]);
    }
  }

  /** `str(n).zfill(w)` still reads back as `n`. */
  lemma ZeroFillValue(n: nat, width: nat)
    ensures forall i :: 0 <= i < |ZeroFill(NatToString(n), width)| ==> IsDigit(ZeroFill(NatToString(n), width)[i])
    ensures DigitsValue(ZeroFill(NatToString(n), width)) == n
  {
    var s := NatToString(n);
    NatToStringValue(n);
    if |s| < width {
      ZerosValue(Zeros(width - |s|), s);
    }
  }

  function ReplaceChar(s: string, a: char, b: char): (r: string)
    ensures |r| == |s|
    ensures forall i :: 0 <= i < |s| ==> r[i] == (if s[i] == a then b else s[i])
  {
    seq(|s|, i requires 0 <= i < |s| => if s[i] == a then b else s[i])
  }

  function HexDigit(d: nat): (c: char)
    requires d < 16
    ensures IsLowerHex(c)
  {
    if d < 10 then DigitChar(d) else ('a' as int + d - 10) as char
  }

  /** The `width` low hexadecimal digits of `n`, most significant first. */
  function Hex(n: nat, width: nat): (h: string)
    ensures |h| == width
    ensures forall i :: 0 <= i < width ==> IsLowerHex(h[i])
  {
    if width == 0 then [] else Hex(n / 16, width - 1) + [HexDigit(n % 16)]
  }

  function Checksum(s: string): nat
  {
    if s == [] then 0
    else (Checksum(s[..|s| - 1]) * 257 + s[|s| - 1] as int) % 0x1_0000_0000_0000_0000_0000_0000_0000_0000
  }

  /**
   * Stand-in for `hashlib.md5(s.encode()).hexdigest()`: a deterministic digest
   * of 32 lower-case hex digits. Callers rely only on its length and alphabet.
   */
  function Md5Hex(s: string): (h: string)
    ensures |h| == 32
    ensures forall i :: 0 <= i < |h| ==> IsLowerHex(h[i])
  {
    Hex(Checksum(s), 32)
  }

  /** Concatenation is associative; stated once so proofs need not rediscover it. */
  lemma ConcatAssoc<T>(a: seq<T>, b: seq<T>, c: seq<T>)
    ensures a + (b + c) == (a + b) + c
  {
  }

  /**
   * `r` is `t` with zero or more backslashes inserted: deleting exactly the
   * inserted backslashes gives `t` back.
   */
  ghost predicate InsertsBackslashes(t: string, r: string)
    decreases |r|
  {
    if r == [] then t == []
    else
      || (t != [] && t[0] == r[0] && InsertsBackslashes(t[1..], r[1..]))
      || (r[0] == '\\' && InsertsBackslashes(t, r[1..]))
  }

  lemma {:induction false} InsertsBackslashesRefl(t: string)
    ensures InsertsBackslashes(t, t)
    decreases |t|
  {
    if t != [] {
      InsertsBackslashesRefl(t[1..]);
    }
  }

  lemma {:induction false} InsertsBackslashesAppend(a: string, x: string, b: string, y: string)
    requires InsertsBackslashes(a, x) && InsertsBackslashes(b, y)
    ensures InsertsBackslashes(a + b, x + y)
    decreases |x|
  {
    if x == [] {
      assert a == [];
      assert a + b == b && x + y == y;
    } else if a != [] && a[0] == x[0] && InsertsBackslashes(a[1..], x[1..]) {
      InsertsBackslashesAppend(a[1..], x[1..], b, y);
      assert (a + b)[1..] == a[1..] + b;
      assert (x + y)[1..] == x[1..] + y;
    } else {
      InsertsBackslashesAppend(a, x[1..], b, y);
      assert (x + y)[1..] == x[1..] + y;
    }
  }

  lemma {:induction false} InsertsBackslashesTrans(a: string, b: string, c: string)
    requires InsertsBackslashes(a, b) && InsertsBackslashes(b, c)
    ensures InsertsBackslashes(a, c)
    decreases |c|
  {
    if c == [] {
      assert b == [];
    } else if b != [] && b[0] == c[0] && InsertsBackslashes(b[1..], c[1..]) {
      if a != [] && a[0] == b[0] && InsertsBackslashes(a[1..], b[1..]) {
        InsertsBackslashesTrans(a[1..], b[1..], c[1..]);
      } else {
        InsertsBackslashesTrans(a, b[1..], c[1..]);
      }
    } else {
      InsertsBackslashesTrans(a, b, c[1..]);
    }
  }

  /** Deleting every backslash: the inverse of any backslash insertion on backslash-free text. */
  function DropBackslashes(s: string): (r: string)
    ensures |r| <= |s|
  {
    if s == [] then []
    else if s[0] == '\\' then DropBackslashes(s[1..])
    else [s[0]] + DropBackslashes(s[1..])
  }

  /** On text without backslashes, deleting all backslashes undoes any insertion. */
  lemma {:induction false} DropUndoesInsertion(t: string, r: string)
    requires InsertsBackslashes(t, r)
    requires !ContainsChar(t, '\\')
    ensures DropBackslashes(r) == t
    decreases |r|
  {
    if r != [] {
      if t != [] && t[0] == r[0] && InsertsBackslashes(t[1..], r[1..]) {
        assert t[0] != '\\';
        assert !ContainsChar(t[1..], '\\') by {
          forall i | 0 <= i < |t[1..]| ensures t[1..][i] != '\\' {
            assert t[1..][i] == t[i + 1];
          }
        }
        DropUndoesInsertion(t[1..], r[1..]);
      } else {
        DropUndoesInsertion(t, r[1..]);
      }
    }
  }

  // Facts about whitespace and counting shared by the renderers and the parser

  lemma {:induction false} NonSpaceConcat(a: string, b: string)
    ensures NonSpace(a + b) == NonSpace(a) + NonSpace(b)
    decreases |a|
  {
    if a != [] {
      NonSpaceConcat(a[1..], b);
      assert (a + b)[0] == a[0];
      assert (a + b)[1..] == a[1..] + b;
    } else {
      assert a + b == b;
    }
  }

  lemma BlankNonSpace(s: string)
    requires IsBlank(s)
    ensures NonSpace(s) == []
  {
    NonSpaceSkipsBlank(s, |s|);
    assert s[..|s|] == s;
  }

  /** Collapsing runs of spaces only rewrites whitespace. */
  lemma {:induction false} SpaceRunsKeepText(s: string)
    ensures NonSpace(CollapseRuns(s, ' ')) == NonSpace(s)
    decreases |s|
  {
    if s != [] {
      var r := CollapseRuns(s, ' ');
      if s[0] == ' ' {
        var j := SkipChars(s, {' '}, 0);
        SpaceRunsKeepText(s[j..]);
        assert IsBlank(s[..j]);
        NonSpaceSkipsBlank(s, j);
        assert r[1..] == CollapseRuns(s[j..], ' ');
      } else {
        SpaceRunsKeepText(s[1..]);
        assert r[1..] == CollapseRuns(s[1..], ' ');
      }
    }
  }

  /** Whitespace around a text adds nothing to its non-space characters. */
  lemma NonSpaceAround(p: string, r: string, q: string)
    requires IsBlank(p) && IsBlank(q)
    ensures NonSpace(p + r + q) == NonSpace(r)
  {
    NonSpaceConcat(p + r, q);
    NonSpaceConcat(p, r);
    BlankNonSpace(p);
    BlankNonSpace(q);
  }

  /** Stripping only drops whitespace. */
  lemma StripKeepsText(s: string)
    ensures NonSpace(Strip(s)) == NonSpace(s)
  {
    var r := Strip(s);
    var a := StripAt(s);
    var pre, post := s[..a], s[a + |r|..];
    assert s == pre + r + post;
    NonSpaceAround(pre, r, post);
  }

  /** Counting distributes over concatenation. */
  lemma {:induction false} CountConcat(a: string, b: string, c: char)
    ensures Count(a + b, c) == Count(a, c) + Count(b, c)
    decreases |b|
  {
    if b == [] {
      assert a + b == a;
    } else {
      var b' := b[..|b| - 1];
      CountConcat(a, b', c);
      assert (a + b)[..|a + b| - 1] == a + b';
    }
  }

  /** Parts free of `c`, joined: `c` occurs only in the separators. */
  lemma {:induction false} JoinCount(parts: seq<string>, sep: string, c: char)
    requires parts != []
    requires forall k :: 0 <= k < |parts| ==> c !in parts[k]
    ensures Count(Join(parts, sep), c) == (|parts| - 1) * Count(sep, c)
    decreases |parts|
  {
    assert Count(parts[0], c) == 0;
    if |parts| > 1 {
      JoinCount(parts[1..], sep, c);
      CountConcat(parts[0] + sep, Join(parts[1..], sep), c);
      CountConcat(parts[0], sep, c);
    }
  }

  /** Text whose ends are outside `chars` is its own strip. */
  lemma StripCharsIdentity(s: string, chars: set<char>)
    requires s == [] || (s[0] !in chars && s[|s| - 1] !in chars)
    ensures StripChars(s, chars) == s
  {
    assert SkipChars(s, chars, 0) == 0;
    assert TrimCharsEnd(s, chars, 0, |s|) == |s|;
  }
}
