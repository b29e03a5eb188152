/**
 * The Python string operations that the schedule parser relies on, over
 * `string` (a sequence of Unicode scalar values, as Python's `str` is):
 * `str.split()` with no argument, `str.split(sep)`, `sep.join(parts)`,
 * `str.endswith`, `str.replace(pat, "")` and the ordering `<` on `str`.
 */
module Text {

  /** `str.isspace()` for one character: the class that `str.split()` and the regex `\s` both use. */
  predicate IsSpace(c: char) {
    var n := c as int;
    n == 0x20 || (0x09 <= n <= 0x0D) || (0x1C <= n <= 0x1F) || n == 0x85 || n == 0xA0
    || n == 0x1680 || (0x2000 <= n <= 0x200A) || n == 0x2028 || n == 0x2029
    || n == 0x202F || n == 0x205F || n == 0x3000
  }

  /** A token of `str.split()`: non-empty and free of whitespace. */
  predicate IsWord(t: string) {
    t != [] && forall i :: 0 <= i < |t| ==> !IsSpace(t[i])
  }

  /** Length of the longest whitespace-free prefix of `s`. */
  function WordLength(s: string): (n: nat)
    ensures n <= |s|
    ensures forall i :: 0 <= i < n ==> !IsSpace(s[i])
    ensures n < |s| ==> IsSpace(s[n])
  {
    if s == [] || IsSpace(s[0]) then 0 else 1 + WordLength(s[1..])
  }

  /**
   * `s.split()`: the maximal runs of non-whitespace characters, in order;
   * leading, trailing and repeated whitespace produce no empty tokens.
   */
  function Tokens(s: string): (ts: seq<string>)
    ensures forall k :: 0 <= k < |ts| ==> IsWord(ts[k])
    decreases |s|
  {
    if s == [] then []
    else if IsSpace(s[0]) then Tokens(s[1..])
    else
      var n := WordLength(s);
      [s[..n]] + Tokens(s[n..])
  }

  /** A string without whitespace splits into at most one token, itself if non-empty. */
  lemma {:induction false} TokensOfWord(s: string)
    requires forall i :: 0 <= i < |s| ==> !IsSpace(s[i])
    ensures Tokens(s) == if s == [] then [] else [s]
  {
    if s != [] {
      assert !IsSpace(s[0]);
      assert WordLength(s) == |s|;
      assert s[..|s|] == s && s[|s|..] == [];
      assert Tokens(s) == [s[..|s|]] + Tokens(s[|s|..]);
    }
  }

  /** `ts[1:]` in Python: empty when `ts` is. */
  function DropFirst<T>(ts: seq<T>): (r: seq<T>)
    ensures |r| == if ts == [] then 0 else |ts| - 1
    ensures forall k :: 0 <= k < |r| ==> r[k] == ts[k + 1]
    ensures ts != [] ==> [ts[0]] + r == ts
  {
    if ts == [] then [] else ts[1..]
  }

  /** `sep.join(parts)`. */
  function Join(parts: seq<string>, sep: string): string
  {
    if |parts| == 0 then []
    else if |parts| == 1 then parts[0]
    else parts[0] + sep + Join(parts[1..], sep)
  }

  lemma {:induction false} JoinSnoc(parts: seq<string>, sep: string, last: string)
    requires parts != []
    ensures Join(parts + [last], sep) == Join(parts, sep) + sep + last
  {
    if |parts| == 1 {
      assert (parts + [last])[1..] == [last];
    } else {
      assert (parts + [last])[1..] == parts[1..] + [last];
      JoinSnoc(parts[1..], sep, last);
    }
  }

  /** Joining at least two tokens with a separator puts the separator right after the first token. */
  lemma JoinCons(parts: seq<string>, sep: string)
    requires |parts| >= 2
    ensures Join(parts, sep) == parts[0] + sep + Join(parts[1..], sep)
  {
  }

  /** `s.split(sep)` for a one-character separator: always at least one part, empty parts kept. */
  function SplitOn(s: string, sep: char): (parts: seq<string>)
    ensures |parts| >= 1
    ensures forall k :: 0 <= k < |parts| ==> sep !in parts[k]
  {
    if s == [] then [[]]
    else
      var rest := SplitOn(s[1..], sep);
      if s[0] == sep then [[]] + rest else [[s[0]] + rest[0]] + rest[1..]
  }

  /** Joining the parts of a split with the same separator gives back the string. */
  lemma {:induction false} JoinSplitOn(s: string, sep: char)
    ensures Join(SplitOn(s, sep), [sep]) == s
  {
    if s != [] {
      var rest := SplitOn(s[1..], sep);
      JoinSplitOn(s[1..], sep);
      if s[0] == sep {
        assert SplitOn(s, sep) == [[]] + rest;
        assert ([[]] + rest)[1..] == rest;
        assert s == [sep] + s[1..];
      } else if |rest| == 1 {
        assert SplitOn(s, sep) == [[s[0]] + rest[0]];
        assert s == [s[0]] + s[1..];
      } else {
        var parts := SplitOn(s, sep);
        assert parts == [[s[0]] + rest[0]] + rest[1..];
        assert parts[1..] == rest[1..];
        JoinCons(rest, [sep]);
        assert s == [s[0]] + s[1..];
      }
    }
  }

  /** The converse: splitting a join of separator-free parts gives the parts back. */
  lemma {:induction false} SplitOnJoin(parts: seq<string>, sep: char)
    requires |parts| >= 1
    requires forall k :: 0 <= k < |parts| ==> sep !in parts[k]
    ensures SplitOn(Join(parts, [sep]), sep) == parts
  {
    if |parts| == 1 {
      SplitOnFree(parts[0], sep);
    } else {
      SplitOnJoin(parts[1..], sep);
      SplitOnFree(parts[0], sep);
      SplitOnAround(parts[0], sep, Join(parts[1..], [sep]));
      assert parts == [parts[0]] + parts[1..];
    }
  }

  /** A string without the separator is a single part. */
  lemma {:induction false} SplitOnFree(s: string, sep: char)
    requires sep !in s
    ensures SplitOn(s, sep) == [s]
  {
    if s != [] {
      assert s[1..] == s[1..];
      assert sep !in s[1..] by {
        forall k | 0 <= k < |s[1..]| ensures s[1..][k] != sep { assert s[1..][k] == s[k + 1]; }
      }
      SplitOnFree(s[1..], sep);
      assert [s[0]] + s[1..] == s;
    }
  }

  /** How a split starts, for a string given as its first character and the rest. */
  lemma SplitOnCons(c: char, r: string, sep: char)
    ensures var rest := SplitOn(r, sep);
      SplitOn([c] + r, sep) == if c == sep then [[]] + rest else [[c] + rest[0]] + rest[1..]
  {
    assert ([c] + r)[0] == c && ([c] + r)[1..] == r;
  }

  /** Starting a split with one more character commutes with appending later parts. */
  lemma PrependPart(c: char, hit: bool, ra: seq<string>, rb: seq<string>)
    requires |ra| >= 1
    ensures var rs := ra + rb;
      (if hit then [[]] + rs else [[c] + rs[0]] + rs[1..])
      == (if hit then [[]] + ra else [[c] + ra[0]] + ra[1..]) + rb
  {
    var rs := ra + rb;
    if !hit {
      assert rs[0] == ra[0] && rs[1..] == ra[1..] + rb;
    }
  }

  /** Splitting around one occurrence of the separator splits both sides independently. */
  lemma {:induction false} SplitOnAround(a: string, sep: char, b: string)
    ensures SplitOn(a + [sep] + b, sep) == SplitOn(a, sep) + SplitOn(b, sep)
  {
    if a == [] {
      assert a + [sep] + b == [sep] + b;
      SplitOnCons(sep, b, sep);
      assert SplitOn(a, sep) == [[]];
    } else {
      var t := a[1..] + [sep] + b;
      assert a + [sep] + b == [a[0]] + t;
      assert a == [a[0]] + a[1..];
      SplitOnAround(a[1..], sep, b);
      SplitOnCons(a[0], t, sep);
      SplitOnCons(a[0], a[1..], sep);
      PrependPart(a[0], a[0] == sep, SplitOn(a[1..], sep), SplitOn(b, sep));
    }
  }

  /** `s.endswith(suffix)`. */
  predicate EndsWith(s: string, suffix: string) {
    |suffix| <= |s| && s[|s| - |suffix|..] == suffix
  }

  predicate OccursAt(s: string, pat: string, i: nat) {
    i + |pat| <= |s| && s[i..i + |pat|] == pat
  }

  /** `pat in s`. */
  predicate Contains(s: string, pat: string) {
    exists i :: 0 <= i <= |s| && OccursAt(s, pat, i)
  }

  /**
   * `s.replace(pat, "")`: one scan from the left that deletes every
   * non-overlapping occurrence of `pat`; the text left behind is not rescanned.
   */
  function RemoveAll(s: string, pat: string): string
    decreases |s|
  {
    if pat == [] || s == [] then s
    else if |pat| <= |s| && s[..|pat|] == pat then RemoveAll(s[|pat|..], pat)
    else [s[0]] + RemoveAll(s[1..], pat)
  }

  /** A pattern absent from a string is absent from its tail. */
  lemma AbsentInTail(s: string, pat: string)
    requires s != [] && !Contains(s, pat)
    ensures !Contains(s[1..], pat)
  {
    forall i | 0 <= i <= |s[1..]| ensures !OccursAt(s[1..], pat, i) {
      assert !OccursAt(s, pat, i + 1);
      if i + |pat| <= |s[1..]| { assert s[1..][i..i + |pat|] == s[i + 1..i + 1 + |pat|]; }
    }
  }

  /** Gluing two strings with a character the pattern does not contain creates no occurrence. */
  lemma AbsentAround(a: string, c: char, b: string, pat: string)
    requires !Contains(a, pat) && !Contains(b, pat) && c !in pat
    ensures !Contains(a + [c] + b, pat)
  {
    var s := a + [c] + b;
    forall i | 0 <= i <= |s| ensures !OccursAt(s, pat, i) {
      if i + |pat| <= |a| {
        assert a[i..i + |pat|] == s[i..i + |pat|];
        assert !OccursAt(a, pat, i);
      } else if i > |a| {
        var j := i - |a| - 1;
        if i + |pat| <= |s| {
          assert b[j..j + |pat|] == s[i..i + |pat|];
          assert !OccursAt(b, pat, j);
        }
      } else if i + |pat| <= |s| {
        assert s[i..i + |pat|][|a| - i] == c;
      }
    }
  }

  /** Removing a pattern that does not occur leaves the string as it is. */
  lemma {:induction false} RemoveAllAbsent(s: string, pat: string)
    requires !Contains(s, pat)
    ensures RemoveAll(s, pat) == s
  {
    if pat != [] && s != [] {
      assert !OccursAt(s, pat, 0);
      AbsentInTail(s, pat);
      RemoveAllAbsent(s[1..], pat);
      assert [s[0]] + s[1..] == s;
    }
  }

  /**
   * Python's `a < b` on `str`: lexicographic by code point, a proper prefix
   * coming first.
   */
  predicate Less(a: string, b: string)
    decreases |a|
  {
    if b == [] then false
    else if a == [] then true
    else if a[0] != b[0] then a[0] < b[0]
    else Less(a[1..], b[1..])
  }

  lemma {:induction false} LessIrreflexive(a: string)
    ensures !Less(a, a)
  {
    if a != [] { LessIrreflexive(a[1..]); }
  }

  lemma {:induction false} LessTrichotomy(a: string, b: string)
    ensures Less(a, b) || a == b || Less(b, a)
    decreases |a|
  {
    if a != [] && b != [] && a[0] == b[0] {
      LessTrichotomy(a[1..], b[1..]);
      if a[1..] == b[1..] {
        assert a == [a[0]] + a[1..] && b == [b[0]] + b[1..];
      }
    }
  }

  lemma {:induction false} LessTransitive(a: string, b: string, c: string)
    requires Less(a, b) && Less(b, c)
    ensures Less(a, c)
    decreases |a|
  {
    if a != [] && a[0] == b[0] && b[0] == c[0] {
      LessTransitive(a[1..], b[1..], c[1..]);
    }
  }

  lemma {:induction false} LessAsymmetric(a: string, b: string)
    requires Less(a, b)
    ensures !Less(b, a)
    decreases |a|
  {
    if a != [] && a[0] == b[0] {
      LessAsymmetric(a[1..], b[1..]);
    }
  }
}
