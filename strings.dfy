/** The handful of Python `str` operations the service applies to subtitle text:
    `strip()`, `split(sep)`, `sep.join(parts)`, `isdigit()`, `sub in s` and `s[:n]`.
    Strings are sequences of code points, as Python's are. */
module PyStrings {

  /** Python's `str.isspace()` for one code point: the ASCII controls TAB..CR and
      FS..US, SPACE, NEL, NO-BREAK SPACE and the Unicode space separators. */
  predicate IsSpace(c: char) {
    || ('\t' <= c <= '\r')
    || ('\U{1C}' <= c <= ' ')
    || c == '\U{85}' || c == '\U{A0}' || c == '\U{1680}'
    || ('\U{2000}' <= c <= '\U{200A}')
    || c == '\U{2028}' || c == '\U{2029}'
    || c == '\U{202F}' || c == '\U{205F}' || c == '\U{3000}'
  }

  /** `s.isdigit()`, restricted to the ASCII digits: false on the empty string. */
  predicate IsAsciiDigits(s: string) {
    |s| > 0 && forall i :: 0 <= i < |s| ==> '0' <= s[i] <= '9'
  }

  predicate OccursAt(s: string, sub: string, i: nat) {
    i + |sub| <= |s| && s[i..i + |sub|] == sub
  }

  /** Python's `sub in s`, as a left-to-right scan: `sub` is a prefix of `s` or of one of
      its suffixes. It holds exactly when `sub` occurs at some position of `s`. */
  predicate Contains(s: string, sub: string)
    ensures Contains(s, sub) <==> exists i: nat :: OccursAt(s, sub, i)
    decreases |s|
  {
    if |sub| > |s| then false
    else if s[..|sub|] == sub then assert OccursAt(s, sub, 0); true
    else
      assert forall i: nat :: OccursAt(s[1..], sub, i) <==> OccursAt(s, sub, i + 1) by {
        forall i: nat ensures OccursAt(s[1..], sub, i) <==> OccursAt(s, sub, i + 1) {
          if i + |sub| <= |s[1..]| {
            assert s[1..][i..i + |sub|] == s[i + 1..i + 1 + |sub|];
          }
        }
      }
      assert !OccursAt(s, sub, 0);
      assert forall i: nat :: OccursAt(s, sub, i) ==> i == 0 || OccursAt(s[1..], sub, i - 1);
      Contains(s[1..], sub)
  }

  /** `s.count(c)` for a single character `c`. */
  function CountChar(s: string, c: char): nat {
    if s == [] then 0 else (if s[0] == c then 1 else 0) + CountChar(s[1..], c)
  }

  /** `s.lstrip()`: the suffix of `s` left after dropping its leading whitespace. */
  function TrimStart(s: string): (r: string)
    ensures |r| <= |s| && r == s[|s| - |r|..]
    ensures forall i :: 0 <= i < |s| - |r| ==> IsSpace(s[i])
    ensures r == [] || !IsSpace(r[0])
  {
    if |s| > 0 && IsSpace(s[0]) then
      var r := TrimStart(s[1..]);
      assert forall i :: 1 <= i < |s| ==> s[1..][i - 1] == s[i];
      r
    else s
  }

  /** `s.rstrip()`: the prefix of `s` left after dropping its trailing whitespace. */
  function TrimEnd(s: string): (r: string)
    ensures |r| <= |s| && r == s[..|r|]
    ensures forall i :: |r| <= i < |s| ==> IsSpace(s[i])
    ensures r == [] || !IsSpace(r[|r| - 1])
  {
    if |s| > 0 && IsSpace(s[|s| - 1]) then
      var r := TrimEnd(s[..|s| - 1]);
      assert forall i :: 0 <= i < |s| - 1 ==> s[..|s| - 1][i] == s[i];
      r
    else s
  }

  /** `s.strip()`. */
  function Strip(s: string): (r: string)
    ensures |r| <= |s|
    ensures r == [] || (!IsSpace(r[0]) && !IsSpace(r[|r| - 1]))
  {
    TrimEnd(TrimStart(s))
  }

  /** `r` is `s[i..j]`, everything of `s` outside `[i, j)` is whitespace, and `r` neither
      starts nor ends with whitespace. */
  predicate StrippedAt(s: string, r: string, i: int, j: int) {
    && 0 <= i <= j <= |s|
    && r == s[i..j]
    && (forall k :: 0 <= k < i ==> IsSpace(s[k]))
    && (forall k :: j <= k < |s| ==> IsSpace(s[k]))
    && (i < j ==> !IsSpace(s[i]) && !IsSpace(s[j - 1]))
  }

  /** Independent description of stripping: `r` is what is left of `s` once its
      whitespace ends are cut off. */
  ghost predicate IsStripped(s: string, r: string) {
    exists i, j :: StrippedAt(s, r, i, j)
  }

  /** `Strip` meets the description. */
  lemma StripIsStripped(s: string)
    ensures IsStripped(s, Strip(s))
  {
    var t := TrimStart(s);
    var r := Strip(s);
    var i := |s| - |t|;
    assert t == s[i..];
    assert r == s[i..i + |r|];
    assert forall k :: i + |r| <= k < |s| ==> s[k] == t[k - i];
    assert StrippedAt(s, r, i, i + |r|);
  }

  /** The description determines the result: at most one string is `s` stripped. */
  lemma StrippedIsUnique(s: string, r1: string, r2: string)
    requires IsStripped(s, r1) && IsStripped(s, r2)
    ensures r1 == r2
  {
    var i1, j1 :| StrippedAt(s, r1, i1, j1);
    var i2, j2 :| StrippedAt(s, r2, i2, j2);
    if i1 < j1 && i2 < j2 {
      assert i1 == i2 && j1 == j2;
    }
  }

  /** `sep.join(parts)`: it begins with the first part and ends with the last one. */
  function Join(sep: string, parts: seq<string>): (r: string)
    ensures |parts| > 0 ==> |parts[0]| <= |r| && r[..|parts[0]|] == parts[0]
  {
    if |parts| == 0 then ""
    else if |parts| == 1 then parts[0]
    else
      var rest := Join(sep, parts[1..]);
      parts[0] + sep + rest
  }

  /** The scan behind `s.split(sep)`: `cur` is the piece read so far. Pieces end at the
      leftmost occurrence of `sep`, occurrences do not overlap, and the piece after the
      last occurrence is always produced, so there is at least one piece. */
  function SplitFrom(s: string, sep: string, cur: string): (r: seq<string>)
    requires |sep| > 0
    ensures |r| >= 1
    decreases |s|
  {
    if |s| < |sep| then [cur + s]
    else if s[..|sep|] == sep then [cur] + SplitFrom(s[|sep|..], sep, "")
    else SplitFrom(s[1..], sep, cur + [s[0]])
  }

  /** `s.split(sep)` for a non-empty separator (Python rejects an empty one). */
  function Split(s: string, sep: string): (r: seq<string>)
    requires |sep| > 0
    ensures |r| >= 1
  {
    SplitFrom(s, sep, "")
  }

  lemma {:induction false} SplitFromJoin(s: string, sep: string, cur: string)
    requires |sep| > 0
    ensures Join(sep, SplitFrom(s, sep, cur)) == cur + s
    decreases |s|
  {
    if |s| < |sep| {
    } else if s[..|sep|] == sep {
      var rest := SplitFrom(s[|sep|..], sep, "");
      SplitFromJoin(s[|sep|..], sep, "");
      assert ([cur] + rest)[1..] == rest;
      assert Join(sep, [cur] + rest) == cur + sep + Join(sep, rest);
      assert s == sep + s[|sep|..];
    } else {
      SplitFromJoin(s[1..], sep, cur + [s[0]]);
      assert cur + [s[0]] + s[1..] == cur + s;
    }
  }

  /** Joining the pieces with the separator gives back the string: `sep.join(s.split(sep)) == s`. */
  lemma JoinSplit(s: string, sep: string)
    requires |sep| > 0
    ensures Join(sep, Split(s, sep)) == s
  {
    SplitFromJoin(s, sep, "");
  }

  /** Each piece ends at the leftmost occurrence of `sep` in what is left of the string
      from that piece on: no occurrence starts inside the piece. */
  predicate CutsLeftmost(pieces: seq<string>, sep: string) {
    forall k, i :: 0 <= k < |pieces| && 0 <= i < |pieces[k]| ==> !OccursAt(Join(sep, pieces[k..]), sep, i)
  }

  lemma LeftmostCons(cur: string, rest: seq<string>, sep: string)
    requires |rest| >= 1 && CutsLeftmost(rest, sep)
    requires forall i :: 0 <= i < |cur| ==> !OccursAt(Join(sep, [cur] + rest), sep, i)
    ensures CutsLeftmost([cur] + rest, sep)
  {
    var r := [cur] + rest;
    assert r[0..] == r;
    forall k | 1 <= k < |r|
      ensures r[k..] == rest[k - 1..] && r[k] == rest[k - 1]
    {
    }
  }

  lemma {:induction false} SplitFromLeftmost(s: string, sep: string, cur: string)
    requires |sep| > 0
    requires forall i :: 0 <= i < |cur| ==> !OccursAt(cur + s, sep, i)
    ensures CutsLeftmost(SplitFrom(s, sep, cur), sep)
    decreases |s|
  {
    var r := SplitFrom(s, sep, cur);
    if |s| < |sep| {
      assert r[0..] == [cur + s];
    } else if s[..|sep|] == sep {
      var rest := SplitFrom(s[|sep|..], sep, "");
      SplitFromLeftmost(s[|sep|..], sep, "");
      SplitFromJoin(s, sep, cur);
      LeftmostCons(cur, rest, sep);
    } else {
      assert cur + [s[0]] + s[1..] == cur + s;
      assert !OccursAt(cur + s, sep, |cur|) by {
        assert (cur + s)[|cur|..|cur| + |sep|] == s[..|sep|];
      }
      SplitFromLeftmost(s[1..], sep, cur + [s[0]]);
    }
  }

  /** Every cut is at the leftmost remaining occurrence of the separator: no occurrence
      starts inside a piece, in the rest of the string from that piece on (which is
      `sep.join` of the pieces from there, by `JoinSplit`). */
  lemma SplitLeftmost(s: string, sep: string)
    requires |sep| > 0
    ensures CutsLeftmost(Split(s, sep), sep)
  {
    SplitFromLeftmost(s, sep, "");
  }

  /** An occurrence that fits inside a prefix of `t` is an occurrence in `t`. */
  lemma OccursInPrefix(p: string, t: string, sub: string, i: nat)
    requires |p| <= |t| && t[..|p|] == p
    requires OccursAt(p, sub, i)
    ensures OccursAt(t, sub, i)
  {
    assert t[i..i + |sub|] == p[i..i + |sub|];
  }

  /** No piece of a split contains the separator. */
  lemma SplitPiecesAvoidSep(s: string, sep: string)
    requires |sep| > 0
    ensures forall k :: 0 <= k < |Split(s, sep)| ==> !Contains(Split(s, sep)[k], sep)
  {
    var r := Split(s, sep);
    SplitLeftmost(s, sep);
    forall k, i: nat | 0 <= k < |r| && OccursAt(r[k], sep, i)
      ensures OccursAt(Join(sep, r[k..]), sep, i) && i < |r[k]|
    {
      assert r[k..][0] == r[k];
      OccursInPrefix(r[k], Join(sep, r[k..]), sep, i);
    }
  }

  lemma {:induction false} SplitFromCount(s: string, c: char, cur: string)
    ensures |SplitFrom(s, [c], cur)| == CountChar(s, c) + 1
    decreases |s|
  {
    if |s| >= 1 {
      assert s[..1] == [c] <==> s[0] == c;
      if s[0] == c {
        SplitFromCount(s[1..], c, "");
      } else {
        SplitFromCount(s[1..], c, cur + [s[0]]);
      }
    }
  }

  /** Splitting on a character gives one piece more than there are occurrences of it. */
  lemma SplitCount(s: string, c: char)
    ensures |Split(s, [c])| == CountChar(s, c) + 1
  {
    SplitFromCount(s, c, "");
  }

  lemma {:induction false} SplitFromAvoidsChar(s: string, c: char, cur: string)
    requires c !in cur
    ensures forall k :: 0 <= k < |SplitFrom(s, [c], cur)| ==> c !in SplitFrom(s, [c], cur)[k]
    decreases |s|
  {
    if |s| < 1 {
      assert cur + s == cur;
    } else if s[..1] == [c] {
      SplitFromAvoidsChar(s[1..], c, "");
    } else {
      assert s[0] != c;
      SplitFromAvoidsChar(s[1..], c, cur + [s[0]]);
    }
  }

  /** No piece of a split on one character contains that character. */
  lemma SplitAvoidsChar(s: string, c: char)
    ensures forall k :: 0 <= k < |Split(s, [c])| ==> c !in Split(s, [c])[k]
  {
    SplitFromAvoidsChar(s, c, "");
  }

  lemma {:induction false} SplitFromWithoutChar(s: string, c: char, cur: string)
    requires c !in s
    ensures SplitFrom(s, [c], cur) == [cur + s]
    decreases |s|
  {
    if |s| >= 1 {
      assert s[..1] != [c] by { assert s[0] in s; }
      SplitFromWithoutChar(s[1..], c, cur + [s[0]]);
      assert cur + [s[0]] + s[1..] == cur + s;
    }
  }

  lemma {:induction false} SplitFromAround(a: string, c: char, b: string, cur: string)
    ensures SplitFrom(a + [c] + b, [c], cur) == SplitFrom(a, [c], cur) + Split(b, [c])
    decreases |a|
  {
    var s := a + [c] + b;
    if |a| == 0 {
      assert s[..1] == [c] && s[1..] == b;
      assert cur + a == cur;
    } else if a[0] == c {
      assert s[..1] == [c] && a[..1] == [c];
      assert s[1..] == a[1..] + [c] + b;
      SplitFromAround(a[1..], c, b, "");
    } else {
      assert s[0] == a[0] && s[..1] == [a[0]] && a[..1] == [a[0]];
      assert s[1..] == a[1..] + [c] + b;
      SplitFromAround(a[1..], c, b, cur + [a[0]]);
    }
  }

  /** Splitting on a character cuts at every occurrence of it: what comes before an
      occurrence and what comes after it split independently. */
  lemma SplitAround(a: string, c: char, b: string)
    ensures Split(a + [c] + b, [c]) == Split(a, [c]) + Split(b, [c])
  {
    SplitFromAround(a, c, b, "");
  }

  /** A string without the separator character is a single piece. */
  lemma SplitWithoutChar(s: string, c: char)
    requires c !in s
    ensures Split(s, [c]) == [s]
  {
    SplitFromWithoutChar(s, c, "");
    assert "" + s == s;
  }

  /** A character found neither in the separator nor in any part is not in the join. */
  lemma {:induction false} JoinAvoidsChar(sep: string, parts: seq<string>, c: char)
    requires c !in sep
    requires forall k :: 0 <= k < |parts| ==> c !in parts[k]
    ensures c !in Join(sep, parts)
  {
    if |parts| > 1 {
      JoinAvoidsChar(sep, parts[1..], c);
    }
  }

  /** `s[:n]` for a non-negative `n`. */
  function Truncate(s: string, n: nat): (r: string)
    ensures |r| == if |s| <= n then |s| else n
    ensures r == s[..|r|]
  {
    if |s| <= n then s else s[..n]
  }
}
