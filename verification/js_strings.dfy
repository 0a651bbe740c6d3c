/**
 * The JavaScript string operations the pages rely on: `trim`, `startsWith`,
 * `includes` and `split` with a one-character separator.
 */
module JsStrings {

  /**
   * The characters `String.prototype.trim` removes: tab, line feed, vertical tab,
   * form feed, carriage return, space, no-break space, the Unicode space separators,
   * the line and paragraph separators and the byte order mark.
   */
  predicate IsSpace(c: char) {
    || ('\t' <= c <= '\r')
    || c == ' '
    || c == '\U{00A0}'
    || c == '\U{1680}'
    || ('\U{2000}' <= c <= '\U{200A}')
    || c == '\U{2028}'
    || c == '\U{2029}'
    || c == '\U{202F}'
    || c == '\U{205F}'
    || c == '\U{3000}'
    || c == '\U{FEFF}'
  }

  /** `s` with its leading white space removed. */
  function TrimStart(s: string): (r: string)
    ensures |r| <= |s| && r == s[|s| - |r|..]
    ensures forall k :: 0 <= k < |s| - |r| ==> IsSpace(s[k])
    ensures r == [] || !IsSpace(r[0])
  {
    if |s| > 0 && IsSpace(s[0]) then TrimStart(s[1..]) else s
  }

  /** `s` with its trailing white space removed. */
  function TrimEnd(s: string): (r: string)
    ensures |r| <= |s| && r == s[..|r|]
    ensures forall k :: |r| <= k < |s| ==> IsSpace(s[k])
    ensures r == [] || !IsSpace(r[|r| - 1])
  {
    if |s| > 0 && IsSpace(s[|s| - 1]) then TrimEnd(s[..|s| - 1]) else s
  }

  /** `s.trim()`: the text between the leading and the trailing white space. */
  function Trim(s: string): (r: string)
    ensures IsMiddleOf(s, r)
    ensures |r| == 0 || (!IsSpace(r[0]) && !IsSpace(r[|r| - 1]))
    ensures |r| == 0 <==> forall k :: 0 <= k < |s| ==> IsSpace(s[k])
  {
    TrimIsStretch(s);
    TrimFacts(s);
    TrimEnd(TrimStart(s))
  }

  /** What the leading and then the trailing strip leave is a stretch of `s` with white space around it. */
  lemma TrimIsStretch(s: string)
    ensures IsMiddleOf(s, TrimEnd(TrimStart(s)))
  {
    var t := TrimStart(s);
    StretchIsMiddle(s, t, TrimEnd(t), |s| - |t|);
  }

  /** Everything of `s` before `i` and from `j` on is white space. */
  predicate IsMiddle(s: string, i: int, j: int)
    requires 0 <= i <= j <= |s|
  {
    (forall k :: 0 <= k < i ==> IsSpace(s[k])) && (forall k :: j <= k < |s| ==> IsSpace(s[k]))
  }

  /** `r` is a contiguous stretch `s[i..j]` of `s` with only white space before and after it. */
  predicate IsMiddleOf(s: string, r: string) {
    exists i, j :: 0 <= i <= j <= |s| && r == s[i..j] && IsMiddle(s, i, j)
  }

  /**
   * A suffix `t` of `s` after white space, and a prefix `r` of `t` before white
   * space: `r` is a stretch of `s` with only white space around it.
   */
  lemma StretchIsMiddle(s: string, t: string, r: string, n: int)
    requires 0 <= n <= |s| && t == s[n..]
    requires forall k :: 0 <= k < n ==> IsSpace(s[k])
    requires |r| <= |t| && r == t[..|r|]
    requires forall k :: |r| <= k < |t| ==> IsSpace(t[k])
    ensures n + |r| <= |s| && r == s[n..n + |r|] && IsMiddle(s, n, n + |r|)
    ensures IsMiddleOf(s, r)
  {
    assert t[..|r|] == s[n..n + |r|];
    forall k | n + |r| <= k < |s|
      ensures IsSpace(s[k])
    {
      assert s[k] == t[k - n];
    }
  }

  lemma {:induction false} TrimFacts(s: string)
    ensures var r := TrimEnd(TrimStart(s));
      && (|r| == 0 || (!IsSpace(r[0]) && !IsSpace(r[|r| - 1])))
      && (|r| == 0 <==> forall k :: 0 <= k < |s| ==> IsSpace(s[k]))
  {
    var t := TrimStart(s);
    var r := TrimEnd(t);
    var n := |s| - |t|;
    assert t == s[n..];
    if |r| == 0 {
      assert |t| == 0;
    } else {
      assert s[n] == r[0];
    }
  }

  /** A prefix of `s.trim()` occurs in `s` where the leading white space ends. */
  lemma TrimmedPrefixOccurs(s: string, p: string)
    requires StartsWith(Trim(s), p)
    ensures OccursAt(s, p, |s| - |TrimStart(s)|)
  {
    TrimIsBothEnds(s);
    StrippedPrefixOccurs(s, p);
  }

  /** A prefix of `s` stripped of leading, then trailing, white space occurs where the leading white space ends. */
  lemma StrippedPrefixOccurs(s: string, p: string)
    requires StartsWith(TrimEnd(TrimStart(s)), p)
    ensures OccursAt(s, p, |s| - |TrimStart(s)|)
  {
    var t := TrimStart(s);
    PrefixOccurs(s, t, TrimEnd(t), p, |s| - |t|);
  }

  /** `trim` strips the leading white space, then the trailing white space. */
  lemma TrimIsBothEnds(s: string)
    ensures Trim(s) == TrimEnd(TrimStart(s))
  {
  }

  /** A prefix of a prefix of the suffix of `s` from `n` occurs in `s` at `n`. */
  lemma PrefixOccurs(s: string, t: string, r: string, p: string, n: int)
    requires 0 <= n <= |s| && t == s[n..]
    requires |r| <= |t| && r == t[..|r|]
    requires StartsWith(r, p)
    ensures OccursAt(s, p, n)
  {
    assert |p| <= |r| && p == r[..|p|];
    assert r[..|p|] == t[..|p|];
    assert t[..|p|] == s[n..n + |p|];
  }

  /** Trimming twice is the same as trimming once. */
  lemma TrimIdempotent(s: string)
    ensures Trim(Trim(s)) == Trim(s)
  {
    var t := Trim(s);
    assert TrimStart(t) == t;
    assert TrimEnd(t) == t;
  }

  /** `s.startsWith(p)`. */
  predicate StartsWith(s: string, p: string) {
    |p| <= |s| && s[..|p|] == p
  }

  /** `s.includes(p)`: `p` occurs somewhere in `s`. */
  predicate Includes(s: string, p: string) {
    StartsWith(s, p) || (|s| > 0 && Includes(s[1..], p))
  }

  /** `p` occurs in `s` starting at position `i`. */
  predicate OccursAt(s: string, p: string, i: int) {
    0 <= i && i + |p| <= |s| && s[i..i + |p|] == p
  }

  /** `includes` finds `p` exactly when `p` occurs at some position of `s`. */
  lemma {:induction false} IncludesIsOccurrence(s: string, p: string)
    ensures Includes(s, p) <==> exists i :: OccursAt(s, p, i)
    decreases |s|
  {
    if Includes(s, p) {
      if StartsWith(s, p) {
        assert OccursAt(s, p, 0);
      } else {
        IncludesIsOccurrence(s[1..], p);
        var i :| OccursAt(s[1..], p, i);
        assert s[1..][i..i + |p|] == s[i + 1..i + 1 + |p|];
        assert OccursAt(s, p, i + 1);
      }
    }
    forall i | OccursAt(s, p, i)
      ensures Includes(s, p)
    {
      if i > 0 {
        assert s[1..][i - 1..i - 1 + |p|] == s[i..i + |p|];
        assert OccursAt(s[1..], p, i - 1);
        IncludesIsOccurrence(s[1..], p);
      }
    }
  }

  /** The pieces of a split glued back together with the separator. */
  function Join(parts: seq<string>, sep: char): string {
    if |parts| == 0 then ""
    else if |parts| == 1 then parts[0]
    else parts[0] + [sep] + Join(parts[1..], sep)
  }

  /** Where piece `k` starts once the pieces are joined with a one-character separator. */
  function JoinOffset(parts: seq<string>, k: nat): nat
    requires k < |parts|
  {
    if k == 0 then 0 else |parts[0]| + 1 + JoinOffset(parts[1..], k - 1)
  }

  /** Every piece appears whole in the joined text, at its offset. */
  lemma {:induction false} JoinPiece(parts: seq<string>, sep: char, k: nat)
    requires k < |parts|
    ensures JoinOffset(parts, k) + |parts[k]| <= |Join(parts, sep)|
    ensures Join(parts, sep)[JoinOffset(parts, k)..JoinOffset(parts, k) + |parts[k]|] == parts[k]
  {
    var joined := Join(parts, sep);
    if |parts| > 1 {
      var rest := Join(parts[1..], sep);
      var n := |parts[0]| + 1;
      assert joined == parts[0] + [sep] + rest;
      if k == 0 {
        assert joined[..|parts[0]|] == parts[0];
      } else {
        JoinPiece(parts[1..], sep, k - 1);
        var o := JoinOffset(parts[1..], k - 1);
        var m := |parts[k]|;
        assert parts[1..][k - 1] == parts[k];
        assert joined[n..] == rest;
        SliceOfSlice(joined, n, |joined|, o, o + m);
      }
    }
  }

  /** A slice of a slice is a slice of the whole, shifted by where the outer one starts. */
  lemma SliceOfSlice(a: string, lo: int, hi: int, i: int, j: int)
    requires 0 <= lo <= hi <= |a| && 0 <= i <= j <= hi - lo
    ensures a[lo..hi][i..j] == a[lo + i..lo + j]
  {
    forall k | 0 <= k < j - i
      ensures a[lo..hi][i..j][k] == a[lo + i..lo + j][k]
    {
      assert a[lo..hi][i..j][k] == a[lo..hi][i + k] == a[lo + i + k];
    }
  }

  /** Text occurring in one piece also occurs in the joined text. */
  lemma OccursInJoin(parts: seq<string>, sep: char, k: nat, p: string, i: int)
    requires k < |parts| && OccursAt(parts[k], p, i)
    ensures OccursAt(Join(parts, sep), p, JoinOffset(parts, k) + i)
  {
    JoinPiece(parts, sep, k);
    var o := JoinOffset(parts, k);
    var joined := Join(parts, sep);
    SliceOfSlice(joined, o, o + |parts[k]|, i, i + |p|);
  }

  /** Text occurring in one piece of `s.split(sep)` occurs in `s`. */
  lemma OccursInPiece(s: string, sep: char, k: nat, p: string, i: int)
    requires k < |Split(s, sep)| && OccursAt(Split(s, sep)[k], p, i)
    ensures exists j :: OccursAt(s, p, j)
  {
    var parts := Split(s, sep);
    OccursInJoin(parts, sep, k, p, i);
    assert OccursAt(s, p, JoinOffset(parts, k) + i);
  }

  /**
   * `s.split(sep)`: the maximal separator-free pieces of `s`, in order; there is
   * always at least one piece, and gluing them back gives `s`.
   */
  function Split(s: string, sep: char): (r: seq<string>)
    ensures |r| >= 1
    ensures forall i :: 0 <= i < |r| ==> sep !in r[i]
    ensures Join(r, sep) == s
    decreases |s|
  {
    if |s| == 0 then [""]
    else
      var rest := Split(s[1..], sep);
      if s[0] == sep then
        assert s == [sep] + s[1..];
        [""] + rest
      else
        var r := [[s[0]] + rest[0]] + rest[1..];
        assert r[1..] == rest[1..];
        assert s == [s[0]] + s[1..];
        r
  }

  /** Every character of a piece comes from the split string. */
  lemma {:induction false} SplitPieceChars(s: string, sep: char, i: int, c: char)
    requires 0 <= i < |Split(s, sep)|
    ensures c in Split(s, sep)[i] ==> c in s
    decreases |s|
  {
    if |s| > 0 && c in Split(s, sep)[i] {
      var rest := Split(s[1..], sep);
      if s[0] == sep {
        if i > 0 {
          SplitPieceChars(s[1..], sep, i - 1, c);
        }
      } else if i > 0 {
        assert Split(s, sep)[i] == rest[i];
        SplitPieceChars(s[1..], sep, i, c);
      } else if c != s[0] {
        assert c in rest[0];
        SplitPieceChars(s[1..], sep, 0, c);
      }
    }
  }

  /** A string with the separator in it splits into at least two pieces. */
  lemma SplitAtSeparator(s: string, sep: char)
    requires sep in s
    ensures |Split(s, sep)| >= 2
  {
  }

  /** A piece free of the separator, followed by the separator, splits off as the first piece. */
  lemma {:induction false} SplitAfterPiece(a: string, sep: char, b: string)
    requires sep !in a
    ensures Split(a + [sep] + b, sep) == [a] + Split(b, sep)
    decreases |a|
  {
    var s := a + [sep] + b;
    if |a| == 0 {
      assert s[1..] == b;
    } else {
      assert s[1..] == a[1..] + [sep] + b;
      SplitAfterPiece(a[1..], sep, b);
      assert [a[0]] + a[1..] == a;
    }
  }

  /** A separator-free string is a single piece. */
  lemma {:induction false} SplitWithoutSeparator(a: string, sep: char)
    requires sep !in a
    ensures Split(a, sep) == [a]
    decreases |a|
  {
    if |a| > 0 {
      SplitWithoutSeparator(a[1..], sep);
      assert [a[0]] + a[1..] == a;
    }
  }

  /** Splitting undoes joining, as long as no piece holds the separator. */
  lemma {:induction false} SplitJoin(parts: seq<string>, sep: char)
    requires |parts| >= 1
    requires forall i :: 0 <= i < |parts| ==> sep !in parts[i]
    ensures Split(Join(parts, sep), sep) == parts
  {
    if |parts| == 1 {
      SplitWithoutSeparator(parts[0], sep);
    } else {
      SplitJoin(parts[1..], sep);
      SplitAfterPiece(parts[0], sep, Join(parts[1..], sep));
      assert [parts[0]] + parts[1..] == parts;
    }
  }
}
