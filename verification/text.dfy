/** The string operations the readers rely on, restricted to ASCII:
    `ToLowerInvariant`, ordinal `Contains` / `LastIndexOf`, `Trim`,
    `Replace("%", "")` and `Split(char)`. */
module Text {
  import opened Base

  // ---------------------------------------------------------------------
  // Case mapping (ASCII part of ToLowerInvariant)
  // ---------------------------------------------------------------------

  predicate IsUpper(c: char) { 'A' <= c <= 'Z' }

  function LowerChar(c: char): char
  {
    if IsUpper(c) then (c as int - 'A' as int + 'a' as int) as char else c
  }

  /** `ToLowerInvariant` on ASCII text: every upper-case letter is replaced by
      its lower-case form and nothing else moves. */
  function ToLower(s: string): (r: string)
    ensures |r| == |s|
    ensures forall i :: 0 <= i < |s| ==> r[i] == LowerChar(s[i])
    ensures forall i :: 0 <= i < |r| ==> !IsUpper(r[i])
  {
    seq(|s|, i requires 0 <= i < |s| => LowerChar(s[i]))
  }

  /** Lower-casing changes a string exactly when it holds an upper-case letter. */
  lemma ToLowerFixedIff(s: string)
    ensures ToLower(s) == s <==> forall i :: 0 <= i < |s| ==> !IsUpper(s[i])
  {
    if ToLower(s) != s {
      var i :| 0 <= i < |s| && ToLower(s)[i] != s[i];
      assert IsUpper(s[i]);
    }
  }

  lemma ToLowerIdempotent(s: string)
    ensures ToLower(ToLower(s)) == ToLower(s)
  {
    ToLowerFixedIff(ToLower(s));
  }

  // ---------------------------------------------------------------------
  // Ordinal substring search
  // ---------------------------------------------------------------------

  /** `t` occurs in `s` starting at index `i`. */
  predicate OccursAt(s: string, t: string, i: int)
  {
    0 <= i && i + |t| <= |s| && s[i..i + |t|] == t
  }

  /** Ordinal `String.Contains`: the empty string occurs in every string. */
  predicate Contains(s: string, t: string)
  {
    exists i | 0 <= i <= |s| - |t| :: OccursAt(s, t, i)
  }

  /** A string contains a string of its own length only when the two are equal. */
  lemma ContainsSameLength(s: string, t: string)
    requires |s| == |t|
    ensures Contains(s, t) <==> s == t
  {
    if s == t {
      assert OccursAt(s, t, 0);
    }
  }

  /** The largest index below `n` at which `t` occurs in `s`. */
  function LastIndexBelow(s: string, t: string, n: nat): (r: Option<nat>)
    ensures r.Some? ==> r.value < n && OccursAt(s, t, r.value)
    ensures r.Some? ==> forall j :: r.value < j < n ==> !OccursAt(s, t, j)
    ensures r.None? ==> forall j :: 0 <= j < n ==> !OccursAt(s, t, j)
    decreases n
  {
    if n == 0 then None
    else if OccursAt(s, t, n - 1) then Some(n - 1)
    else LastIndexBelow(s, t, n - 1)
  }

  /** Ordinal `String.LastIndexOf`: the last occurrence of `t` in `s`, or `None`
      where C# answers -1. */
  function LastIndexOf(s: string, t: string): (r: Option<nat>)
    ensures r.Some? ==> OccursAt(s, t, r.value)
    ensures r.Some? ==> forall j :: r.value < j ==> !OccursAt(s, t, j)
    ensures r.None? <==> !Contains(s, t)
  {
    LastIndexBelow(s, t, |s| + 1)
  }

  /** Index of the first candidate that occurs in `text`, as a first-match
      search over a list with `Contains` as the test. */
  function FirstContainedIn(text: string, candidates: seq<string>): (r: Option<nat>)
    ensures r.Some? ==> r.value < |candidates| && Contains(text, candidates[r.value])
    ensures r.Some? ==> forall j :: 0 <= j < r.value ==> !Contains(text, candidates[j])
    ensures r.None? <==> forall j :: 0 <= j < |candidates| ==> !Contains(text, candidates[j])
  {
    if |candidates| == 0 then None
    else if Contains(text, candidates[0]) then Some(0)
    else match FirstContainedIn(text, candidates[1..])
      case None => None
      case Some(k) => Some(k + 1)
  }

  /** A non-empty prefix is its first element followed by a prefix of the rest. */
  lemma PrefixCons<T>(s: seq<T>, n: nat)
    requires 1 <= n <= |s|
    ensures s[..n] == [s[0]] + s[1..][..n - 1]
  {
  }

  // ---------------------------------------------------------------------
  // Trim (the ASCII white-space set U+0009..U+000D and U+0020)
  // ---------------------------------------------------------------------

  predicate IsWhite(c: char) { c == ' ' || '\t' <= c <= '\r' }

  /** Drops leading white space. */
  function TrimStart(s: string): string
  {
    if |s| > 0 && IsWhite(s[0]) then TrimStart(s[1..]) else s
  }

  /** Drops trailing white space. */
  function TrimEnd(s: string): string
  {
    if |s| > 0 && IsWhite(s[|s| - 1]) then TrimEnd(s[..|s| - 1]) else s
  }

  /** `String.Trim`. */
  function Trim(s: string): string
  {
    TrimEnd(TrimStart(s))
  }

  lemma {:induction false} TrimStartSpec(s: string)
    ensures var r := TrimStart(s);
            && |r| <= |s| && r == s[|s| - |r|..]
            && (forall k :: 0 <= k < |s| - |r| ==> IsWhite(s[k]))
            && (|r| > 0 ==> !IsWhite(r[0]))
    decreases |s|
  {
    if |s| > 0 && IsWhite(s[0]) {
      TrimStartSpec(s[1..]);
    }
  }

  lemma {:induction false} TrimEndSpec(s: string)
    ensures var r := TrimEnd(s);
            && |r| <= |s| && r == s[..|r|]
            && (forall k :: |r| <= k < |s| ==> IsWhite(s[k]))
            && (|r| > 0 ==> !IsWhite(r[|r| - 1]))
    decreases |s|
  {
    if |s| > 0 && IsWhite(s[|s| - 1]) {
      TrimEndSpec(s[..|s| - 1]);
    }
  }

  /** `r` is the slice of `s` starting at `i`, with only white space cut off
      on either side. */
  predicate TrimmedAt(s: string, r: string, i: int)
  {
    && 0 <= i <= |s| - |r| && r == s[i..i + |r|]
    && (forall k :: 0 <= k < i ==> IsWhite(s[k]))
    && (forall k :: i + |r| <= k < |s| ==> IsWhite(s[k]))
  }

  /** Trim yields the slice of `s` that neither starts nor ends with white
      space, everything cut off being white space. */
  lemma TrimSpec(s: string)
    ensures exists i :: TrimmedAt(s, Trim(s), i)
    ensures |Trim(s)| > 0 ==> !IsWhite(Trim(s)[0]) && !IsWhite(Trim(s)[|Trim(s)| - 1])
  {
    var a := TrimStart(s);
    TrimStartSpec(s);
    TrimEndSpec(a);
    assert TrimmedAt(s, Trim(s), |s| - |a|);
  }

  /** Trimming a string with non-blank ends changes nothing. */
  lemma TrimNoop(s: string)
    requires |s| > 0 ==> !IsWhite(s[0]) && !IsWhite(s[|s| - 1])
    ensures Trim(s) == s
  {
    TrimStartSpec(s);
    TrimEndSpec(s);
  }

  predicate AllWhite(s: string) { forall k :: 0 <= k < |s| ==> IsWhite(s[k]) }

  lemma {:induction false} TrimStartPad(w: string, x: string)
    requires AllWhite(w)
    requires |x| > 0 && !IsWhite(x[0])
    ensures TrimStart(w + x) == x
    decreases |w|
  {
    if |w| > 0 {
      assert (w + x)[1..] == w[1..] + x;
      TrimStartPad(w[1..], x);
    } else {
      assert w + x == x;
    }
  }

  lemma {:induction false} TrimEndPad(x: string, w: string)
    requires AllWhite(w)
    requires |x| > 0 && !IsWhite(x[|x| - 1])
    ensures TrimEnd(x + w) == x
    decreases |w|
  {
    if |w| > 0 {
      assert (x + w)[..|x + w| - 1] == x + w[..|w| - 1];
      TrimEndPad(x, w[..|w| - 1]);
    } else {
      assert x + w == x;
    }
  }

  /** White space around a text with non-blank ends is exactly what `Trim`
      removes. */
  lemma TrimPadded(w1: string, x: string, w2: string)
    requires AllWhite(w1) && AllWhite(w2)
    requires |x| > 0 && !IsWhite(x[0]) && !IsWhite(x[|x| - 1])
    ensures Trim(w1 + x + w2) == x
  {
    assert w1 + x + w2 == w1 + (x + w2);
    TrimStartPad(w1, x + w2);
    TrimEndPad(x, w2);
  }

  /** Trimming only removes characters. */
  lemma TrimKeeps(s: string)
    ensures multiset(Trim(s)) <= multiset(s)
  {
    TrimSpec(s);
    var r := Trim(s);
    var i :| TrimmedAt(s, r, i);
    assert s == s[..i] + r + s[i + |r|..];
    assert multiset(s) == multiset(s[..i]) + multiset(r) + multiset(s[i + |r|..]);
  }

  /** Trimming a string free of `c` leaves it free of `c`. */
  lemma TrimFree(s: string, c: char)
    requires Free(s, c)
    ensures Free(Trim(s), c)
  {
    TrimSpec(s);
    var r := Trim(s);
    var i :| TrimmedAt(s, r, i);
    forall k | 0 <= k < |r| ensures r[k] != c {
      assert r[k] == s[i + k];
    }
  }

  // ---------------------------------------------------------------------
  // Replace(c, "")
  // ---------------------------------------------------------------------

  /** `s.Replace("<c>", "")` for a one-character pattern: every `c` is deleted,
      every other character is kept, in order. */
  function RemoveChar(s: string, c: char): (r: string)
    ensures forall i :: 0 <= i < |r| ==> r[i] != c
    ensures multiset(r) == multiset(s)[c := 0]
  {
    if |s| == 0 then ""
    else
      assert s == [s[0]] + s[1..];
      var rest := RemoveChar(s[1..], c);
      if s[0] == c then rest else [s[0]] + rest
  }

  /** Removal works piece by piece, so the kept characters stay in order. */
  lemma {:induction false} RemoveCharAppend(a: string, b: string, c: char)
    ensures RemoveChar(a + b, c) == RemoveChar(a, c) + RemoveChar(b, c)
    decreases |a|
  {
    if |a| > 0 {
      assert (a + b)[0] == a[0];
      assert (a + b)[1..] == a[1..] + b;
      RemoveCharAppend(a[1..], b, c);
    } else {
      assert a + b == b;
    }
  }

  /** A string without `c` is left as it is. */
  lemma {:induction false} RemoveCharFree(s: string, c: char)
    requires Free(s, c)
    ensures RemoveChar(s, c) == s
    decreases |s|
  {
    if |s| > 0 {
      RemoveCharFree(s[1..], c);
      assert s == [s[0]] + s[1..];
    }
  }

  // ---------------------------------------------------------------------
  // Split(c) and its inverse
  // ---------------------------------------------------------------------

  /** Glues segments back together with `c` between neighbours. */
  function Join(parts: seq<string>, c: char): string
    requires |parts| >= 1
  {
    if |parts| == 1 then parts[0] else parts[0] + [c] + Join(parts[1..], c)
  }

  predicate Free(s: string, c: char) { forall k :: 0 <= k < |s| ==> s[k] != c }

  /** `String.Split(c)`: the segments between separators, empty ones included,
      so there is always one more segment than there are separators. */
  function Split(s: string, c: char): (r: seq<string>)
    ensures |r| >= 1
    ensures forall i :: 0 <= i < |r| ==> Free(r[i], c)
    ensures Join(r, c) == s
  {
    if |s| == 0 then [""]
    else
      var t := Split(s[1..], c);
      if s[0] == c then
        assert s == [] + [c] + Join(t, c);
        [""] + t
      else
        var r := [[s[0]] + t[0]] + t[1..];
        assert r[1..] == t[1..];
        assert s == [s[0]] + s[1..];
        r
  }

  /** Moving the first character of the first segment out of a join. */
  lemma JoinHead(parts: seq<string>, c: char)
    requires |parts| >= 1 && |parts[0]| > 0
    ensures Join(parts, c) == [parts[0][0]] + Join([parts[0][1..]] + parts[1..], c)
  {
    var p := parts[0];
    var shorter := [p[1..]] + parts[1..];
    assert shorter[0] == p[1..] && shorter[1..] == parts[1..];
    assert p == [p[0]] + p[1..];
  }

  /** Splitting a join of separator-free segments gives the segments back. */
  lemma {:induction false} SplitJoin(parts: seq<string>, c: char)
    requires |parts| >= 1
    requires forall i :: 0 <= i < |parts| ==> Free(parts[i], c)
    ensures Split(Join(parts, c), c) == parts
    decreases |parts|, |parts[0]|
  {
    var p := parts[0];
    if |p| == 0 {
      if |parts| > 1 {
        var rest := Join(parts[1..], c);
        SplitJoin(parts[1..], c);
        assert Join(parts, c) == [c] + rest;
        assert (Join(parts, c))[1..] == rest;
        assert parts == [""] + parts[1..];
      }
    } else {
      var shorter := [p[1..]] + parts[1..];
      assert shorter[0] == p[1..] && shorter[1..] == parts[1..];
      assert forall i :: 0 <= i < |shorter| ==> Free(shorter[i], c);
      SplitJoin(shorter, c);
      var s := Join(parts, c);
      JoinHead(parts, c);
      assert s[1..] == Join(shorter, c);
      assert s[0] == p[0] != c;
      var t := Split(s[1..], c);
      assert t == shorter;
      assert Split(s, c) == [[s[0]] + t[0]] + t[1..];
      assert [p[0]] + p[1..] == p;
      assert parts == [p] + parts[1..];
    }
  }
}
