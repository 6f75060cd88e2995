/**
 * The Python `str` operations the report pipeline relies on: `split` on one
 * character, `"sep".join`, `strip()`, `split()` with no argument, `in`,
 * `startswith`, slicing `s[:n]`, and the whitespace class of `str.isspace`
 * (which is also what Python's `re` means by `\s`).
 */
module PyStr {

  /**
   * `c.isspace()`, which is also what Python's `re` matches with `\s`: the ASCII
   * controls TAB to CR and FS to US, SPACE, NEL, NO-BREAK SPACE, OGHAM SPACE MARK,
   * the spaces EN QUAD to HAIR SPACE, LINE and PARAGRAPH SEPARATOR, NARROW
   * NO-BREAK SPACE, MEDIUM MATHEMATICAL SPACE and IDEOGRAPHIC SPACE.
   */
  predicate IsSpace(c: char) {
    var n := c as int;
    if n <= 0x20 then 0x09 <= n <= 0x0d || 0x1c <= n
    else if n < 0x85 then false
    else IsWideSpace(n)
  }

  /** The whitespace code points above U+0084. */
  predicate IsWideSpace(n: int) {
    n == 0x85 || n == 0xa0 || n == 0x1680 || 0x2000 <= n <= 0x200a
    || n == 0x2028 || n == 0x2029 || n == 0x202f || n == 0x205f || n == 0x3000
  }

  predicate NoSpace(s: string) {
    forall i {:trigger IsSpace(s[i])} :: 0 <= i < |s| ==> !IsSpace(s[i])
  }

  /** Concatenating two whitespace-free strings gives a whitespace-free string. */
  lemma {:induction false} NoSpaceConcat(a: string, b: string)
    requires NoSpace(a) && NoSpace(b)
    ensures NoSpace(a + b)
  {
    forall i | 0 <= i < |a + b|
      ensures !IsSpace((a + b)[i])
    {
      if i < |a| {
        assert (a + b)[i] == a[i];
      } else {
        assert (a + b)[i] == b[i - |a|];
      }
    }
  }

  /** Every character of `s[lo..hi]` is whitespace. */
  predicate SpaceBetween(s: string, lo: int, hi: int) {
    forall i {:trigger IsSpace(s[i])} :: lo <= i < hi && 0 <= i < |s| ==> IsSpace(s[i])
  }

  /** `s.startswith(prefix)` */
  predicate StartsWith(s: string, prefix: string) {
    |prefix| <= |s| && s[..|prefix|] == prefix
  }

  /** `needle in hay` for two strings. */
  predicate IsSubstring(needle: string, hay: string)
    decreases |hay|
  {
    StartsWith(hay, needle) || (|hay| > 0 && IsSubstring(needle, hay[1..]))
  }

  /** A string occurs in any text that has it between two other strings. */
  lemma {:induction false} SubstringInMiddle(a: string, needle: string, b: string)
    ensures IsSubstring(needle, a + needle + b)
    decreases |a|
  {
    if |a| == 0 {
      assert a + needle + b == needle + b;
      assert (needle + b)[..|needle|] == needle;
    } else {
      SubstringInMiddle(a[1..], needle, b);
      assert (a + needle + b)[1..] == a[1..] + needle + b;
    }
  }

  lemma {:induction false} EmptyIsSubstring(s: string)
    ensures IsSubstring("", s)
  {
    assert s[..0] == "";
  }

  /** `s[:n]`: at most the first n characters. */
  function Take(s: string, n: nat): (r: string)
    ensures |r| == if |s| <= n then |s| else n
    ensures r == s[..|r|]
  {
    if |s| <= n then s else s[..n]
  }

  /** `s.find(c)`, except that a missing character gives `|s|` rather than -1. */
  function FindChar(s: string, c: char): (k: nat)
    ensures k <= |s|
    ensures c !in s[..k]
    ensures k < |s| ==> s[k] == c
  {
    if |s| == 0 then 0
    else if s[0] == c then 0
    else
      var k := FindChar(s[1..], c);
      assert s[1..][..k] == s[1..k + 1];
      assert s[..k + 1] == [s[0]] + s[1..k + 1];
      k + 1
  }

  /** `s.split(sep)` for a one-character separator: never empty, no piece holds `sep`. */
  function Split(s: string, sep: char): (r: seq<string>)
    ensures |r| >= 1
    ensures forall i :: 0 <= i < |r| ==> sep !in r[i]
    decreases |s|
  {
    if |s| == 0 then [""]
    else
      var rest := Split(s[1..], sep);
      if s[0] == sep then [""] + rest
      else [[s[0]] + rest[0]] + rest[1..]
  }

  /** `sep.join(parts)` */
  function Join(parts: seq<string>, sep: string): string
    decreases |parts|
  {
    if |parts| == 0 then ""
    else if |parts| == 1 then parts[0]
    else parts[0] + sep + Join(parts[1..], sep)
  }

  lemma {:induction false} JoinCons(p: string, rest: seq<string>, sep: string)
    requires |rest| >= 1
    ensures Join([p] + rest, sep) == p + sep + Join(rest, sep)
  {
    assert ([p] + rest)[1..] == rest;
  }

  /** Joining the pieces of a split with the same separator gives back the string. */
  lemma {:induction false} JoinSplit(s: string, c: char)
    ensures Join(Split(s, c), [c]) == s
    decreases |s|
  {
    if |s| > 0 {
      var rest := Split(s[1..], c);
      JoinSplit(s[1..], c);
      if s[0] == c {
        JoinCons("", rest, [c]);
      } else if |rest| == 1 {
      } else {
        JoinCons(rest[0], rest[1..], [c]);
        assert [rest[0]] + rest[1..] == rest;
        JoinCons([s[0]] + rest[0], rest[1..], [c]);
      }
      assert [s[0]] + s[1..] == s;
    }
  }

  /** A separator-free prefix becomes the front of the first piece. */
  lemma {:induction false} SplitFreePrefix(w: string, t: string, c: char)
    requires c !in w
    ensures Split(w + t, c) == [w + Split(t, c)[0]] + Split(t, c)[1..]
    decreases |w|
  {
    if |w| > 0 {
      assert (w + t)[1..] == w[1..] + t;
      SplitFreePrefix(w[1..], t, c);
      assert [w[0]] + (w[1..] + Split(t, c)[0]) == w + Split(t, c)[0];
    } else {
      assert w + t == t;
      assert w + Split(t, c)[0] == Split(t, c)[0];
      assert [Split(t, c)[0]] + Split(t, c)[1..] == Split(t, c);
    }
  }

  /** Splitting a join of separator-free pieces gives back the pieces. */
  lemma {:induction false} SplitJoin(parts: seq<string>, c: char)
    requires |parts| >= 1
    requires forall i :: 0 <= i < |parts| ==> c !in parts[i]
    ensures Split(Join(parts, [c]), c) == parts
    decreases |parts|
  {
    if |parts| == 1 {
      SplitFreePrefix(parts[0], "", c);
      assert parts[0] + "" == parts[0];
    } else {
      var tail := Join(parts[1..], [c]);
      SplitJoin(parts[1..], c);
      assert Split([c] + tail, c) == [""] + Split(tail, c) by {
        assert ([c] + tail)[1..] == tail;
      }
      assert Join(parts, [c]) == parts[0] + ([c] + tail);
      SplitFreePrefix(parts[0], [c] + tail, c);
      assert parts[0] + "" == parts[0];
      assert [parts[0]] + parts[1..] == parts;
    }
  }

  /** The first piece of a split runs up to the first separator; the rest is the split after it. */
  lemma {:induction false} SplitAtFirst(s: string, c: char)
    ensures var k := FindChar(s, c);
      && Split(s, c)[0] == s[..k]
      && Split(s, c)[1..] == (if k < |s| then Split(s[k + 1..], c) else [])
  {
    var k := FindChar(s, c);
    if k < |s| {
      var tail := s[k..];
      assert tail[1..] == s[k + 1..] && tail[0] == c;
      assert Split(tail, c) == [""] + Split(s[k + 1..], c);
      assert s[..k] + tail == s;
      SplitFreePrefix(s[..k], tail, c);
    } else {
      SplitFreePrefix(s, "", c);
      assert s + "" == s;
      assert s[..k] == s;
    }
  }

  /** No character of `s[lo..hi]` is whitespace. */
  predicate NoSpaceBetween(s: string, lo: int, hi: int) {
    forall i {:trigger IsSpace(s[i])} :: lo <= i < hi && 0 <= i < |s| ==> !IsSpace(s[i])
  }

  /** The first position at or after `i` that does not hold whitespace, or `|s|`. */
  function SkipSpace(s: string, i: nat): (j: nat)
    requires i <= |s|
    ensures i <= j <= |s|
    ensures i < |s| && IsSpace(s[i]) ==> i < j
    decreases |s| - i
  {
    if i < |s| && IsSpace(s[i]) then SkipSpace(s, i + 1) else i
  }

  /** The first position at or after `i` that holds whitespace, or `|s|`. */
  function SkipWord(s: string, i: nat): (j: nat)
    requires i <= |s|
    ensures i <= j <= |s|
    ensures i < |s| && !IsSpace(s[i]) ==> i < j
    decreases |s| - i
  {
    if i < |s| && !IsSpace(s[i]) then SkipWord(s, i + 1) else i
  }

  /** Where the trailing whitespace run of `s[..j]` starts. */
  function TrimEnd(s: string, j: nat): (e: nat)
    requires j <= |s|
    ensures e <= j
    ensures j > 0 && IsSpace(s[j - 1]) ==> e < j
  {
    if j > 0 && IsSpace(s[j - 1]) then TrimEnd(s, j - 1) else j
  }

  /** `SkipSpace` passes over whitespace only and stops at the first non-space. */
  lemma {:induction false} SkipSpaceSpec(s: string, i: nat)
    requires i <= |s|
    ensures var j := SkipSpace(s, i); SpaceBetween(s, i, j) && (j < |s| ==> !IsSpace(s[j]))
    decreases |s| - i
  {
    if i < |s| && IsSpace(s[i]) {
      SkipSpaceSpec(s, i + 1);
    }
  }

  /** `SkipWord` passes over non-space characters only and stops at the first whitespace. */
  lemma {:induction false} SkipWordSpec(s: string, i: nat)
    requires i <= |s|
    ensures var j := SkipWord(s, i); NoSpaceBetween(s, i, j) && (j < |s| ==> IsSpace(s[j]))
    decreases |s| - i
  {
    if i < |s| && !IsSpace(s[i]) {
      SkipWordSpec(s, i + 1);
    }
  }

  /** `TrimEnd` passes back over whitespace only and stops after the last non-space. */
  lemma {:induction false} TrimEndSpec(s: string, j: nat)
    requires j <= |s|
    ensures var e := TrimEnd(s, j); SpaceBetween(s, e, j) && (e > 0 ==> !IsSpace(s[e - 1]))
  {
    if j > 0 && IsSpace(s[j - 1]) {
      TrimEndSpec(s, j - 1);
    }
  }

  /** The position `SkipSpace` finds is the only one with its two properties. */
  lemma {:induction false} SkipSpaceUnique(s: string, i: nat, j: nat)
    requires i <= j <= |s| && SpaceBetween(s, i, j)
    requires j == |s| || !IsSpace(s[j])
    ensures SkipSpace(s, i) == j
    decreases j - i
  {
    if i < j {
      SkipSpaceUnique(s, i + 1, j);
    }
  }

  /** The position `SkipWord` finds is the only one with its two properties. */
  lemma {:induction false} SkipWordUnique(s: string, i: nat, j: nat)
    requires i <= j <= |s| && NoSpaceBetween(s, i, j)
    requires j == |s| || IsSpace(s[j])
    ensures SkipWord(s, i) == j
    decreases j - i
  {
    if i < j {
      SkipWordUnique(s, i + 1, j);
    }
  }

  /** The position `TrimEnd` finds is the only one with its two properties. */
  lemma {:induction false} TrimEndUnique(s: string, j: nat, e: nat)
    requires e <= j <= |s| && SpaceBetween(s, e, j)
    requires e == 0 || !IsSpace(s[e - 1])
    ensures TrimEnd(s, j) == e
    decreases j - e
  {
    if e < j {
      TrimEndUnique(s, j - 1, e);
    }
  }

  /** `s.strip()`: drops the leading and the trailing whitespace and nothing else. */
  function Strip(s: string): string {
    var lo := SkipSpace(s, 0);
    var hi := TrimEnd(s, |s|);
    if lo < hi then s[lo..hi] else ""
  }

  /**
   * `Strip` keeps exactly the middle part of `s` between a whitespace prefix and a
   * whitespace suffix, and that part neither starts nor ends with whitespace.
   */
  lemma {:induction false} StripBounds(s: string) returns (lo: nat, hi: nat)
    ensures lo <= hi <= |s| && Strip(s) == s[lo..hi]
    ensures SpaceBetween(s, 0, lo) && SpaceBetween(s, hi, |s|)
    ensures lo < hi ==> !IsSpace(s[lo]) && !IsSpace(s[hi - 1])
    ensures lo == hi ==> lo == |s| && SpaceBetween(s, 0, |s|)
  {
    lo, hi := SkipSpace(s, 0), TrimEnd(s, |s|);
    SkipSpaceSpec(s, 0);
    TrimEndSpec(s, |s|);
    if hi <= lo {
      lo, hi := |s|, |s|;
    }
  }

  /** The words of `s` from position `i` on: maximal runs of non-space characters. */
  function WordsFrom(s: string, i: nat): seq<string>
    requires i <= |s|
    decreases |s| - i
  {
    var k := SkipSpace(s, i);
    if k == |s| then []
    else
      var j := SkipWord(s, k);
      [s[k..j]] + WordsFrom(s, j)
  }

  /** `s.split()`: the maximal runs of non-space characters, in order. */
  function Words(s: string): seq<string> {
    WordsFrom(s, 0)
  }

  /** Every word is non-empty and holds no whitespace. */
  lemma {:induction false} WordsFromAreWords(s: string, i: nat)
    requires i <= |s|
    ensures forall w <- WordsFrom(s, i) :: w != "" && NoSpace(w)
    decreases |s| - i
  {
    var k := SkipSpace(s, i);
    SkipSpaceSpec(s, i);
    if k < |s| {
      var j := SkipWord(s, k);
      SkipWordSpec(s, k);
      WordsFromAreWords(s, j);
      var w := s[k..j];
      assert forall t {:trigger IsSpace(w[t])} :: 0 <= t < |w| ==> w[t] == s[k + t];
    }
  }

  /** `re.sub(r"\s+", sep, s[i:])`: every maximal whitespace run becomes one `sep`. */
  function CollapseFrom(s: string, i: nat, sep: string): string
    requires i <= |s|
    decreases |s| - i
  {
    if i == |s| then ""
    else if IsSpace(s[i]) then sep + CollapseFrom(s, SkipSpace(s, i), sep)
    else [s[i]] + CollapseFrom(s, i + 1, sep)
  }

  /**
   * `re.sub(r"[\s\u3000]+", sep, s)`: every run of whitespace becomes `sep`.
   * U+3000 is itself whitespace, so the class is the whitespace class.
   */
  function CollapseSpace(s: string, sep: string): string {
    CollapseFrom(s, 0, sep)
  }

  /** A whitespace-free stretch is copied unchanged. */
  lemma {:induction false} CollapseCopiesWord(s: string, i: nat, j: nat, sep: string)
    requires i <= j <= |s| && NoSpaceBetween(s, i, j)
    ensures CollapseFrom(s, i, sep) == s[i..j] + CollapseFrom(s, j, sep)
    decreases j - i
  {
    if i < j {
      var rest := CollapseFrom(s, j, sep);
      CollapseCopiesWord(s, i + 1, j, sep);
      assert CollapseFrom(s, i, sep) == [s[i]] + (s[i + 1..j] + rest);
      assert [s[i]] + (s[i + 1..j] + rest) == ([s[i]] + s[i + 1..j]) + rest;
      assert [s[i]] + s[i + 1..j] == s[i..j];
    }
  }

  /**
   * On a string that does not end in whitespace, collapsing from a word start
   * is joining the words from there.
   */
  lemma {:induction false} CollapseIsJoinFrom(t: string, i: nat, sep: string)
    requires i <= |t| && (i == |t| || !IsSpace(t[i]))
    requires |t| == 0 || !IsSpace(t[|t| - 1])
    ensures CollapseFrom(t, i, sep) == Join(WordsFrom(t, i), sep)
    decreases |t| - i
  {
    if i < |t| {
      SkipSpaceUnique(t, i, i);
      var j := SkipWord(t, i);
      SkipWordSpec(t, i);
      CollapseCopiesWord(t, i, j, sep);
      if j == |t| {
        SkipSpaceUnique(t, j, j);
      } else {
        var k := SkipSpace(t, j);
        SkipSpaceSpec(t, j);
        SkipSpaceUnique(t, k, k);
        CollapseIsJoinFrom(t, k, sep);
        JoinCons(t[i..j], WordsFrom(t, k), sep);
      }
    }
  }

  /** One step of `WordsFrom`, with the positions named. */
  lemma {:induction false} WordsFromStep(s: string, i: nat, k: nat, j: nat)
    requires i <= |s| && k == SkipSpace(s, i) < |s| && j == SkipWord(s, k)
    ensures WordsFrom(s, i) == [s[k..j]] + WordsFrom(s, j)
  {
  }

  /** Whitespace facts about a slice carry over to the string it was cut from. */
  lemma {:induction false} SliceRuns(s: string, lo: nat, hi: nat, a: nat, b: nat)
    requires lo <= hi <= |s| && a <= b <= hi - lo
    ensures SpaceBetween(s[lo..hi], a, b) ==> SpaceBetween(s, lo + a, lo + b)
    ensures NoSpaceBetween(s[lo..hi], a, b) ==> NoSpaceBetween(s, lo + a, lo + b)
  {
    var t := s[lo..hi];
    assert forall p {:trigger IsSpace(t[p])} :: a <= p < b ==> t[p] == s[lo + p];
    assert forall q {:trigger IsSpace(s[q])} :: lo + a <= q < lo + b ==> s[q] == t[q - lo];
  }

  /** Slicing a slice is one slice of the original. */
  lemma {:induction false} SliceOfSlice(s: string, lo: nat, hi: nat, a: nat, b: nat)
    requires lo <= hi <= |s| && a <= b <= hi - lo
    ensures s[lo..hi][a..b] == s[lo + a..lo + b]
  {
    var t := s[lo..hi];
    forall p | 0 <= p < b - a
      ensures t[a..b][p] == s[lo + a..lo + b][p]
    {
      assert t[a..b][p] == t[a + p];
      assert t[a + p] == s[lo + a + p];
    }
  }

  /**
   * In a slice that only drops trailing whitespace, skipping whitespace finds the
   * same position as in the string, shifted by the start of the slice, or the
   * end of the string when the rest of the slice is whitespace.
   */
  lemma {:induction false} SliceSkipSpace(s: string, lo: nat, hi: nat, i: nat)
    requires lo <= hi <= |s| && SpaceBetween(s, hi, |s|)
    requires i <= hi - lo
    ensures var k := SkipSpace(s[lo..hi], i);
      && (k == hi - lo ==> SkipSpace(s, lo + i) == |s|)
      && (k < hi - lo ==> SkipSpace(s, lo + i) == lo + k)
  {
    var t := s[lo..hi];
    var k := SkipSpace(t, i);
    SkipSpaceSpec(t, i);
    SliceRuns(s, lo, hi, i, k);
    if k == |t| {
      SkipSpaceUnique(s, lo + i, |s|);
    } else {
      assert t[k] == s[lo + k];
      SkipSpaceUnique(s, lo + i, lo + k);
    }
  }

  /** Likewise, a word of the slice ends where the same word of the string ends. */
  lemma {:induction false} SliceSkipWord(s: string, lo: nat, hi: nat, k: nat)
    requires lo <= hi <= |s| && SpaceBetween(s, hi, |s|)
    requires k <= hi - lo
    ensures SkipWord(s, lo + k) == lo + SkipWord(s[lo..hi], k)
  {
    var t := s[lo..hi];
    var j := SkipWord(t, k);
    SkipWordSpec(t, k);
    SliceRuns(s, lo, hi, k, j);
    if j < |t| {
      assert t[j] == s[lo + j];
    }
    SkipWordUnique(s, lo + k, lo + j);
  }

  /** One word of a slice, given that the words after it agree. */
  lemma {:induction false} WordsOfSliceStep(s: string, lo: nat, hi: nat, i: nat, k: nat, j: nat)
    requires lo <= hi <= |s| && i <= k < j <= hi - lo
    requires k == SkipSpace(s[lo..hi], i) && j == SkipWord(s[lo..hi], k)
    requires lo + k == SkipSpace(s, lo + i) && lo + j == SkipWord(s, lo + k)
    requires WordsFrom(s[lo..hi], j) == WordsFrom(s, lo + j)
    ensures WordsFrom(s[lo..hi], i) == WordsFrom(s, lo + i)
  {
    SliceOfSlice(s, lo, hi, k, j);
    WordsFromStep(s[lo..hi], i, k, j);
    WordsFromStep(s, lo + i, lo + k, lo + j);
  }

  /** The words of a slice that only drops trailing whitespace are the words of the string. */
  lemma {:induction false} WordsOfSlice(s: string, lo: nat, hi: nat, i: nat)
    requires lo <= hi <= |s| && SpaceBetween(s, hi, |s|)
    requires i <= hi - lo
    ensures WordsFrom(s[lo..hi], i) == WordsFrom(s, lo + i)
    decreases hi - lo - i
  {
    var t := s[lo..hi];
    var k := SkipSpace(t, i);
    SliceSkipSpace(s, lo, hi, i);
    if k < |t| {
      SkipSpaceSpec(t, i);
      SliceSkipWord(s, lo, hi, k);
      var j := SkipWord(t, k);
      WordsOfSlice(s, lo, hi, j);
      WordsOfSliceStep(s, lo, hi, i, k, j);
    }
  }

  /** Stripping does not change the words: `s.strip().split() == s.split()`. */
  lemma {:induction false} WordsOfStrip(s: string)
    ensures Words(Strip(s)) == Words(s)
  {
    var lo, hi := StripBounds(s);
    WordsOfSlice(s, lo, hi, 0);
    SkipSpaceUnique(s, 0, lo);
    SkipSpaceUnique(s, lo, lo);
  }

  /**
   * Collapsing the whitespace runs of a stripped string is the same as
   * joining its words: `re.sub(r"\s+", sep, s.strip()) == sep.join(s.split())`.
   */
  lemma {:induction false} CollapseStripIsJoinWords(s: string, sep: string)
    ensures CollapseSpace(Strip(s), sep) == Join(Words(s), sep)
  {
    var lo, hi := StripBounds(s);
    var t := Strip(s);
    if lo < hi {
      assert t[0] == s[lo] && t[|t| - 1] == s[hi - 1];
    }
    CollapseIsJoinFrom(t, 0, sep);
    WordsOfStrip(s);
  }
}
