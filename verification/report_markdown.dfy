/**
 * The two string steps applied to `report.md` around the Markdown conversion:
 * dropping the navigation line at the top, and the heading-anchor slug used by
 * the table-of-contents extension.
 */
module ReportMarkdown {
  import opened PyStr
  import opened PyList

  /**
   * The text handed to the Markdown converter: the first line is dropped when it
   * starts with `[` (the `[← トップ](./) ｜ …` navigation links), every other
   * line is kept in order and the lines are joined again with `"\n"`.
   */
  function StripNavLine(md: string): string {
    var lines := Split(md, '\n');
    var kept := if StartsWith(lines[0], "[") then lines[1..] else lines;
    Join(kept, "\n")
  }

  /**
   * What `StripNavLine` leaves: the whole text when it does not start with `[`;
   * otherwise everything after the first line break, or nothing when there is none.
   */
  lemma {:induction false} StripNavLineSpec(md: string)
    ensures var k := FindChar(md, '\n');
      StripNavLine(md) ==
        if |md| > 0 && md[0] == '[' then (if k < |md| then md[k + 1..] else "") else md
  {
    var k := FindChar(md, '\n');
    SplitAtFirst(md, '\n');
    var lines := Split(md, '\n');
    assert StartsWith(lines[0], "[") <==> |md| > 0 && md[0] == '[' by {
      if |md| > 0 && md[0] == '[' {
        assert k > 0;
        assert lines[0][0] == md[0];
      }
    }
    if |md| > 0 && md[0] == '[' {
      if k < |md| {
        JoinSplit(md[k + 1..], '\n');
      }
    } else {
      JoinSplit(md, '\n');
    }
  }

  /**
   * Read line by line, the converted text is the original lines with the first
   * one removed exactly when it starts with `[`.
   */
  lemma {:induction false} StripNavLineLines(md: string)
    ensures var lines := Split(md, '\n');
      var kept := if StartsWith(lines[0], "[") then lines[1..] else lines;
      |kept| >= 1 ==> Split(StripNavLine(md), '\n') == kept
  {
    var lines := Split(md, '\n');
    var kept := if StartsWith(lines[0], "[") then lines[1..] else lines;
    if |kept| >= 1 {
      assert forall i :: 0 <= i < |kept| ==> kept[i] in lines;
      SplitJoin(kept, '\n');
    }
  }

  /** A text without a leading navigation line reaches the converter unchanged. */
  lemma {:induction false} StripNavLineKeepsPlainText(md: string)
    requires |md| == 0 || md[0] != '['
    ensures StripNavLine(md) == md
  {
    StripNavLineSpec(md);
  }

  /**
   * The characters `_slugify` keeps in its first step: word characters (`\w`,
   * given as `isWord` because its Unicode tables are not part of this model),
   * whitespace, U+3000 to U+9FFF (CJK punctuation, kana and ideographs) and
   * U+FF00 to U+FFEF (full-width and half-width forms).
   */
  predicate Kept(isWord: char -> bool, c: char) {
    isWord(c) || IsSpace(c) || 0x3000 <= c as int <= 0x9fff || 0xff00 <= c as int <= 0xffef
  }

  /** The first step of `_slugify`: every character that is not kept is deleted. */
  function RemoveUnkept(isWord: char -> bool, s: string): (r: string)
    ensures forall c <- r :: Kept(isWord, c)
    ensures |r| <= |s|
  {
    if |s| == 0 then ""
    else if Kept(isWord, s[0]) then [s[0]] + RemoveUnkept(isWord, s[1..])
    else RemoveUnkept(isWord, s[1..])
  }

  /** The character class of the first step, as the test of a comprehension. */
  function KeptTest(isWord: char -> bool): char -> bool {
    c => Kept(isWord, c)
  }

  /** The deletion is the comprehension that keeps exactly the kept characters. */
  lemma {:induction false} RemoveUnkeptIsFilter(isWord: char -> bool, s: string)
    ensures RemoveUnkept(isWord, s) == Filter(s, KeptTest(isWord))
    decreases |s|
  {
    if |s| > 0 {
      RemoveUnkeptIsFilter(isWord, s[1..]);
    }
  }

  /**
   * Every kept character survives, as often as it occurs and in its original
   * order; every other character is gone.
   */
  lemma {:induction false} RemoveUnkeptKeeps(isWord: char -> bool, s: string)
    ensures IsSubsequence(RemoveUnkept(isWord, s), s)
    ensures forall c :: multiset(RemoveUnkept(isWord, s))[c] == if Kept(isWord, c) then multiset(s)[c] else 0
  {
    RemoveUnkeptIsFilter(isWord, s);
    FilterIsSubsequence(s, KeptTest(isWord));
    FilterCount(s, KeptTest(isWord));
  }

  /** Kept characters survive in their original order: removing nothing more on a second pass. */
  lemma {:induction false} RemoveUnkeptIdempotent(isWord: char -> bool, s: string)
    ensures RemoveUnkept(isWord, RemoveUnkept(isWord, s)) == RemoveUnkept(isWord, s)
    decreases |s|
  {
    if |s| > 0 {
      RemoveUnkeptIdempotent(isWord, s[1..]);
      var r := RemoveUnkept(isWord, s[1..]);
      if Kept(isWord, s[0]) {
        assert ([s[0]] + r)[1..] == r;
      }
    }
  }

  /**
   * `c.lower()` for the Latin capitals of ASCII and of the full-width forms
   * block; every other character is returned unchanged.
   */
  function LowerChar(c: char): (d: char)
    ensures IsSpace(d) == IsSpace(c)
  {
    if 'A' <= c <= 'Z' then (c as int + 32) as char
    else if '\U{FF21}' <= c <= '\U{FF3A}' then (c as int + 32) as char
    else c
  }

  /** `s.lower()`: every character lowered in place. */
  function Lower(s: string): (r: string)
    ensures |r| == |s|
    ensures forall i :: 0 <= i < |s| ==> r[i] == LowerChar(s[i])
  {
    if |s| == 0 then "" else [LowerChar(s[0])] + Lower(s[1..])
  }

  /** Lowering commutes with slicing. */
  lemma {:induction false} LowerSlice(s: string, lo: nat, hi: nat)
    requires lo <= hi <= |s|
    ensures Lower(s)[lo..hi] == Lower(s[lo..hi])
  {
    var a, b := Lower(s)[lo..hi], Lower(s[lo..hi]);
    forall i | 0 <= i < hi - lo
      ensures a[i] == b[i]
    {
      assert a[i] == Lower(s)[lo + i] == LowerChar(s[lo + i]);
      assert b[i] == LowerChar(s[lo..hi][i]);
    }
  }

  /** Lowering neither creates nor removes whitespace, so it commutes with `strip()`. */
  lemma {:induction false} LowerStrip(s: string)
    ensures Lower(Strip(s)) == Strip(Lower(s))
  {
    var u := Lower(s);
    var lo, hi := SkipSpace(s, 0), TrimEnd(s, |s|);
    SkipSpaceSpec(s, 0);
    TrimEndSpec(s, |s|);
    assert forall i {:trigger IsSpace(u[i])} :: 0 <= i < |s| ==> IsSpace(u[i]) == IsSpace(s[i]);
    SkipSpaceUnique(u, 0, lo);
    TrimEndUnique(u, |u|, hi);
    if lo < hi {
      LowerSlice(s, lo, hi);
    }
  }

  /**
   * `_slugify(value, separator)`: drop the characters that are not kept, strip
   * and lower-case, then replace every whitespace run by the separator.
   */
  function Slugify(isWord: char -> bool, value: string, separator: string): string {
    CollapseSpace(Lower(Strip(RemoveUnkept(isWord, value))), separator)
  }

  /**
   * The slug is the words of the cleaned, lower-cased heading joined by the
   * separator: no leading or trailing separator, never two in a row.
   */
  lemma {:induction false} SlugifyJoinsWords(isWord: char -> bool, value: string, separator: string)
    ensures Slugify(isWord, value, separator)
         == Join(Words(Lower(RemoveUnkept(isWord, value))), separator)
  {
    var x := RemoveUnkept(isWord, value);
    LowerStrip(x);
    CollapseStripIsJoinWords(Lower(x), separator);
  }

  /** Joining whitespace-free pieces with a whitespace-free separator gives no whitespace. */
  lemma {:induction false} JoinNoSpace(parts: seq<string>, sep: string)
    requires NoSpace(sep) && forall p <- parts :: NoSpace(p)
    ensures NoSpace(Join(parts, sep))
    decreases |parts|
  {
    if |parts| == 1 {
      assert parts[0] in parts;
    } else if |parts| > 1 {
      JoinNoSpace(parts[1..], sep);
      assert parts[0] in parts;
      NoSpaceConcat(parts[0], sep);
      NoSpaceConcat(parts[0] + sep, Join(parts[1..], sep));
    }
  }

  /** With the default `-` separator a slug holds no whitespace at all. */
  lemma {:induction false} SlugHasNoSpace(isWord: char -> bool, value: string, separator: string)
    requires NoSpace(separator)
    ensures NoSpace(Slugify(isWord, value, separator))
  {
    var x := Lower(RemoveUnkept(isWord, value));
    SlugifyJoinsWords(isWord, value, separator);
    WordsFromAreWords(x, 0);
    JoinNoSpace(Words(x), separator);
  }
}
