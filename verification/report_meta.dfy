/**
 * `extract_meta`: the company name and four-digit securities code taken from the
 * first `# name（dddd）` heading of `report.md`. The regular expression
 * `^#\s+(.+?)（(\d{4})）` searched in multi-line mode is modelled as the
 * backtracking search Python's `re` performs: start positions from left to
 * right, then the greedy whitespace run from longest to shortest, then the lazy
 * name from shortest to longest.
 */
module ReportMeta {
  import opened Wrappers
  import opened PyStr

  /** The pair `extract_meta` returns. */
  datatype Meta = Meta(name: string, code: string)

  /** The pair returned when no heading matches. */
  const Fallback := Meta("企業", "0000")

  /**
   * `\d`, restricted to the ASCII digits and the full-width digits U+FF10 to U+FF19;
   * the decimal digits of other scripts are not part of this model.
   */
  predicate IsDigit(c: char) {
    '0' <= c <= '9' || '\U{FF10}' <= c <= '\U{FF19}'
  }

  /** `#` at the start of a line (`^` in multi-line mode). */
  predicate HeadAt(s: string, p: nat) {
    p < |s| && s[p] == '#' && (p == 0 || s[p - 1] == '\n')
  }

  /** `（dddd）` at position `q`. */
  predicate CodeAt(s: string, q: nat) {
    q + 6 <= |s| && s[q] == '（' && s[q + 5] == '）'
    && IsDigit(s[q + 1]) && IsDigit(s[q + 2]) && IsDigit(s[q + 3]) && IsDigit(s[q + 4])
  }

  /** `.+?` can take the `t` characters from `start`: at least one, and no line break. */
  predicate NameFits(s: string, start: nat, t: nat) {
    1 <= t && start + t <= |s| && '\n' !in s[start..start + t]
  }

  /** A name of length `t` at `start` followed by the parenthesised code. */
  predicate NameAt(s: string, start: nat, t: nat) {
    NameFits(s, start, t) && CodeAt(s, start + t)
  }

  /** `\s+` can take the `a` characters after the mark at `p`. */
  predicate RunFits(s: string, p: nat, a: nat) {
    1 <= a && p + 1 + a <= |s| && SpaceBetween(s, p + 1, p + 1 + a)
  }

  /** After the mark at `p` and `a` characters of whitespace come a name of `t` characters and the code. */
  predicate NameAfterRun(s: string, p: nat, a: nat, t: nat) {
    p + 1 + a <= |s| && NameAt(s, p + 1 + a, t)
  }

  /**
   * The whole pattern matches with the heading mark at `p`, a whitespace run of
   * `a` characters and a name of `t` characters.
   */
  predicate ValidMatch(s: string, p: nat, a: nat, t: nat) {
    HeadAt(s, p) && RunFits(s, p, a) && NameAfterRun(s, p, a, t)
  }

  /**
   * The order in which the regular expression tries matches: `(p, a, t)` is tried
   * no later than `(q, b, u)`.
   */
  predicate TriedFirst(p: nat, a: nat, t: nat, q: nat, b: nat, u: nat) {
    p < q || (p == q && (a > b || (a == b && t <= u)))
  }

  /** The match `re.search` reports: valid, and tried before every other valid one. */
  ghost predicate FirstMatch(s: string, p: nat, a: nat, t: nat) {
    ValidMatch(s, p, a, t)
    && forall q: nat, b: nat, u: nat {:trigger ValidMatch(s, q, b, u)} ::
         ValidMatch(s, q, b, u) ==> TriedFirst(p, a, t, q, b, u)
  }

  /** No line of `s` matches. */
  ghost predicate NoMatch(s: string) {
    forall p: nat, a: nat, t: nat {:trigger ValidMatch(s, p, a, t)} :: !ValidMatch(s, p, a, t)
  }

  /**
   * The lazy name: the shortest length from `t0` on that is followed by the code,
   * giving up at the first line break.
   */
  function ShortestName(s: string, start: nat, t0: nat): (r: Option<nat>)
    requires 1 <= t0 && start + t0 - 1 <= |s| && '\n' !in s[start..start + t0 - 1]
    ensures r.Some? ==> t0 <= r.value && NameAt(s, start, r.value)
    ensures forall t: nat {:trigger NameAt(s, start, t)} ::
      t0 <= t && (r.None? || t < r.value) ==> !NameAt(s, start, t)
    decreases |s| - start - t0
  {
    if start + t0 > |s| then None
    else if s[start + t0 - 1] == '\n' then
      assert forall t: nat {:trigger NameFits(s, start, t)} :: t0 <= t ==> !NameFits(s, start, t) by {
        forall t: nat | t0 <= t && start + t <= |s|
          ensures !NameFits(s, start, t)
        {
          assert s[start..start + t][t0 - 1] == '\n';
        }
      }
      None
    else
      assert s[start..start + t0] == s[start..start + t0 - 1] + [s[start + t0 - 1]];
      if CodeAt(s, start + t0) then Some(t0)
      else ShortestName(s, start, t0 + 1)
  }

  /**
   * The greedy whitespace run after the mark at `p`: widths from `a` down to 1,
   * the first one after which a name and the code follow, with the shortest name.
   */
  function WidestRun(s: string, p: nat, a: nat): (r: Option<(nat, nat)>)
    requires p + 1 + a <= |s|
    ensures r.Some? ==> 1 <= r.value.0 <= a && NameAfterRun(s, p, r.value.0, r.value.1)
    ensures r.Some? ==> forall t: nat {:trigger NameAfterRun(s, p, r.value.0, t)} ::
      t < r.value.1 ==> !NameAfterRun(s, p, r.value.0, t)
    ensures forall b: nat, t: nat {:trigger NameAfterRun(s, p, b, t)} ::
      1 <= b <= a && (r.None? || r.value.0 < b) ==> !NameAfterRun(s, p, b, t)
    decreases a
  {
    if a == 0 then None
    else
      match ShortestName(s, p + 1 + a, 1)
      case Some(t) => Some((a, t))
      case None =>
        assert forall t: nat {:trigger NameAfterRun(s, p, a, t)} :: !NameAfterRun(s, p, a, t);
        WidestRun(s, p, a - 1)
  }

  /** The pattern tried with `^` at position `p`. */
  function MatchAt(s: string, p: nat): (r: Option<(nat, nat)>)
    requires p <= |s|
    ensures r.Some? ==> ValidMatch(s, p, r.value.0, r.value.1)
    ensures r.Some? ==> forall b: nat, t: nat {:trigger ValidMatch(s, p, b, t)} ::
      ValidMatch(s, p, b, t) ==> TriedFirst(p, r.value.0, r.value.1, p, b, t)
    ensures r.None? ==> forall b: nat, t: nat {:trigger ValidMatch(s, p, b, t)} :: !ValidMatch(s, p, b, t)
  {
    if HeadAt(s, p) then
      var w := SkipSpace(s, p + 1) - (p + 1);
      SkipSpaceSpec(s, p + 1);
      assert RunFits(s, p, w) || w == 0;
      assert forall b: nat {:trigger RunFits(s, p, b)} :: w < b ==> !RunFits(s, p, b) by {
        forall b: nat | w < b
          ensures !RunFits(s, p, b)
        {
          if p + 1 + b <= |s| {
            assert !IsSpace(s[p + 1 + w]);
          }
        }
      }
      WidestRun(s, p, w)
    else None
  }

  /** `re.search`: the first start position, from `p` on, at which the pattern matches. */
  function SearchFrom(s: string, p: nat): (r: Option<(nat, nat, nat)>)
    requires p <= |s|
    ensures r.Some? ==> p <= r.value.0 && ValidMatch(s, r.value.0, r.value.1, r.value.2)
    ensures r.Some? ==> forall b: nat, t: nat {:trigger ValidMatch(s, r.value.0, b, t)} ::
      ValidMatch(s, r.value.0, b, t) ==> TriedFirst(r.value.0, r.value.1, r.value.2, r.value.0, b, t)
    ensures forall q: nat, b: nat, t: nat {:trigger ValidMatch(s, q, b, t)} ::
      p <= q && (r.None? || q < r.value.0) ==> !ValidMatch(s, q, b, t)
    decreases |s| - p
  {
    match MatchAt(s, p)
    case Some((a, t)) => Some((p, a, t))
    case None =>
      if p == |s| then None
      else SearchFrom(s, p + 1)
  }

  /** The two groups of a match: the name and the four digits. */
  function Groups(s: string, p: nat, a: nat, t: nat): Meta
    requires p + 1 + a + t + 5 <= |s|
  {
    var q := p + 1 + a + t;
    Meta(s[p + 1 + a..q], s[q + 1..q + 5])
  }

  /** `extract_meta(md_text)` */
  function ExtractMeta(md: string): Meta {
    match SearchFrom(md, 0)
    case Some((p, a, t)) => Groups(md, p, a, t)
    case None => Fallback
  }

  /**
   * `extract_meta` returns the fallback pair when no line matches; otherwise a
   * first match exists, and the result is its name and code, whichever line of the
   * text it is on.
   */
  lemma {:induction false} ExtractMetaSpec(md: string)
    ensures NoMatch(md) ==> ExtractMeta(md) == Fallback
    ensures !NoMatch(md) ==> exists p: nat, a: nat, t: nat {:trigger FirstMatch(md, p, a, t)} ::
      FirstMatch(md, p, a, t)
    ensures forall p: nat, a: nat, t: nat {:trigger FirstMatch(md, p, a, t)} ::
      FirstMatch(md, p, a, t) ==> ExtractMeta(md) == Groups(md, p, a, t)
  {
    match SearchFrom(md, 0)
    case Some((p, a, t)) =>
      assert FirstMatch(md, p, a, t);
    case None =>
  }

  /** The code `extract_meta` finds is four digits and the name one or more characters of one line. */
  lemma {:induction false} FirstMatchShape(md: string, p: nat, a: nat, t: nat)
    requires FirstMatch(md, p, a, t)
    ensures var m := ExtractMeta(md);
      |m.code| == 4 && (forall c <- m.code :: IsDigit(c))
      && |m.name| == t >= 1 && '\n' !in m.name
  {
    assert ExtractMeta(md) == Groups(md, p, a, t) by {
      ExtractMetaSpec(md);
    }
    var q := p + 1 + a + t;
    assert NameAt(md, p + 1 + a, t) && CodeAt(md, q);
    assert md[q + 1..q + 5] == [md[q + 1], md[q + 2], md[q + 3], md[q + 4]];
  }

  /** The heading of a typical report. */
  const SampleHeading := "# ジェコス（9991）企業分析レポート"

  /** In it, the lazy name after the single space stops right before `（9991）`. */
  lemma SampleHeadingName()
    ensures ShortestName(SampleHeading, 2, 1) == Some(4)
  {
    assert ShortestName(SampleHeading, 2, 4) == Some(4);
  }

  /** The pattern tried at its start takes the one space and the four-character name. */
  lemma SampleHeadingMatch()
    ensures MatchAt(SampleHeading, 0) == Some((1, 4))
  {
    SkipSpaceUnique(SampleHeading, 1, 2);
    SampleHeadingName();
  }

  /** The first match in it is that one, at the start of the text. */
  lemma SampleHeadingSearch()
    ensures SearchFrom(SampleHeading, 0) == Some((0, 1, 4))
  {
    SampleHeadingMatch();
  }

  /** The groups of that match are the company name and its code. */
  lemma SampleHeadingGroups()
    ensures Groups(SampleHeading, 0, 1, 4) == Meta("ジェコス", "9991")
  {
    assert SampleHeading[2..6] == "ジェコス";
    assert SampleHeading[7..11] == "9991";
  }

  /** The heading of a typical report yields its company name and code. */
  lemma ExtractMetaExample()
    ensures ExtractMeta(SampleHeading) == Meta("ジェコス", "9991")
  {
    SampleHeadingSearch();
    SampleHeadingGroups();
  }

  /** A title without a parenthesised code falls back. */
  lemma ExtractMetaFallbackExample()
    ensures ExtractMeta("# タイトルのみ") == Fallback
  {
    var s := "# タイトルのみ";
    forall p: nat, a: nat, t: nat ensures !ValidMatch(s, p, a, t) {
      if p + 1 + a + t < |s| {
        assert s[p + 1 + a + t] != '（';
      }
    }
    ExtractMetaSpec(s);
  }
}
