/**
 * `inject_charts` and its helpers. The converted report body is the flat list of
 * top-level nodes the HTML parser produces; a chart is placed by finding its
 * section heading by text, walking the following siblings for the next heading
 * or the section's first table, and splicing the chart container in.
 */
module ChartInjection {
  import opened Wrappers
  import opened PyStr
  import opened ChartHtml
  import opened PyList

  /**
   * A top-level node of the parsed body: a text node, an element with its tag
   * name and the text strings below it, or a chart container that
   * `inject_charts` inserted, holding the markup `_build_chart_div` built.
   */
  datatype Node =
    | Text(text: string)
    | Element(name: string, strings: seq<string>)
    | ChartDiv(html: string)

  /** The test `while sibling:` applies: an element is always true, a text node only when non-empty. */
  predicate Truthy(n: Node) {
    !(n.Text? && n.text == "")
  }

  /** The tag name matches `^h[1-6]$`. */
  predicate IsHeadingName(name: string) {
    |name| == 2 && name[0] == 'h' && '1' <= name[1] <= '6'
  }

  predicate IsHeading(n: Node) {
    n.Element? && IsHeadingName(n.name)
  }

  predicate IsTable(n: Node) {
    n.Element? && n.name == "table"
  }

  predicate IsChart(n: Node) {
    n.ChartDiv?
  }

  /** A node that came from the converted Markdown rather than from `inject_charts`. */
  predicate IsParsed(n: Node) {
    !n.ChartDiv?
  }

  /** `"".join(s.strip() for s in strings)`: the strings, each stripped, concatenated. */
  function StrippedText(strings: seq<string>): string {
    if |strings| == 0 then "" else Strip(strings[0]) + StrippedText(strings[1..])
  }

  /** `get_text(strip=True)` of a heading. */
  function HeadingText(n: Node): string {
    if n.Element? then StrippedText(n.strings) else ""
  }

  /** `find_all(re.compile(r"^h[1-6]$"))` over the top-level nodes. */
  function Headings(nodes: seq<Node>): seq<Node> {
    Filter(nodes, IsHeading)
  }

  /** `x` spliced in at index `k`: `nodes[k].insert_before(x)`, or an append when `k == |nodes|`. */
  function Insert(nodes: seq<Node>, k: nat, x: Node): (r: seq<Node>)
    requires k <= |nodes|
  {
    nodes[..k] + [x] + nodes[k..]
  }

  /** Two nodes spliced in at the same index, or the second one just after the first. */
  lemma {:induction false} InsertTwice(nodes: seq<Node>, k: nat, x: Node, y: Node)
    requires k <= |nodes|
    ensures Insert(nodes, k, x)[..k] == nodes[..k]
    ensures Insert(Insert(nodes, k, x), k, y) == nodes[..k] + [y, x] + nodes[k..]
    ensures Insert(Insert(nodes, k, x), k + 1, y) == nodes[..k] + [x, y] + nodes[k..]
  {
    var n1 := Insert(nodes, k, x);
    assert n1[..k] == nodes[..k];
    assert n1[k..] == [x] + nodes[k..];
    assert n1[..k + 1] == nodes[..k] + [x];
    assert n1[k + 1..] == nodes[k..];
  }

  /**
   * Splicing a node in leaves the nodes of every other kind, in order, and adds
   * one node to its own kind.
   */
  lemma {:induction false} FilterInsert(nodes: seq<Node>, k: nat, x: Node, p: Node -> bool)
    requires k <= |nodes|
    ensures !p(x) ==> Filter(Insert(nodes, k, x), p) == Filter(nodes, p)
    ensures p(x) ==> |Filter(Insert(nodes, k, x), p)| == |Filter(nodes, p)| + 1
  {
    var a, b := nodes[..k], nodes[k..];
    assert Insert(nodes, k, x) == a + ([x] + b);
    assert a + b == nodes;
    FilterConcat(a, [x] + b, p);
    FilterConcat([x], b, p);
    FilterConcat(a, b, p);
    assert [x][1..] == [];
  }

  /** The text of each heading, in order. */
  function HeadingTexts(hs: seq<Node>): (r: seq<string>)
    ensures |r| == |hs|
  {
    seq(|hs|, k requires 0 <= k < |hs| => HeadingText(hs[k]))
  }

  /** Index of the first text, from `i` on, that equals `text`. */
  function FirstExact(texts: seq<string>, text: string, i: nat): (r: Option<nat>)
    requires i <= |texts|
    ensures r.Some? ==> i <= r.value < |texts| && texts[r.value] == text
    ensures forall k :: i <= k < |texts| && (r.None? || k < r.value) ==> texts[k] != text
    decreases |texts| - i
  {
    if i == |texts| then None
    else if texts[i] == text then Some(i)
    else FirstExact(texts, text, i + 1)
  }

  /** Index of the first text, from `i` on, that contains `text`. */
  function FirstPartial(texts: seq<string>, text: string, i: nat): (r: Option<nat>)
    requires i <= |texts|
    ensures r.Some? ==> i <= r.value < |texts| && IsSubstring(text, texts[r.value])
    ensures forall k :: i <= k < |texts| && (r.None? || k < r.value) ==> !IsSubstring(text, texts[k])
    decreases |texts| - i
  {
    if i == |texts| then None
    else if IsSubstring(text, texts[i]) then Some(i)
    else FirstPartial(texts, text, i + 1)
  }

  /**
   * `_find_heading(headings, text)`, giving the position in `headings` of the
   * heading it returns.
   */
  function FindHeading(hs: seq<Node>, text: string): (r: Option<nat>)
    ensures r.Some? ==> r.value < |hs|
  {
    var texts := HeadingTexts(hs);
    match FirstExact(texts, text, 0)
    case Some(i) => Some(i)
    case None => FirstPartial(texts, text, 0)
  }

  /**
   * The search order of `_find_heading`: the first heading whose text equals
   * `text`; only when there is none, the first whose text contains it; `None`
   * when no heading contains it.
   */
  lemma {:induction false} FindHeadingSpec(hs: seq<Node>, text: string)
    ensures (exists k :: 0 <= k < |hs| && HeadingText(hs[k]) == text) ==>
      var r := FindHeading(hs, text);
      r.Some? && HeadingText(hs[r.value]) == text
      && forall k :: 0 <= k < r.value ==> HeadingText(hs[k]) != text
    ensures (forall k :: 0 <= k < |hs| ==> HeadingText(hs[k]) != text) ==>
      var r := FindHeading(hs, text);
      && (r.Some? ==> IsSubstring(text, HeadingText(hs[r.value]))
                      && forall k :: 0 <= k < r.value ==> !IsSubstring(text, HeadingText(hs[k])))
      && (r.None? ==> forall k :: 0 <= k < |hs| ==> !IsSubstring(text, HeadingText(hs[k])))
  {
    var texts := HeadingTexts(hs);
    assert forall k :: 0 <= k < |hs| ==> texts[k] == HeadingText(hs[k]);
    if FirstExact(texts, text, 0).None? {
      assert FindHeading(hs, text) == FirstPartial(texts, text, 0);
    }
  }

  /**
   * A chart without a section heading searches for `""`: it goes to the first
   * heading with empty text or, when there is none, to the very first heading.
   */
  lemma {:induction false} EmptySectionFirstHeading(hs: seq<Node>)
    ensures FindHeading(hs, "").Some? <==> |hs| > 0
    ensures |hs| > 0 && (forall k :: 0 <= k < |hs| ==> HeadingText(hs[k]) != "") ==> FindHeading(hs, "") == Some(0)
  {
    FindHeadingSpec(hs, "");
    if |hs| > 0 {
      EmptyIsSubstring(HeadingText(hs[0]));
    }
  }

  /** Where the `j`-th heading sits among the nodes: the object `find_all` returned. */
  function NthHeading(nodes: seq<Node>, j: nat): (r: nat)
    requires j < |Headings(nodes)|
    ensures r < |nodes|
    decreases |nodes|
  {
    if IsHeading(nodes[0]) then
      if j == 0 then 0 else 1 + NthHeading(nodes[1..], j - 1)
    else 1 + NthHeading(nodes[1..], j)
  }

  /** The node at that position is the `j`-th entry of the heading list. */
  lemma {:induction false} NthHeadingIsJth(nodes: seq<Node>, j: nat)
    requires j < |Headings(nodes)|
    ensures nodes[NthHeading(nodes, j)] == Headings(nodes)[j]
    decreases |nodes|
  {
    if IsHeading(nodes[0]) {
      if j > 0 {
        NthHeadingIsJth(nodes[1..], j - 1);
      }
    } else {
      NthHeadingIsJth(nodes[1..], j);
    }
  }

  /** A node that is not a heading, spliced in after the `j`-th heading, leaves it where it is. */
  lemma {:induction false} NthHeadingInsertAfter(nodes: seq<Node>, j: nat, k: nat, x: Node)
    requires j < |Headings(nodes)| && NthHeading(nodes, j) < k <= |nodes| && !IsHeading(x)
    ensures j < |Headings(Insert(nodes, k, x))|
    ensures NthHeading(Insert(nodes, k, x), j) == NthHeading(nodes, j)
    decreases |nodes|
  {
    var ins := Insert(nodes, k, x);
    var tail := Insert(nodes[1..], k - 1, x);
    assert ins[0] == nodes[0] && ins[1..] == tail;
    FilterInsert(nodes, k, x, IsHeading);
    if IsHeading(nodes[0]) {
      if j == 0 {
        assert NthHeading(ins, j) == 0 == NthHeading(nodes, j);
      } else {
        NthHeadingInsertAfter(nodes[1..], j - 1, k - 1, x);
        assert NthHeading(ins, j) == 1 + NthHeading(tail, j - 1);
      }
    } else {
      NthHeadingInsertAfter(nodes[1..], j, k - 1, x);
      assert NthHeading(ins, j) == 1 + NthHeading(tail, j);
    }
  }

  /** A node that is not a heading, spliced in at or before the `j`-th heading, moves it down by one. */
  lemma {:induction false} NthHeadingInsertBefore(nodes: seq<Node>, j: nat, k: nat, x: Node)
    requires j < |Headings(nodes)| && k <= NthHeading(nodes, j) && !IsHeading(x)
    ensures j < |Headings(Insert(nodes, k, x))|
    ensures NthHeading(Insert(nodes, k, x), j) == NthHeading(nodes, j) + 1
    decreases |nodes|
  {
    var ins := Insert(nodes, k, x);
    FilterInsert(nodes, k, x, IsHeading);
    if k == 0 {
      assert ins[1..] == nodes;
      assert NthHeading(ins, j) == 1 + NthHeading(nodes, j);
    } else {
      var tail := Insert(nodes[1..], k - 1, x);
      assert ins[0] == nodes[0] && ins[1..] == tail;
      if IsHeading(nodes[0]) {
        NthHeadingInsertBefore(nodes[1..], j - 1, k - 1, x);
        assert NthHeading(ins, j) == 1 + NthHeading(tail, j - 1);
      } else {
        NthHeadingInsertBefore(nodes[1..], j, k - 1, x);
        assert NthHeading(ins, j) == 1 + NthHeading(tail, j);
      }
    }
  }

  /** The siblings `while sibling:` visits from index `j`: up to the first false one. */
  function Reach(nodes: seq<Node>, j: nat): (e: nat)
    requires j <= |nodes|
    ensures j <= e <= |nodes|
    decreases |nodes| - j
  {
    if j == |nodes| || !Truthy(nodes[j]) then j else Reach(nodes, j + 1)
  }

  /** The walk stops at the first false sibling or at the end. */
  lemma {:induction false} ReachSpec(nodes: seq<Node>, j: nat)
    requires j <= |nodes|
    ensures forall k :: j <= k < Reach(nodes, j) ==> Truthy(nodes[k])
    ensures Reach(nodes, j) < |nodes| ==> !Truthy(nodes[Reach(nodes, j)])
    decreases |nodes| - j
  {
    if j < |nodes| && Truthy(nodes[j]) {
      ReachSpec(nodes, j + 1);
    }
  }

  /** The first heading the walk from `j` meets. */
  function NextHeading(nodes: seq<Node>, j: nat): (r: Option<nat>)
    requires j <= |nodes|
    ensures r.Some? ==> j <= r.value < |nodes|
    decreases |nodes| - j
  {
    if j == |nodes| || !Truthy(nodes[j]) then None
    else if IsHeading(nodes[j]) then Some(j)
    else NextHeading(nodes, j + 1)
  }

  /** `_find_next_heading` returns a heading, and the walk passes no heading before it. */
  lemma {:induction false} NextHeadingSpec(nodes: seq<Node>, j: nat)
    requires j <= |nodes|
    ensures var r := NextHeading(nodes, j);
      && (r.Some? ==> r.value < Reach(nodes, j) && IsHeading(nodes[r.value]))
      && forall k :: j <= k < Reach(nodes, j) && (r.None? || k < r.value) ==> !IsHeading(nodes[k])
    decreases |nodes| - j
  {
    if j < |nodes| && Truthy(nodes[j]) && !IsHeading(nodes[j]) {
      NextHeadingSpec(nodes, j + 1);
    }
  }

  /** Where the section that the walk from `j` is in ends: its next heading, or the end of the walk. */
  function SectionEnd(nodes: seq<Node>, j: nat): (e: nat)
    requires j <= |nodes|
    ensures j <= e <= Reach(nodes, j)
  {
    match NextHeading(nodes, j)
    case Some(h) => NextHeadingSpec(nodes, j); h
    case None => Reach(nodes, j)
  }

  /** The first table the walk from `j` meets before any heading. */
  function NextTable(nodes: seq<Node>, j: nat): (r: Option<nat>)
    requires j <= |nodes|
    ensures r.Some? ==> j <= r.value < |nodes|
    decreases |nodes| - j
  {
    if j == |nodes| || !Truthy(nodes[j]) then None
    else if IsHeading(nodes[j]) then None
    else if IsTable(nodes[j]) then Some(j)
    else NextTable(nodes, j + 1)
  }

  /**
   * `_find_next_table` returns the first table of the section, which ends at the
   * next heading or where the walk stops: `None` exactly when the section has no
   * table.
   */
  lemma {:induction false} NextTableSpec(nodes: seq<Node>, j: nat)
    requires j <= |nodes|
    ensures var r := NextTable(nodes, j);
      && (r.Some? ==> r.value < SectionEnd(nodes, j) && IsTable(nodes[r.value]))
      && forall k :: j <= k < SectionEnd(nodes, j) && (r.None? || k < r.value) ==> !IsTable(nodes[k])
    decreases |nodes| - j
  {
    if j < |nodes| && Truthy(nodes[j]) && !IsHeading(nodes[j]) && !IsTable(nodes[j]) {
      NextTableSpec(nodes, j + 1);
    }
  }

  /** The container node built for a chart. */
  function ChartNode(c: Chart): Node {
    ChartDiv(Join(ChartDivLines(c.Id(), c.Title(), c.Note(), c.Height()), "\n"))
  }

  /** The index at which a chart placed relative to the heading at `t` is spliced in. */
  function Spot(nodes: seq<Node>, t: nat, position: string): (k: nat)
    requires t < |nodes|
    ensures t <= k <= |nodes|
    ensures position != "before_section" ==> t < k
  {
    if position == "before_section" then t
    else if position == "after_section" then
      match NextHeading(nodes, t + 1)
      case Some(h) => h
      case None => |nodes|
    else
      match NextTable(nodes, t + 1)
      case Some(b) => b + 1
      case None => if t + 1 < |nodes| && Truthy(nodes[t + 1]) then t + 1 else |nodes|
  }

  /** The index at which `inject_charts` splices the chart in, or `None` when it skips the chart. */
  function InsertionPoint(nodes: seq<Node>, c: Chart): (r: Option<nat>)
    ensures r.Some? ==> r.value <= |nodes|
  {
    match FindHeading(Headings(nodes), c.Section())
    case None => None
    case Some(j) => Some(Spot(nodes, NthHeading(nodes, j), c.Position()))
  }

  /** One iteration of the loop of `inject_charts`. */
  function InjectOne(nodes: seq<Node>, c: Chart): seq<Node> {
    match InsertionPoint(nodes, c)
    case None => nodes
    case Some(k) => Insert(nodes, k, ChartNode(c))
  }

  /** The loop of `inject_charts`: the charts placed one after the other, in list order. */
  function InjectAll(nodes: seq<Node>, charts: seq<Chart>): seq<Node> {
    if |charts| == 0 then nodes
    else InjectOne(InjectAll(nodes, charts[..|charts| - 1]), charts[|charts| - 1])
  }

  /** The parsed body, as `BeautifulSoup` holds it: its top-level nodes, changed in place. */
  class Soup {
    var children: seq<Node>

    constructor (nodes: seq<Node>)
      ensures children == nodes
    {
      children := nodes;
    }

    /** `_find_next_heading(children[t])` */
    method FindNextHeading(t: nat) returns (r: Option<nat>)
      requires t < |children|
      ensures r == NextHeading(children, t + 1)
    {
      var sibling := t + 1;
      while sibling < |children| && Truthy(children[sibling])
        invariant t + 1 <= sibling <= |children|
        invariant NextHeading(children, sibling) == NextHeading(children, t + 1)
        decreases |children| - sibling
      {
        if IsHeading(children[sibling]) {
          return Some(sibling);
        }
        sibling := sibling + 1;
      }
      return None;
    }

    /** `_find_next_table(children[t])` */
    method FindNextTable(t: nat) returns (r: Option<nat>)
      requires t < |children|
      ensures r == NextTable(children, t + 1)
    {
      var sibling := t + 1;
      while sibling < |children| && Truthy(children[sibling])
        invariant t + 1 <= sibling <= |children|
        invariant NextTable(children, sibling) == NextTable(children, t + 1)
        decreases |children| - sibling
      {
        if IsHeading(children[sibling]) {
          return None;
        }
        if IsTable(children[sibling]) {
          return Some(sibling);
        }
        sibling := sibling + 1;
      }
      return None;
    }

    /** `children[k].insert_before(x)` */
    method InsertBefore(k: nat, x: Node)
      requires k < |children|
      modifies this
      ensures children == Insert(old(children), k, x)
    {
      children := children[..k] + [x] + children[k..];
    }

    /** `children[k].insert_after(x)` */
    method InsertAfter(k: nat, x: Node)
      requires k < |children|
      modifies this
      ensures children == Insert(old(children), k + 1, x)
    {
      children := children[..k + 1] + [x] + children[k + 1..];
    }

    /** `soup.append(x)` */
    method Append(x: Node)
      modifies this
      ensures children == Insert(old(children), |old(children)|, x)
    {
      children := children + [x];
    }

    /**
     * `_insert_after_element(children[t], x)`: before the next sibling when there
     * is a true one; otherwise appended to the parent, which for a top-level node
     * is the document itself.
     */
    method InsertAfterElement(t: nat, x: Node)
      requires t < |children|
      modifies this
      ensures children == Insert(old(children), if t + 1 < |old(children)| && Truthy(old(children)[t + 1])
                                                then t + 1 else |old(children)|, x)
    {
      if t + 1 < |children| && Truthy(children[t + 1]) {
        InsertBefore(t + 1, x);
      } else {
        Append(x);
      }
    }

    /** One pass of the loop of `inject_charts`: find the section, build the container, splice it in. */
    method PlaceChart(headings: seq<Node>, chart: Chart)
      requires headings == Headings(children)
      modifies this
      ensures children == InjectOne(old(children), chart)
    {
      var found := FindHeading(headings, chart.Section());
      if found.None? {
        return;
      }
      var target := NthHeading(children, found.value);
      var html := BuildChartDiv(chart.Id(), chart.Title(), chart.Note(), chart.Height());
      PlaceAt(target, chart.Position(), ChartDiv(html));
    }

    /** The branches of the loop of `inject_charts` on the position keyword, with the heading at `target`. */
    method PlaceAt(target: nat, position: string, tag: Node)
      requires target < |children|
      modifies this
      ensures children == Insert(old(children), Spot(old(children), target, position), tag)
    {
      if position == "before_section" {
        InsertBefore(target, tag);
      } else if position == "after_section" {
        var next := FindNextHeading(target);
        if next.Some? {
          InsertBefore(next.value, tag);
        } else {
          Append(tag);
        }
      } else {
        var table := FindNextTable(target);
        if table.Some? {
          InsertAfter(table.value, tag);
        } else {
          InsertAfterElement(target, tag);
        }
      }
    }

    /** The loop of `inject_charts(html_body, charts)` over the parsed body. */
    method InjectCharts(charts: seq<Chart>)
      modifies this
      ensures children == InjectAll(old(children), charts)
    {
      var headings := Headings(children);
      ghost var start := children;
      var i := 0;
      while i < |charts|
        invariant 0 <= i <= |charts|
        invariant children == InjectAll(start, charts[..i])
        invariant headings == Headings(children)
      {
        var chart := charts[i];
        assert charts[..i + 1][..i] == charts[..i];
        ghost var before := children;
        PlaceChart(headings, chart);
        InjectOneKeeps(before, chart);
        i := i + 1;
      }
      assert charts[..i] == charts;
    }
  }

  /**
   * `inject_charts(html_body, charts)`: an empty chart list gives back the text
   * untouched; otherwise the body is parsed, the charts are placed and the result
   * serialised. The HTML parser and serialiser are parameters.
   */
  method InjectChartsHtml(htmlBody: string, charts: seq<Chart>,
                          parse: string -> seq<Node>, render: seq<Node> -> string) returns (r: string)
    ensures |charts| == 0 ==> r == htmlBody
    ensures |charts| > 0 ==> r == render(InjectAll(parse(htmlBody), charts))
  {
    if |charts| == 0 {
      return htmlBody;
    }
    var soup := new Soup(parse(htmlBody));
    soup.InjectCharts(charts);
    r := render(soup.children);
  }

  /**
   * Placing one chart moves no parsed node: the parsed nodes and the headings
   * stay in order, and a chart container is added exactly when the section
   * heading is found.
   */
  lemma {:induction false} InjectOneKeeps(nodes: seq<Node>, c: Chart)
    ensures Filter(InjectOne(nodes, c), IsParsed) == Filter(nodes, IsParsed)
    ensures Headings(InjectOne(nodes, c)) == Headings(nodes)
    ensures |Filter(InjectOne(nodes, c), IsChart)|
         == |Filter(nodes, IsChart)| + if FindHeading(Headings(nodes), c.Section()).Some? then 1 else 0
  {
    match InsertionPoint(nodes, c)
    case None =>
    case Some(k) =>
      FilterInsert(nodes, k, ChartNode(c), IsParsed);
      FilterInsert(nodes, k, ChartNode(c), IsHeading);
      FilterInsert(nodes, k, ChartNode(c), IsChart);
  }

  /** How many of the charts name a section that one of the headings matches. */
  function Placed(hs: seq<Node>, charts: seq<Chart>): (n: nat)
    ensures n <= |charts|
  {
    if |charts| == 0 then 0
    else Placed(hs, charts[..|charts| - 1])
         + if FindHeading(hs, charts[|charts| - 1].Section()).Some? then 1 else 0
  }

  /**
   * After the whole loop the parsed nodes and headings are those of the input,
   * in order, and one container was added per chart whose section was found:
   * a chart whose heading is missing is skipped and the others still placed.
   */
  lemma {:induction false} InjectAllKeeps(nodes: seq<Node>, charts: seq<Chart>)
    ensures Filter(InjectAll(nodes, charts), IsParsed) == Filter(nodes, IsParsed)
    ensures Headings(InjectAll(nodes, charts)) == Headings(nodes)
    ensures |Filter(InjectAll(nodes, charts), IsChart)| == |Filter(nodes, IsChart)| + Placed(Headings(nodes), charts)
    decreases |charts|
  {
    if |charts| > 0 {
      var init := charts[..|charts| - 1];
      InjectAllKeeps(nodes, init);
      InjectOneKeeps(InjectAll(nodes, init), charts[|charts| - 1]);
    }
  }

  /** `"before_section"`, from the heading at `t`: the container lands immediately before the heading. */
  lemma {:induction false} BeforeSectionSpot(nodes: seq<Node>, t: nat, x: Node)
    requires t < |nodes|
    ensures var r := Insert(nodes, Spot(nodes, t, "before_section"), x);
      r[t] == x && r[t + 1] == nodes[t]
  {
  }

  /**
   * `"after_section"`, from the heading at `t`: right before the first heading
   * the walk meets, or at the end of the document when it meets none.
   */
  lemma {:induction false} AfterSectionSpot(nodes: seq<Node>, t: nat)
    requires t < |nodes|
    ensures var k := Spot(nodes, t, "after_section");
      && t < k <= |nodes|
      && (k < |nodes| ==> IsHeading(nodes[k]) && k < Reach(nodes, t + 1))
      && (forall m :: t < m < k && m < Reach(nodes, t + 1) ==> !IsHeading(nodes[m]))
  {
    NextHeadingSpec(nodes, t + 1);
  }

  /**
   * Any other position, from the heading at `t`: right after the first table
   * before the next heading; with no such table, right after the heading (or at
   * the end when the heading's next sibling is missing or an empty text).
   */
  lemma {:induction false} AfterTableSpot(nodes: seq<Node>, t: nat, position: string)
    requires t < |nodes|
    requires position != "before_section" && position != "after_section"
    ensures var k := Spot(nodes, t, position);
      && t < k <= |nodes|
      && (NextTable(nodes, t + 1).Some? ==>
            IsTable(nodes[k - 1]) && forall m :: t < m < k - 1 ==> !IsTable(nodes[m]) && !IsHeading(nodes[m]))
      && (NextTable(nodes, t + 1).None? ==>
            (forall m :: t < m < SectionEnd(nodes, t + 1) ==> !IsTable(nodes[m]))
            && k == if t + 1 < |nodes| && Truthy(nodes[t + 1]) then t + 1 else |nodes|)
  {
    NextTableSpec(nodes, t + 1);
    NextHeadingSpec(nodes, t + 1);
  }

  /** The walk for a table only looks as far as the table it finds: nodes after it do not matter. */
  lemma {:induction false} NextTableOnPrefix(nodes: seq<Node>, other: seq<Node>, j: nat, b: nat)
    requires j <= |nodes| && j <= |other| && NextTable(nodes, j) == Some(b)
    requires b < |other| && other[..b + 1] == nodes[..b + 1]
    ensures NextTable(other, j) == Some(b)
    decreases b - j
  {
    assert other[j] == other[..b + 1][j] == nodes[..b + 1][j] == nodes[j];
    if j < b {
      NextTableOnPrefix(nodes, other, j + 1, b);
    }
  }

  /** Placing `[c1, c2]` is placing `c1` and then `c2`. */
  lemma {:induction false} InjectTwo(nodes: seq<Node>, c1: Chart, c2: Chart)
    ensures InjectAll(nodes, [c1, c2]) == InjectOne(InjectOne(nodes, c1), c2)
  {
    assert [c1, c2][..1] == [c1];
    assert [c1][..0] == [];
    assert InjectAll(nodes, [c1]) == InjectOne(InjectAll(nodes, []), c1);
  }

  /** A node spliced in relative to the `j`-th heading, at the spot the position keyword gives. */
  function Place(nodes: seq<Node>, j: nat, position: string, x: Node): seq<Node>
    requires j < |Headings(nodes)|
  {
    Insert(nodes, Spot(nodes, NthHeading(nodes, j), position), x)
  }

  /** With its section found as the `j`-th heading, a chart is placed relative to that heading. */
  lemma {:induction false} InjectOneAt(nodes: seq<Node>, c: Chart, j: nat)
    requires FindHeading(Headings(nodes), c.Section()) == Some(j)
    ensures j < |Headings(nodes)|
    ensures InjectOne(nodes, c) == Place(nodes, j, c.Position(), ChartNode(c))
  {
  }

  /** A node that is not a heading, spliced in, keeps the headings and moves the `j`-th one down when it lands at or before it. */
  lemma {:induction false} HeadingShift(nodes: seq<Node>, j: nat, k: nat, x: Node)
    requires j < |Headings(nodes)| && k <= |nodes| && !IsHeading(x)
    ensures Headings(Insert(nodes, k, x)) == Headings(nodes)
    ensures j < |Headings(Insert(nodes, k, x))|
      && NthHeading(Insert(nodes, k, x), j)
         == if k <= NthHeading(nodes, j) then NthHeading(nodes, j) + 1 else NthHeading(nodes, j)
  {
    FilterInsert(nodes, k, x, IsHeading);
    if k <= NthHeading(nodes, j) {
      NthHeadingInsertBefore(nodes, j, k, x);
    } else {
      NthHeadingInsertAfter(nodes, j, k, x);
    }
  }

  /**
   * Two charts whose sections are found as the same heading: the second is
   * placed relative to that heading in the list the first one produced.
   */
  lemma {:induction false} TwoChartsSameHeading(nodes: seq<Node>, c1: Chart, c2: Chart, j: nat)
    requires FindHeading(Headings(nodes), c1.Section()) == Some(j)
    requires FindHeading(Headings(nodes), c2.Section()) == Some(j)
    ensures j < |Headings(nodes)|
    ensures Headings(Place(nodes, j, c1.Position(), ChartNode(c1))) == Headings(nodes)
    ensures InjectAll(nodes, [c1, c2])
         == Place(Place(nodes, j, c1.Position(), ChartNode(c1)), j, c2.Position(), ChartNode(c2))
  {
    InjectOneAt(nodes, c1, j);
    var n1 := Place(nodes, j, c1.Position(), ChartNode(c1));
    assert Headings(n1) == Headings(nodes) by {
      FilterInsert(nodes, Spot(nodes, NthHeading(nodes, j), c1.Position()), ChartNode(c1), IsHeading);
    }
    calc {
      InjectAll(nodes, [c1, c2]);
    == { InjectTwo(nodes, c1, c2); }
      InjectOne(InjectOne(nodes, c1), c2);
      InjectOne(n1, c2);
    == { InjectOneAt(n1, c2, j); }
      Place(n1, j, c2.Position(), ChartNode(c2));
    }
  }

  /**
   * Two nodes placed after the first table of the section of the heading at `t`:
   * the second goes between the table and the first.
   */
  lemma {:induction false} TableSpotStacks(nodes: seq<Node>, t: nat, b: nat, p1: string, p2: string, x: Node, y: Node)
    requires t < |nodes| && NextTable(nodes, t + 1) == Some(b)
    requires p1 != "before_section" && p1 != "after_section"
    requires p2 != "before_section" && p2 != "after_section"
    ensures var n1 := Insert(nodes, Spot(nodes, t, p1), x);
      Insert(n1, Spot(n1, t, p2), y) == nodes[..b + 1] + [y, x] + nodes[b + 1..]
  {
    assert Spot(nodes, t, p1) == b + 1;
    var n1 := Insert(nodes, b + 1, x);
    assert Spot(n1, t, p2) == b + 1 by {
      TableKept(nodes, t, b, x);
    }
    InsertTwice(nodes, b + 1, x, y);
  }

  /** A node spliced in right after the first table of a section leaves that table the first. */
  lemma {:induction false} TableKept(nodes: seq<Node>, t: nat, b: nat, x: Node)
    requires t < |nodes| && NextTable(nodes, t + 1) == Some(b)
    ensures NextTable(Insert(nodes, b + 1, x), t + 1) == Some(b)
  {
    var n1 := Insert(nodes, b + 1, x);
    assert n1[..b + 1] == nodes[..b + 1];
    NextTableOnPrefix(nodes, n1, t + 1, b);
  }

  /** Two nodes placed after the first table of the section of the `j`-th heading: the later one comes first. */
  lemma {:induction false} PlaceAfterTableTwice(nodes: seq<Node>, j: nat, b: nat, p1: string, p2: string, x: Node, y: Node)
    requires j < |Headings(nodes)| && !IsHeading(x)
    requires NextTable(nodes, NthHeading(nodes, j) + 1) == Some(b)
    requires p1 != "before_section" && p1 != "after_section"
    requires p2 != "before_section" && p2 != "after_section"
    ensures j < |Headings(Place(nodes, j, p1, x))|
    ensures Place(Place(nodes, j, p1, x), j, p2, y) == nodes[..b + 1] + [y, x] + nodes[b + 1..]
  {
    var t := NthHeading(nodes, j);
    HeadingShift(nodes, j, Spot(nodes, t, p1), x);
    TableSpotStacks(nodes, t, b, p1, p2, x, y);
  }

  /** Two nodes placed before the `j`-th heading: they keep their order. */
  lemma {:induction false} PlaceBeforeTwice(nodes: seq<Node>, j: nat, x: Node, y: Node)
    requires j < |Headings(nodes)| && !IsHeading(x)
    ensures j < |Headings(Place(nodes, j, "before_section", x))|
    ensures var t := NthHeading(nodes, j);
      Place(Place(nodes, j, "before_section", x), j, "before_section", y) == nodes[..t] + [x, y] + nodes[t..]
  {
    var t := NthHeading(nodes, j);
    HeadingShift(nodes, j, t, x);
    InsertTwice(nodes, t, x, y);
  }

  /**
   * Two `"after_table"` charts for the same section with a table: each goes
   * right after the table, so the later chart ends up before the earlier one.
   */
  lemma {:induction false} AfterTableChartsStack(nodes: seq<Node>, c1: Chart, c2: Chart, j: nat, b: nat)
    requires FindHeading(Headings(nodes), c1.Section()) == Some(j)
    requires FindHeading(Headings(nodes), c2.Section()) == Some(j)
    requires c1.Position() != "before_section" && c1.Position() != "after_section"
    requires c2.Position() != "before_section" && c2.Position() != "after_section"
    requires NextTable(nodes, NthHeading(nodes, j) + 1) == Some(b)
    ensures InjectAll(nodes, [c1, c2]) == nodes[..b + 1] + [ChartNode(c2), ChartNode(c1)] + nodes[b + 1..]
  {
    var x, y := ChartNode(c1), ChartNode(c2);
    calc {
      InjectAll(nodes, [c1, c2]);
    == { TwoChartsSameHeading(nodes, c1, c2, j); }
      Place(Place(nodes, j, c1.Position(), x), j, c2.Position(), y);
    == { PlaceAfterTableTwice(nodes, j, b, c1.Position(), c2.Position(), x, y); }
      nodes[..b + 1] + [y, x] + nodes[b + 1..];
    }
  }

  /**
   * Two `"before_section"` charts for the same section: the heading moves down
   * by one after the first, so the two stay in list order before it.
   */
  lemma {:induction false} BeforeSectionChartsKeepOrder(nodes: seq<Node>, c1: Chart, c2: Chart, j: nat)
    requires FindHeading(Headings(nodes), c1.Section()) == Some(j)
    requires FindHeading(Headings(nodes), c2.Section()) == Some(j)
    requires c1.Position() == "before_section" && c2.Position() == "before_section"
    ensures var t := NthHeading(nodes, j);
      InjectAll(nodes, [c1, c2]) == nodes[..t] + [ChartNode(c1), ChartNode(c2)] + nodes[t..]
  {
    var x, y := ChartNode(c1), ChartNode(c2);
    var t := NthHeading(nodes, j);
    calc {
      InjectAll(nodes, [c1, c2]);
    == { TwoChartsSameHeading(nodes, c1, c2, j); }
      Place(Place(nodes, j, "before_section", x), j, "before_section", y);
    == { PlaceBeforeTwice(nodes, j, x, y); }
      nodes[..t] + [x, y] + nodes[t..];
    }
  }
}
