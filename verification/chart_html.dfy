/**
 * The chart configuration entries of `chart_config.json` and the HTML and
 * JavaScript text built from them: the chart container `div`, the ECharts
 * initialisation script, and the final page template.
 */
module ChartHtml {
  import opened Wrappers
  import opened PyStr

  /**
   * One chart entry. Every field is optional, as in the JSON object; the
   * accessors below apply the defaults `inject_charts` and
   * `build_echarts_script` use. `option` stands for `echarts_option`: `None`
   * when the key is missing or its value is falsy (`{}`, `null`, …), otherwise
   * the text `json.dumps` produces for it.
   */
  datatype Chart = Chart(
    sectionHeading: Option<string>,
    position: Option<string>,
    id: Option<string>,
    title: Option<string>,
    note: Option<string>,
    height: Option<int>,
    option: Option<string>)
  {
    function Section(): string { sectionHeading.GetOr("") }
    function Position(): string { position.GetOr("after_table") }
    function Id(): string { id.GetOr("chart") }
    function Title(): string { title.GetOr("") }
    function Note(): string { note.GetOr("") }
    function Height(): int { height.GetOr(400) }
  }

  /** The character of a decimal digit. */
  function DigitChar(d: nat): (c: char)
    requires d < 10
    ensures '0' <= c <= '9' && c as int - '0' as int == d
  {
    ('0' as int + d) as char
  }

  /** `str(n)` for a natural number: its decimal digits, without leading zeros. */
  function NatToString(n: nat): (r: string)
    ensures |r| >= 1 && AllDigits(r)
    ensures r[0] == '0' ==> n == 0
  {
    if n < 10 then [DigitChar(n)] else NatToString(n / 10) + [DigitChar(n % 10)]
  }

  /** `str(n)` for an integer: a minus sign before the digits of a negative number. */
  function IntToString(n: int): string {
    if n < 0 then "-" + NatToString(-n) else NatToString(n)
  }

  predicate AllDigits(s: string) {
    forall i :: 0 <= i < |s| ==> '0' <= s[i] <= '9'
  }

  /** The value of a string of decimal digits. */
  function DigitsValue(s: string): nat
    requires AllDigits(s)
  {
    if |s| == 0 then 0
    else DigitsValue(s[..|s| - 1]) * 10 + (s[|s| - 1] as int - '0' as int)
  }

  /** Reading the digits back gives the number: the height in the markup is the configured one. */
  lemma {:induction false} NatToStringRoundTrip(n: nat)
    ensures DigitsValue(NatToString(n)) == n
  {
    if n >= 10 {
      var r := NatToString(n / 10) + [DigitChar(n % 10)];
      assert r[..|r| - 1] == NatToString(n / 10);
      NatToStringRoundTrip(n / 10);
    }
  }

  /** `str(n)` is a sign then digits: no quote, no line break. */
  lemma {:induction false} IntToStringPlain(n: int)
    ensures '\n' !in IntToString(n) && '"' !in IntToString(n)
  {
  }

  const ContainerOpen := "<div class=\"chart-container\">"
  const ContainerClose := "</div>"

  function TitleLine(title: string): string {
    "  <div class=\"chart-title\">" + title + "</div>"
  }

  function NoteLine(note: string): string {
    "  <div class=\"chart-note\">" + note + "</div>"
  }

  function BoxLine(chartId: string, height: int): string {
    "  <div id=\"" + chartId + "\" class=\"chart-box\" style=\"height:" + IntToString(height) + "px;\"></div>"
  }

  /** The lines of a chart container, in the order `_build_chart_div` appends them. */
  function ChartDivLines(chartId: string, title: string, note: string, height: int): seq<string> {
    [ContainerOpen]
    + (if title != "" then [TitleLine(title)] else [])
    + (if note != "" then [NoteLine(note)] else [])
    + [BoxLine(chartId, height), ContainerClose]
  }

  /** `_build_chart_div(chart_id, title, note, height)` */
  method BuildChartDiv(chartId: string, title: string, note: string, height: int) returns (html: string)
    ensures html == Join(ChartDivLines(chartId, title, note, height), "\n")
  {
    var parts := [ContainerOpen];
    if title != "" {
      parts := parts + [TitleLine(title)];
    }
    if note != "" {
      parts := parts + [NoteLine(note)];
    }
    parts := parts + [BoxLine(chartId, height)];
    parts := parts + [ContainerClose];
    assert parts == ChartDivLines(chartId, title, note, height);
    html := Join(parts, "\n");
  }

  /**
   * The container always opens the block, the chart box with the id and height
   * and then the closing tag end it, and the title and note lines are there
   * exactly when those strings are non-empty.
   */
  lemma {:induction false} ChartDivShape(chartId: string, title: string, note: string, height: int)
    ensures var lines := ChartDivLines(chartId, title, note, height);
      && |lines| == 3 + (if title != "" then 1 else 0) + (if note != "" then 1 else 0)
      && lines[0] == ContainerOpen
      && lines[|lines| - 2] == BoxLine(chartId, height)
      && lines[|lines| - 1] == ContainerClose
      && (title != "" <==> lines[1] == TitleLine(title))
      && (note != "" <==> lines[|lines| - 3] == NoteLine(note))
  {
    var lines := ChartDivLines(chartId, title, note, height);
    if title == "" {
      assert lines[1] != TitleLine(title) by {
        if note != "" {
          assert lines[1][20] != TitleLine(title)[20];
        } else {
          assert lines[1][7] != TitleLine(title)[7];
        }
      }
    }
    if note == "" {
      assert lines[|lines| - 3] != NoteLine(note) by {
        if title != "" {
          assert lines[|lines| - 3][20] != NoteLine(note)[20];
        } else {
          assert lines[|lines| - 3][0] != NoteLine(note)[0];
        }
      }
    }
  }

  /** The literal pieces of a line plus line-free values give a line without a line break. */
  lemma {:induction false} NoBreakConcat(a: string, b: string)
    requires '\n' !in a && '\n' !in b
    ensures '\n' !in a + b
  {
    assert forall i :: 0 <= i < |a + b| ==> (a + b)[i] == if i < |a| then a[i] else b[i - |a|];
  }

  /** A title line holds a line break only when the title does. */
  lemma {:induction false} TitleLineNoBreak(title: string)
    requires '\n' !in title
    ensures '\n' !in TitleLine(title)
  {
    NoBreakConcat("  <div class=\"chart-title\">", title);
    NoBreakConcat("  <div class=\"chart-title\">" + title, "</div>");
  }

  /** A note line holds a line break only when the note does. */
  lemma {:induction false} NoteLineNoBreak(note: string)
    requires '\n' !in note
    ensures '\n' !in NoteLine(note)
  {
    NoBreakConcat("  <div class=\"chart-note\">", note);
    NoBreakConcat("  <div class=\"chart-note\">" + note, "</div>");
  }

  /** The chart box line holds a line break only when the id does. */
  lemma {:induction false} BoxLineNoBreak(chartId: string, height: int)
    requires '\n' !in chartId
    ensures '\n' !in BoxLine(chartId, height)
  {
    IntToStringPlain(height);
    NoBreakConcat("  <div id=\"", chartId);
    NoBreakConcat("  <div id=\"" + chartId, "\" class=\"chart-box\" style=\"height:");
    NoBreakConcat("  <div id=\"" + chartId + "\" class=\"chart-box\" style=\"height:", IntToString(height));
    NoBreakConcat("  <div id=\"" + chartId + "\" class=\"chart-box\" style=\"height:" + IntToString(height),
                  "px;\"></div>");
  }

  /**
   * Splitting the container markup at line breaks gives back its lines, as long
   * as the id, the title and the note hold no line break.
   */
  lemma {:induction false} ChartDivSplit(chartId: string, title: string, note: string, height: int)
    requires '\n' !in chartId && '\n' !in title && '\n' !in note
    ensures Split(Join(ChartDivLines(chartId, title, note, height), "\n"), '\n')
         == ChartDivLines(chartId, title, note, height)
  {
    var lines := ChartDivLines(chartId, title, note, height);
    assert forall i :: 0 <= i < |lines| ==> '\n' !in lines[i] by {
      TitleLineNoBreak(title);
      NoteLineNoBreak(note);
      BoxLineNoBreak(chartId, height);
    }
    SplitJoin(lines, '\n');
  }

  const CdnLine := "<script src=\"https://cdn.jsdelivr.net/npm/echarts@5/dist/echarts.min.js\"></script>"

  /** The three lines that open every script. */
  const ScriptHeader: seq<string> :=
    [CdnLine, "<script>", "document.addEventListener('DOMContentLoaded', function() {"]

  /** The two lines that close every script. */
  const ScriptFooter: seq<string> := ["});", "</script>"]

  /** The line that looks the chart's element up by its id. */
  function ElementLine(chartId: string): string {
    "    var el = document.getElementById('" + chartId + "');"
  }

  /**
   * The eight entries of the `lines` list that initialise one chart with its
   * option text; each is one line of the script only when the option text holds
   * no line break.
   */
  function ChartBlock(chartId: string, optionJson: string): seq<string> {
    [ "  (function() {",
      ElementLine(chartId),
      "    if (!el) return;",
      "    var chart = echarts.init(el);",
      "    var option = " + optionJson + ";",
      "    chart.setOption(option);",
      "    window.addEventListener(" + "'resize', function() { chart.resize(); });",
      "  })();" ]
  }

  /** The blocks of the charts that have an option, in chart order. */
  function Blocks(charts: seq<Chart>): seq<string> {
    if |charts| == 0 then []
    else
      var last := charts[|charts| - 1];
      Blocks(charts[..|charts| - 1])
      + (if last.option.Some? then ChartBlock(last.Id(), last.option.value) else [])
  }

  /** Number of charts that have an option. */
  function WithOption(charts: seq<Chart>): nat {
    if |charts| == 0 then 0
    else WithOption(charts[..|charts| - 1]) + (if charts[|charts| - 1].option.Some? then 1 else 0)
  }

  /** The lines of the script for a non-empty chart list. */
  function ScriptLines(charts: seq<Chart>): seq<string> {
    ScriptHeader + Blocks(charts) + ScriptFooter
  }

  /** `build_echarts_script(charts)` */
  method BuildEchartsScript(charts: seq<Chart>) returns (script: string)
    ensures |charts| == 0 ==> script == ""
    ensures |charts| > 0 ==> script == Join(ScriptLines(charts), "\n")
  {
    if |charts| == 0 {
      return "";
    }
    var lines := ScriptHeader;
    var i := 0;
    while i < |charts|
      invariant 0 <= i <= |charts|
      invariant lines == ScriptHeader + Blocks(charts[..i])
    {
      var chart := charts[i];
      assert charts[..i + 1][..i] == charts[..i];
      if chart.option.Some? {
        lines := lines + ChartBlock(chart.Id(), chart.option.value);
      }
      i := i + 1;
    }
    assert charts[..i] == charts;
    lines := lines + ScriptFooter;
    script := Join(lines, "\n");
  }

  /** Each chart with an option appends exactly eight entries to the `lines` list; the others append none. */
  lemma {:induction false} BlocksLength(charts: seq<Chart>)
    ensures |Blocks(charts)| == 8 * WithOption(charts)
  {
    if |charts| > 0 {
      BlocksLength(charts[..|charts| - 1]);
    }
  }

  /**
   * A non-empty chart list always gives the CDN line first and `});`, `</script>`
   * last, with eight entries of the `lines` list per chart that has an option in between.
   */
  lemma {:induction false} ScriptFrame(charts: seq<Chart>)
    ensures var lines := ScriptLines(charts);
      && |lines| == 5 + 8 * WithOption(charts)
      && lines[0] == CdnLine
      && lines[|lines| - 2] == "});" && lines[|lines| - 1] == "</script>"
  {
    BlocksLength(charts);
  }

  /** When no chart has an option the script is the fixed frame, whatever the ids are. */
  lemma {:induction false} NoOptionsNoBlocks(charts: seq<Chart>)
    requires forall c <- charts :: c.option.None?
    ensures ScriptLines(charts) == ScriptHeader + ScriptFooter
  {
    BlocksLength(charts);
    if |charts| > 0 {
      assert WithOption(charts) == 0 by {
        NoOptionsCount(charts);
      }
    }
  }

  lemma {:induction false} NoOptionsCount(charts: seq<Chart>)
    requires forall c <- charts :: c.option.None?
    ensures WithOption(charts) == 0
  {
    if |charts| > 0 {
      assert forall c <- charts[..|charts| - 1] :: c in charts;
      NoOptionsCount(charts[..|charts| - 1]);
    }
  }

  /** The element line names its id: two element lines are equal only for equal ids. */
  lemma {:induction false} ElementLineInjective(a: string, b: string)
    requires ElementLine(a) == ElementLine(b)
    ensures a == b
  {
    var pre := "    var el = document.getElementById('";
    assert |a| == |b|;
    assert a == ElementLine(a)[|pre|..|pre| + |a|];
    assert b == ElementLine(b)[|pre|..|pre| + |b|];
  }

  /** No line of a chart block other than its element line looks like an element line. */
  lemma {:induction false} OnlyElementLine(chartId: string, optionJson: string, k: nat, other: string)
    requires k < 8 && k != 1
    ensures ChartBlock(chartId, optionJson)[k] != ElementLine(other)
  {
    var line, e := ChartBlock(chartId, optionJson)[k], ElementLine(other);
    if k == 0 || k == 7 {
      assert line[2] != e[2];
    } else if k == 2 {
      assert line[4] != e[4];
    } else if k == 5 {
      assert line[4] != e[4];
    } else if k == 6 {
      assert line[4] != e[4];
    } else {
      assert line[8] != e[8];
    }
  }

  /**
   * The script looks an element up by a given id exactly when some chart with
   * that id has an option: charts without an option leave no trace of their id.
   */
  lemma {:induction false} ElementLineIffOption(charts: seq<Chart>, chartId: string)
    ensures ElementLine(chartId) in Blocks(charts)
        <==> exists i :: 0 <= i < |charts| && charts[i].option.Some? && charts[i].Id() == chartId
  {
    if |charts| > 0 {
      var init := charts[..|charts| - 1];
      var last := charts[|charts| - 1];
      ElementLineIffOption(init, chartId);
      if last.option.Some? {
        var block := ChartBlock(last.Id(), last.option.value);
        assert ElementLine(chartId) in block <==> last.Id() == chartId by {
          if ElementLine(chartId) in block {
            var k :| 0 <= k < 8 && block[k] == ElementLine(chartId);
            if k != 1 {
              OnlyElementLine(last.Id(), last.option.value, k, chartId);
            }
            ElementLineInjective(last.Id(), chartId);
          }
        }
      }
      forall i | 0 <= i < |charts| - 1
        ensures charts[i] == init[i]
      {
      }
    }
  }

  /** The default of the `css_path` argument. */
  const DefaultCssPath := "../../assets/report.css"

  const PageOpen := "<!DOCTYPE html>\n<html lang=\"ja\">\n<head>\n<meta charset=\"UTF-8\">\n"

  const ViewportLine := "<meta name=\"viewport\" content=\"width=device-width, initial-scale=1.0\">\n"

  /** The page title, naming the company and its code. */
  function TitleTag(companyName: string, companyCode: string): string {
    "<title>" + companyName + "（" + companyCode + "）企業分析レポート</title>"
  }

  /** The link to the style sheet. */
  function CssLink(cssPath: string): string {
    "<link rel=\"stylesheet\" href=\"" + cssPath + "\">"
  }

  const HeadClose := "\n</head>\n<body>\n"

  /** The page up to and including the opening `<body>` line. */
  function PageHead(companyName: string, companyCode: string, cssPath: string): string {
    PageOpen + ViewportLine + TitleTag(companyName, companyCode) + "\n" + CssLink(cssPath) + HeadClose
  }

  const PageTail := "\n</body>\n</html>\n"

  /** `render_full_html(body, chart_script, company_name, company_code, css_path)` */
  function RenderFullHtml(body: string, chartScript: string, companyName: string,
                          companyCode: string, cssPath: string): string {
    PageHead(companyName, companyCode, cssPath) + body + "\n" + chartScript + PageTail
  }

  /** Where the pieces of `head + body + "\n" + script + tail` sit. */
  lemma {:induction false} PiecesAt(head: string, body: string, script: string, tail: string)
    ensures var page := head + body + "\n" + script + tail;
      var h := |head|;
      && |page| == h + |body| + 1 + |script| + |tail|
      && page[..h] == head
      && page[h..h + |body|] == body
      && page[h + |body|] == '\n'
      && page[h + |body| + 1..h + |body| + 1 + |script|] == script
      && page[|page| - |tail|..] == tail
  {
    var page := head + body + "\n" + script + tail;
    assert page == head + (body + ("\n" + (script + tail)));
  }

  /** The head starts with the document type and the opening `html` and `head` tags. */
  lemma {:induction false} PageHeadOpens(companyName: string, companyCode: string, cssPath: string)
    ensures StartsWith(PageHead(companyName, companyCode, cssPath), PageOpen)
  {
    var head := PageHead(companyName, companyCode, cssPath);
    assert head == PageOpen + head[|PageOpen|..];
  }

  /**
   * The page is the template with the body and the script placed verbatim: the
   * body starts right after the head, the script right after the body's line.
   */
  lemma {:induction false} RenderFullHtmlLayout(body: string, chartScript: string, companyName: string,
                                                companyCode: string, cssPath: string)
    ensures var page := RenderFullHtml(body, chartScript, companyName, companyCode, cssPath);
      var h := |PageHead(companyName, companyCode, cssPath)|;
      && |page| == h + |body| + 1 + |chartScript| + |PageTail|
      && page[..h] == PageHead(companyName, companyCode, cssPath)
      && page[h..h + |body|] == body
      && page[h + |body|] == '\n'
      && page[h + |body| + 1..h + |body| + 1 + |chartScript|] == chartScript
      && StartsWith(page, PageOpen)
      && page[|page| - |PageTail|..] == PageTail
  {
    var head := PageHead(companyName, companyCode, cssPath);
    PiecesAt(head, body, chartScript, PageTail);
    PageHeadOpens(companyName, companyCode, cssPath);
    var page := RenderFullHtml(body, chartScript, companyName, companyCode, cssPath);
    assert page[..|head|] == head;
    assert page[..|PageOpen|] == head[..|PageOpen|];
  }

  /** The page's title names the company and its code, and its head links the given style sheet. */
  lemma {:induction false} RenderFullHtmlNamesCompany(body: string, chartScript: string, companyName: string,
                                                      companyCode: string, cssPath: string)
    ensures IsSubstring(TitleTag(companyName, companyCode),
                        RenderFullHtml(body, chartScript, companyName, companyCode, cssPath))
    ensures IsSubstring(CssLink(cssPath), RenderFullHtml(body, chartScript, companyName, companyCode, cssPath))
  {
    var title, link := TitleTag(companyName, companyCode), CssLink(cssPath);
    var rest := HeadClose + body + "\n" + chartScript + PageTail;
    var page := RenderFullHtml(body, chartScript, companyName, companyCode, cssPath);
    assert page == (PageOpen + ViewportLine) + title + ("\n" + link + rest);
    SubstringInMiddle(PageOpen + ViewportLine, title, "\n" + link + rest);
    assert page == (PageOpen + ViewportLine + title + "\n") + link + rest;
    SubstringInMiddle(PageOpen + ViewportLine + title + "\n", link, rest);
  }

  /** A page rendered with the default style-sheet path links `report.css`. */
  lemma {:induction false} DefaultPageLinksStyleSheet(body: string, chartScript: string,
                                                      companyName: string, companyCode: string)
    ensures IsSubstring("report.css", RenderFullHtml(body, chartScript, companyName, companyCode, DefaultCssPath))
  {
    var page := RenderFullHtml(body, chartScript, companyName, companyCode, DefaultCssPath);
    var pre := PageOpen + ViewportLine + TitleTag(companyName, companyCode) + "\n"
               + "<link rel=\"stylesheet\" href=\"" + "../../assets/";
    var post := "\">" + HeadClose + body + "\n" + chartScript + PageTail;
    assert DefaultCssPath == "../../assets/" + "report.css";
    assert page == pre + "report.css" + post;
    SubstringInMiddle(pre, "report.css", post);
  }

  /** Two pages rendered with the same script and head data are equal only for equal bodies. */
  lemma {:induction false} RenderFullHtmlInjective(b1: string, b2: string, chartScript: string,
                                                   companyName: string, companyCode: string, cssPath: string)
    requires RenderFullHtml(b1, chartScript, companyName, companyCode, cssPath)
          == RenderFullHtml(b2, chartScript, companyName, companyCode, cssPath)
    ensures b1 == b2
  {
    RenderFullHtmlLayout(b1, chartScript, companyName, companyCode, cssPath);
    RenderFullHtmlLayout(b2, chartScript, companyName, companyCode, cssPath);
  }
}
