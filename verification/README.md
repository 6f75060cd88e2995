# Corporate report builder and EDINET search, modelled in Dafny

This project models the deterministic core of a report generator for
Japanese corporate analyses. It also models the result filtering of the
EDINET document search the project uses.

`build_report.py` turns `report.md` and `chart_config.json` into
`report.html` in these steps:

- It drops a leading navigation line from the Markdown.
- It gives headings anchor slugs (`_slugify`).
- It splices a chart container `div` into the converted HTML for every chart entry. Each container goes next to the heading its `section_heading` names, at one of three positions: `before_section`, `after_section` or `after_table`, the default.
- It writes the ECharts initialisation script.
- It fills the page template.
- It takes the company name and securities code from the first `# name（dddd）` heading.

`search_documents` in `edinet_api.py` checks the response's status. It then narrows the document list by securities code, ordinance code and form code.

Modules:

- `Wrappers`: `Option` and `Result`.
- `PyStr`: the Python string operations the core relies on. These are `split`, `join`, `strip`, slicing, `in` and `isspace`. `CollapseSpace` models `re.sub(r"[\s\u3000]+", separator, …)` from `_slugify`; U+3000 is already whitespace, so the class is the whitespace class. `Words` (what `str.split()` returns) is only a specification device: `CollapseStripIsJoinWords` uses it to describe the slug.
- `PyList`: the list comprehension `[x for x in xs if p(x)]`.
- `ReportMarkdown`: the navigation-line strip and `_slugify`.
- `ReportMeta`: `extract_meta`. Its regular expression is modelled as the backtracking search Python's `re` performs.
- `ChartHtml`: the chart entry, `_build_chart_div`, `build_echarts_script` and `render_full_html`.
- `ChartInjection`: `inject_charts` and its sibling-walking helpers.
  - The parsed body is the class `Soup`. Its field `children` holds the top-level nodes, which the methods splice in place.
  - Each method is proved against a function on node sequences (`NextHeading`, `NextTable`, `Spot`, `InjectOne`, `InjectAll`). The lemmas are stated about those functions.
- `EdinetSearch`: the status check and the filter chain of `search_documents`, applied to an already decoded response.

Two behaviours of the code are modelled as written:

- `while sibling:` stops at an empty text node, because an empty `NavigableString` is false. An element is always true.
- Two `after_table` charts for the same section end up in reverse list order, because each one is inserted right after the table (`ChartInjection.AfterTableChartsStack`).

## Model

| member | source | states |
|---|---|---|
| ReportMarkdown.StripNavLine | src/corporate_reports/build_report.py:47-50 | Defines the text handed to the converter: split at line breaks, drop the first line when it starts with `[`, join again. `StripNavLineSpec` and `StripNavLineLines` specify it. |
| ReportMarkdown.StripNavLineSpec | src/corporate_reports/build_report.py:47-50 | The text passed on is the whole input when it does not start with `[`. Otherwise it is everything after the first line break, or the empty string when there is no line break. |
| ReportMarkdown.StripNavLineLines | src/corporate_reports/build_report.py:47-50 | Read line by line, the result is the input's lines with the first one removed exactly when it starts with `[`. The other lines keep their order and content. |
| ReportMarkdown.StripNavLineKeepsPlainText | src/corporate_reports/build_report.py:48-50 | A text that is empty or does not begin with `[` reaches the converter unchanged. |
| ReportMarkdown.Kept | src/corporate_reports/build_report.py:65 | Defines the characters the first `re.sub` of `_slugify` keeps: word characters, whitespace, U+3000 to U+9FFF and U+FF00 to U+FFEF. `RemoveUnkept`, `RemoveUnkeptIsFilter` and `RemoveUnkeptKeeps` state what it lets through. |
| ReportMarkdown.RemoveUnkept | src/corporate_reports/build_report.py:65 | Every character left is a word character, whitespace, in U+3000–U+9FFF or in U+FF00–U+FFEF. The result is never longer than the input. |
| ReportMarkdown.RemoveUnkeptIsFilter | src/corporate_reports/build_report.py:65 | The deletion is the comprehension that keeps exactly the characters of the kept class. |
| ReportMarkdown.RemoveUnkeptKeeps | src/corporate_reports/build_report.py:64-65 | Every kept character survives, in its original order and as often as it occurs. Every other character is removed. |
| ReportMarkdown.RemoveUnkeptIdempotent | src/corporate_reports/build_report.py:65 | The deletion is idempotent: a second pass removes nothing. |
| ReportMarkdown.LowerChar | src/corporate_reports/build_report.py:66 | Lower-casing a character never changes whether it is whitespace. |
| ReportMarkdown.Lower | src/corporate_reports/build_report.py:66 | `lower()` keeps the length and maps every position through the character mapping. |
| ReportMarkdown.LowerStrip | src/corporate_reports/build_report.py:66 | `strip()` then `lower()` equals `lower()` then `strip()`. |
| ReportMarkdown.Slugify | src/corporate_reports/build_report.py:62-68 | Defines `_slugify` as its three steps: delete, then strip and lower, then collapse whitespace. `SlugifyJoinsWords` and `SlugHasNoSpace` specify it. |
| ReportMarkdown.SlugifyJoinsWords | src/corporate_reports/build_report.py:62-68 | The slug is the whitespace-separated words of the cleaned, lower-cased heading joined by the separator. So it has no leading or trailing separator and never two in a row. |
| ReportMarkdown.SlugHasNoSpace | src/corporate_reports/build_report.py:62-68 | With a separator free of whitespace, such as the default `-`, the slug holds no whitespace. |
| PyStr.JoinSplit | src/corporate_reports/build_report.py:47-50 | `"\n".join(s.split("\n")) == s` for every string. |
| PyStr.SplitJoin | src/corporate_reports/build_report.py:47-50 | Splitting a join of separator-free pieces gives back exactly those pieces. |
| PyStr.SplitAtFirst | src/corporate_reports/build_report.py:47-48 | The first piece of a split runs up to the first separator. The remaining pieces are the split of what follows it. |
| PyStr.StripBounds | src/corporate_reports/build_report.py:66 | `strip()` is a slice that removes only whitespace, at both ends. The slice starts and ends on non-space characters, unless everything is whitespace. |
| PyStr.WordsOfStrip | src/corporate_reports/build_report.py:66-67 | Stripping does not change the words of a string. |
| PyStr.CollapseStripIsJoinWords | src/corporate_reports/build_report.py:66-67 | Replacing every whitespace run of a stripped string by the separator equals joining its words with the separator. |
| PyStr.WordsFromAreWords | src/corporate_reports/build_report.py:67 | Every word is non-empty and free of whitespace. |
| PyStr.EmptyIsSubstring | src/corporate_reports/build_report.py:133 | `"" in h` holds for every heading text. |
| PyStr.SubstringInMiddle | src/corporate_reports/build_report.py:28-29 | A string occurs in any text that holds it between two other strings. |
| PyStr.IsSpace | src/corporate_reports/build_report.py:66-67 | Defines `str.isspace`, which is also `\s` in `re`. The code points are listed under "Left out". |
| PyStr.IsSubstring | src/corporate_reports/build_report.py:133 | Defines `needle in hay`: `hay` starts with `needle` at some position. |
| PyStr.Split | src/corporate_reports/build_report.py:47 | `s.split("\n")` returns at least one piece, and no piece holds the separator. |
| PyStr.Join | src/corporate_reports/build_report.py:50 | Defines `sep.join(parts)`. `JoinSplit` and `SplitJoin` pair it with `Split`. |
| PyStr.Strip | src/corporate_reports/build_report.py:66 | Defines `strip()`. `StripBounds` specifies it. |
| PyStr.CollapseSpace | src/corporate_reports/build_report.py:67 | Defines `re.sub(r"[\s\u3000]+", separator, value)`: every maximal whitespace run replaced by the separator. `CollapseCopiesWord` states that stretches without whitespace are copied, and `CollapseStripIsJoinWords` that on stripped text the result is the words joined by the separator. |
| PyStr.Take | scripts/edinet_api.py:91 | `s[:n]` is the prefix of `s` of length `min(n, len(s))`. |
| PyList.Filter | scripts/edinet_api.py:92-102 | The comprehension's result is never longer than its input. `FilterIsSubsequence` and `FilterCount` specify it. |
| PyList.FilterIsSubsequence | scripts/edinet_api.py:92-102 | A comprehension only leaves elements out. It neither reorders nor duplicates them. |
| PyList.FilterCount | scripts/edinet_api.py:92-102 | A passing element occurs as often as in the input; a failing one does not occur. |
| PyList.FilterTwice | scripts/edinet_api.py:98-102 | Two comprehensions in a row equal one comprehension by the conjunction of their tests. |
| ReportMeta.ShortestName | src/corporate_reports/build_report.py:254 | The lazy `.+?` gives the shortest name length from `t0` on that is followed by `（dddd）`. No shorter length is, and the name never crosses a line break. |
| ReportMeta.WidestRun | src/corporate_reports/build_report.py:254 | The greedy `\s+` gives the longest whitespace run after which a name and the code follow. It pairs that run with its shortest name, and no longer run admits a match. |
| ReportMeta.MatchAt | src/corporate_reports/build_report.py:254 | At a line start holding `#`, it returns the match the regular expression tries first. It returns `None` exactly when no match starts there. |
| ReportMeta.SearchFrom | src/corporate_reports/build_report.py:254 | `re.search` returns the leftmost start position with a match, together with the match tried first there. No earlier position matches. |
| ReportMeta.ExtractMeta | src/corporate_reports/build_report.py:252-258 | Defines `extract_meta`: the groups of the `re.search` match, or the fallback pair. `ExtractMetaSpec` specifies it against the first match. |
| ReportMeta.ExtractMetaSpec | src/corporate_reports/build_report.py:252-258 | Without any match, the result is the fallback pair `("企業", "0000")`. Otherwise a first match exists, and the result is its name and code groups. |
| ReportMeta.ValidMatch | src/corporate_reports/build_report.py:254 | Defines when the pattern matches at a given start: a `#` at a line start, a whitespace run, a name free of line breaks, then `（`, four digits and `）`. `FirstMatchShape` and `ExtractMetaSpec` use it. |
| ReportMeta.FirstMatch | src/corporate_reports/build_report.py:254 | Defines the match `re.search` reports: a valid match tried no later than every other valid match, earliest start first, then the longest whitespace run, then the shortest name. `ExtractMetaSpec` proves the search returns it. |
| ReportMeta.Groups | src/corporate_reports/build_report.py:256 | Defines `m.group(1), m.group(2)`: the name between the whitespace run and `（`, and the four digits. `FirstMatchShape` states the name is non-empty with no line break and the code is four digits. |
| ReportMeta.FirstMatchShape | src/corporate_reports/build_report.py:254-256 | A returned code is four digits. A returned name is one or more characters without a line break. |
| ReportMeta.ExtractMetaExample | src/corporate_reports/build_report.py:252-256 | `# ジェコス（9991）企業分析レポート` yields `("ジェコス", "9991")`. |
| ReportMeta.ExtractMetaFallbackExample | src/corporate_reports/build_report.py:257-258 | A title without a parenthesised code yields the fallback pair. |
| ChartHtml.NatToString | src/corporate_reports/build_report.py:181 | `str(n)` is one or more decimal digits with no leading zero. |
| ChartHtml.NatToStringRoundTrip | src/corporate_reports/build_report.py:181 | Reading the digits back gives the height: the markup carries the configured number. |
| ChartHtml.IntToStringPlain | src/corporate_reports/build_report.py:181 | The height text holds no quote and no line break. |
| ChartHtml.IntToString | src/corporate_reports/build_report.py:181 | Defines `str(height)`: a minus sign for a negative value, then the digits of its magnitude. `IntToStringPlain` and `NatToStringRoundTrip` specify it. |
| ChartHtml.ChartDivLines | src/corporate_reports/build_report.py:175-183 | Defines the `parts` list of `_build_chart_div`. `ChartDivShape` specifies it. |
| ChartHtml.BuildChartDiv | src/corporate_reports/build_report.py:173-184 | The markup is the container lines joined with line breaks. |
| ChartHtml.ChartDivShape | src/corporate_reports/build_report.py:175-183 | The opening tag comes first, then the chart box with the id and height, then the closing tag. The title line is there exactly when the title is non-empty, and the note line exactly when the note is. |
| ChartHtml.ChartDivSplit | src/corporate_reports/build_report.py:184 | When the id, title and note hold no line break, splitting the markup at line breaks gives back its lines. |
| ChartHtml.BuildEchartsScript | src/corporate_reports/build_report.py:192-222 | No charts give the empty string. Otherwise the script is the header, one block per chart that has an option (in order) and the footer, joined with line breaks. |
| ChartHtml.Blocks | src/corporate_reports/build_report.py:203-218 | Defines the eight-entry blocks of the charts that have an option, in chart order. `BlocksLength` and `ElementLineIffOption` specify it. |
| ChartHtml.ChartBlock | src/corporate_reports/build_report.py:209-218 | Defines the eight entries appended to `lines` for one chart, with the chart id in the second and the option text in the fifth. `BlocksLength` and `OnlyElementLine` state their count and that only the second names an element. |
| ChartHtml.ScriptLines | src/corporate_reports/build_report.py:197-221 | Defines the `lines` list: header, blocks, footer. `ScriptFrame` specifies it. |
| ChartHtml.BlocksLength | src/corporate_reports/build_report.py:203-218 | Every chart with an option appends exactly eight entries to the `lines` list; every other chart appends none. An entry is one line of the script only when the option text holds no line break; `json.dumps(…, indent=2)` output usually spans several. |
| ChartHtml.ScriptFrame | src/corporate_reports/build_report.py:197-221 | The `lines` list has `5 + 8 × (charts with an option)` entries. It starts with the CDN line and ends with `});` and `</script>`. |
| ChartHtml.NoOptionsNoBlocks | src/corporate_reports/build_report.py:205-207 | When no chart has an option, the script is the bare frame. |
| ChartHtml.ElementLineIffOption | src/corporate_reports/build_report.py:203-210 | The script looks up an element by an id exactly when some chart with that id has an option. |
| ChartHtml.ElementLineInjective | src/corporate_reports/build_report.py:210 | Two element-lookup lines are equal only for equal ids. |
| ChartHtml.OnlyElementLine | src/corporate_reports/build_report.py:209-218 | No other line of a chart block looks like an element lookup. |
| ChartHtml.RenderFullHtmlLayout | src/corporate_reports/build_report.py:22-36 | The page is the document head, then the body verbatim, a line break, the chart script verbatim and the closing tags. The lemma gives each piece's exact position. |
| ChartHtml.RenderFullHtml | src/corporate_reports/build_report.py:230-244 | Defines the filled template. `RenderFullHtmlLayout` and `RenderFullHtmlNamesCompany` specify it. |
| ChartHtml.RenderFullHtmlNamesCompany | src/corporate_reports/build_report.py:28-29 | The page holds the title `<title>name（code）企業分析レポート</title>` and the link to the given style sheet. |
| ChartHtml.DefaultPageLinksStyleSheet | src/corporate_reports/build_report.py:235 | A page rendered with the default `css_path` contains `report.css`. |
| ChartHtml.RenderFullHtmlInjective | src/corporate_reports/build_report.py:230-244 | With the same script and head data, two pages are equal only for equal bodies. |
| ChartInjection.FindHeading | src/corporate_reports/build_report.py:125-135 | Any index it returns is within the heading list. `FindHeadingSpec` gives the search order. |
| ChartInjection.FindHeadingSpec | src/corporate_reports/build_report.py:125-135 | It returns the first heading whose stripped text equals the section text. Only when there is none, it returns the first heading whose text contains it. It returns `None` when no heading contains it. |
| ChartInjection.StrippedText | src/corporate_reports/build_report.py:129 | Defines `get_text(strip=True)` over a heading's strings: each one stripped, then concatenated. `FindHeadingSpec` compares headings through it. |
| ChartInjection.HeadingText | src/corporate_reports/build_report.py:129-133 | Defines the text `_find_heading` compares, exactly in the first pass and by containment in the second. `FindHeadingSpec` states both passes in terms of it. |
| ChartInjection.Headings | src/corporate_reports/build_report.py:82 | Defines `find_all(re.compile(r"^h[1-6]$"))`: the heading elements among the nodes, in document order. `NthHeadingIsJth`, `NthHeadingInsertAfter` and `NthHeadingInsertBefore` state how it relates to positions and that insertions keep it. |
| ChartInjection.Truthy | src/corporate_reports/build_report.py:141-167 | Defines the test `while sibling:` and `if element.next_sibling:` apply: an element always, a text node only when it is not empty. `ReachSpec`, `NextHeadingSpec` and `NextTableSpec` state where the walk stops because of it. |
| ChartInjection.Insert | src/corporate_reports/build_report.py:104-117 | Defines `insert_before`, `insert_after` and `append` on the top-level nodes: the node spliced in at one index. `InsertTwice`, `NthHeadingInsertAfter` and `NthHeadingInsertBefore` state what a splice keeps. |
| ChartInjection.ChartNode | src/corporate_reports/build_report.py:100-101 | Defines the parsed chart container: the joined `_build_chart_div` markup for the chart's id, title, note and height. `InjectOneAt` and `InjectOneKeeps` state where it lands. |
| ChartInjection.EmptySectionFirstHeading | src/corporate_reports/build_report.py:85 | A chart without `section_heading` is found exactly when there is a heading. It goes to the first heading when no heading has empty text. |
| ChartInjection.NthHeadingIsJth | src/corporate_reports/build_report.py:82 | The position computed for the `j`-th entry of the heading list holds that heading. |
| ChartInjection.NthHeadingInsertAfter | src/corporate_reports/build_report.py:82 | A non-heading inserted after a heading leaves that heading's position unchanged. |
| ChartInjection.NthHeadingInsertBefore | src/corporate_reports/build_report.py:82 | A non-heading inserted at or before a heading moves that heading down by one. |
| ChartInjection.ReachSpec | src/corporate_reports/build_report.py:141 | The sibling walk passes only true siblings and stops at the first false one or at the end. |
| ChartInjection.NextHeading | src/corporate_reports/build_report.py:138-149 | Any index it returns lies at or after the start of the walk and within the body. `NextHeadingSpec` specifies it. |
| ChartInjection.NextHeadingSpec | src/corporate_reports/build_report.py:138-149 | The result is a heading within the walk, and the walk passes no heading before it. |
| ChartInjection.NextTable | src/corporate_reports/build_report.py:152-162 | Any index it returns lies at or after the start of the walk and within the body. `NextTableSpec` specifies it. |
| ChartInjection.NextTableSpec | src/corporate_reports/build_report.py:152-162 | The result is the first table before the section ends, at the next heading or where the walk stops. `None` means the section has no table. |
| ChartInjection.Spot | src/corporate_reports/build_report.py:103-120 | The insertion index is the heading's own index for `before_section`, and strictly after the heading otherwise. |
| ChartInjection.BeforeSectionSpot | src/corporate_reports/build_report.py:103-104 | The container lands immediately before the heading. |
| ChartInjection.AfterSectionSpot | src/corporate_reports/build_report.py:105-112 | The container goes right before the first heading the walk meets, or at the end of the body when the walk meets none. |
| ChartInjection.AfterTableSpot | src/corporate_reports/build_report.py:113-120 | The container goes right after the section's first table. Without a table it goes right after the heading, or at the end when the next sibling is missing or empty text. |
| ChartInjection.Soup.constructor | src/corporate_reports/build_report.py:81 | The parsed body holds the given nodes. |
| ChartInjection.Soup.FindNextHeading | src/corporate_reports/build_report.py:138-149 | The loop returns what `NextHeading` specifies. |
| ChartInjection.Soup.FindNextTable | src/corporate_reports/build_report.py:152-162 | The loop returns what `NextTable` specifies. |
| ChartInjection.Soup.InsertBefore | src/corporate_reports/build_report.py:104 | The node is spliced in at the given index; nothing else changes. |
| ChartInjection.Soup.InsertAfter | src/corporate_reports/build_report.py:117 | The node is spliced in right after the given index; nothing else changes. |
| ChartInjection.Soup.Append | src/corporate_reports/build_report.py:112 | The node is added at the end; nothing else changes. |
| ChartInjection.Soup.InsertAfterElement | src/corporate_reports/build_report.py:165-170 | The node goes before a true next sibling, or at the end when there is none. |
| ChartInjection.Soup.PlaceAt | src/corporate_reports/build_report.py:103-120 | The three position branches splice the container at `Spot`. |
| ChartInjection.Soup.PlaceChart | src/corporate_reports/build_report.py:85-120 | One loop pass changes the body to `InjectOne`. A chart whose section is not found leaves the body unchanged. |
| ChartHtml.Chart.Section | src/corporate_reports/build_report.py:85 | Defines `chart.get("section_heading", "")`: the given heading text, or the empty string. `InjectOneAt` states the chart is placed at the heading `_find_heading` returns for it, and `EmptySectionFirstHeading` states what the empty default selects. |
| ChartHtml.Chart.Position | src/corporate_reports/build_report.py:86 | Defines `chart.get("position", "after_table")`. `AfterTableSpot` states that every value other than `before_section` and `after_section` behaves as the default. |
| ChartHtml.Chart.Id | src/corporate_reports/build_report.py:87 | Defines `chart.get("id", "chart")`, used for both the container and the script. `ElementLineIffOption` states that the script looks up exactly the ids of the charts with an option. |
| ChartHtml.Chart.Title | src/corporate_reports/build_report.py:88 | Defines `chart.get("title", "")`. `ChartDivShape` states the title line appears exactly when it is not empty. |
| ChartHtml.Chart.Note | src/corporate_reports/build_report.py:89 | Defines `chart.get("note", "")`. `ChartDivShape` states the note line appears exactly when it is not empty. |
| ChartHtml.Chart.Height | src/corporate_reports/build_report.py:90 | Defines `chart.get("height", 400)`. `ChartDivShape` states the container box carries it in pixels. |
| ChartInjection.Soup.InjectCharts | src/corporate_reports/build_report.py:82-120 | The loop places the charts one after the other in list order. It uses the heading list computed once, which stays the body's heading list throughout. |
| ChartInjection.InjectChartsHtml | src/corporate_reports/build_report.py:76-122 | An empty chart list returns the text untouched. Otherwise the result is the serialised body with every chart placed. |
| ChartInjection.InsertionPoint | src/corporate_reports/build_report.py:92-120 | The splice index for one chart is within the body, or `None` when the chart is skipped. |
| ChartInjection.InjectOne | src/corporate_reports/build_report.py:92-120 | Defines one loop pass on the node list. `InjectOneKeeps` and `InjectOneAt` specify it. |
| ChartInjection.InjectAll | src/corporate_reports/build_report.py:84-120 | Defines the whole loop: the charts placed one after the other. `InjectAllKeeps`, `InjectTwo` and the two-chart lemmas specify it. |
| ChartInjection.InjectOneKeeps | src/corporate_reports/build_report.py:92-120 | Placing one chart keeps every parsed node and every heading, in order. It adds a container exactly when the section is found. |
| ChartInjection.InjectAllKeeps | src/corporate_reports/build_report.py:84-120 | After the loop, the parsed nodes and headings are those of the input. There is one container per chart whose section was found: a missing section skips only that chart. |
| ChartInjection.Placed | src/corporate_reports/build_report.py:92-98 | Counts the charts whose section the heading list, computed once, matches: the charts lines 92-98 do not skip. `InjectAllKeeps` proves this is the number of containers added. The count never exceeds the number of charts. |
| ChartInjection.InjectTwo | src/corporate_reports/build_report.py:84 | Placing `[c1, c2]` is placing `c1` and then `c2`. |
| ChartInjection.InjectOneAt | src/corporate_reports/build_report.py:92-120 | A chart whose section is found as the `j`-th heading is placed relative to that heading. |
| ChartInjection.HeadingShift | src/corporate_reports/build_report.py:82 | Inserting a container keeps the heading list. It moves the `j`-th heading down by one exactly when the container lands at or before it. |
| ChartInjection.TwoChartsSameHeading | src/corporate_reports/build_report.py:82-120 | Two charts for the same heading: the second is placed relative to that heading in the body the first produced. |
| ChartInjection.TableKept | src/corporate_reports/build_report.py:115-117 | A container inserted right after a section's first table leaves that table the first. |
| ChartInjection.NextTableOnPrefix | src/corporate_reports/build_report.py:152-162 | The table search depends only on the nodes up to the table it finds. |
| ChartInjection.TableSpotStacks | src/corporate_reports/build_report.py:115-117 | Of two containers placed after the same table, the second ends up between the table and the first. |
| ChartInjection.PlaceAfterTableTwice | src/corporate_reports/build_report.py:113-117 | Two after-table placements for the same heading give `table, second, first`. |
| ChartInjection.PlaceBeforeTwice | src/corporate_reports/build_report.py:103-104 | Two before-section placements for the same heading keep their order before it. |
| ChartInjection.AfterTableChartsStack | src/corporate_reports/build_report.py:84-117 | Two `after_table` charts for a section with a table end up in reverse list order, right after the table. |
| ChartInjection.BeforeSectionChartsKeepOrder | src/corporate_reports/build_report.py:84-104 | Two `before_section` charts for the same section end up in list order, right before the heading. |
| EdinetSearch.BySecCode | scripts/edinet_api.py:89-96 | Defines the `secCode` comprehension, applied only when a code is given. |
| EdinetSearch.ByOrdinanceCode | scripts/edinet_api.py:98-99 | Defines the `ordinanceCode` comprehension, applied only when a code is given. |
| EdinetSearch.ByFormCode | scripts/edinet_api.py:101-102 | Defines the `formCode` comprehension, applied only when a code is given. |
| EdinetSearch.Passes | scripts/edinet_api.py:89-102 | Defines the conjunction of the given filter conditions, which `FilterChainIsConjunction` relates to the chain. |
| EdinetSearch.SearchDocuments | scripts/edinet_api.py:83-102 | The call fails exactly when the metadata status is not `"200"`. The failure carries the reported metadata. |
| EdinetSearch.Status | scripts/edinet_api.py:83 | Defines `data.get("metadata", {}).get("status")`: absent when the response has no metadata or the metadata no status. `SearchDocuments` fails exactly when it is not `"200"`. |
| EdinetSearch.Given | scripts/edinet_api.py:89-101 | Defines `if arg:` for an optional argument: given and not empty. `SearchWithoutFilters` states that with no argument given nothing is filtered. |
| EdinetSearch.SecCodeMatches | scripts/edinet_api.py:95 | Defines the `secCode` test: present, not empty, and its first four characters equal the prefix. `FourAndFiveDigitCodesAgree` and `SecCodeExample` state its effect. |
| EdinetSearch.FilterChainIsConjunction | scripts/edinet_api.py:89-102 | The three filters applied in turn equal one filter by the conjunction of the given conditions. |
| EdinetSearch.SearchDocumentsSpec | scripts/edinet_api.py:86-102 | With status `"200"`, the answer is a subsequence of `results`, a missing `results` counting as empty. Each document occurs as often as in `results` when it passes every given filter, and not at all otherwise. |
| EdinetSearch.SearchWithoutFilters | scripts/edinet_api.py:86-102 | With no filter arguments, `results` comes back as it is. |
| EdinetSearch.SearchWithoutResults | scripts/edinet_api.py:86 | A response without `results` gives an empty list whatever the filters. |
| EdinetSearch.FourAndFiveDigitCodesAgree | scripts/edinet_api.py:89-96 | A four-digit code and its five-digit EDINET form select the same documents. |
| EdinetSearch.SecCodeExample | scripts/edinet_api.py:89-96 | Searching `5819` among `58190`, `12340` and `58195` keeps the first and the third. |

## Left out

- HTTP and its errors are not modelled: the request, `raise_for_status`, JSON decoding, the `RequestException` wrapper, `time.sleep`, `check_api_key` and the API key. `EdinetSearch.SearchDocuments` starts from the decoded response.
- `EdinetSearch.SearchDocuments`: a `null` `results` or `metadata`, and non-string field values, are not modelled. Each field is either missing or a string.
- The rest of `edinet_api.py` (downloads, listing, the command line) is not part of this model.
- `build_report`, `main` and file reading and writing are not modelled. Neither is the override of the name and code from `chart_config.json`.
- The Markdown conversion is not modelled; it is `markdown.markdown` with the tables and toc extensions. `_slugify` is modelled, but not how the toc extension uses it.
- HTML parsing and serialising are parameters of `ChartInjection.InjectChartsHtml`. The chart markup is spliced in as one node.
- `ChartInjection`: the body is the flat list of top-level nodes. A heading nested inside another element, which `find_all` would also find, is not modelled.
- The warning printed to stderr for a skipped chart is not modelled; the chart is still skipped.
- `json.dumps` of an ECharts option is not modelled: the option is the text it produces, or `None` when the value is falsy.
- `ChartHtml.Chart`: a height that is not an integer is not modelled. Neither is a `null` or non-string `section_heading`, title, note or id. With a non-string `section_heading` and at least one heading, `_find_heading` raises `TypeError` at the `in` test; the model's `Section()` falls back to `""` instead. A `position` that is not one of the two keywords, a non-string one included, behaves like `after_table`, as `Spot` does.
- `ReportMarkdown.RemoveUnkept`: `\w` is a parameter, because Python's Unicode word tables are not part of this model.
- `ReportMarkdown.LowerChar`: lower-cases only the ASCII and full-width Latin capitals. Other scripts' case mappings, and mappings that change length, are not modelled.
- `ReportMeta.ShortestName`: `\d` covers only the ASCII and full-width digits, not the decimal digits of other scripts.
- `ReportMarkdown.Slugify`: the separator is inserted literally. The escape handling of `re.sub` for a separator that holds a backslash is not modelled.
- `PyStr.IsSpace` follows Python's `str.isspace`. It is fixed to the ASCII whitespace, U+001C–U+001F, U+0085, U+00A0, U+1680, U+2000–U+200A, U+2028, U+2029, U+202F, U+205F and U+3000.
