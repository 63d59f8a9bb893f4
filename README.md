# CPU-jump detection over performance-monitor reports

This project models the core of the two report scripts in `HTML_Parser/`.
Each script reads one performance-monitor report per file and pulls out its CPU
readings. It then walks the reports in order and flags every reading that
rose by 40 percent or more against the same position in the previous report.

- `XMLparser.py` reads the XML export. A reading is the `util` value of an
  `Item` whose `component` is `SysHealthCpuComponent`.
- `HTMLparser.py` reads the HTML export. A reading is the text of a CPU tag with
  every `%` removed.
- Both scripts share the same comparison loop (`compare_reports`).

Modules:

- `Wrappers` (`wrappers.dfy`): `Option`, used for Python's `None` and for a
  parse that fails.
- `FilterMaps` (`filter_map.dfy`): the order-preserving filter-map that both
  extractors and the pairwise comparison are built on. `Kept` gives the input
  positions that produced an output.
- `Comparator` (`comparator.dfy`): reports, findings, the 40-percent rule,
  Python's `zip`, and the chained comparison `Chain`. It also holds the inner
  comparison loop `ComparePair` and the lemmas that characterise `Chain`.
- `XmlParser` (`xml_parser.dfy`): `Item`/`Data` nodes, ElementTree's
  first-match `find`, the extractor, and `compare_reports` for XML files.
- `HtmlParser` (`html_parser.dfy`): `%`-stripping, the extractor, and
  `compare_reports` for HTML files.

The number parser (Python's `float`) is a parameter
`parse: string -> Option<real>`, where `None` stands for `ValueError`.
Readings are `real`. A finding is a record `Finding(prev, curr, path)` rather
than the message text; `path` is the later of the two files.
`Origins(rs)` in `Comparator` is a ghost function giving, for each finding,
the (file index, position) it comes from. The lemmas use it to state order and
completeness.

## Model

| member | source | states |
|---|---|---|
| `Comparator.SignificantIff` | HTML_Parser/XMLparser.py:58 | The rule `prev > 0 and (curr - prev) / prev * 100 >= 40` holds exactly when `prev > 0` and `10 * curr >= 14 * prev`. A rise of exactly 40 percent counts. |
| `Comparator.Zip` | HTML_Parser/XMLparser.py:57 | Pairing has the length of the shorter list, and pair `i` is `(prev[i], curr[i])`. |
| `Comparator.Significant` | HTML_Parser/XMLparser.py:58 | The decision rule as written: `prev > 0` and `(curr - prev) / prev * 100 >= 40`. The guard makes the division defined. A significant pair has a positive previous reading and a larger current one. |
| `Comparator.PairFindings` | HTML_Parser/XMLparser.py:57-60 | The findings of one file against its predecessor: the significant zipped pairs, in position order. |
| `Comparator.Chain` | HTML_Parser/XMLparser.py:49-63 | The findings of a run: each report after the first compared with the one just before it, in file order. |
| `Comparator.PairFindingsSpec` | HTML_Parser/XMLparser.py:57-60 | One file against its predecessor gives one finding per aligned significant pair. Findings follow position order and number at most the shorter length. Each carries both readings and the later file's path. A position gives a finding if and only if its pair is significant. |
| `Comparator.ComparePair` | HTML_Parser/HTMLparser.py:45-48 | The inner loop over the zipped readings returns exactly the findings `PairFindings` specifies. |
| `Comparator.ChainLength` | HTML_Parser/XMLparser.py:49-63 | Each finding of a run has exactly one origin (file index, position). |
| `Comparator.ChainSound` | HTML_Parser/XMLparser.py:49-63 | Every finding comes from report `k >= 1` and its immediate predecessor `k - 1`, at a position both reports have. Its pair is significant, and it carries report `k`'s path. The first report originates nothing. |
| `Comparator.ChainComplete` | HTML_Parser/XMLparser.py:57-60 | Every significant aligned pair of consecutive reports yields a finding. |
| `Comparator.ChainOrdered` | HTML_Parser/XMLparser.py:49-60 | Findings are ordered by file first, then by position within the file. |
| `Comparator.ChainMembership` | HTML_Parser/HTMLparser.py:41-50 | A finding belongs to the run if and only if it is the finding of some significant aligned pair of consecutive reports. |
| `Comparator.FindingsArePositiveJumps` | HTML_Parser/HTMLparser.py:46 | Every finding has `prev > 0` and `curr >= 1.4 * prev`. A non-positive previous reading never gives a finding. |
| `Comparator.ChainExtend` | HTML_Parser/XMLparser.py:56-63 | A new report adds exactly its comparison with the report before it. It adds nothing when it is first or when that report had no readings. |
| `Comparator.ChainStep` | HTML_Parser/HTMLparser.py:41-50 | The same as `ChainExtend`, stated for the prefixes of one run, as the loop walks it. |
| `Comparator.ChainDropEmptyHead` | HTML_Parser/HTMLparser.py:44-50 | A run that starts with a report without readings has the same findings as the run without it. |
| `Comparator.NothingAfterEmpty` | HTML_Parser/XMLparser.py:56-63 | When report `k - 1` has no readings, no finding originates in report `k`. |
| `Comparator.ChainBound` | HTML_Parser/XMLparser.py:57 | A run has at most as many findings as there are aligned positions. Unmatched tail readings never count. |
| `Comparator.ExactlyFortyPercentCounts` | HTML_Parser/XMLparser.py:58 | Against `[10, 50]`, the report `[14, 45]` yields only the finding `(10, 14)`, a rise of exactly 40 percent. |
| `FilterMaps.FilterMapKept` | HTML_Parser/XMLparser.py:29-37 | A filter-map gives one output per element that yields a value. The outputs are those values, in input order, and no more outputs than inputs. An element is kept if and only if it yields a value. |
| `FilterMaps.FilterMapAppend` | HTML_Parser/HTMLparser.py:27-32 | Filtering a concatenation filters each part. A skipped element does not stop later ones. |
| `XmlParser.Find` | HTML_Parser/XMLparser.py:30 | The result is the first `Data` with the requested name. `None` means no `Data` has that name. |
| `XmlParser.FieldText` | HTML_Parser/XMLparser.py:30-34 | The text of the first `Data` with the requested name. `None` when there is no such `Data` or it has no text. |
| `XmlParser.ItemReading` | HTML_Parser/XMLparser.py:30-37 | An item gives a reading only when its `component` text is exactly `SysHealthCpuComponent` and its `util` text is present, non-empty and parses. |
| `XmlParser.ItemReadingSpec` | HTML_Parser/XMLparser.py:30-37 | An item gives a reading if and only if those conditions hold, and the reading is the parsed `util` text. |
| `XmlParser.Extract` | HTML_Parser/XMLparser.py:29-40 | The readings of one document: the items' readings, in item order, skipping the items that give none. |
| `XmlParser.FileReports` | HTML_Parser/XMLparser.py:50 | One report per file, in file order, holding the file's path and the readings extracted from it. |
| `XmlParser.ExtractSpec` | HTML_Parser/XMLparser.py:29-40 | Each reading comes from a distinct item, in document order, at most one per item. That item's first `component` text is exactly `SysHealthCpuComponent`, its first `util` text is non-empty, and that text parses to the reading. An item gives a reading if and only if it meets those conditions. |
| `XmlParser.SkipsOtherComponents` | HTML_Parser/XMLparser.py:29-31 | An item with a missing or different component adds nothing, and later items are still read. |
| `XmlParser.ExtractCpuUsage` | HTML_Parser/XMLparser.py:18-42 | The loop over items returns exactly `Extract(items)`. |
| `XmlParser.CompareReports` | HTML_Parser/XMLparser.py:44-63 | The file loop reassigns `previous_cpu_data` and guards on it being non-empty. It returns exactly `Chain` of the extracted reports. With zero or one file it returns no findings. |
| `HtmlParser.StripPercent` | HTML_Parser/HTMLparser.py:29 | The stripped text contains no `%` and is no longer than the input. |
| `HtmlParser.StripPercentAppend` | HTML_Parser/HTMLparser.py:29 | Stripping distributes over concatenation, so the other characters keep their order. |
| `HtmlParser.StripPercentKeeps` | HTML_Parser/HTMLparser.py:29 | Text without `%` is unchanged. |
| `HtmlParser.StripPercentIdempotent` | HTML_Parser/HTMLparser.py:29 | Stripping twice equals stripping once. |
| `HtmlParser.StripPercentCounts` | HTML_Parser/HTMLparser.py:29 | The characters removed are exactly the `%` signs. Every other character keeps its count. |
| `HtmlParser.TagReader` | HTML_Parser/HTMLparser.py:28-32 | A tag's reading is the parse of its text with every `%` removed. There is no reading when that does not parse. |
| `HtmlParser.Extract` | HTML_Parser/HTMLparser.py:27-32 | The readings of one document: the tags' readings, in tag order, skipping the tags that give none. |
| `HtmlParser.FileReports` | HTML_Parser/HTMLparser.py:42 | One report per file, in file order, holding the file's path and the readings extracted from it. |
| `HtmlParser.ExtractSpec` | HTML_Parser/HTMLparser.py:27-32 | Readings are the parsed stripped tag texts, in tag order, at most one per tag. A tag is skipped if and only if its stripped text does not parse. |
| `HtmlParser.SkipsUnparseable` | HTML_Parser/HTMLparser.py:28-32 | A tag that does not parse adds nothing, and later tags are still read. |
| `HtmlParser.ExtractCpuUsage` | HTML_Parser/HTMLparser.py:25-34 | The loop over tags returns exactly `Extract(tags)`. |
| `HtmlParser.CompareReports` | HTML_Parser/HTMLparser.py:36-50 | The file loop reassigns `previous_data` and guards on it being non-empty. It returns exactly `Chain` of the extracted reports. With zero or one file it returns no findings. |

## Left out

- `find_xml_files` / `find_html_files`: directory walking is filesystem I/O. The model takes the ordered list of files as input.
- `ET.parse`, `findall(".//Item")`, BeautifulSoup's `find_all` and `get_text`: these are library parsing calls. The model takes each document as its list of `Item` nodes, or as its list of tag texts, in document order. An `Item` is given by the `Data` elements below it, at any depth. Nesting of `Item`s inside `Item`s is not represented.
- The UTF-8 to Latin-1 decoding fallback: file I/O and encoding.
- Python `float` parsing: the model uses an uninterpreted `parse` parameter. Values it cannot express as `real` (`nan`, `inf`) are out of the model.
- IEEE floating-point rounding in `(curr - prev) / prev * 100`: the model computes over `real`.
- The message strings, the `print` calls, the `cpu_usage_report.txt` file and the module-level script lines: output formatting and I/O. Findings are records instead.
- Failures to open or parse a file. In HTML_Parser/XMLparser.py an unreadable or malformed file raises `OSError` or `ParseError` (line 23). In HTML_Parser/HTMLparser.py an unreadable file raises `OSError` (lines 19, 22). There, malformed markup is parsed leniently, and a non-UTF-8 file is re-read as Latin-1 (lines 21-23). Either exception stops the run before `cpu_usage_report.txt` is written. The model's documents are already parsed, so `CompareReports` always returns the findings.
