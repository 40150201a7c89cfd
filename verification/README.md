# SD-Sitemap core in Dafny

The SD-Sitemap app turns a client questionnaire into a website sitemap. It reads a CSV export
of the questionnaire and finds its header row. It extracts the answered question/answer pairs
and writes them into a prompt for a language model. It then parses the sitemap XML that comes
back and shows the URLs as a folder listing and as a node graph. All of this lives in `app.py`.

This project models the deterministic parts of that pipeline as pure Dafny functions over
strings and sequences, and proves what each one promises.

| module | file | models |
|---|---|---|
| `Results` | `results.dfy` | `Option` and `Result` |
| `Text` | `text.dfy` | `str.strip`, `lower`, `count`, `split`, `join`, decimal numerals |
| `CsvIngest` | `csv_ingest.dfy` | header-row detection in `parse_csv`; the candidate loop, with `read_csv` as a parameter |
| `QaPairs` | `qa_pairs.dfy` | `extract_qa_pairs`; the question/answer block of the prompt |
| `Sitemap` | `sitemap.dfy` | the three-tier cascade of `parse_sitemap_xml`; the `<loc>` regex as a concrete scanner |
| `PathTree` | `path_tree.dfy` | folding URL paths into the insertion-ordered nested map both tree views use |
| `FolderTree` | `folder_tree.dfy` | `create_folder_tree` / `print_tree`, and a reader that parses the listing back |
| `VisualTree` | `visual_tree.dfy` | `traverse_tree` in `create_visual_tree_html`: nodes, connections and their ids |

Some behaviour of `app.py` is worth stating up front, because the model keeps it as written:

- No step extracts the XML document from the model's reply. The raw reply goes straight into
  `parse_sitemap_xml` (app.py:823), so `Sitemap.ParseSitemapXml` takes the raw text.
- The header heuristic needs at least two commas on the header line (app.py:78-89). A
  one-comma `question,answer` header below a metadata line is therefore not detected. Line 0
  is used whenever no line of the file has two commas (app.py:83-94,
  `CsvIngest.TwoColumnHeaderAfterMetadataNotDetected`).
- A graph node id is built from the depth, the position and the key only (app.py:306). Two
  nodes can share an id (see Findings). The graph view shows no node deeper than depth 4 (app.py:297-298).

## Model

| member | source | states |
|---|---|---|
| Text.StripShape | app.py:76 | `strip()` removes exactly a whitespace prefix and a whitespace suffix. The result is a contiguous slice of the input whose first and last characters are not whitespace. |
| Text.StripEmptyIffAllSpace | app.py:68 | The stripped text is empty exactly when every character is whitespace. This is the test behind the "empty file" error and behind blank cells and lines. |
| Text.StripTrimmed | app.py:220-223 | A stripped text has no whitespace at either end. |
| Text.StripKeeps | app.py:607-612 | A text with no whitespace at either end is left unchanged by `strip()`. |
| Text.StripIdempotent | app.py:607-612 | Stripping twice gives the same text as stripping once. |
| Text.Lower | app.py:76 | Lowering keeps the length and maps each character on its own. |
| Text.Count | app.py:80 | The number of occurrences of a character is zero exactly when the character is absent, and never more than the length. |
| Text.CountAppend | app.py:80 | Counting over two concatenated texts adds the two counts. |
| Text.Split | app.py:72 | `split('\n')` gives one more piece than there are separators, and no piece contains the separator. |
| Text.JoinSplit | app.py:72 | Joining the pieces of a split with the separator gives back the original text. |
| Text.SplitJoin | app.py:597 | Splitting a join of separator-free pieces gives back the pieces. |
| Text.NatToStringRoundTrip | app.py:626 | The decimal numeral of a number reads back as that number. |
| Text.NatToStringInjective | app.py:306 | Different numbers have different numerals. |
| Text.NatToString | app.py:626 | A numeral is a non-empty string of digits without a leading zero. |
| Text.JoinSnoc | app.py:597 | Joining one more piece appends the separator and the piece. |
| Text.JoinCons | app.py:625-628 | Joining a piece in front prepends the piece and the separator. |
| Text.SplitAtSeparator | app.py:564 | Splitting `a`, a separator, `b` gives the pieces of a followed by those of b. |
| Text.SplitPiecesWithout | app.py:564 | A character absent from the text is absent from every piece. |
| CsvIngest.FirstWhere | app.py:75-89 | The first-match search returns an index whose line passes the test, with no earlier line passing. It returns nothing only when no line passes. |
| CsvIngest.HeaderRowIndex | app.py:71-94 | The header is the first line that mentions section, question or answer and has at least two commas. Failing that, it is the first line with at least two commas. Failing that, it is 0. The result is a valid line index. |
| CsvIngest.NonBlankAfter | app.py:98 | The non-blank lines after the header are empty exactly when no line after the header has a non-whitespace character. |
| CsvIngest.DetectHeaderRow | app.py:56-107 | Whitespace-only content, and only that, raises the "empty" error. "No data after header" is raised exactly when the header index is above 0 and no non-blank line follows it. Otherwise the result is the header index, a valid line number. |
| CsvIngest.MetadataThenHeaderDetected | app.py:75-82 | Metadata lines that do not look like a header are skipped. The header-like line below them is chosen. |
| CsvIngest.MetadataThenHeaderAccepted | app.py:56-101 | A file of metadata, a header line and at least one non-blank data line is accepted, with the header index equal to the number of metadata lines. |
| CsvIngest.TwoColumnHeaderAfterMetadataNotDetected | app.py:78-94 | A `question,answer` header with one comma below a comma-free metadata line is not detected. When no data line has two commas either, no line of the file has two commas, and line 0 is used as the header. |
| CsvIngest.ReadFirst | app.py:123-200 | The candidates are tried in order. The first table with columns is returned. `EmptyDataError` stops the search with the "empty" error. A raised error is remembered and the search goes on. When no candidate decides, the sniffing read is used if it gives a table with columns; otherwise the result is the "unparseable" error, which names the last exception raised, or the one handed in when none was. |
| CsvIngest.ParseCsv | app.py:49-200 | Whitespace-only content fails with "empty", and "no data after header" is raised exactly when detection raises it. Otherwise the candidate loop runs with the detected header row as the number of skipped lines. |
| QaPairs.ExtractQaPairs | app.py:600-615 | Every pair comes from an answered row: its stripped question and answer, and, assuming the table has the default 0-based index, its row position plus one as id. Ids strictly increase. A row is answered exactly when some pair carries its number. |
| QaPairs.ExtractQaPairsCount | app.py:604-613 | There are exactly as many pairs as answered rows. |
| QaPairs.BakeryExample | app.py:600-615 | Two answered rows give the pairs 1 and 2 with their texts unchanged. |
| QaPairs.Shown | app.py:627 | At most 50 pairs are shown: all of them when there are at most 50, otherwise exactly the first 50. |
| QaPairs.QaText | app.py:625-631 | No pairs give the empty text. Otherwise the text begins with the first pair's block. |
| QaPairs.QaTextSnoc | app.py:625-628 | Up to 50 pairs, each further pair adds a blank line and its block `Question {id}: {q}\nAnswer: {a}`. A single pair gives just its block. |
| QaPairs.QaTextTruncates | app.py:625-631 | Beyond 50 pairs, the text is the text of the first 50 followed by the note "... and n-50 more question-answer pairs.". |
| QaPairs.OmittedNoteRoundTrip | app.py:630-631 | The note is "\n\n... and ", then a numeral that reads back as the number of omitted pairs, then " more question-answer pairs.". |
| QaPairs.QaTextContainsShownBlocks | app.py:625-628 | The block of every shown pair occurs in the text. |
| QaPairs.FormatPairIdRoundTrip | app.py:626 | The number after "Question " in a block reads back as the pair's id and is followed by ": ". |
| Sitemap.ToRecord | app.py:218-224 | A record has all four fields stripped. A missing `lastmod`, `changefreq` or `priority` becomes "". |
| Sitemap.Records | app.py:212-225 | There is one record per element that has a `loc`, and every field is stripped. |
| Sitemap.RecordsAppend | app.py:212-225 | Records follow document order: the records of two halves are those of each half, concatenated. |
| Sitemap.RecordsAllLocated | app.py:218-225 | When every element has a `loc`, record k is made from element k. |
| Sitemap.RecordsSkipUnlocated | app.py:218 | An element without a `loc` adds nothing, wherever it stands. |
| Sitemap.CloseAt | app.py:251-252 | The end the lazy group picks is an occurrence of `</loc>`. |
| Sitemap.CloseAtFirst | app.py:251-252 | The lazy group ends at the first `</loc>` and spans no line break. When there is no such end, every `</loc>` has a line break before it. |
| Sitemap.FindLocs | app.py:251-252 | No captured group contains a line break. |
| Sitemap.MatchLoc | app.py:251-252 | For any u that holds no `</loc>` and no line break, `<loc>u</loc>` yields u, and the scan resumes right after it. |
| Sitemap.FindLocsSkip | app.py:251-252 | Text in which no `<loc>` can begin adds no match and does not change the matches after it. |
| Sitemap.LocAcrossLinesIgnored | app.py:251-252 | A `<loc>` whose text runs over a line break yields no match. |
| Sitemap.RegexRecords | app.py:253-259 | The regex tier gives one record per match, in order: record k's url is match k stripped, so it has no line break, and the other fields are "". |
| Sitemap.DocumentLocs | app.py:251-252 | On a sitemap document of the protocol's shape, laid out with any whitespace between the tags, the regex finds the `loc` of every entry, in order. |
| Sitemap.PromptLayoutLocs | app.py:694-704 | On the layout the prompt asks the model for (declaration, `urlset`, one indented `url` block per page with `loc`, `lastmod`, `changefreq` and `priority`), the regex finds every `loc`, in order. |
| Sitemap.Escape | app.py:212-224 | Escaping models no code of the app: it is how text is written into the XML of the reply, the inverse that XmlTextEscape undoes. An escaped text holds no `<`, so an escaped `loc` cannot end the regex's match early. |
| Sitemap.XmlTextEscape | app.py:212-224 | The XML parsers' entity decoding undoes escaping: decoding an escaped text gives the text back. |
| Sitemap.XmlTextPlain | app.py:212-224 | A text without `&` is left unchanged by entity decoding. |
| Sitemap.ParseSitemapXml | app.py:203-261 | The first tier that does not raise decides: the BeautifulSoup records when that parser succeeds, else the ElementTree records, else the regex records. Its count is the number of located elements, or the number of regex matches. Urls are stripped, and the last tier leaves the other fields "". The contents of each tier's records are stated by Records, RecordsAllLocated and RegexRecords, and on protocol-shaped documents by CascadeAgreesOnUrls. |
| Sitemap.CascadeAgreesOnUrls | app.py:203-261 | Whichever tier decides, a protocol-shaped document gives one record per entry, in order. The two XML tiers give the stripped, entity-decoded `loc` and the decoded `lastmod`; the regex tier gives the stripped `loc` as written. |
| Sitemap.CascadeAgreesWithoutEntities | app.py:203-261 | When no `loc` holds `&`, all three tiers give the same urls: one per entry, in order, the stripped `loc`. |
| PathTree.NonEmpty | app.py:564 | Dropping empty pieces keeps only non-empty pieces of the input. |
| PathTree.NonEmptyAppend | app.py:564 | The filter works piece by piece: filtering two concatenated lists concatenates the two results. |
| PathTree.NonEmptyOne | app.py:564 | A single piece is dropped exactly when it is empty. Together with NonEmptyAppend, this fixes the filter on every list. |
| PathTree.Segments | app.py:564 | The segments of a path are non-empty and contain no `/`. |
| PathTree.SegmentsOfPiece | app.py:564 | A text without `/` is one segment, or none when it is empty. |
| PathTree.SegmentsAtSlash | app.py:564 | The segments of `a/b` are the segments of a followed by those of b. With SegmentsOfPiece, this fixes the segments of every path. |
| PathTree.SegmentsTrailingSlash | app.py:564 | A trailing `/` adds no segment: `/x/` has the one segment x. |
| PathTree.SegmentsRelative | app.py:564 | A path without a leading `/` splits the same way: `x/y` gives x and y. |
| PathTree.SegmentsOfJoined | app.py:564 | Splitting "/" followed by the joined segments gives the segments back. |
| PathTree.Lookup | app.py:568 | A name is found at its first position. It is not found exactly when no child has that name. |
| PathTree.Insert | app.py:566-570 | Inserting a path adds at most one top-level entry, and the empty path changes nothing. |
| PathTree.EmptyHasOnlyRoot | app.py:559 | The empty map holds no path except the root. |
| PathTree.InsertHasPath | app.py:566-570 | After inserting p, the paths present are those present before plus every prefix of p. Shared prefixes merge. |
| PathTree.InsertExisting | app.py:567-570 | Inserting a path that is already present leaves the map unchanged. |
| PathTree.InsertIdempotent | app.py:566-570 | Inserting the same path twice is the same as inserting it once. |
| PathTree.InsertNames | app.py:568-569 | The top-level names keep their order. A new first segment is appended at the end. |
| PathTree.InsertLevelNames | app.py:566-570 | The same holds on every level the path reaches: after inserting p, the level at p's first d segments exists, keeps its names in order, and gains segment d at its end when that name was new there. |
| PathTree.InsertWellFormed | app.py:568-569 | Insertion keeps the names of every level pairwise different. |
| PathTree.BuildTree | app.py:561-570 | The folded map has at most one top-level entry per URL. |
| PathTree.BuildTreeWellFormed | app.py:561-570 | The folded map has pairwise different names on every level. |
| PathTree.BuildTreeHasPath | app.py:561-570 | A non-empty segment sequence is in the folded map exactly when it is a prefix of the segments of some URL in the list. |
| PathTree.FoldFourPaths | app.py:561-570 | /x, /x/y, /x/z and /w fold into x holding y and z, followed by w. |
| PathTree.FoldSiblingFolders | app.py:270-288 | /a/x and /b/x fold into two folders, each holding its own x. |
| FolderTree.PrintTree | app.py:576-593 | Every printed line starts with the prefix handed down. No line contains a line break when the names have none. |
| FolderTree.PrintTreeCount | app.py:578-593 | One line is printed per node within the levels the depth cap still allows: seven levels from the top. |
| FolderTree.IndentSnoc | app.py:591-593 | One level deeper, the prefix grows by "    " below a last child and by "│   " below any other. PrintTreeRenders shows that this is the prefix each recursive call receives. |
| FolderTree.PrintTreeRenders | app.py:576-593 | Called with the prefix of a list of ancestors, `print_tree` prints the outline of the map: per node, in order, one block per ancestor ("    " for a last one, "│   " otherwise), its connector, its icon and its name, then its own subtree with itself added to the ancestors. |
| FolderTree.PrintedLineParses | app.py:584-589 | A printed line reads back as its ancestors' last-child flags, its own last-child flag, its icon and its name. |
| FolderTree.PrintTreeParses | app.py:576-593 | The printed lines read back, in order, as the outline of the map. Each node gives its depth, whether it is the last sibling, whether it has children (📁) or not (📄), and its name. |
| FolderTree.FolderTreeRoundTrip | app.py:572-597 | The listing is "📁 /" followed by one line per node within the cap. Reading the listing back gives the outline of the map. |
| FolderTree.CreateFolderTreeRoundTrip | app.py:557-597 | For any list of URL paths without line breaks, the listing has one line more than the folded map has nodes within the cap, and it reads back as the outline of that map. |
| FolderTree.FourPathsListing | app.py:557-597 | /x, /x/y, /x/z and /w give exactly five lines: "📁 /", then x as a non-last folder, y as a non-last page, z as a last page, and w as a last page. |
| VisualTree.Sanitize | app.py:306 | The key keeps its length, and `/` and ` ` are gone. |
| VisualTree.MakeId | app.py:305-306 | Every id is non-empty, so every node below the top has a truthy parent id. |
| VisualTree.NodeIdParts | app.py:306 | Cut at `_`, an id as written has the depth's numeral as its second piece and the position's as its third. |
| VisualTree.NodeIdInjective | app.py:306 | Two ids as written are equal only when depth, position and sanitized key are all equal. |
| VisualTree.TraverseTree | app.py:296-334 | Connection k runs from the parent id of visited node k to its own id. Every visited node lies between the call's depth and depth 4. |
| VisualTree.ChildTraversal | app.py:328-330 | The recursive call made for a folder pairs its connections with its visited nodes, and its nodes lie one level deeper. |
| VisualTree.TraverseLevel | app.py:303-332 | The returned level has one node per remaining child, in order. Each node has the child's name, the call's depth and parent id, is a folder exactly when the child's map is non-empty, and has children only if it is a folder. |
| VisualTree.TraverseTreeLevel | app.py:296-334 | Each call returns one node per child of its map, as in TraverseLevel. |
| VisualTree.RootTraversal | app.py:336 | The call from the root returns one node per top-level entry, in order: each has the entry's name, depth 0 and parent id "root", and is a folder exactly when the entry's map is non-empty. |
| VisualTree.TraverseCount | app.py:296-334 | The visited nodes are exactly the nodes within the levels left before depth 4. |
| VisualTree.RootConnections | app.py:322-336 | From the root there are as many connections as visited nodes, which is the nodes of the first five levels. Each connection comes from its node's parent id, "root" at the top. |
| VisualTree.VisitedIds | app.py:305-320 | Each visited node's id is made from its own position path. |
| VisualTree.AsWrittenIdsCollide | app.py:305-306 | With the ids as written, /a/x and /b/x are two visited nodes with different paths but the same id `node_1_0_x`. Their connections end at that one id. |
| VisualTree.IndexPathIdInjective | app.py:305-306 | Different position paths give different index-path ids. |
| VisualTree.IndexPathIdsUnique | app.py:305-306 | With index-path ids, no two visited nodes share an id. |

## Left out

- The Streamlit UI, session flow and download buttons are left out: they are presentation.
- Byte decoding of the upload is left out. Header detection starts from already-decoded text.
- The outer `except` around header detection is left out. Its only non-"empty" and non-"no data" path is a decoding or I/O error.
- The behaviour of pandas `read_csv` is left out. Each read is a parameter (`read`, `sniffed`) returning a table with a column count, `EmptyDataError`, or another exception. The three call forms tried per pandas version count as one read.
- A table that is not empty but has zero columns is left out: pandas does not produce one. A table without columns is skipped, as the code's first check does.
- QaPairs.ExtractQaPairs: assumes the table has the default 0-based row index, so `idx` is the row's position. The case where pandas makes the first column the index is not modelled: it happens when the first data row has one more field than the header (for example a trailing comma), because `read_csv` (app.py:136-143) is not told `index_col=False`. There the id is the first column's value plus one, and a text label raises a `TypeError`.
- The Gemini client, the API key, model fallbacks, the prompt template around the question/answer block, and `datetime.now()` are left out: they are network, environment and fixed text.
- The BeautifulSoup and ElementTree parsers are parameters: the list of `url` elements each finds, or `None` when it raises. Neither tier can raise after it has started appending, so no partial result is modelled. A BeautifulSoup tag is always truthy, and ElementTree's missing text becomes "". Both tiers therefore share one field rule.
- `urlparse` is left out. The tree functions take the URL's path string.
- The HTML, CSS and JavaScript of the graph view, `render_level` and the `node_info` map are left out: they are presentation, and `node_info` is never read.
- The `all_nodes` dictionary is modelled as the sequence of nodes stored into it (`Traversal.visited`), not as a map. It is never read after being filled.
- Text.Lower: lowers ASCII letters only. The keywords it is compared against are ASCII, and no other character lowers into an ASCII letter of them without also adding a combining mark.
- Sitemap.XmlText: decodes the five predefined entities (`&amp;`, `&lt;`, `&gt;`, `&quot;`, `&apos;`) only. A numeric character reference such as `&#38;` is kept as written, where the XML parsers would decode it. CDATA sections cannot occur: the entries considered hold no `<` in their text.
- Sitemap.PromptLayoutLocs: gives every entry the same `lastmod`, `changefreq` and `priority`, and puts the two-space line before `</urlset>` instead of the `...` placeholder line. DocumentLocs covers any field values and any whitespace layout.
- Text.Strip and QaPairs.FormatPair have no rows of their own: what they mean is stated by Text.StripShape and by QaPairs.FormatPairIdRoundTrip and QaPairs.QaTextSnoc.

## Findings

| source | as written | input that shows it | evidently intended | confidence | as-written member | corrected member |
|---|---|---|---|---|---|---|
| app.py:305-306 | The node id is built from the depth, the position among siblings and the key. The parent does not enter it. | URL paths /a/x and /b/x: both pages get `node_1_0_x`. In the page, `getElementById` then finds only the first, so both connections end at the same element. | A unique id per node, as the comment above the line says | not executed | VisualTree.AsWrittenIdsCollide | VisualTree.IndexPathIdsUnique |
