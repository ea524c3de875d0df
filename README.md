# Capacities companion: mention extraction, mention graph and export records

This project is a Dafny model of the core of capacities-companion. That
tool reads a Capacities export: a ZIP archive of Markdown documents, each
with a YAML header between `---` delimiters. From it the tool builds:

- a table of object records;
- a directed graph of which object mentions which, with edge weights that
  count the mentions;
- a single Markdown text that concatenates the notes.

The model covers four parts:

- **The mention pattern and `extract_object_mentions`** (`Mentions`).
  - The case-insensitive Markdown-link regex becomes an explicit scanner
    (`LinkAt`, `FindAll`), proved equal to a declarative reading of one
    match (`IsLink`).
  - Each captured target is normalised as the source does: stripped, cut
    before `#` and then before `?`, reduced to its last POSIX path segment,
    kept only when it ends in `.md` in any case, and percent-decoded.
  - `urllib.parse.unquote` is modelled with its UTF-8 replacement decoding
    (`Percent`).
  - Python's `str.strip`, `split(c, 1)[0]`, `find`, `PurePosixPath.name`
    and `Path.stem` are in `Strings`.
  - The loop with its `seen` set is a method proved equal to a
    deduplicating specification.
- **`build_object_graph`** (`ObjectGraph`).
  - The networkx graph is a class `DiGraph` with two maps: node to
    attribute map, and (source, target) to weight.
  - The two passes are methods with loop invariants, proved to produce
    exactly `Nodes(rows, …)` and `Edges(rows)`.
  - Lemmas characterise nodes, attributes, edges and weights.
- **Record construction in `parse_capacities_export_zip`**
  (`CapacitiesExport`).
  - The `split("---", 2)` shape, the field derivations and fallbacks, the
    exception on a header that is not a mapping, and the dating pass.
- **The block loop of `export_notes_to_markdown`** (`CapacitiesExport`),
  over notes that are already in order.

`Pipeline` connects the two sides: the graph built from parsed records has
one node per Markdown document, keyed by its base name.

The foreign libraries become function parameters:

| Library | Parameter | Type |
|---|---|---|
| `yaml.safe_load` | `load` | `string -> Header`; an exception is `Unparsable` |
| `pd.to_datetime` | `toDatetime` | `Value -> Option<Timestamp>`; NaT and a raised error are both `None` |
| `json.dumps` | `dumps` | `Value -> string` |
| `str()` of a non-string title | `show` | `Value -> string` |

Behaviour of the code that the model keeps as written:

- **Repeated mentions.** A target linked several times in one text counts
  once, because the extractor deduplicates. Two identical links in a body
  give an edge of weight 1.
- **Repeated file names.** Two rows with the same file name make one node.
  `add_node` updates the existing attribute map key by key, so the last row
  that has an attribute gives its value (`NodeAttributeFromLastRow`). Only
  the lookup table is first-wins, and it is used only for membership.
  Where the documented behaviour and the code differ on these two points,
  the model follows the code.
- **Whitespace and the exclusion check.** The scheme exclusion looks at the
  raw target, before it is stripped. A link written `( https://x/a.md)`
  passes the exclusion and yields `a.md`.
- **Case of the `.md` check.** Archive entries must end in `.md` exactly,
  in lower case. Link targets may end in `.md` in any case.

## Model

| member | source | states |
|---|---|---|
| Mentions.LinkAtIsLink | utils/networks.py:16-19 | At a position, the scanner returns the positions of `]` and `)` exactly when the text there matches the pattern: a non-empty label without `]`, then `(`, a target that does not start with an excluded scheme, non-empty and without `)`, then `)`. |
| Mentions.FindAll | utils/networks.py:16-19 | Every captured target is non-empty, holds no `)`, and does not start with `http://`, `https://`, `mailto:` or `capacities://` in any letter case. |
| Mentions.FindAllTakesLink | utils/networks.py:16-19 | A match at the scan position contributes its target, and scanning resumes after its `)` (non-overlapping matches). |
| Mentions.FindAllSkips | utils/networks.py:16-19 | A position where no match starts contributes nothing; scanning moves on one character. |
| Mentions.ExcludedTargetsNeverMatch | utils/networks.py:16-19 | A target starting with an excluded scheme, in any case, is never captured, so it never yields a mention. |
| Mentions.NormalizeMeaning | utils/networks.py:45-58 | A target yields a file name exactly when its stripped, `#`/`?`-cut last path segment ends in `.md` ignoring case. The name is that segment percent-decoded, and the segment contains no `/`. |
| Strings.Strip | utils/networks.py:45 | The result is the infix of the input left when the leading and trailing Python whitespace is removed, and it neither starts nor ends with whitespace. |
| Strings.CutAt | utils/networks.py:50-52 | The result is the prefix before the first delimiter. It is shorter than the input exactly when the delimiter occurs, and then the delimiter follows it. |
| Strings.PathName | utils/networks.py:55 | The base name contains no `/`, is not `.`, and is no longer than the path. |
| Strings.PathNameIsLastComponent | utils/networks.py:55 | The base name is the last of the pieces of `s.split("/")` that is neither empty nor `.`, or `""` when there is none. |
| Strings.SplitSlashLast | utils/networks.py:55 | Splitting at the last `/` adds the text after it as the last piece. |
| Strings.ComponentsAppendOne | utils/networks.py:55 | Dropping empty and `.` pieces commutes with appending one piece. |
| Strings.MarkdownBaseName | utils/data.py:53 | The base name of an entry name ending in `.md` also ends in `.md`. |
| Strings.MarkdownBaseNameIsLastSegment | utils/data.py:53 | The base name of an entry name ending in `.md` is the text after its last `/`, or the whole name. |
| Strings.Stem | utils/data.py:50 | The stem is a prefix of the name. It is shorter only when a `.` that is neither first nor last follows it, with no later `.`. When the last `.` is neither first nor last, the stem is exactly the text before it. |
| Percent.UnquoteToBytes | utils/networks.py:58 | Unescaping never lengthens a run. Without `%` every character becomes its own code. |
| Percent.DecodeUtf8 | utils/networks.py:58 | UTF-8 decoding with replacement yields at most one character per byte. |
| Percent.UnquoteEscapedByte | utils/networks.py:58 | A `%` followed by the two hex digits of a byte unescapes to that byte, and the rest is unescaped independently. |
| Percent.UnquoteEscaped | utils/networks.py:58 | Unescaping the `%XX` spelling of any byte string gives the byte string back. |
| Percent.DecodeEncoded | utils/networks.py:58 | Decoding the UTF-8 encoding of any string, by an encoder defined separately, gives the string back. |
| Percent.DecodeEncodedChar | utils/networks.py:58 | The UTF-8 encoding of one character decodes to that character, and the bytes after it decode independently. |
| Percent.StrayByteIsReplaced | utils/networks.py:58 | A byte that cannot start a UTF-8 sequence decodes to one U+FFFD, and decoding goes on at the next byte. |
| Percent.DecodeAscii | utils/networks.py:58 | ASCII bytes decode one character per byte, each to its own code. |
| Percent.Unquote | utils/networks.py:58 | Decoding never lengthens the name. |
| Percent.UnquoteWithoutPercent | utils/networks.py:58 | The general decoding loop maps a string without `%` to itself, agreeing with unquote's shortcut. |
| Mentions.FilterMapElements | utils/networks.py:44-58 | A name is among the normalised targets exactly when some matched target normalises to it. |
| Mentions.DedupElements | utils/networks.py:60-62 | Deduplication keeps exactly the elements of its input. |
| Mentions.DedupNoDuplicates | utils/networks.py:60-62 | The deduplicated list has no repeated element. |
| Mentions.DedupFirstOccurrenceOrder | utils/networks.py:60-62 | The deduplicated elements stand in the order of their first occurrences in the input. |
| Mentions.ExtractObjectMentions | utils/networks.py:22-64 | The loop with its `seen` set returns `[]` for empty text, and otherwise the deduplicated normalised targets of the matches. |
| Mentions.MentionsNoDuplicates | utils/networks.py:41-62 | No file name is returned twice. |
| Mentions.MentionsInFirstOccurrenceOrder | utils/networks.py:44-62 | Mentions are ordered by their first appearance among the normalised link targets. |
| Mentions.MentionProvenance | utils/networks.py:38-62 | A name is returned exactly when the text is non-empty and some captured target has a last segment ending in `.md` whose percent-decoding is that name. |
| ObjectGraph.NodeAttrs | utils/networks.py:106-129 | Only the keys title, object_type, properties and date occur. Title, type and properties are present exactly when not None, a mapping stored as its JSON text when normalising. The date is present exactly when it parsed, as its ISO text. |
| ObjectGraph.AttrsAreScalar | utils/networks.py:106-129 | A row's attributes never hold None. With normalisation on, they hold no mapping. |
| ObjectGraph.DiGraph.constructor | utils/networks.py:90 | A new graph has no nodes and no edges. |
| ObjectGraph.DiGraph.AddNode | utils/networks.py:131 | A new node gets the attributes. An existing node's attribute map is updated key by key, the new values winning. Edges are unchanged. |
| ObjectGraph.DiGraph.AddEdge | utils/networks.py:161 | Missing endpoints are added without attributes, existing nodes keep theirs, and the edge's weight is set. |
| ObjectGraph.DiGraph.AddWeight | utils/networks.py:159 | The existing edge's weight grows by the given amount. Nodes and other edges are unchanged. |
| ObjectGraph.CountEach | utils/networks.py:150-151 | Adding a list of distinct mentions to a counter raises each of their counts by one and leaves the others. |
| ObjectGraph.CountProperty | utils/networks.py:146-150 | A string-valued property raises the count of each name it mentions by one. Any other value changes nothing. |
| ObjectGraph.CountMentions | utils/networks.py:139-151 | The counter of a row gives every target its mention count: 1 if the text mentions it, plus one per string-valued property that mentions it. Non-string properties and non-mapping properties add nothing. |
| ObjectGraph.AddMentionEdges | utils/networks.py:153-161 | Each counted target that is registered and is not the source adds its count to the edge from the source. Nodes are unchanged and weights stay positive. |
| ObjectGraph.RegisterNodes | utils/networks.py:95-131 | Pass 1 leaves the nodes exactly `Nodes(rows)` and adds no edge. The lookup's keys are exactly the registered names. |
| ObjectGraph.AddMentionsOfRow | utils/networks.py:134-161 | One row of pass 2 adds its mention counts to the accumulated weights, leaving nodes unchanged and weights positive. |
| ObjectGraph.AddMentionsOfRows | utils/networks.py:133-163 | Pass 2 over nodes registered from the same rows leaves the nodes unchanged and the weights exactly `Edges(rows)`. |
| ObjectGraph.BuildObjectGraph | utils/networks.py:70-163 | No rows give an empty graph. Otherwise the nodes are exactly `Nodes(rows)` and the weights exactly `Edges(rows)`. |
| ObjectGraph.NamesAreFileNames | utils/networks.py:98-103 | A name is registered exactly when some row has it as a non-empty string file name. |
| ObjectGraph.NodeKeysAreNames | utils/networks.py:98-131 | The node set is exactly the set of registered names. |
| ObjectGraph.NodeAttributesAreScalar | utils/networks.py:106-129 | No node attribute is None, and with normalisation on none is a mapping. |
| ObjectGraph.NodeAttributeFromLastRow | utils/networks.py:131 | A node's attribute is present exactly when some row with that name has it, and its value comes from the last such row. |
| ObjectGraph.EdgesJoinDistinctNodes | utils/networks.py:153-161 | Both endpoints of every edge are nodes, and no edge is a self-loop. |
| ObjectGraph.EdgeWeightIsMentionTotal | utils/networks.py:135-161 | An edge from s to t exists exactly when t is registered, differs from s, and the rows named s mention it. Its weight is the total of those rows' mention counts. |
| ObjectGraph.WeightIsAdditive | utils/networks.py:135-161 | Weights add up over any split of the rows. |
| ObjectGraph.RowWithoutNameIsIgnored | utils/networks.py:98-137 | A row without a non-empty string file name adds no node and no edge. |
| ObjectGraph.MentionCountBound | utils/networks.py:139-151 | A row's text contributes at most one mention of a target, and each property at most one more. |
| CapacitiesExport.Split3 | utils/data.py:39-41 | There are three parts exactly when the content has two non-overlapping `---` occurrences. The parts joined with `---` give back the content. The first delimiter is the first occurrence, and the second is the first one after it. |
| CapacitiesExport.ExtractRecord | utils/data.py:39-55 | A document yields nothing exactly when it has fewer than three parts. It raises exactly when its header loads as something other than a mapping. Otherwise it yields an undated record. |
| CapacitiesExport.ExtractedFields | utils/data.py:42-55 | The record's file name is the entry's base name and its text the stripped third part. An unparseable header gives empty properties. Title and type come from the header when present (a null title stays null), else the stem and `""`. |
| CapacitiesExport.RecordFileName | utils/data.py:53 | A record's file name is its entry's base name and ends in `.md`. |
| CapacitiesExport.RaisedIsFinal | utils/data.py:37-55 | Once a document has raised, the parse as a whole raises. |
| CapacitiesExport.ParseCapacitiesExport | utils/data.py:25-66 | The two loops produce the records of the `.md` documents in archive order, each with its date, or the exception of the first header that is not a mapping. |
| CapacitiesExport.RaisedIffHeaderNotMapping | utils/data.py:37-55 | The parse raises exactly when some `.md` document has three parts and a header that loads as a non-mapping. |
| CapacitiesExport.RecordsAreTheDocuments | utils/data.py:37-55 | Without an exception, every record comes from a `.md` document that splits into three parts, and every such document gives its record. There are at most as many records as entries. |
| CapacitiesExport.UpperCaseExtensionIsSkipped | utils/data.py:37 | An entry whose name ends in `.MD` is never read. |
| CapacitiesExport.WithDates | utils/data.py:57-64 | The dating pass keeps every record and every field but the date. |
| CapacitiesExport.DatingKeepsRecords | utils/data.py:57-64 | A header without a date, or with a null date, leaves the record undated. Dating never raises and changes nothing else. |
| CapacitiesExport.Block | utils/data.py:96 | A note's block is its title and text plus eleven characters of framing. |
| CapacitiesExport.ExportNotesToMarkdown | utils/data.py:92-98 | The block loop and join give the concatenation of the notes' blocks in the given order. |
| CapacitiesExport.RenderAppend | utils/data.py:92-98 | Rendering a concatenation of note lists gives the concatenation of their renderings. |
| CapacitiesExport.BlockOfEachNote | utils/data.py:92-98 | Each note's block appears right after the blocks of the notes before it and before those after it. |
| CapacitiesExport.RenderLength | utils/data.py:92-98 | The output length is the total title and text length plus eleven per note. |
| Pipeline.RowNamesAreFileNames | utils/networks.py:98-100 | The rows made from records are registered under the records' non-empty file names. |
| Pipeline.GraphNodesAreDocumentNames | utils/data.py:47-55 | Without an exception, the graph of the parsed records has exactly one node per `.md` document, keyed by its base name. |

## Left out

- ZIP reading and UTF-8 decoding of entries (utils/data.py:36-38) are file I/O. The model takes the archive as its (entry name, decoded content) pairs in archive order, so a decoding error is not modelled.
- `yaml.safe_load`, `pd.to_datetime`, `json.dumps` and `str()` are foreign libraries and are function parameters. A YAML mapping is a `map<string, Value>`: key order and non-string keys are not modelled. A `json.dumps` that raises (for example on a date inside properties) is not modelled; the parameter is total.
- `hasattr(date_val, "isoformat")` is always true for a parsed timestamp, so the `str(date_val)` branch (utils/networks.py:123-124) is not modelled. A date is its ISO text.
- pandas DataFrame internals are not modelled: rows are records, and column dtype coercion is ignored. In particular a missing cell does not become NaN, and text content is always a string.
- The iteration order of networkx nodes and edges and of the `Counter` is not modelled. Nodes and edges are maps, and the Counter loops run over key sets, so only the final state is modelled and not insertion order.
- The timezone normalisation and the `sort_values` by date in `export_notes_to_markdown` (utils/data.py:80-90) are library datetime semantics. `ExportNotesToMarkdown` renders notes already in their final order.
- Percent.Unquote: its contract only bounds the length; its meaning is its definition, with `UnquoteWithoutPercent` as the partner property. No round trip with `quote` is stated, because the source never quotes.
- Percent.UnquoteToBytes: its own contract only bounds the length and covers text without `%`; the `%XX` case is stated by `UnquoteEscapedByte` and `UnquoteEscaped`, and a `%` without two hex digits staying as is only by its definition.
- Percent.DecodeUtf8: its own contract only bounds the length; well-formed input is stated by `DecodeEncoded` and a stray byte by `StrayByteIsReplaced`. Which maximal subpart of a truncated or ill-formed sequence becomes one U+FFFD is given by `ValidPrefix` only, not by a separate statement.
- IGNORECASE matching is modelled only for the characters that can match the letters of the excluded schemes: A-Z and the three non-ASCII letters Python folds to `i` or `s`; no letter of those schemes is `k`, so the Kelvin sign is irrelevant.
