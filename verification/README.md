# Weavoor "Weave" handler in Dafny

Weavoor is a small Streamlit app. You paste a video URL and press "Weave". The
app then:

1. extracts the video id from the URL;
2. joins the transcript segments into one text;
3. asks a language model to summarise the first 15000 characters;
4. stores the summary in a vector store and queries its nearest neighbours;
5. draws a star graph with a distinguished `"NEW"` node, joined to every
   neighbour whose distance is strictly below 0.25;
6. offers a Markdown note for download.

This project models the deterministic parts of that handler as pure Dafny
functions and proves what they compute. The summary, the transcript segments
and the query results are parameters.

Modules, one file each:

- `Wrappers` (`wrappers.dfy`): `Option` and `Result`.
- `Seqs` (`seqs.dfy`): distinctness, and deduplication that keeps first
  occurrences. Deduplication is how the insertion-ordered node list of a
  networkx graph grows.
- `Strings` (`strings.dfy`): Python's `sep in s`, `s.find(sep)`,
  `s.split(sep)`, `s.split(sep)[0]`, `s.split(sep)[-1]` and `sep.join(parts)`.
  `split` is the left-to-right, non-overlapping scan Python performs.
- `VideoIds` (`video_id.dfy`): the three prioritised branches of the id
  extraction.
- `Transcripts` (`transcript.dfy`): the space-joined transcript and the prompt
  built from its first 15000 characters.
- `Neighbours` (`neighbours.dfy`): the scan over the query results.
  - Threshold filter.
  - 100-character preview plus `"..."`.
  - The `IndexError` raised when `ids` or `documents` is shorter than
    `distances`.
- `Graphs` (`graph.dfy`): the part of networkx's undirected `Graph` that is
  used. `add_node` merges attributes into an existing node. `add_edge` creates
  missing endpoints and never duplicates an edge.
- `StarGraph` (`star_graph.dfy`): the loop that builds the graph. It is proved
  equal to a declarative description, `Star`. Shape, node count, edge count and
  titles are derived from that description.
- `Export` (`export.dfy`): the Markdown note and its file name, each with an
  inverse.
- `Weaving` (`weave.dfy`): one press of the button. It covers the empty-URL
  guard and every step above.

## Model

| member | source | states |
|---|---|---|
| VideoIds.VideoId | app.py:23-28 | The id is always a contiguous piece of the URL. If the URL contains `v=`, that branch wins: the id starts right after the last `v=`, holds no `&`, and ends at the first `&` or at the end of the URL. Otherwise, if the URL contains `youtu.be/`, the same holds with `?` as the stop character. Otherwise the id is the suffix after the last `/`, holds no `/`, and is the whole URL when there is no `/`. |
| VideoIds.CutAt | app.py:24 | `url.split(marker)[-1].split(stop)[0]` is the text after the last occurrence of the marker, up to the first stop character or the end of the URL. |
| VideoIds.LastSegment | app.py:28 | `url.split("/")[-1]` holds no `/`, occurs in the URL, and is preceded by `/` unless it is the whole URL. |
| Strings.Split | app.py:24 | A split has at least one piece, and exactly one when the separator does not occur. |
| Strings.SplitPiecesFree | app.py:24 | No piece of a split contains the separator. |
| Strings.BeforeFirst | app.py:24 | `split(sep)[0]` is a prefix without the separator. It ends where the first occurrence starts, or is the whole text when there is none. |
| Strings.AfterLast | app.py:24 | `split(sep)[-1]` is a suffix without the separator. It starts right after an occurrence, or is the whole text when there is none. |
| Strings.AfterLastFollowsLastOccurrence | app.py:24-26 | For a separator that cannot overlap itself, such as `v=` and `youtu.be/`, the cut before `split(sep)[-1]` is the last occurrence of the separator. |
| Strings.JoinSplit | app.py:24 | `sep.join(s.split(sep)) == s` for every text and every non-empty separator. |
| Strings.SplitJoin | app.py:33 | Splitting a one-character-separator join gives back the parts, provided no part contains the separator. |
| Transcripts.TranscriptText | app.py:33 | No segments give the empty transcript, and a single segment gives its text unchanged. |
| Transcripts.SegmentInTranscript | app.py:33 | Each segment's text appears verbatim at its offset in the transcript. The first segment starts at offset 0. Every other segment starts right after the previous one and a single space. The last segment ends the transcript, and no segments give the empty transcript. |
| Transcripts.TranscriptSplitsBack | app.py:33 | When no segment text holds a space, splitting the transcript on spaces gives back the segment texts in order. |
| Transcripts.SummaryInput | app.py:38 | `text[:15000]` is a prefix of the transcript of length `min(len(text), 15000)`. |
| Transcripts.SummaryPrompt | app.py:38 | The prompt is the fixed instruction followed by exactly that prefix. |
| Transcripts.PromptDependsOnBudgetPrefix | app.py:38 | Two transcripts with the same first 15000 characters give the same prompt. |
| Transcripts.SegmentWithinBudgetIsSent | app.py:33-38 | A segment that ends within the first 15000 characters reaches the summariser intact. |
| Neighbours.Preview | app.py:58 | A neighbour's title is the first `min(len(doc), 100)` characters of its document followed by `...`, so it is at most 103 characters long. A document of at most 100 characters can be read back from its preview. |
| Neighbours.QualifyingFrom | app.py:55-56 | The scanned indices are exactly those whose distance is strictly below 0.25, in increasing order. |
| Neighbours.SelectFrom | app.py:55-61 | The scan succeeds exactly when every qualifying index has an id and a document. It then yields one neighbour per qualifying index, in index order. Otherwise it fails at the least qualifying index that is out of range, which is Python's `IndexError`. |
| Neighbours.ConnectionCount | app.py:54-61 | The connection count is the number of results whose distance is strictly below 0.25, so a result at exactly 0.25 is not counted. |
| Graphs.AddNode | app.py:53 | `add_node` keeps the graph well formed. A new node is appended with its dictionary. An existing node keeps its place and has the given keys merged in. Every other node and every edge is unchanged. |
| Graphs.AddEdge | app.py:60 | `add_edge` keeps the graph well formed and joins the two nodes. Missing endpoints are appended to the node list, first `u` then `v`, each with an empty dictionary. Existing nodes keep their dictionaries. The edge is added exactly when the nodes were not already joined. |
| StarGraph.Flatten | app.py:53 | `summary.replace("\n", " ")` keeps the length, turns every line break into a space, keeps every other character, leaves no line break, and changes the summary exactly when it has one. |
| StarGraph.StarStep | app.py:57-60 | One loop pass takes the star of the earlier connections to the star of all of them. |
| StarGraph.BuildIsStar | app.py:52-61 | The graph the loop builds equals the declarative star. Nodes are `"NEW"` followed by each distinct connection id in order of first appearance. Each node's dictionary holds the last title it was given. There is one spoke per distinct id. |
| StarGraph.BuildValid | app.py:52-61 | The loop keeps the graph well formed. |
| StarGraph.StarNodes | app.py:53-59 | `"NEW"` is the first node, and the other nodes are exactly the connection ids. |
| StarGraph.StarEdges | app.py:60 | Every edge starts at `"NEW"`, so no edge joins two neighbours, and `"NEW"` is joined to exactly the connection ids. |
| StarGraph.EdgeCount | app.py:55-61 | There is one edge per distinct connection id. The edge count never exceeds the connection count, and equals it exactly when no id repeats. |
| StarGraph.NodeCount | app.py:53-61 | There is one node per distinct id among `"NEW"` and the connection ids. The graph has one node more than there are connections exactly when the ids are distinct and none is `"NEW"`. |
| StarGraph.NewNodeAttrs | app.py:53 | `"NEW"` is always present and keeps its green colour and size 30. When no connection is itself named `"NEW"`, its title is the flattened summary. |
| StarGraph.NeighbourAttrs | app.py:57-59 | A connection's node carries the title of the last connection with that id. It has no colour or size unless it is `"NEW"`. |
| Export.ParseNoteOfNote | app.py:71 | A note built from a one-line URL and a summary reads back as exactly that URL and summary. |
| Export.NoteOfParseNote | app.py:71 | Whatever reads back as a note is exactly the note of what it reads back as. |
| Export.FileName | app.py:72 | The download name is the video id followed by `.md`: its Markdown stem gives back exactly the video id. |
| Weaving.Weave | app.py:17-72 | An empty URL fails with "Please paste a URL!". Otherwise the run succeeds exactly when the result scan stays in range. On success the result is the composition of the steps: the id is `VideoId(url)`, the prompt is built from the joined transcript, the graph is the one the loop builds from the summary and the selected neighbours, the count is the number of selected neighbours, the note is `Note(url, summary)`, and the file name is `FileName` of the id. It also states what those steps give: the count is the number of results below 0.25, edges never exceed connections, nodes never exceed connections plus one, every edge starts at `"NEW"`, the id occurs in the URL, the file name's stem is the id, and a one-line URL reads back from the note. |

Two consequences of networkx's behaviour shape the graph contracts:

- **Repeated ids.** networkx merges a repeated id into one node and one edge.
  A neighbour named `"NEW"` lands on `"NEW"` itself as a self-loop.
  `EdgeCount` and `NodeCount` therefore state equality with the connection
  count only under distinct ids (for nodes, also no id equal to `"NEW"`), and
  otherwise an upper bound.
- **Title of `"NEW"`.** A neighbour named `"NEW"` overwrites the summary title
  of the `"NEW"` node; its colour and size survive. `NewNodeAttrs` states
  this.

## Left out

- The Streamlit page, including the title, input box, button, spinners,
  messages and download widget (app.py:10-16, 41-42, 68-69, 72 as a widget).
  These are presentation only. The success message's count is the
  `connections` field of the result.
- The transcript fetch (app.py:32) and its exception handlers (app.py:74-80).
  These are a network call into an external library. The segments are a
  parameter, and only their `text` field is used. The generic handler is
  modelled only for the `IndexError` of the result scan.
- The language-model call (app.py:36-40) and the embedding function
  (app.py:45). These are remote calls. The model builds the prompt and takes
  the summary as a parameter.
- The vector store's client, `add` and `query` (app.py:46-51). This is an
  external store with on-disk persistence. The first row of the query answer
  (`results[...][0]`) is a parameter. Distances are computed by the store, so
  only their comparison with 0.25 is modelled, over `real`. Floating-point
  rounding is not modelled.
- Graph rendering and the `graph.html` file write and read (app.py:63-66, 69).
  These are a library call and file I/O. The graph is handed over as nodes,
  attribute dictionaries and edges.
- The order in which networkx reports the edges of a node is not modelled.
  Edges are kept in insertion order, each with the endpoints `add_edge` was
  given.
- Export.Note: its contract states only the length. The exact text is its
  definition, and the two read-back lemmas state what it means.
