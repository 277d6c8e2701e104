/** One press of "Weave": from the pasted URL, the transcript segments, the
    summary the language model returned and the vector store's answer to the
    nearest-neighbour query, to what the page shows and offers for download.
    The transcript fetch, the model call and the store are outside the model;
    their results are the parameters. */
module Weaving {
  import opened Wrappers
  import opened Seqs
  import opened Strings
  import opened VideoIds
  import opened Transcripts
  import opened Neighbours
  import opened Graphs
  import opened StarGraph
  import opened Export

  datatype WeaveError =
    | EmptyUrl                          // "Please paste a URL!"
    | ResultIndexOutOfRange(index: nat) // an IndexError, reported as an unexpected error

  datatype Woven = Woven(
    videoId: string,
    prompt: string,      // the message sent to the language model
    graph: Graph,        // the graph handed to the renderer
    connections: nat,    // the count in "Found {connections} connections"
    note: string,        // the downloadable note
    fileName: string)    // its file name

  function Weave(url: string, segments: seq<Segment>, summary: string, results: QueryResult)
    : (r: Result<Woven, WeaveError>)
    ensures url == "" <==> r == Failure(EmptyUrl)
    ensures url != "" ==>
      (r.Success? <==> forall j :: j in Qualifying(results.distances) ==> InRange(results, j))
    // the run is the composition of the modelled steps
    ensures r.Success? ==>
      && Select(results).Success?
      && r.value.videoId == VideoId(url)
      && r.value.prompt == SummaryPrompt(TranscriptText(segments))
      && r.value.graph == Build(summary, Select(results).value)
      && r.value.connections == |Select(results).value|
      && r.value.note == Note(url, summary)
      && r.value.fileName == FileName(r.value.videoId)
    // and what those steps promise
    ensures r.Success? ==>
      && r.value.connections == |set j | 0 <= j < |results.distances| && results.distances[j] < Threshold|
      && |r.value.graph.edges| <= r.value.connections
      && |r.value.graph.nodes| <= r.value.connections + 1
      && (forall e :: e in r.value.graph.edges ==> e.u == NewNode)
      && Contains(url, r.value.videoId)
      && Stem(r.value.fileName) == Some(r.value.videoId)
      && r.value.prompt == Instruction + TranscriptText(segments)[..Min(|TranscriptText(segments)|, SummaryCharBudget)]
    ensures r.Success? && '\n' !in url ==> ParseNote(r.value.note) == Some((url, summary))
  {
    if url == "" then Failure(EmptyUrl)
    else
      var videoId := VideoId(url);
      var prompt := SummaryPrompt(TranscriptText(segments));
      match Select(results)
      case Failure(IndexOutOfRange(i)) => Failure(ResultIndexOutOfRange(i))
      case Success(ns) =>
        ConnectionCount(results);
        EdgeCount(summary, ns);
        NodeCount(summary, ns);
        StarEdges(summary, ns);
        assert '\n' !in url ==> ParseNote(Note(url, summary)) == Some((url, summary)) by {
          if '\n' !in url {
            ParseNoteOfNote(url, summary);
          }
        }
        Success(Woven(videoId, prompt, Build(summary, ns), |ns|, Note(url, summary), FileName(videoId)))
  }
}
