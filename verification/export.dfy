/** The downloadable Markdown note and its file name. */
module Export {
  import opened Wrappers
  import opened Strings

  /** What follows the summary: a blank line and the embedded graph page. */
  const Trailer := "\n\n![[graph.html]]"
  const Extension := ".md"

  /** `f"# {url}\n\n{summary}\n\n![[graph.html]]"`. */
  function Note(url: string, summary: string): (note: string)
    ensures |note| == 2 + |url| + 2 + |summary| + |Trailer|
  {
    "# " + url + "\n\n" + summary + Trailer
  }

  /** Reads a note back: the heading line after "# ", and the text between the
      blank line under it and the trailer. */
  function ParseNote(note: string): Option<(string, string)>
  {
    if |note| < 2 + |Trailer| || note[..2] != "# " || note[|note| - |Trailer|..] != Trailer then None
    else
      var body := note[2..|note| - |Trailer|];
      match Find(body, "\n")
      case None => None
      case Some(i) =>
        if i + 2 <= |body| && body[i..i + 2] == "\n\n" then Some((body[..i], body[i + 2..]))
        else None
  }

  /** A note made from a one-line URL reads back as that URL and summary. */
  lemma ParseNoteOfNote(url: string, summary: string)
    requires '\n' !in url
    ensures ParseNote(Note(url, summary)) == Some((url, summary))
  {
    var note := Note(url, summary);
    assert note[..2] == "# ";
    assert note[|note| - |Trailer|..] == Trailer;
    var body := note[2..|note| - |Trailer|];
    assert body == url + "\n\n" + summary;
    assert OccursAt(body, "\n", |url|);
    forall j | j < |url|
      ensures !OccursAt(body, "\n", j)
    {
      if 0 <= j {
        assert body[j..j + 1][0] == body[j] == url[j];
      }
    }
    assert Find(body, "\n") == Some(|url|);
    assert body[|url|..|url| + 2] == "\n\n";
    assert body[..|url|] == url;
    assert body[|url| + 2..] == summary;
  }

  /** Whatever reads as a note is exactly the note of what it reads as, and its
      URL is one line. */
  lemma NoteOfParseNote(note: string, url: string, summary: string)
    requires ParseNote(note) == Some((url, summary))
    ensures '\n' !in url
    ensures Note(url, summary) == note
  {
    var body := ParsedShape(note, url, summary);
    FirstLineFree(body, url, "\n\n" + summary);
    assert "# " + body + Trailer == "# " + url + "\n\n" + summary + Trailer;
  }

  /** A note that parses is the heading marker, a body made of the URL, a
      blank line and the summary, and the trailer. */
  lemma ParsedShape(note: string, url: string, summary: string) returns (body: string)
    requires ParseNote(note) == Some((url, summary))
    ensures note == "# " + body + Trailer
    ensures body == url + "\n\n" + summary
    ensures Find(body, "\n") == Some(|url|)
  {
    assert |note| >= 2 + |Trailer| && note[..2] == "# " && note[|note| - |Trailer|..] == Trailer;
    body := note[2..|note| - |Trailer|];
    assert note == note[..2] + body + note[|note| - |Trailer|..];
    assert Find(body, "\n").Some?;
    var i := Find(body, "\n").value;
    assert i + 2 <= |body| && body[i..i + 2] == "\n\n";
    assert url == body[..i] && summary == body[i + 2..];
    assert body == body[..i] + body[i..i + 2] + body[i + 2..];
  }

  /** The text before the first line break holds no line break. */
  lemma FirstLineFree(body: string, line: string, rest: string)
    requires body == line + rest && Find(body, "\n") == Some(|line|)
    ensures '\n' !in line
  {
    forall j | 0 <= j < |line|
      ensures line[j] != '\n'
    {
      assert !OccursAt(body, "\n", j);
      assert body[j..j + 1] == [line[j]];
    }
  }

  /** `f"{video_id}.md"`: a Markdown file name whose stem is the video id. */
  function FileName(videoId: string): (name: string)
    ensures |name| == |videoId| + |Extension|
    ensures Stem(name) == Some(videoId)
  {
    var name := videoId + Extension;
    assert name[|videoId|..] == Extension && name[..|videoId|] == videoId;
    name
  }

  /** The stem of a Markdown file name: a name has one exactly when it ends in
      ".md", and then it is the stem followed by ".md". */
  function Stem(name: string): (stem: Option<string>)
    ensures stem.Some? <==> |name| >= |Extension| && name[|name| - |Extension|..] == Extension
    ensures stem.Some? ==> name == stem.value + Extension
  {
    if |name| >= |Extension| && name[|name| - |Extension|..] == Extension
    then Some(name[..|name| - |Extension|])
    else None
  }
}
