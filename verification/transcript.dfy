/** The transcript text (the segment texts joined by single spaces) and the
    prompt built from its first 15000 characters. */
module Transcripts {
  import opened Strings
  import opened Seqs

  /** One caption entry as the transcript provider returns it. Only `text`
      is used; the timings are carried along. */
  datatype Segment = Segment(text: string, start: real, duration: real)

  /** Number of transcript characters sent for summarisation. */
  const SummaryCharBudget: nat := 15000

  /** The instruction placed before the transcript excerpt. */
  const Instruction := "Summarize in 5 short bullets:\n\n"

  function Texts(segments: seq<Segment>): (texts: seq<string>)
    ensures |texts| == |segments|
    ensures forall k :: 0 <= k < |segments| ==> texts[k] == segments[k].text
  {
    seq(|segments|, k requires 0 <= k < |segments| => segments[k].text)
  }

  /** `" ".join(entry['text'] for entry in segments)`. */
  function TranscriptText(segments: seq<Segment>): (text: string)
    ensures |segments| == 0 ==> text == ""
    ensures |segments| == 1 ==> text == segments[0].text
  {
    Join(Texts(segments), " ")
  }

  /** Where the `k`-th part starts in `Join(parts, sep)`. */
  function Offset(parts: seq<string>, sep: string, k: nat): nat
    requires k <= |parts|
  {
    if k == 0 then 0 else |parts[0]| + |sep| + Offset(parts[1..], sep, k - 1)
  }

  /** Consecutive offsets are one part and one separator apart. */
  lemma {:induction false} OffsetStep(parts: seq<string>, sep: string, k: nat)
    requires k < |parts|
    ensures Offset(parts, sep, k + 1) == Offset(parts, sep, k) + |parts[k]| + |sep|
  {
    if k > 0 {
      OffsetStep(parts[1..], sep, k - 1);
      assert parts[1..][k - 1] == parts[k];
    }
  }

  lemma ShiftSlice(s: string, x: string, t: string, a: nat, b: nat)
    requires s == x + t && a <= b <= |t|
    ensures s[|x| + a..|x| + b] == t[a..b]
  {
    assert s[|x|..] == t;
    assert s[|x| + a..|x| + b] == s[|x|..][a..b];
  }

  /** Part `k` of a join sits at its offset, and the join ends with the last part. */
  lemma {:induction false} JoinPart(parts: seq<string>, sep: string, k: nat)
    requires k < |parts|
    ensures var s, o := Join(parts, sep), Offset(parts, sep, k);
      o + |parts[k]| <= |s| &&
      s[o..o + |parts[k]|] == parts[k] &&
      (k + 1 == |parts| ==> o + |parts[k]| == |s|)
  {
    var s := Join(parts, sep);
    if |parts| == 1 {
      assert s == parts[0];
      assert s[0..|parts[0]|] == s;
    } else {
      var t := Join(parts[1..], sep);
      var x := parts[0] + sep;
      assert s == x + t;
      if k == 0 {
        assert s[0..|parts[0]|] == parts[0];
      } else {
        var o' := Offset(parts[1..], sep, k - 1);
        JoinPart(parts[1..], sep, k - 1);
        assert parts[1..][k - 1] == parts[k];
        assert Offset(parts, sep, k) == |x| + o';
        ShiftSlice(s, x, t, o', o' + |parts[k]|);
      }
    }
  }

  /** Between part `k` and part `k + 1` of a join stands exactly one separator. */
  lemma {:induction false} JoinSeparator(parts: seq<string>, sep: string, k: nat)
    requires k + 1 < |parts|
    ensures var s, e := Join(parts, sep), Offset(parts, sep, k) + |parts[k]|;
      e + |sep| <= |s| && s[e..e + |sep|] == sep
  {
    var t := Join(parts[1..], sep);
    var x := parts[0] + sep;
    assert Join(parts, sep) == x + t;
    if k > 0 {
      JoinSeparator(parts[1..], sep, k - 1);
      var e' := Offset(parts[1..], sep, k - 1) + |parts[k]|;
      assert parts[1..][k - 1] == parts[k];
      ShiftSlice(Join(parts, sep), x, t, e', e' + |sep|);
    } else {
      assert Join(parts, sep) == parts[0] + sep + t;
      assert Join(parts, sep)[|parts[0]|..|parts[0]| + |sep|] == sep;
    }
  }

  /** Segment `k`'s text appears verbatim at its offset in the transcript: the
      first segment at the start, each next one after a single space, and the
      last one ending the transcript. */
  lemma {:induction false} SegmentInTranscript(segments: seq<Segment>, k: nat)
    requires k < |segments|
    ensures var s, o, t := TranscriptText(segments), Offset(Texts(segments), " ", k), segments[k].text;
      o + |t| <= |s| && s[o..o + |t|] == t &&
      (k == 0 ==> o == 0) &&
      (k + 1 < |segments| ==>
        o + |t| < |s| && s[o + |t|] == ' ' && Offset(Texts(segments), " ", k + 1) == o + |t| + 1) &&
      (k + 1 == |segments| ==> o + |t| == |s|)
  {
    var texts := Texts(segments);
    JoinPart(texts, " ", k);
    if k + 1 < |segments| {
      OffsetStep(texts, " ", k);
    }
    var s, o, t := TranscriptText(segments), Offset(texts, " ", k), segments[k].text;
    if k + 1 < |segments| {
      JoinSeparator(texts, " ", k);
      assert s[o + |t|..o + |t| + 1] == " ";
    }
  }

  /** When no segment holds a space, splitting the transcript on spaces gives
      back the segment texts. */
  lemma {:induction false} TranscriptSplitsBack(segments: seq<Segment>)
    requires |segments| >= 1
    requires forall k :: 0 <= k < |segments| ==> ' ' !in segments[k].text
    ensures Split(TranscriptText(segments), " ") == Texts(segments)
  {
    SplitJoin(Texts(segments), ' ');
  }

  /** `text[:15000]`: the part of the transcript the summariser sees. */
  function SummaryInput(text: string): (r: string)
    ensures |r| == Min(|text|, SummaryCharBudget)
    ensures r == text[..|r|]
  {
    text[..Min(|text|, SummaryCharBudget)]
  }

  /** The chat message sent for summarisation. */
  function SummaryPrompt(text: string): (prompt: string)
    ensures |prompt| == |Instruction| + Min(|text|, SummaryCharBudget)
    ensures prompt[..|Instruction|] == Instruction
    ensures prompt[|Instruction|..] == text[..|prompt| - |Instruction|]
  {
    Instruction + SummaryInput(text)
  }

  /** The prompt depends on the first 15000 characters of the transcript only. */
  lemma PromptDependsOnBudgetPrefix(a: string, b: string)
    requires a[..Min(|a|, SummaryCharBudget)] == b[..Min(|b|, SummaryCharBudget)]
    ensures SummaryPrompt(a) == SummaryPrompt(b)
  {
  }

  /** A segment that ends within the budget reaches the summariser intact. */
  lemma {:induction false} SegmentWithinBudgetIsSent(segments: seq<Segment>, k: nat)
    requires k < |segments|
    requires Offset(Texts(segments), " ", k) + |segments[k].text| <= SummaryCharBudget
    ensures var o, t := Offset(Texts(segments), " ", k), segments[k].text;
      o + |t| <= |SummaryInput(TranscriptText(segments))| &&
      SummaryInput(TranscriptText(segments))[o..o + |t|] == t
  {
    SegmentInTranscript(segments, k);
  }
}
