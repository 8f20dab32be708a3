/** Response assembly: transport chunks are appended to a buffer until the
    adapter's `>` prompt appears; the whole buffer is then one complete
    response and the buffer starts over. A chunk that cannot be decoded as
    text (`nil` from both the ASCII and the UTF-8 conversion) is `None` and
    is dropped. Every revision uses this same rule. */
module Assembler {
  import opened Wrappers

  datatype Fed = Fed(buffer: string, complete: Option<string>)

  /** The text a chunk contributes: none when it could not be decoded. */
  function ChunkText(chunk: Option<string>): string {
    chunk.GetOr("")
  }

  /** One notification's worth of assembly. */
  function Feed(buffer: string, chunk: Option<string>): (r: Fed)
    ensures r.complete.GetOr("") + r.buffer == buffer + ChunkText(chunk)
    ensures r.complete.Some? <==> chunk.Some? && '>' in buffer + chunk.value
    ensures r.complete.Some? ==> r.buffer == ""
    ensures chunk.None? ==> r.buffer == buffer
  {
    match chunk
    case None => Fed(buffer, None)
    case Some(text) =>
      var b := buffer + text;
      if '>' in b then Fed("", Some(b)) else Fed(b, None)
  }

  function Flatten(parts: seq<string>): string {
    if |parts| == 0 then "" else parts[0] + Flatten(parts[1..])
  }

  function ChunkTexts(chunks: seq<Option<string>>): string {
    if |chunks| == 0 then "" else ChunkText(chunks[0]) + ChunkTexts(chunks[1..])
  }

  datatype Assembled = Assembled(buffer: string, responses: seq<string>)

  /** A stream of chunks fed one after another. */
  function FeedAll(buffer: string, chunks: seq<Option<string>>): Assembled
    decreases |chunks|
  {
    if |chunks| == 0 then Assembled(buffer, [])
    else
      var f := Feed(buffer, chunks[0]);
      var rest := FeedAll(f.buffer, chunks[1..]);
      match f.complete
      case Some(resp) => Assembled(rest.buffer, [resp] + rest.responses)
      case None => rest
  }

  lemma FlattenCons(x: string, parts: seq<string>)
    ensures Flatten([x] + parts) == x + Flatten(parts)
  {
    assert ([x] + parts)[1..] == parts;
  }

  /** Feeding a non-empty stream: the first chunk's response, if any, comes
      first, and the rest of the stream starts from the buffer it leaves. */
  lemma FeedAllFirst(buffer: string, chunks: seq<Option<string>>)
    requires |chunks| > 0
    ensures var f := Feed(buffer, chunks[0]);
      var rest := FeedAll(f.buffer, chunks[1..]);
      && FeedAll(buffer, chunks).buffer == rest.buffer
      && Flatten(FeedAll(buffer, chunks).responses) == f.complete.GetOr("") + Flatten(rest.responses)
  {
    var f := Feed(buffer, chunks[0]);
    var rest := FeedAll(f.buffer, chunks[1..]);
    if f.complete.Some? {
      FlattenCons(f.complete.value, rest.responses);
    } else {
      assert f.complete.GetOr("") + Flatten(rest.responses) == Flatten(rest.responses);
    }
  }

  /** Nothing is lost or invented: the complete responses, followed by what
      is still buffered, are exactly the decoded chunk text. */
  lemma {:induction false} FeedAllConserves(buffer: string, chunks: seq<Option<string>>)
    ensures var a := FeedAll(buffer, chunks);
      Flatten(a.responses) + a.buffer == buffer + ChunkTexts(chunks)
    decreases |chunks|
  {
    if |chunks| > 0 {
      var f := Feed(buffer, chunks[0]);
      var rest := FeedAll(f.buffer, chunks[1..]);
      var head, tail := f.complete.GetOr(""), ChunkTexts(chunks[1..]);
      FeedAllConserves(f.buffer, chunks[1..]);
      FeedAllFirst(buffer, chunks);
      Regroup(head, Flatten(rest.responses), rest.buffer, f.buffer, tail, buffer, ChunkText(chunks[0]));
    }
  }

  /** The bookkeeping of one step of `FeedAllConserves`, on plain strings. */
  lemma Regroup(head: string, done: string, left: string, carried: string, tail: string,
                buffer: string, first: string)
    requires done + left == carried + tail
    requires head + carried == buffer + first
    ensures (head + done) + left == buffer + (first + tail)
  {
    calc {
      (head + done) + left;
      head + (done + left);
      head + (carried + tail);
      (head + carried) + tail;
      (buffer + first) + tail;
    }
  }

  /** Every complete response holds a prompt, and a prompt never stays in the
      buffer. */
  lemma {:induction false} FeedAllSplitsAtPrompts(buffer: string, chunks: seq<Option<string>>)
    requires '>' !in buffer
    ensures var a := FeedAll(buffer, chunks);
      forall i :: 0 <= i < |a.responses| ==> '>' in a.responses[i]
    ensures '>' !in FeedAll(buffer, chunks).buffer
    decreases |chunks|
  {
    if |chunks| > 0 {
      var f := Feed(buffer, chunks[0]);
      FeedAllSplitsAtPrompts(f.buffer, chunks[1..]);
    }
  }
}
