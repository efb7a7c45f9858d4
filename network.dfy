/** The HTTP side of the launcher: what each URL answers, and the log of requests made. */
module Network {
  import opened Wrappers
  import opened Numeric

  /** The answer to a GET: no connection, or a response whose body arrives in chunks and may fail part-way. */
  datatype Reply =
    | Unreachable
    | Response(status: int, contentLength: int, chunks: seq<seq<byte>>, bodyFails: bool)

  /** The bytes of a body delivered in chunks. */
  function Concat(chunks: seq<seq<byte>>): (r: seq<byte>)
    ensures chunks == [] ==> r == []
  {
    if chunks == [] then [] else Concat(chunks[..|chunks| - 1]) + chunks[|chunks| - 1]
  }

  lemma ConcatStep(chunks: seq<seq<byte>>, i: nat)
    requires i < |chunks|
    ensures Concat(chunks[..i + 1]) == Concat(chunks[..i]) + chunks[i]
  {
    assert chunks[..i + 1][..i] == chunks[..i];
  }

  /** io.ReadAll of a response body. */
  function ReadAll(reply: Reply): (r: Option<seq<byte>>)
    requires reply.Response?
    ensures r.Some? <==> !reply.bodyFails
    ensures r.Some? ==> r.value == Concat(reply.chunks)
  {
    if reply.bodyFails then None else Some(Concat(reply.chunks))
  }

  class Network {
    /** The URLs requested so far, in order. */
    var requested: seq<string>
    const serve: string -> Reply

    constructor (answers: string -> Reply)
      ensures requested == [] && serve == answers
    {
      requested, serve := [], answers;
    }

    method Get(url: string) returns (reply: Reply)
      modifies this
      ensures reply == serve(url) && requested == old(requested) + [url]
    {
      reply := serve(url);
      requested := requested + [url];
    }
  }
}
