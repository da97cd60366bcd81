/**
  How the chunked-CRC harness feeds a document: `parse_chunk` in both of its modes
  and the chunk loop of `parse_document`, over the parser of NativeParser.dfy.
 */
module ChunkedFeed {
  import opened Core
  import M = ShellModel
  import ShellRuns
  import E = ShellEquivalence
  import O = ShellOutcomes
  import T = ShellTheorems
  import opened NativeParser

  /** The calls a document is divided into: `size` bytes each, the last one final. */
  function ChunksOf(document: seq<byte>, size: nat): (calls: seq<M.Call>)
    requires 0 < size
    ensures calls != []
    decreases |document|
  {
    if |document| <= size then [M.Call(document, true)]
    else [M.Call(document[..size], false)] + ChunksOf(document[size..], size)
  }

  /** The division loses nothing and keeps the order. */
  lemma {:induction false} ChunksCover(document: seq<byte>, size: nat)
    requires 0 < size
    ensures M.Bytes(ChunksOf(document, size)) == document
    decreases |document|
  {
    hide M.Bytes;
    if |document| <= size {
      BytesOne(M.Call(document, true));
    } else {
      ChunksCover(document[size..], size);
      BytesCons(M.Call(document[..size], false), ChunksOf(document[size..], size));
      assert document == document[..size] + document[size..];
    }
  }

  /** No chunk is longer than `size`; the last is final and no other. */
  lemma {:induction false} OnlyLastChunkFinal(document: seq<byte>, size: nat, i: nat)
    requires 0 < size && i < |ChunksOf(document, size)|
    ensures var calls := ChunksOf(document, size);
      && |calls[i].bytes| <= size && (calls[i].isFinal <==> i == |calls| - 1)
      && (i < |calls| - 1 ==> |calls[i].bytes| == size)
      && (calls[i].bytes == [] ==> document == [])
    decreases |document|
  {
    if |document| > size && i > 0 {
      OnlyLastChunkFinal(document[size..], size, i - 1);
    }
  }

  lemma BytesOne(c: M.Call)
    ensures M.Bytes([c]) == c.bytes && M.Bytes([]) == []
  {
    assert [c][..0] == [];
  }

  lemma {:induction false} BytesCons(c: M.Call, calls: seq<M.Call>)
    ensures M.Bytes([c] + calls) == c.bytes + M.Bytes(calls)
    decreases |calls|
  {
    hide M.Bytes;
    if calls == [] {
      BytesOne(c);
      assert [c] + calls == [c];
    } else {
      var init, last := calls[..|calls| - 1], calls[|calls| - 1];
      BytesCons(c, init);
      ShellRuns.BytesSnoc(init, last);
      ShellRuns.BytesSnoc([c] + init, last);
      assert calls == init + [last] && [c] + calls == ([c] + init) + [last];
    }
  }

  /** A parse accepts its chunk, and shows it to the bridge, or changes no history; OK means it accepted. */
  lemma ParseAccepts(s: M.Shell, bytes: seq<byte>, isFinal: bool, mallocOk: bool, reply: M.Reply)
    ensures var (t, status, _) := M.Parse(s, Some(bytes), isFinal, mallocOk, reply);
      || (t.accepted == s.accepted && t.log == s.log && !status.StatusOk?)
      || (t.accepted == s.accepted + [M.Call(bytes, isFinal)] && t.log == s.log + [M.Call(bytes, isFinal)])
  {
    hide M.ActAll, M.CapacityFor, M.NeedsAllocation;
    match M.BeginParse(s, Some(bytes), isFinal, mallocOk)
    case Rejected(_) =>
    case Entered(t) => ShellRuns.ActAllKeeps(M.Logged(t, bytes, isFinal), reply.actions);
  }

  /** The caller's `memcpy` into the region `XML_GetBuffer` handed out. */
  method WriteBehind(p: Parser, document: array<byte>, off: nat, count: int32)
    requires p.Valid() && p.buffer != null && p.buffer != document
    requires 0 <= count && off + count as int <= document.Length
    requires p.bufferLength as int + count as int <= p.bufferCapacity as int
    modifies p.buffer
    ensures p.Valid() && p.Stands(Some(document[off..off + count as int]), count)
  {
    MemMove(p.buffer, p.bufferLength as int, document, off, count as int);
    assert p.Window() == old(p.Window());
  }

  /**
    What `parse_chunk` makes of a parser: what `XML_Parse` of the chunk makes of it, up to
    the capacity of its buffer, unless a buffer was asked for and refused.
   */
  predicate ChunkTaken(s: M.Shell, t: M.Shell, status: M.Status, chunk: seq<byte>, isFinal: bool,
                       buffered: bool, mallocOk: bool, reply: M.Reply)
  {
    var (direct, answer, _) := M.Parse(s, Some(chunk), isFinal, buffered || mallocOk, reply);
    if buffered && !M.GetBuffer(s, |chunk|, mallocOk).1
    then status == M.StatusError && t == M.GetBuffer(s, |chunk|, mallocOk).0
    else status == answer && E.Same(t, direct)
  }

  /** `parse_chunk`, in either mode. */
  method ParseChunk(p: Parser, document: array<byte>, off: nat, count: int32, isFinal: bool,
                    buffered: bool, mallocOk: bool, reply: M.Reply) returns (status: M.Status)
    requires p.Valid() && Parser.ReplyFits(reply) && 0 <= count && off + count as int <= document.Length
    requires p.buffer != document
    modifies p, p.buffer, p.Parents()`externalChildParseCount
    ensures p.Valid() && (p.buffer == old(p.buffer) || fresh(p.buffer))
    ensures ChunkTaken(old(p.shell), p.shell, status, old(document[off..off + count as int]), isFinal,
                       buffered, mallocOk, reply)
  {
    hide ChunkTaken;
    if buffered {
      status := ParseBuffered(p, document, off, count, isFinal, mallocOk, reply);
    } else {
      status := ParseDirect(p, document, off, count, isFinal, mallocOk, reply);
    }
  }

  method ParseDirect(p: Parser, document: array<byte>, off: nat, count: int32, isFinal: bool,
                     mallocOk: bool, reply: M.Reply) returns (status: M.Status)
    requires p.Valid() && Parser.ReplyFits(reply) && 0 <= count && off + count as int <= document.Length
    requires p.buffer != document
    modifies p, p.buffer, p.Parents()`externalChildParseCount
    ensures p.Valid() && (p.buffer == old(p.buffer) || fresh(p.buffer))
    ensures ChunkTaken(old(p.shell), p.shell, status, old(document[off..off + count as int]), isFinal,
                       false, mallocOk, reply)
  {
    hide M.Parse, ChunkTaken, Parser.Valid;
    ghost var chunk := document[off..off + count as int];
    assert count == 0 ==> chunk == [];
    assert Parser.InputAt(document, off, count) == Some(chunk);
    DirectTaken(p.shell, chunk, isFinal, mallocOk, reply);
    var credited: bool;
    status, credited := p.Parse(document, off, count, isFinal, mallocOk, reply);
  }

  lemma DirectTaken(s: M.Shell, chunk: seq<byte>, isFinal: bool, mallocOk: bool, reply: M.Reply)
    ensures var (t, status, _) := M.Parse(s, Some(chunk), isFinal, mallocOk, reply);
      ChunkTaken(s, t, status, chunk, isFinal, false, mallocOk, reply)
  {
    hide M.Parse;
  }

  method ParseBuffered(p: Parser, document: array<byte>, off: nat, count: int32, isFinal: bool,
                       mallocOk: bool, reply: M.Reply) returns (status: M.Status)
    requires p.Valid() && Parser.ReplyFits(reply) && 0 <= count && off + count as int <= document.Length
    requires p.buffer != document
    modifies p, p.buffer, p.Parents()`externalChildParseCount
    ensures p.Valid() && (p.buffer == old(p.buffer) || fresh(p.buffer))
    ensures ChunkTaken(old(p.shell), p.shell, status, old(document[off..off + count as int]), isFinal,
                       true, mallocOk, reply)
  {
    hide M.GetBuffer, M.ParseBuffer, ChunkTaken;
    ghost var chunk := document[off..off + count as int];
    BufferTaken(p.shell, chunk, isFinal, mallocOk, reply);
    var ok, dest := p.GetBuffer(count, mallocOk);
    status := M.StatusError;
    if ok {
      WriteBehind(p, document, off, count);
      var credited: bool;
      status, credited := p.ParseBuffer(count, isFinal, mallocOk, reply, Some(chunk));
    }
  }

  lemma BufferTaken(s: M.Shell, chunk: seq<byte>, isFinal: bool, mallocOk: bool, reply: M.Reply)
    ensures var (t, ok) := M.GetBuffer(s, |chunk|, mallocOk);
      && (!ok ==> ChunkTaken(s, t, M.StatusError, chunk, isFinal, true, mallocOk, reply))
      && (ok ==>
            var (u, status, _) := M.ParseBuffer(t, Some(chunk), isFinal, mallocOk, reply);
            ChunkTaken(s, u, status, chunk, isFinal, true, mallocOk, reply))
  {
    hide M.Parse, M.GetBuffer, M.ParseBuffer, E.Same;
    if M.GetBuffer(s, |chunk|, mallocOk).1 {
      E.BufferSimulatesParse(s, |chunk|, chunk, isFinal, mallocOk, mallocOk, reply);
    }
  }

  /** What one chunk does to the histories, in either mode. */
  lemma TakenHistory(s: M.Shell, t: M.Shell, status: M.Status, chunk: seq<byte>, isFinal: bool,
                     buffered: bool, mallocOk: bool, reply: M.Reply)
    requires ChunkTaken(s, t, status, chunk, isFinal, buffered, mallocOk, reply)
    ensures
      || (t.accepted == s.accepted && t.log == s.log && !status.StatusOk?)
      || (t.accepted == s.accepted + [M.Call(chunk, isFinal)] && t.log == s.log + [M.Call(chunk, isFinal)])
  {
    hide M.Parse, M.GetBuffer;
    ParseAccepts(s, chunk, isFinal, buffered || mallocOk, reply);
    GetBufferKeepsHistory(s, |chunk|, mallocOk);
  }

  lemma GetBufferKeepsHistory(s: M.Shell, len: int, mallocOk: bool)
    ensures var t := M.GetBuffer(s, len, mallocOk).0; t.accepted == s.accepted && t.log == s.log
  {
    hide M.CapacityFor, M.NeedsAllocation;
  }

  /** A root parser with a bridge, no error, and at most `total` bytes in its window. */
  predicate Fine(s: M.Shell, total: nat) {
    s.attached && !s.hasParent && s.life.parseError == M.NoError && |s.window| <= total
  }

  /** With its memory granted and the bridge answering OK, a chunk is taken with OK, in either mode. */
  lemma TakenWell(s: M.Shell, t: M.Shell, status: M.Status, chunk: seq<byte>, isFinal: bool,
                  buffered: bool, reply: M.Reply, total: nat)
    requires ChunkTaken(s, t, status, chunk, isFinal, buffered, true, reply)
    requires Fine(s, total) && T.Open(s.life.phase) && total + |chunk| <= M.MAXIMUM_CAPACITY
    requires reply.status.StatusOk?
    ensures status.StatusOk? && Fine(t, total + |chunk|)
    ensures t.life.phase == if isFinal then M.Finished else M.Parsing
  {
    hide M.Parse, M.GetBuffer;
    GrantedInRange(s, |chunk|);
    ParseWell(s, chunk, isFinal, reply, total);
  }

  lemma GrantedInRange(s: M.Shell, len: nat)
    requires T.Open(s.life.phase) && |s.window| + len <= M.MAXIMUM_CAPACITY
    ensures M.GetBuffer(s, len, true).1
  {
    hide M.CapacityFor, M.NeedsAllocation;
  }

  lemma ParseWell(s: M.Shell, chunk: seq<byte>, isFinal: bool, reply: M.Reply, total: nat)
    requires Fine(s, total) && T.Open(s.life.phase) && total + |chunk| <= M.MAXIMUM_CAPACITY
    requires reply.status.StatusOk?
    ensures var (t, status, _) := M.Parse(s, Some(chunk), isFinal, true, reply);
      && status.StatusOk? && Fine(t, total + |chunk|)
      && t.life.phase == if isFinal then M.Finished else M.Parsing
  {
    hide M.Parse, M.AcceptChunk, M.Through;
    O.ParseWindow(s, chunk, isFinal, true, reply);
    ShellRuns.ParseSameParser(s, Some(chunk), isFinal, true, reply);
    ParseEnters(s, chunk, isFinal, reply);
    var t := M.AcceptChunk(s, chunk, isFinal, true).inside;
    O.AcceptEnters(s, chunk, isFinal, true);
    O.ThroughConcludes(t, chunk, isFinal, reply);
  }

  lemma ParseEnters(s: M.Shell, chunk: seq<byte>, isFinal: bool, reply: M.Reply)
    requires s.attached && s.life.parseError == M.NoError && T.Open(s.life.phase)
    requires |s.window| + |chunk| <= M.MAXIMUM_CAPACITY
    ensures var entry := M.AcceptChunk(s, chunk, isFinal, true);
      && entry.Entered?
      && M.Parse(s, Some(chunk), isFinal, true, reply) == M.FinishParse(entry.inside, chunk, isFinal, reply)
  {
    hide M.CapacityFor, M.NeedsAllocation, M.FinishParse;
  }

  // ---- the chunk loop ----------------------------------------------------------------

  /** What has been accepted and the division of what remains make up the whole division. */
  ghost predicate OnCourse(document: seq<byte>, offset: nat, size: nat, accepted: seq<M.Call>, all: seq<M.Call>)
    requires 0 < size && offset <= |document|
  {
    accepted + (if offset < |document| then ChunksOf(document[offset..], size) else []) == all
  }

  lemma NextOnCourse(document: seq<byte>, offset: nat, size: nat, accepted: seq<M.Call>, all: seq<M.Call>)
    requires 0 < size && offset < |document| && OnCourse(document, offset, size, accepted, all)
    ensures var next := Min(|document|, offset + size);
      var call := M.Call(document[offset..next], next == |document|);
      && accepted <= all && accepted + [call] <= all
      && OnCourse(document, next, size, accepted + [call], all)
  {
    hide ChunksOf;
    var next := Min(|document|, offset + size);
    var rest := ChunksOf(document[offset..], size);
    NextChunk(document[offset..], size);
    SliceTwice(document, offset, next);
    TakeFirst(accepted, rest);
  }

  lemma SliceTwice(document: seq<byte>, offset: nat, next: nat)
    requires offset <= next <= |document|
    ensures document[offset..][..next - offset] == document[offset..next]
    ensures document[offset..][next - offset..] == document[next..]
  {}

  lemma TakeFirst(accepted: seq<M.Call>, rest: seq<M.Call>)
    requires rest != []
    ensures accepted + rest == (accepted + [rest[0]]) + rest[1..]
    ensures accepted <= accepted + rest && accepted + [rest[0]] <= accepted + rest
  {}

  /**
    The chunk loop of `parse_document`, on a new parser. Whatever the chunk size and
    the mode: if every call returns OK, the bridge has seen exactly the document, in
    order, divided into chunks of that size with the last one alone marked final; if
    some call does not, it has seen a beginning of that. And if the bridge answers every
    call with OK, memory is granted, and the document has at most 2^30 bytes, then every
    call returns OK.
   */
  method ParseDocument(hasBridge: bool, document: array<byte>, chunkSize: int32, buffered: bool,
                       mallocs: nat -> bool, replies: nat -> M.Reply) returns (p: Parser, status: M.Status)
    requires 0 < chunkSize && forall k :: Parser.ReplyFits(replies(k))
    ensures fresh(p) && p.Valid() && p.shell.log == p.shell.accepted
    ensures p.shell.accepted <= ChunksOf(document[..], chunkSize as int)
    ensures status.StatusOk? ==> p.shell.log == ChunksOf(document[..], chunkSize as int)
    ensures hasBridge && Favourable(document.Length, mallocs, replies) ==> status.StatusOk?
  {
    hide ChunksOf, M.Create, Parser.Valid, Parser.ReplyFits, Fine;
    p := new Parser(hasBridge);
    FreshHistory(hasBridge);
    RootIsAlone(p);
    FreshIsFine(hasBridge);
    if document.Length == 0 {
      status := FeedEmpty(p, document, chunkSize, buffered, mallocs(0), replies(0));
    } else {
      status := FeedAll(p, document, chunkSize, buffered, mallocs, replies);
    }
  }

  /** The bridge answers every call with OK, all memory is granted, and the document is not too long. */
  ghost predicate Favourable(length: nat, mallocs: nat -> bool, replies: nat -> M.Reply) {
    length <= M.MAXIMUM_CAPACITY && (forall k :: mallocs(k)) && forall k :: replies(k).status.StatusOk?
  }

  lemma FreshIsFine(attached: bool)
    ensures var s := M.Create(attached); attached ==> Fine(s, 0) && T.Open(s.life.phase)
  {}

  method FeedAll(p: Parser, document: array<byte>, chunkSize: int32, buffered: bool,
                 mallocs: nat -> bool, replies: nat -> M.Reply) returns (status: M.Status)
    requires p.Valid() && p.buffer == null && p.parentParser == null && p.shell.log == p.shell.accepted == []
    requires 0 < chunkSize && document.Length > 0 && forall k :: Parser.ReplyFits(replies(k))
    modifies p
    ensures p.Valid() && p.shell.log == p.shell.accepted
    ensures p.shell.accepted <= ChunksOf(document[..], chunkSize as int)
    ensures status.StatusOk? ==> p.shell.log == ChunksOf(document[..], chunkSize as int)
    ensures old(Fine(p.shell, 0) && T.Open(p.shell.life.phase)) && Favourable(document.Length, mallocs, replies) ==>
      status.StatusOk?
  {
    hide ChunksOf, OnCourse, Parser.Valid, Parser.ReplyFits, Fine;
    ghost var fair := Fine(p.shell, 0) && T.Open(p.shell.life.phase) && Favourable(document.Length, mallocs, replies);
    ghost var all := ChunksOf(document[..], chunkSize as int);
    StartOnCourse(document[..], chunkSize as int);
    status := M.StatusOk;
    var offset, k := 0, 0;
    while offset < document.Length && status.StatusOk?
      invariant p.Valid() && (p.buffer == null || fresh(p.buffer)) && offset <= document.Length
      invariant p.shell.log == p.shell.accepted <= all
      invariant status.StatusOk? ==> OnCourse(document[..], offset, chunkSize as int, p.shell.accepted, all)
      invariant fair ==> status.StatusOk? && Fine(p.shell, offset)
      invariant fair && offset < document.Length ==> T.Open(p.shell.life.phase)
      decreases document.Length - offset
    {
      status, offset := FeedNext(p, document, offset, chunkSize, buffered, mallocs(k), replies(k), all);
      k := k + 1;
    }
    if status.StatusOk? {
      EndOnCourse(document[..], chunkSize as int, p.shell.accepted, all);
    }
  }

  lemma StartOnCourse(document: seq<byte>, size: nat)
    requires 0 < size && document != []
    ensures OnCourse(document, 0, size, [], ChunksOf(document, size))
  {
    hide ChunksOf;
    assert document[0..] == document;
  }

  lemma EndOnCourse(document: seq<byte>, size: nat, accepted: seq<M.Call>, all: seq<M.Call>)
    requires 0 < size && OnCourse(document, |document|, size, accepted, all)
    ensures accepted == all
  {}

  /** One turn of the loop: the next chunk of the division goes to the parser. */
  method FeedNext(p: Parser, document: array<byte>, offset: nat, chunkSize: int32, buffered: bool,
                  mallocOk: bool, reply: M.Reply, ghost all: seq<M.Call>) returns (status: M.Status, next: nat)
    requires p.Valid() && Parser.ReplyFits(reply) && p.buffer != document && p.parentParser == null
    requires offset < document.Length && 0 < chunkSize && p.shell.log == p.shell.accepted
    requires OnCourse(document[..], offset, chunkSize as int, p.shell.accepted, all)
    modifies p, p.buffer
    ensures p.Valid() && (p.buffer == old(p.buffer) || fresh(p.buffer))
    ensures offset < next <= document.Length && p.shell.log == p.shell.accepted <= all
    ensures status.StatusOk? ==> OnCourse(document[..], next, chunkSize as int, p.shell.accepted, all)
    ensures
      old(Fine(p.shell, offset) && T.Open(p.shell.life.phase))
      && mallocOk && reply.status.StatusOk? && document.Length <= M.MAXIMUM_CAPACITY ==>
        status.StatusOk? && Fine(p.shell, next) && (next < document.Length ==> T.Open(p.shell.life.phase))
  {
    hide ChunkTaken, OnCourse, Parser.Valid, Parser.ReplyFits, Fine;
    NextOnCourse(document[..], offset, chunkSize as int, p.shell.accepted, all);
    ghost var before := p.shell;
    var count := document.Length - offset;
    if count > chunkSize as int {
      count := chunkSize as int;
    }
    next := offset + count;
    var isFinal := next == document.Length;
    ghost var chunk := document[offset..next];
    assert chunk == document[..][offset..next];
    status := ParseChunk(p, document, offset, count as int32, isFinal, buffered, mallocOk, reply);
    TakenHistory(before, p.shell, status, chunk, isFinal, buffered, mallocOk, reply);
    if Fine(before, offset) && T.Open(before.life.phase) && mallocOk && reply.status.StatusOk?
       && document.Length <= M.MAXIMUM_CAPACITY {
      TakenWell(before, p.shell, status, chunk, isFinal, buffered, reply, offset);
    }
  }

  /** An empty document is one empty final chunk. */
  method FeedEmpty(p: Parser, document: array<byte>, chunkSize: int32, buffered: bool, mallocOk: bool, reply: M.Reply)
      returns (status: M.Status)
    requires p.Valid() && Parser.ReplyFits(reply) && p.buffer != document && document.Length == 0 && 0 < chunkSize
    requires p.shell.log == p.shell.accepted == [] && p.parentParser == null
    modifies p, p.buffer
    ensures p.Valid() && p.shell.log == p.shell.accepted
    ensures p.shell.accepted <= ChunksOf(document[..], chunkSize as int)
    ensures status.StatusOk? ==> p.shell.log == ChunksOf(document[..], chunkSize as int)
    ensures old(Fine(p.shell, 0) && T.Open(p.shell.life.phase)) && mallocOk && reply.status.StatusOk? ==>
      status.StatusOk?
  {
    hide ChunkTaken, Parser.Valid, Parser.ReplyFits, Fine;
    ghost var before := p.shell;
    assert document[..] == document[0..0] == [];
    status := ParseChunk(p, document, 0, 0, true, buffered, mallocOk, reply);
    TakenHistory(before, p.shell, status, [], true, buffered, mallocOk, reply);
    if Fine(before, 0) && T.Open(before.life.phase) && mallocOk && reply.status.StatusOk? {
      TakenWell(before, p.shell, status, [], true, buffered, reply, 0);
    }
  }

  lemma RootIsAlone(p: Parser)
    requires p.Valid() && !p.shell.hasParent
    ensures p.parentParser == null
  {}

  lemma FreshHistory(attached: bool)
    ensures var s := M.Create(attached); s.accepted == [] && s.log == [] && !s.hasParent
  {}

  lemma NextChunk(document: seq<byte>, size: nat)
    requires 0 < size
    ensures var n := Min(|document|, size);
      var calls := ChunksOf(document, size);
      && calls[0] == M.Call(document[..n], n == |document|)
      && calls[1..] == if n == |document| then [] else ChunksOf(document[n..], size)
  {}
}
