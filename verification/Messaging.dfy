/** Message passing between processes: one outstanding user message per sender and
    receiver, at most one reply per message, and who owns which allocation.

    Pointers are numbers; `heap` is the set of live allocations. What `malloc`
    returns is a parameter, constrained only to be fresh. */
module Messaging {

  const POOL_MIN: nat := 16
  const POOL_MAX: nat := 32

  datatype Header = Header(id: nat, replyId: nat, user: bool, reply: bool, from: nat, to: nat,
                           received: bool, replied: bool, content: nat)

  /** A message whose content lies in the sender's buffer for that receiver. */
  predicate Buffered(h: Header) {
    h.user && !h.reply
  }

  /** Equal but for what happened to the message since. */
  predicate SameMessage(a: Header, b: Header) {
    a.(received := b.received, replied := b.replied) == b
  }

  // ---------- the invariant, part by part ----------

  /** Every queued header is in exactly one place of exactly the receiver's queue. */
  ghost predicate QueuesOk(queues: map<nat, seq<nat>>, headers: map<nat, Header>) {
    && (forall p, i :: p in queues && 0 <= i < |queues[p]| ==> queues[p][i] in headers && headers[queues[p][i]].to == p)
    && (forall p :: p in queues ==> NoRepeats(queues[p]))
    && (forall r :: r in headers ==> headers[r].to in queues && r in queues[headers[r].to])
  }

  /** The ids along a queue go up: it is in the order of sending. */
  ghost predicate Rising(headers: map<nat, Header>, q: seq<nat>) {
    forall i, j :: 0 <= i < j < |q| && q[i] in headers && q[j] in headers ==> headers[q[i]].id < headers[q[j]].id
  }

  ghost predicate AllOlder(headers: map<nat, Header>, id: nat) {
    forall q :: q in headers ==> headers[q].id < id
  }

  ghost predicate HasMail(headers: map<nat, Header>, p: nat) {
    exists r :: r in headers && headers[r].to == p
  }

  /** Of the queued messages to a process, none is older. */
  ghost predicate IsOldest(headers: map<nat, Header>, p: nat, h: Header) {
    h.to == p && forall r :: r in headers && headers[r].to == p ==> h.id <= headers[r].id
  }

  ghost predicate OrderOk(queues: map<nat, seq<nat>>, headers: map<nat, Header>) {
    forall p :: p in queues ==> Rising(headers, queues[p])
  }

  /** No header is both pooled and queued; headers and contents are live and distinct. */
  ghost predicate MemoryOk(headers: map<nat, Header>, pool: seq<nat>, heap: set<nat>) {
    && (forall i :: 0 <= i < |pool| ==> pool[i] in heap && pool[i] !in headers)
    && (forall i, j :: 0 <= i < j < |pool| ==> pool[i] != pool[j])
    && (forall r :: r in headers ==> r in heap && headers[r].content in heap
                                     && headers[r].content !in headers && headers[r].content !in pool)
    && (forall r, q :: r in headers && q in headers && r != q ==> headers[r].content != headers[q].content)
  }

  /** A sender's buffer for a receiver is the content of the one buffered message
      between them that is still queued. */
  ghost predicate BuffersOk(headers: map<nat, Header>, buffers: map<(nat, nat), nat>) {
    && (forall r :: r in headers && Buffered(headers[r]) ==>
          (headers[r].from, headers[r].to) in buffers && buffers[(headers[r].from, headers[r].to)] == headers[r].content)
    && (forall r, q :: r in headers && q in headers && Buffered(headers[r]) && Buffered(headers[q]) ==>
          r == q || headers[r].from != headers[q].from || headers[r].to != headers[q].to)
    && (forall k :: k in buffers ==> exists r :: r in headers && Buffered(headers[r]) && (headers[r].from, headers[r].to) == k)
  }

  ghost predicate RepliedIn(sent: seq<Header>, id: nat) {
    exists j {:trigger sent[j].reply} :: 0 <= j < |sent| && sent[j].reply && sent[j].replyId == id
  }

  /** The log of everything sent: ids count up, and every reply answers an earlier
      message, from its receiver to its sender, that no other reply answers. */
  ghost predicate LogOk(sent: seq<Header>) {
    && (forall i {:trigger sent[i].id} :: 0 <= i < |sent| ==> sent[i].id == i + 1)
    && (forall j {:trigger sent[j].reply} :: 0 <= j < |sent| && sent[j].reply ==>
          && 1 <= sent[j].replyId <= j
          && sent[sent[j].replyId - 1].to == sent[j].from && sent[sent[j].replyId - 1].from == sent[j].to)
    && (forall i, j {:trigger sent[i].reply, sent[j].reply} :: 0 <= i < j < |sent| && sent[i].reply && sent[j].reply ==> sent[i].replyId != sent[j].replyId)
  }

  /** Queued messages are the logged ones, and know whether they were answered. */
  ghost predicate LoggedOk(headers: map<nat, Header>, sent: seq<Header>) {
    && (forall r :: r in headers ==> 1 <= headers[r].id <= |sent| && SameMessage(headers[r], sent[headers[r].id - 1])
                                     && (headers[r].replied <==> RepliedIn(sent, headers[r].id)))
    && (forall r, q :: r in headers && q in headers && headers[r].id == headers[q].id ==> r == q)
  }

  // ---------- queueing and unqueueing one message ----------

  function Pushed(queues: map<nat, seq<nat>>, p: nat, r: nat): map<nat, seq<nat>>
    requires p in queues
  {
    queues[p := queues[p] + [r]]
  }

  function Dropped(queues: map<nat, seq<nat>>, p: nat, i: nat): map<nat, seq<nat>>
    requires p in queues && i < |queues[p]|
  {
    queues[p := queues[p][..i] + queues[p][i + 1..]]
  }

  lemma PushQueues(queues: map<nat, seq<nat>>, headers: map<nat, Header>, r: nat, h: Header)
    requires QueuesOk(queues, headers) && r !in headers && h.to in queues
    ensures QueuesOk(Pushed(queues, h.to, r), headers[r := h])
  {
    var q' := Pushed(queues, h.to, r)[h.to];
    assert q'[|q'| - 1] == r;
    assert forall x :: x in queues[h.to] ==> x in q';
  }

  ghost predicate NoRepeats(q: seq<nat>) {
    forall i, j :: 0 <= i < j < |q| ==> q[i] != q[j]
  }

  lemma DropAt(q: seq<nat>, i: nat)
    requires i < |q| && NoRepeats(q)
    ensures var q' := q[..i] + q[i + 1..];
      NoRepeats(q') && forall x :: x in q' <==> x in q && x != q[i]
  {
    var q' := q[..i] + q[i + 1..];
    forall x | x in q && x != q[i]
      ensures x in q'
    {
      var k :| 0 <= k < |q| && q[k] == x;
      assert x == if k < i then q'[k] else q'[k - 1];
    }
  }

  lemma DropQueues(queues: map<nat, seq<nat>>, headers: map<nat, Header>, p: nat, i: nat)
    requires QueuesOk(queues, headers) && p in queues && i < |queues[p]|
    ensures QueuesOk(Dropped(queues, p, i), headers - {queues[p][i]})
  {
    DropAt(queues[p], i);
    var queues', headers' := Dropped(queues, p, i), headers - {queues[p][i]};
    forall o | o in queues'
      ensures NoRepeats(queues'[o]) && forall k :: 0 <= k < |queues'[o]| ==> queues'[o][k] in headers' && headers'[queues'[o][k]].to == o
    {
      if o != p {
        assert NoRepeats(queues[o]);
      } else {
        assert forall k :: 0 <= k < |queues'[p]| ==> queues'[p][k] in queues'[p];
      }
    }
  }

  /** A message with a new, larger id goes to the end. */
  lemma PushOrder(queues: map<nat, seq<nat>>, headers: map<nat, Header>, r: nat, h: Header)
    requires QueuesOk(queues, headers) && OrderOk(queues, headers) && r !in headers && h.to in queues
    requires AllOlder(headers, h.id)
    ensures OrderOk(Pushed(queues, h.to, r), headers[r := h])
  {
    var queues', headers' := Pushed(queues, h.to, r), headers[r := h];
    forall p | p in queues'
      ensures Rising(headers', queues'[p])
    {
      assert Rising(headers, queues[p]);
    }
  }

  lemma DropOrder(queues: map<nat, seq<nat>>, headers: map<nat, Header>, p: nat, i: nat)
    requires OrderOk(queues, headers) && p in queues && i < |queues[p]|
    ensures OrderOk(Dropped(queues, p, i), headers - {queues[p][i]})
  {
    var queues', headers' := Dropped(queues, p, i), headers - {queues[p][i]};
    forall o | o in queues'
      ensures Rising(headers', queues'[o])
    {
      assert Rising(headers, queues[o]);
    }
  }

  lemma SameOrder(queues: map<nat, seq<nat>>, headers: map<nat, Header>, headers': map<nat, Header>)
    requires OrderOk(queues, headers) && headers'.Keys == headers.Keys
    requires forall r :: r in headers ==> headers'[r].id == headers[r].id
    ensures OrderOk(queues, headers')
  {
    forall p | p in queues
      ensures Rising(headers', queues[p])
    {
      assert Rising(headers, queues[p]);
    }
  }

  /** The first message of a queue is the oldest of all queued for that process. */
  lemma OldestFirst(queues: map<nat, seq<nat>>, headers: map<nat, Header>, p: nat)
    requires QueuesOk(queues, headers) && OrderOk(queues, headers) && p in queues && queues[p] != []
    ensures queues[p][0] in headers && IsOldest(headers, p, headers[queues[p][0]])
  {
    assert Rising(headers, queues[p]);
  }

  lemma PushMemory(headers: map<nat, Header>, pool: seq<nat>, heap: set<nat>, r: nat, h: Header)
    requires MemoryOk(headers, pool, heap) && r !in headers && r !in pool && r in heap
    requires h.content in heap && h.content !in headers && h.content !in pool && h.content != r
    requires forall q :: q in headers ==> headers[q].content != r && headers[q].content != h.content
    ensures MemoryOk(headers[r := h], pool, heap)
  {
  }

  /** One more allocation that nobody uses yet. */
  lemma MoreMemory(headers: map<nat, Header>, pool: seq<nat>, heap: set<nat>, ptr: nat)
    requires MemoryOk(headers, pool, heap) && ptr !in heap
    ensures MemoryOk(headers, pool, heap + {ptr}) && ptr !in headers && ptr !in pool
    ensures forall q :: q in headers ==> headers[q].content != ptr
  {
  }

  lemma DropMemory(headers: map<nat, Header>, pool: seq<nat>, heap: set<nat>, r: nat)
    requires MemoryOk(headers, pool, heap) && r in headers
    ensures MemoryOk(headers - {r}, pool, heap - {headers[r].content})
    ensures forall q :: q in headers - {r} ==> headers[q].content != r
  {
  }

  lemma PushBuffers(headers: map<nat, Header>, buffers: map<(nat, nat), nat>, r: nat, h: Header)
    requires BuffersOk(headers, buffers) && r !in headers
    requires Buffered(h) ==> (h.from, h.to) !in buffers
    ensures BuffersOk(headers[r := h], if Buffered(h) then buffers[(h.from, h.to) := h.content] else buffers)
  {
    var headers' := headers[r := h];
    var buffers' := if Buffered(h) then buffers[(h.from, h.to) := h.content] else buffers;
    forall k | k in buffers'
      ensures exists q :: q in headers' && Buffered(headers'[q]) && (headers'[q].from, headers'[q].to) == k
    {
      if Buffered(h) && k == (h.from, h.to) {
        assert headers'[r] == h;
      } else {
        var q :| q in headers && Buffered(headers[q]) && (headers[q].from, headers[q].to) == k;
        assert headers'[q] == headers[q];
      }
    }
  }

  lemma DropBuffers(headers: map<nat, Header>, buffers: map<(nat, nat), nat>, r: nat)
    requires BuffersOk(headers, buffers) && r in headers
    ensures BuffersOk(headers - {r}, if Buffered(headers[r]) then buffers - {(headers[r].from, headers[r].to)} else buffers)
  {
    var headers' := headers - {r};
    var gone := if Buffered(headers[r]) then {(headers[r].from, headers[r].to)} else {};
    var buffers' := buffers - gone;
    assert buffers' == if Buffered(headers[r]) then buffers - {(headers[r].from, headers[r].to)} else buffers;
    forall k | k in buffers'
      ensures exists q :: q in headers' && Buffered(headers'[q]) && (headers'[q].from, headers'[q].to) == k
    {
      var q :| q in headers && Buffered(headers[q]) && (headers[q].from, headers[q].to) == k;
      assert q in headers';
    }
  }

  /** The headers once every queued message with this id is marked as answered. */
  function Answered(headers: map<nat, Header>, id: nat): map<nat, Header> {
    map r | r in headers :: if headers[r].id == id then headers[r].(replied := true) else headers[r]
  }

  lemma AnsweredKeeps(queues: map<nat, seq<nat>>, headers: map<nat, Header>, pool: seq<nat>, heap: set<nat>, id: nat)
    requires QueuesOk(queues, headers) && MemoryOk(headers, pool, heap)
    ensures QueuesOk(queues, Answered(headers, id)) && MemoryOk(Answered(headers, id), pool, heap)
  {
  }

  lemma AnsweredBuffers(headers: map<nat, Header>, buffers: map<(nat, nat), nat>, id: nat)
    requires BuffersOk(headers, buffers)
    ensures BuffersOk(Answered(headers, id), buffers)
  {
    SameBuffers(headers, Answered(headers, id), buffers);
  }

  /** Whether messages were answered does not matter to the buffers. */
  lemma SameBuffers(headers: map<nat, Header>, headers': map<nat, Header>, buffers: map<(nat, nat), nat>)
    requires BuffersOk(headers, buffers) && headers'.Keys == headers.Keys
    requires forall r :: r in headers ==> headers'[r].(replied := headers[r].replied) == headers[r]
    ensures BuffersOk(headers', buffers)
  {
    forall k | k in buffers
      ensures exists r :: r in headers' && Buffered(headers'[r]) && (headers'[r].from, headers'[r].to) == k
    {
      var r :| r in headers && Buffered(headers[r]) && (headers[r].from, headers[r].to) == k;
      assert r in headers';
    }
  }

  /** What makes a new message fit the log: a reply answers an earlier message of
      the opposite direction that nobody has answered yet. */
  ghost predicate Fits(sent: seq<Header>, h: Header) {
    && h.id == |sent| + 1 && !h.replied
    && (h.reply ==>
          && 1 <= h.replyId <= |sent| && !RepliedIn(sent, h.replyId)
          && sent[h.replyId - 1].to == h.from && sent[h.replyId - 1].from == h.to)
  }

  lemma PushLog(sent: seq<Header>, h: Header)
    requires LogOk(sent) && Fits(sent, h)
    ensures LogOk(sent + [h])
  {
    var sent' := sent + [h];
    assert forall i :: 0 <= i < |sent| ==> sent'[i] == sent[i];
    if h.reply {
      NotAnswered(sent, h.replyId);
    }
    hide RepliedIn;
    forall j | 0 <= j < |sent'| && sent'[j].reply
      ensures 1 <= sent'[j].replyId <= j
      ensures sent'[sent'[j].replyId - 1].to == sent'[j].from && sent'[sent'[j].replyId - 1].from == sent'[j].to
    {
      assert sent'[sent'[j].replyId - 1] == sent[sent'[j].replyId - 1];
    }
  }

  lemma NotAnswered(sent: seq<Header>, id: nat)
    requires !RepliedIn(sent, id)
    ensures forall i {:trigger sent[i].reply} :: 0 <= i < |sent| && sent[i].reply ==> sent[i].replyId != id
  {
  }

  /** The queued headers once `h` has been sent: a reply marks what it answers. */
  function Marked(headers: map<nat, Header>, h: Header): map<nat, Header> {
    if h.reply then Answered(headers, h.replyId) else headers
  }

  lemma MarkLogged(headers: map<nat, Header>, sent: seq<Header>, h: Header)
    requires LoggedOk(headers, sent) && Fits(sent, h)
    ensures LoggedOk(Marked(headers, h), sent + [h])
  {
    RepliedAfter(sent, h);
    hide RepliedIn, Fits;
    var headers', sent' := Marked(headers, h), sent + [h];
    forall q | q in headers
      ensures 1 <= headers'[q].id <= |sent'| && SameMessage(headers'[q], sent'[headers'[q].id - 1])
      ensures headers'[q].replied <==> RepliedIn(sent', headers'[q].id)
    {
      assert sent'[headers[q].id - 1] == sent[headers[q].id - 1];
    }
  }

  lemma LastLogged(headers: map<nat, Header>, sent: seq<Header>, r: nat, h: Header)
    requires LoggedOk(headers, sent) && sent != [] && sent[|sent| - 1] == h
    requires h.id == |sent| && !h.replied && !RepliedIn(sent, h.id)
    requires forall q :: q in headers ==> headers[q].id < |sent|
    ensures LoggedOk(headers[r := h], sent)
  {
    hide RepliedIn;
  }

  lemma PushLogged(headers: map<nat, Header>, sent: seq<Header>, r: nat, h: Header)
    requires LogOk(sent) && LoggedOk(headers, sent) && Fits(sent, h)
    ensures LoggedOk(Marked(headers, h)[r := h], sent + [h])
  {
    RepliedAfter(sent, h);
    assert !RepliedIn(sent + [h], h.id);
    MarkLogged(headers, sent, h);
    MarkedIds(headers, h);
    assert forall q :: q in headers ==> headers[q].id <= |sent|;
    hide *;
    LastLogged(Marked(headers, h), sent + [h], r, h);
  }

  /** No queued message is as new as the one being sent. */
  lemma NewestId(headers: map<nat, Header>, sent: seq<Header>, h: Header)
    requires LoggedOk(headers, sent) && Fits(sent, h)
    ensures AllOlder(headers, h.id) && AllOlder(Marked(headers, h), h.id)
  {
  }

  lemma MarkedOrder(queues: map<nat, seq<nat>>, headers: map<nat, Header>, h: Header)
    requires OrderOk(queues, headers)
    ensures OrderOk(queues, Marked(headers, h))
  {
    hide OrderOk, Marked;
    MarkedIds(headers, h);
    SameOrder(queues, headers, Marked(headers, h));
  }

  lemma ReceivedOrder(queues: map<nat, seq<nat>>, headers: map<nat, Header>, r: nat)
    requires OrderOk(queues, headers) && r in headers
    ensures OrderOk(queues, headers[r := headers[r].(received := true)])
  {
    hide OrderOk;
    SameOrder(queues, headers, headers[r := headers[r].(received := true)]);
  }

  lemma MarkedIds(headers: map<nat, Header>, h: Header)
    ensures Marked(headers, h).Keys == headers.Keys
    ensures forall q :: q in headers ==> Marked(headers, h)[q].id == headers[q].id
  {
  }

  lemma RepliedAfter(sent: seq<Header>, h: Header)
    ensures forall id :: RepliedIn(sent + [h], id) <==> RepliedIn(sent, id) || (h.reply && h.replyId == id)
  {
    var sent' := sent + [h];
    forall id
      ensures RepliedIn(sent', id) <==> RepliedIn(sent, id) || (h.reply && h.replyId == id)
    {
      if RepliedIn(sent, id) {
        var j :| 0 <= j < |sent| && sent[j].reply && sent[j].replyId == id;
        assert sent'[j] == sent[j];
      }
      if h.reply && h.replyId == id {
        assert sent'[|sent|] == h;
      }
    }
  }

  /** As `Answered`, but only the headers in `refs` have been looked at. */
  function AnsweredIn(headers: map<nat, Header>, id: nat, refs: set<nat>): map<nat, Header> {
    map r | r in headers :: if headers[r].id == id && r in refs then headers[r].(replied := true) else headers[r]
  }

  lemma AnsweredInStep(headers: map<nat, Header>, id: nat, refs: set<nat>, r: nat)
    requires r in headers
    ensures AnsweredIn(headers, id, refs)[r].id == headers[r].id
    ensures AnsweredIn(headers, id, refs + {r})
         == if headers[r].id == id then AnsweredIn(headers, id, refs)[r := AnsweredIn(headers, id, refs)[r].(replied := true)]
            else AnsweredIn(headers, id, refs)
  {
  }

  lemma AnsweredIsMine(headers: map<nat, Header>, sent: seq<Header>, h: Header)
    requires LoggedOk(headers, sent) && Fits(sent, h) && h.reply
    ensures forall r :: r in headers && headers[r].id == h.replyId ==> headers[r].to == h.from
  {
  }

  /** The replier has the message queued, the addressee sent it, and nobody has
      answered it. */
  ghost predicate Answerable(headers: map<nat, Header>, from: nat, to: nat, id: nat) {
    exists r :: r in headers && headers[r].to == from && headers[r].id == id && headers[r].from == to && !headers[r].replied
  }

  lemma ReplyFits(headers: map<nat, Header>, sent: seq<Header>, r: nat, h: Header)
    requires LoggedOk(headers, sent) && r in headers && headers[r].to == h.from && headers[r].from == h.to && !headers[r].replied
    requires h.id == |sent| + 1 && !h.replied && h.replyId == headers[r].id
    ensures Fits(sent, h)
  {
  }

  lemma ReceivedLogged(headers: map<nat, Header>, sent: seq<Header>, r: nat)
    requires LoggedOk(headers, sent) && r in headers
    ensures LoggedOk(headers[r := headers[r].(received := true)], sent)
  {
    hide RepliedIn;
  }

  lemma SameIdSameHeader(headers: map<nat, Header>, sent: seq<Header>, r: nat)
    requires LoggedOk(headers, sent) && r in headers
    ensures forall q :: q in headers && headers[q].id == headers[r].id ==> q == r
  {
  }

  lemma ReceivedKeeps(queues: map<nat, seq<nat>>, headers: map<nat, Header>, pool: seq<nat>, heap: set<nat>, r: nat)
    requires QueuesOk(queues, headers) && MemoryOk(headers, pool, heap) && r in headers
    ensures var headers' := headers[r := headers[r].(received := true)];
      QueuesOk(queues, headers') && MemoryOk(headers', pool, heap)
  {
  }

  lemma ReceivedBuffers(headers: map<nat, Header>, buffers: map<(nat, nat), nat>, r: nat)
    requires BuffersOk(headers, buffers) && r in headers
    ensures BuffersOk(headers[r := headers[r].(received := true)], buffers)
  {
    var headers' := headers[r := headers[r].(received := true)];
    forall k | k in buffers
      ensures exists q :: q in headers' && Buffered(headers'[q]) && (headers'[q].from, headers'[q].to) == k
    {
      var q :| q in headers && Buffered(headers[q]) && (headers[q].from, headers[q].to) == k;
      assert q in headers';
    }
  }

  lemma NothingQueued(queues: map<nat, seq<nat>>, headers: map<nat, Header>, p: nat)
    requires QueuesOk(queues, headers)
    ensures (p in queues && queues[p] != []) <==> HasMail(headers, p)
  {
    if p in queues && queues[p] != [] {
      assert queues[p][0] in headers;
    }
  }

  lemma QueuedHasHeader(queues: map<nat, seq<nat>>, headers: map<nat, Header>, p: nat, i: nat)
    requires QueuesOk(queues, headers) && p in queues && i < |queues[p]|
    ensures queues[p][i] in headers && headers[queues[p][i]].to == p
  {
  }

  lemma BufferIsContent(headers: map<nat, Header>, buffers: map<(nat, nat), nat>, r: nat)
    requires BuffersOk(headers, buffers) && r in headers && Buffered(headers[r])
    ensures (headers[r].from, headers[r].to) in buffers && buffers[(headers[r].from, headers[r].to)] == headers[r].content
  {
  }

  lemma DropLogged(headers: map<nat, Header>, sent: seq<Header>, r: nat)
    requires LoggedOk(headers, sent)
    ensures LoggedOk(headers - {r}, sent)
  {
  }

  /** All parts are kept when `h` is delivered in block `r`. */
  lemma DeliverKeeps(queues: map<nat, seq<nat>>, headers: map<nat, Header>, buffers: map<(nat, nat), nat>,
                     pool: seq<nat>, heap: set<nat>, sent: seq<Header>, r: nat, h: Header)
    requires QueuesOk(queues, headers) && OrderOk(queues, headers) && MemoryOk(headers, pool, heap) && BuffersOk(headers, buffers)
    requires LogOk(sent) && LoggedOk(headers, sent) && Fits(sent, h)
    requires h.to in queues && r !in headers && r !in pool && r in heap
    requires h.content in heap && h.content !in headers && h.content !in pool && h.content != r
    requires forall q :: q in headers ==> headers[q].content != r && headers[q].content != h.content
    requires Buffered(h) ==> (h.from, h.to) !in buffers
    ensures var headers' := Marked(headers, h)[r := h];
      && QueuesOk(Pushed(queues, h.to, r), headers') && OrderOk(Pushed(queues, h.to, r), headers') && MemoryOk(headers', pool, heap)
      && BuffersOk(headers', if Buffered(h) then buffers[(h.from, h.to) := h.content] else buffers)
      && LogOk(sent + [h]) && LoggedOk(headers', sent + [h])
  {
    hide QueuesOk, OrderOk, AllOlder, MemoryOk, BuffersOk, LogOk, LoggedOk, Fits, Buffered, Pushed;
    NewestId(headers, sent, h);
    MarkedOrder(queues, headers, h);
    AnsweredKeeps(queues, headers, pool, heap, h.replyId);
    AnsweredBuffers(headers, buffers, h.replyId);
    PushLog(sent, h);
    PushLogged(headers, sent, r, h);
    var marked := Marked(headers, h);
    assert marked.Keys == headers.Keys && forall q :: q in headers ==> marked[q].content == headers[q].content;
    hide *;
    PushQueues(queues, marked, r, h);
    PushOrder(queues, marked, r, h);
    PushMemory(marked, pool, heap, r, h);
    PushBuffers(marked, buffers, r, h);
  }

  class Messages {
    var queues: map<nat, seq<nat>>         // the message queue of each live process
    var headers: map<nat, Header>          // queued headers, by address
    var buffers: map<(nat, nat), nat>      // sender's buffer, by sender and receiver
    var pool: seq<nat>                     // spare header blocks
    var heap: set<nat>
    var idCounter: nat
    ghost var sent: seq<Header>

    ghost predicate Valid()
      reads this
    {
      && QueuesOk(queues, headers) && OrderOk(queues, headers) && MemoryOk(headers, pool, heap) && BuffersOk(headers, buffers)
      && LogOk(sent) && LoggedOk(headers, sent) && idCounter == |sent|
    }

    /** `msg_init`: before anything is sent every process has an empty queue, and the pool
        holds its minimum of spare headers. */
    constructor (processes: set<nat>, blocks: seq<nat>)
      requires |blocks| == POOL_MIN && NoRepeats(blocks)
      ensures Valid() && queues.Keys == processes && headers == map[] && buffers == map[] && sent == [] && idCounter == 0
      ensures pool == blocks && heap == set x | x in blocks
    {
      queues := map p | p in processes :: [];
      headers, buffers, pool, heap := map[], map[], blocks, set x | x in blocks;
      idCounter, sent := 0, [];
    }

    // ---------- header pool ----------

    ghost predicate FreshBlocks(blocks: seq<nat>)
      reads this
    {
      && |blocks| == POOL_MIN && (forall i :: 0 <= i < |blocks| ==> blocks[i] !in heap)
      && NoRepeats(blocks)
    }

    /** `copy_msg_header` up to the copy: a spare block, refilling an empty pool. */
    method TakeSpare(blocks: seq<nat>) returns (r: nat)
      requires MemoryOk(headers, pool, heap) && FreshBlocks(blocks)
      modifies this`pool, this`heap
      ensures MemoryOk(headers, pool, heap) && old(heap) <= heap
      ensures r in heap && r !in headers && r !in pool
      ensures old(pool) != [] ==> old(pool) == pool + [r] && heap == old(heap)
      ensures old(pool) == [] ==> blocks == pool + [r] && heap == old(heap) + set x | x in blocks
      ensures forall q :: q in headers ==> headers[q].content != r
      ensures forall x :: x in old(heap) && x !in old(pool) ==> x !in pool && x != r
    {
      if |pool| == 0 {
        pool := blocks;
        heap := heap + set x | x in blocks;
      }
      var back := |pool| - 1;
      r := pool[back];
      pool := pool[..back];
    }

    /** `release_msg_header`: back to the pool, or to the heap when the pool is full,
        which is then trimmed to one more than its minimum. */
    method ReleaseHeader(r: nat)
      requires MemoryOk(headers, pool, heap) && r in heap && r !in headers && r !in pool
      requires forall q :: q in headers ==> headers[q].content != r
      modifies this`pool, this`heap
      ensures MemoryOk(headers, pool, heap) && heap <= old(heap)
      ensures if |old(pool)| < POOL_MAX then pool == old(pool) + [r] && heap == old(heap)
              else pool == old(pool)[..POOL_MIN + 1] && r !in heap
      ensures forall x :: x in old(heap) && x !in old(pool) && x != r ==> x in heap && x !in pool
    {
      if |pool| >= POOL_MAX {
        heap := heap - {r};
        var i := |pool| - 1;
        while i > POOL_MIN
          invariant POOL_MIN <= i < |old(pool)| && pool == old(pool)[..i + 1]
          invariant MemoryOk(headers, pool, heap) && heap <= old(heap)
          invariant r !in heap
          invariant forall x :: x in old(heap) && x !in old(pool) && x != r ==> x in heap
        {
          heap := heap - {pool[i]};
          pool := pool[..i];
          i := i - 1;
        }
      } else {
        pool := pool + [r];
      }
    }

    // ---------- looking in a queue ----------

    /** The position in the queue of `p` of the message with this id, or -1. */
    method FindMessage(p: nat, id: nat) returns (i: int)
      requires QueuesOk(queues, headers)
      ensures -1 <= i && (i >= 0 ==> p in queues && i < |queues[p]| && headers[queues[p][i]].id == id)
      ensures i < 0 ==> forall r :: r in headers && headers[r].to == p ==> headers[r].id != id
    {
      if p !in queues {
        return -1;
      }
      i := 0;
      while i < |queues[p]|
        invariant 0 <= i <= |queues[p]|
        invariant forall j :: 0 <= j < i ==> headers[queues[p][j]].id != id
      {
        if headers[queues[p][i]].id == id {
          return;
        }
        i := i + 1;
      }
      i := -1;
    }

    /** The loop of `msg_send` that marks the answered message. */
    method MarkReplied(p: nat, id: nat)
      requires QueuesOk(queues, headers) && p in queues
      requires forall r :: r in headers && headers[r].id == id ==> headers[r].to == p
      modifies this`headers
      ensures headers == Answered(old(headers), id)
    {
      hide QueuesOk, Answered;
      var q := queues[p];
      ghost var before := headers;
      ghost var done: set<nat> := {};
      assert headers == AnsweredIn(before, id, done);
      QueuedHere(queues, headers, p);
      for i := 0 to |q|
        invariant headers == AnsweredIn(before, id, done)
        invariant done == set k | 0 <= k < i :: q[k]
      {
        assert q[i] in before;
        AnsweredInStep(before, id, done, q[i]);
        if headers[q[i]].id == id {
          headers := headers[q[i] := headers[q[i]].(replied := true)];
        }
        done := done + {q[i]};
      }
      AnsweredAll(before, id, done);
    }

    /** A queue holds exactly the headers to its process. */
    lemma QueuedHere(queues: map<nat, seq<nat>>, headers: map<nat, Header>, p: nat)
      requires QueuesOk(queues, headers) && p in queues
      ensures forall i :: 0 <= i < |queues[p]| ==> queues[p][i] in headers
      ensures forall r :: r in headers && headers[r].to == p ==> r in queues[p]
    {
    }

    lemma AnsweredAll(headers: map<nat, Header>, id: nat, refs: set<nat>)
      requires forall r :: r in headers && headers[r].id == id ==> r in refs
      ensures AnsweredIn(headers, id, refs) == Answered(headers, id)
    {
    }

    /** The message `id` is the last of its receiver's queue, behind all that were there. */
    ghost predicate Appended(was: map<nat, seq<nat>>, had: map<nat, Header>, to: nat, id: nat, r: nat)
      reads this
    {
      to in was && r !in had && r in headers && headers[r].id == id && headers[r].to == to && queues == was[to := was[to] + [r]]
    }

    /** The locked part of `msg_send`: mark the answered message, number the new one
        and queue a copy of it. */
    method Deliver(template: Header, blocks: seq<nat>, ghost before: map<(nat, nat), nat>) returns (id: nat, ghost r: nat)
      requires QueuesOk(queues, headers) && OrderOk(queues, headers) && MemoryOk(headers, pool, heap) && BuffersOk(headers, before)
      requires LogOk(sent) && LoggedOk(headers, sent) && idCounter == |sent| && FreshBlocks(blocks)
      requires template.to in queues && template.from in queues
      requires template.content in heap && template.content !in headers && template.content !in pool
      requires forall q :: q in headers ==> headers[q].content != template.content
      requires Buffered(template) ==> (template.from, template.to) !in before
      requires buffers == if Buffered(template) then before[(template.from, template.to) := template.content] else before
      requires Fits(sent, template.(id := idCounter + 1, received := false, replied := false))
      modifies this`queues, this`headers, this`pool, this`heap, this`idCounter, this`sent
      ensures Valid() && id == idCounter == old(idCounter) + 1
      ensures sent == old(sent) + [template.(id := id, received := false, replied := false)]
      ensures old(heap) <= heap && queues.Keys == old(queues).Keys && Appended(old(queues), old(headers), template.to, id, r)
      ensures headers == Marked(old(headers), template)[r := template.(id := id, received := false, replied := false)]
      ensures AllOlder(old(headers), id)
    {
      hide AllOlder, QueuesOk, OrderOk, MemoryOk, BuffersOk, LogOk, LoggedOk, Fits, Answered, RepliedIn, FreshBlocks;
      ghost var h := template.(id := idCounter + 1, received := false, replied := false);
      NewestId(headers, sent, h);
      if template.reply {
        AnsweredIsMine(headers, sent, h);
      }
      var block := TakeSpare(blocks);
      r := block;
      DeliverKeeps(queues, headers, before, pool, heap, sent, r, h);
      if template.reply {
        MarkReplied(template.from, template.replyId);
      }
      idCounter := idCounter + 1;
      id := idCounter;
      headers := headers[block := template.(id := id, received := false, replied := false)];
      queues := queues[template.to := queues[template.to] + [block]];
      sent := sent + [h];
    }

    // ---------- the operations ----------

    /** `proc_send_message` for a message that is not a reply. While the sender's
        buffer for this receiver is in use the sender waits: nothing changes. */
    method SendUser(from: nat, to: nat, ptr: nat, blocks: seq<nat>) returns (id: nat, wait: bool, ghost r: nat)
      requires Valid() && ptr !in heap && FreshBlocks(blocks) && ptr !in blocks
      modifies this
      ensures Valid() && queues.Keys == old(queues).Keys
      ensures wait <==> from in queues && to in queues && (from, to) in old(buffers)
      ensures id > 0 <==> from in queues && to in queues && !wait
      ensures id > 0 ==> id == idCounter == old(idCounter) + 1 && (from, to) in buffers
                         && sent == old(sent) + [Header(id, 0, true, false, from, to, false, false, ptr)]
      ensures id > 0 ==> Appended(old(queues), old(headers), to, id, r)
      ensures id == 0 ==> unchanged(this)
    {
      if from !in queues || to !in queues {
        return 0, false, 0;
      }
      if (from, to) in buffers {
        return 0, true, 0;
      }
      hide QueuesOk, OrderOk, MemoryOk, BuffersOk, LogOk, LoggedOk, RepliedIn, Appended, Answered;
      ghost var before := buffers;
      MoreMemory(headers, pool, heap, ptr);
      heap := heap + {ptr};
      buffers := buffers[(from, to) := ptr];
      id, r := Deliver(Header(0, 0, true, false, from, to, false, false, ptr), blocks, before);
      wait := false;
    }

    /** A message from the kernel: its content is its own allocation. */
    method SendKernel(to: nat, ptr: nat, blocks: seq<nat>) returns (id: nat, ghost r: nat)
      requires Valid() && 0 in queues && ptr !in heap && FreshBlocks(blocks) && ptr !in blocks
      modifies this
      ensures Valid() && queues.Keys == old(queues).Keys && buffers == old(buffers)
      ensures id > 0 <==> to in queues
      ensures id > 0 ==> id == idCounter == old(idCounter) + 1
                         && sent == old(sent) + [Header(id, 0, false, false, 0, to, false, false, ptr)]
      ensures id > 0 ==> Appended(old(queues), old(headers), to, id, r)
      ensures id == 0 ==> unchanged(this)
    {
      if to !in queues {
        return 0, 0;
      }
      hide QueuesOk, OrderOk, MemoryOk, BuffersOk, LogOk, LoggedOk, RepliedIn, Appended, Answered;
      MoreMemory(headers, pool, heap, ptr);
      heap := heap + {ptr};
      id, r := Deliver(Header(0, 0, false, false, 0, to, false, false, ptr), blocks, buffers);
    }

    /** `proc_send_message` for a reply. It is accepted exactly when the replier has
        the message queued, the addressee sent it, and nobody has answered it. A
        refused reply leaves its copy allocated, in no queue. */
    method SendReply(from: nat, to: nat, replyId: nat, ptr: nat, blocks: seq<nat>) returns (id: nat, ghost ref: nat)
      requires Valid() && ptr !in heap && FreshBlocks(blocks) && ptr !in blocks && from in queues
      modifies this
      ensures Valid() && queues.Keys == old(queues).Keys && buffers == old(buffers)
      ensures id > 0 <==> to in queues && Answerable(old(headers), from, to, replyId)
      ensures id > 0 ==> id == idCounter == old(idCounter) + 1
                         && sent == old(sent) + [Header(id, replyId, true, true, from, to, false, false, ptr)]
      ensures id > 0 ==> Appended(old(queues), old(headers), to, id, ref)
      ensures id == 0 ==> heap == old(heap) + {ptr} && headers == old(headers) && queues == old(queues) && sent == old(sent)
    {
      hide QueuesOk, OrderOk, MemoryOk, BuffersOk, LogOk, LoggedOk, RepliedIn, Fits, Appended, Answered;
      MoreMemory(headers, pool, heap, ptr);
      heap := heap + {ptr};
      if to !in queues {
        return 0, 0;
      }
      var i := FindMessage(from, replyId);
      if i < 0 {
        return 0, 0;
      }
      QueuedHasHeader(queues, headers, from, i);
      var r := queues[from][i];
      var prev := headers[r];
      SameIdSameHeader(headers, sent, r);
      if prev.to != from || prev.from != to || prev.replied {
        return 0, 0;
      }
      ReplyFits(headers, sent, r, Header(idCounter + 1, replyId, true, true, from, to, false, false, ptr));
      id, ref := Deliver(Header(0, replyId, true, true, from, to, false, false, ptr), blocks, buffers);
    }

    /** `msg_recv`: a copy of the oldest of the process's queued messages, which is marked
        received. */
    method Receive(p: nat) returns (found: bool, msg: Header)
      requires Valid()
      modifies this`headers
      ensures Valid()
      ensures found <==> p in queues && queues[p] != []
      ensures found <==> HasMail(old(headers), p)
      ensures found ==> msg == old(headers)[queues[p][0]] && headers == old(headers)[queues[p][0] := msg.(received := true)]
      ensures found ==> IsOldest(old(headers), p, msg)
      ensures !found ==> unchanged(this)
    {
      hide HasMail, IsOldest, QueuesOk, OrderOk, MemoryOk, BuffersOk, LogOk, LoggedOk, RepliedIn;
      NothingQueued(queues, headers, p);
      if p !in queues || queues[p] == [] {
        return false, Header(0, 0, false, false, 0, 0, false, false, 0);
      }
      var r := queues[p][0];
      QueuedHasHeader(queues, headers, p, 0);
      found, msg := true, headers[r];
      OldestFirst(queues, headers, p);
      ReceivedOrder(queues, headers, r);
      ReceivedLogged(headers, sent, r);
      ReceivedKeeps(queues, headers, pool, heap, r);
      ReceivedBuffers(headers, buffers, r);
      headers := headers[r := msg.(received := true)];
    }

    /** Takes the message out of its queue and frees what it owns. */
    method Unqueue(to: nat, i: nat)
      requires Valid() && to in queues && i < |queues[to]|
      modifies this
      ensures Valid() && queues == Dropped(old(queues), to, i) && sent == old(sent) && idCounter == old(idCounter)
      ensures var r := old(queues)[to][i]; var h := old(headers)[r];
        && headers == old(headers) - {r} && h.content in old(heap) && h.content !in heap
        && buffers == (if Buffered(h) then old(buffers) - {(h.from, h.to)} else old(buffers))
        && forall x :: x in old(heap) && x !in old(pool) && x != r && x != h.content ==> x in heap && x !in pool
    {
      hide QueuesOk, OrderOk, BuffersOk, LogOk, LoggedOk, RepliedIn;
      var r := queues[to][i];
      assert r in headers by { QueuedHasHeader(queues, headers, to, i); }
      var h := headers[r];
      DropQueues(queues, headers, to, i);
      DropOrder(queues, headers, to, i);
      DropMemory(headers, pool, heap, r);
      DropBuffers(headers, buffers, r);
      DropLogged(headers, sent, r);
      queues := queues[to := queues[to][..i] + queues[to][i + 1..]];
      headers := headers - {r};
      if Buffered(h) {
        assert (h.from, h.to) in buffers && buffers[(h.from, h.to)] == h.content by { BufferIsContent(old(headers), buffers, r); }
        heap := heap - {buffers[(h.from, h.to)]};
        buffers := buffers - {(h.from, h.to)};
      } else {
        heap := heap - {h.content};
      }
      ReleaseHeader(r);
    }

    /** `msg_acknowledge`: the message leaves its queue, its header goes back to the
        pool and its content is freed, once; a sender's buffer becomes available. */
    method Acknowledge(to: nat, id: nat) returns (found: bool, ghost i: nat)
      requires Valid()
      modifies this
      ensures Valid() && sent == old(sent) && idCounter == old(idCounter)
      ensures found <==> exists r :: r in old(headers) && old(headers)[r].to == to && old(headers)[r].id == id
      ensures found ==> to in old(queues) && i < |old(queues)[to]| && old(queues)[to][i] in old(headers)
      ensures found ==> var q := old(queues)[to]; queues == old(queues)[to := q[..i] + q[i + 1..]]
      ensures found ==> var r := old(queues)[to][i]; var h := old(headers)[r];
        && h.to == to && h.id == id && headers == old(headers) - {r} && h.content in old(heap) && h.content !in heap
        && buffers == (if Buffered(h) then old(buffers) - {(h.from, to)} else old(buffers))
        && forall x :: x in old(heap) && x !in old(pool) && x != r && x != h.content ==> x in heap && x !in pool
      ensures !found ==> unchanged(this)
    {
      hide OrderOk, MemoryOk, BuffersOk, LogOk, LoggedOk, RepliedIn;
      var at := FindMessage(to, id);
      if at < 0 {
        return false, 0;
      }
      found, i := true, at;
      QueuedHasHeader(queues, headers, to, at);
      Unqueue(to, at);
    }
  }
}
