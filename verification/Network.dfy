/** The network between client and server. Every datagram that was ever sent stays deliverable, so a run may lose,
    duplicate and reorder datagrams at will. */
module Network {
  import opened Words
  import opened DebugServer

  datatype World = World(server: Server, requests: set<bytes>, replies: set<bytes>)

  /** One copy of a request reaches the server: the bytes that lie behind it in the packet buffer, and the memory that
      code run by it would leave behind, are up to the environment. */
  datatype Delivery = Delivery(data: bytes, tail: bytes, after: Memory)

  function Deliver(w: World, d: Delivery): World
    requires |d.data| <= MAX_PAYLOAD
  {
    var r := Parse(d.data, d.tail);
    assert r.Write? ==> |r.data| <= |d.data| by { ParseFits(d.data, d.tail); }
    var reply := Reply(w.server, r);
    World(Effect(w.server, r, d.after), w.requests, if reply.Some? then w.replies + {reply.value} else w.replies)
  }

  /** A schedule delivers only datagrams that were sent, over packet buffers with a possible tail. */
  predicate Schedulable(requests: set<bytes>, tails: bytes -> bool, ds: seq<Delivery>)
  {
    forall i :: 0 <= i < |ds| ==> ds[i].data in requests && tails(ds[i].tail) && |ds[i].data| <= MAX_PAYLOAD
  }

  function Run(w: World, ds: seq<Delivery>): World
    requires forall i :: 0 <= i < |ds| ==> |ds[i].data| <= MAX_PAYLOAD
    decreases |ds|
  {
    if ds == [] then w else Run(Deliver(w, ds[0]), ds[1..])
  }

  // ---------- what the client does and hears ----------

  datatype Event = Sent(request: bytes) | Heard(reply: Option<bytes>)

  /** A retry loop seen from the socket: before each wait the request goes out, and a wait ends with a reply or without. */
  function Tries(request: bytes, heard: seq<Option<bytes>>): (es: seq<Event>)
    ensures |es| == 2 * |heard|
  {
    if heard == [] then []
    else Tries(request, heard[..|heard| - 1]) + [Sent(request), Heard(heard[|heard| - 1])]
  }

  lemma TriesSnoc(request: bytes, heard: seq<Option<bytes>>, reply: Option<bytes>)
    ensures Tries(request, heard + [reply]) == Tries(request, heard) + [Sent(request), Heard(reply)]
  {
    assert (heard + [reply])[..|heard|] == heard;
  }

  /** One to three waits; only the last can have brought a reply that ends the loop, and fewer than three mean it did. */
  ghost predicate UpToThree(heard: seq<Option<bytes>>, ends: bytes -> bool)
  {
    && 1 <= |heard| <= 3
    && (forall i :: 0 <= i < |heard| - 1 && heard[i].Some? ==> !ends(heard[i].value))
    && (|heard| < 3 ==> heard[|heard| - 1].Some? && ends(heard[|heard| - 1].value))
  }

  /** Waits that brought nothing that ends the loop. */
  ghost predicate Unheeded(heard: seq<Option<bytes>>, ends: bytes -> bool)
  {
    forall i :: 0 <= i < |heard| && heard[i].Some? ==> !ends(heard[i].value)
  }

  lemma OneMoreWait(heard: seq<Option<bytes>>, ends: bytes -> bool, reply: Option<bytes>)
    requires Unheeded(heard, ends) && |heard| < 3
    ensures Last(heard + [reply]) == reply
    ensures if reply.Some? && ends(reply.value) then UpToThree(heard + [reply], ends) else Unheeded(heard + [reply], ends)
  {
  }

  lemma ThreeWaits(heard: seq<Option<bytes>>, ends: bytes -> bool)
    requires Unheeded(heard, ends) && |heard| == 3
    ensures UpToThree(heard, ends) && (Last(heard).Some? ==> !ends(Last(heard).value))
  {
  }

  /** At most two waits in vain, then a reply. */
  ghost predicate AtLast(heard: seq<Option<bytes>>, reply: Option<bytes>)
  {
    1 <= |heard| <= 3 && Last(heard) == reply && forall i :: 0 <= i < |heard| - 1 ==> heard[i].None?
  }

  lemma AtLastEnds(heard: seq<Option<bytes>>, ends: bytes -> bool, reply: bytes)
    requires AtLast(heard, Some(reply)) && ends(reply)
    ensures UpToThree(heard, ends)
  {
  }

  /** What the last wait brought. */
  function Last(heard: seq<Option<bytes>>): Option<bytes>
  {
    if heard == [] then None else heard[|heard| - 1]
  }

  /** The client's socket, with the whole environment behind it. */
  class Link {
    var w: World
    ghost var events: seq<Event>   // everything sent and heard so far
    const tails: bytes -> bool   // what may lie behind a datagram in a packet buffer

    constructor (w: World, tails: bytes -> bool)
      ensures this.w == w && this.tails == tails
    {
      this.w, this.tails := w, tails;
      this.events := [];
    }

    /** sendto: the datagram is in flight from now on, or the call fails. The callers do not notice a failure: its -1 is
        compared as an unsigned number. */
    method Send(p: bytes)
      modifies this`w, this`events
      ensures events == old(events) + [Sent(p)]
      ensures w == old(w) || w == old(w).(requests := old(w).requests + {p})
    {
      var ok: bool := *;
      events := events + [Sent(p)];
      if ok {
        w := w.(requests := w.requests + {p});
      }
    }

    /** Time passes: the environment delivers any schedule of the datagrams in flight. */
    method Idle() returns (ghost ds: seq<Delivery>)
      modifies this`w
      ensures Schedulable(old(w).requests, tails, ds)
      ensures w == Run(old(w), ds)
    {
      var choice: seq<Delivery> := *;
      if !Schedulable(w.requests, tails, choice) { choice := []; }
      ds := choice;
      w := Run(w, choice);
    }

    /** select and recvfrom: a timeout, or any reply that is in flight. */
    method Receive() returns (r: Option<bytes>)
      modifies this`events
      ensures events == old(events) + [Heard(r)]
      ensures r.Some? ==> r.value in w.replies
    {
      r := *;
      if r.Some? && r.value !in w.replies { r := None; }
      events := events + [Heard(r)];
    }
  }
}
