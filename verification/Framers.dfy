/** The framer's scheduling state, updated in place, together with the priority words of its streams. */
module Framers {
  import opened Common
  import opened Scheduling

  class Framer {
    /** The streams' priorities, which change outside the framer's lock. */
    var priority: map<nat, Priority>
    var activeStreams: map<nat, nat>
    /** For each urgency u the incremental streams at 2u, and the others, a heap by stream ID, at 2u + 1. */
    const queues: array<seq<Entry>>
    const lastSendWasIncremental: array<bool>

    ghost var pending: multiset<nat>
    ghost var removed: set<nat>

    ghost function View(): State
      reads this, queues, lastSendWasIncremental
    {
      State(priority, activeStreams, queues[..], lastSendWasIncremental[..], pending, removed)
    }

    ghost predicate Valid()
      reads this, queues, lastSendWasIncremental
    {
      Invariant(View())
    }

    constructor ()
      ensures Valid() && View() == Initial() && fresh(queues) && fresh(lastSendWasIncremental)
    {
      priority, activeStreams := map[], map[];
      queues := new seq<Entry>[2 * LEVELS](_ => []);
      lastSendWasIncremental := new bool[LEVELS](_ => false);
      pending, removed := multiset{}, {};
      new;
      InitialIsInvariant();
      assert queues[..] == Initial().queues && lastSendWasIncremental[..] == Initial().lastIncremental;
    }

    method OpenStream(id: nat)
      requires Valid() && id !in priority
      modifies this`priority
      ensures Valid() && View() == Apply(old(View()), Step.OpenStream(id))
    {
      hide Invariant;
      StepKeepsInvariant(View(), Step.OpenStream(id));
      priority := priority[id := DEFAULT_PRIORITY];
    }

    /**
     Changes the priority; the framer is told later. The generation wraps around, which can make an old entry live.
     */
    method SetPriority(id: nat, urgency: int, incremental: bool)
      requires Valid() && id in priority
      modifies this`priority, this`pending
      ensures View() == Apply(old(View()), Step.SetPriority(id, urgency, incremental))
      ensures Shape(old(View())) && (Valid() <==> NoClash(old(View()), Step.SetPriority(id, urgency, incremental)))
    {
      InvariantShape(View());
      hide Invariant;
      StepKeepsInvariant(View(), Step.SetPriority(id, urgency, incremental));
      var clipped := Max(0, Min(urgency, 7));
      var p := priority[id];
      if p.urgency == clipped && p.incremental == incremental {
        return;
      }
      priority := priority[id := Priority(clipped, incremental, (p.generation + 1) % (MAX_GENERATION + 1))];
      pending := pending + multiset{id};
    }

    /** Queues the stream with its current generation. */
    method QueueStream(id: nat)
      requires queues.Length == 2 * LEVELS && id in priority && 0 <= priority[id].urgency < LEVELS
      modifies this`activeStreams, queues
      ensures View() == Queue(old(View()), id)
    {
      var p := priority[id];
      var e := Entry(id, p.generation);
      if p.incremental {
        queues[2 * p.urgency] := queues[2 * p.urgency] + [e];
      } else {
        queues[2 * p.urgency + 1] := queues[2 * p.urgency + 1] + [e];
      }
      activeStreams := activeStreams[id := p.generation];
    }

    /** If there is no change, or the stream has no data, nothing is queued. */
    method UpdateStreamPriority(id: nat)
      requires Valid()
      modifies this`activeStreams, this`pending, queues
      ensures Valid() && View() == Apply(old(View()), Step.UpdateStreamPriority(id))
    {
      hide Invariant, Queue;
      StepKeepsInvariant(View(), Step.UpdateStreamPriority(id));
      InvariantShape(View());
      pending := pending - multiset{id};
      if id !in activeStreams {
        return;
      }
      InvariantMeans(old(View()), id);
      if activeStreams[id] != priority[id].generation {
        QueueStream(id);
      }
    }

    /** A stream that was removed before may be added while its old entry is still queued. */
    method AddActiveStream(id: nat)
      requires Valid() && id in priority
      modifies this`activeStreams, this`removed, queues
      ensures View() == Apply(old(View()), Step.AddActiveStream(id))
      ensures Shape(old(View())) && (Valid() <==> NoClash(old(View()), Step.AddActiveStream(id)))
      ensures id !in old(removed) ==> Valid()
    {
      hide Invariant, Queue;
      StepKeepsInvariant(View(), Step.AddActiveStream(id));
      InvariantMeans(View(), id);
      InvariantShape(View());
      if id in activeStreams && activeStreams[id] == priority[id].generation {
        return;
      }
      removed := removed - {id};
      QueueStream(id);
    }

    /** The queue entries stay; they are found stale later. */
    method RemoveActiveStream(id: nat)
      requires Valid()
      modifies this`activeStreams, this`removed
      ensures Valid() && View() == Apply(old(View()), Step.RemoveActiveStream(id))
    {
      hide Invariant;
      StepKeepsInvariant(View(), Step.RemoveActiveStream(id));
      activeStreams := activeStreams - {id};
      removed := removed + {id};
    }

    /** A position with the smallest stream ID. */
    method PeekHeap(q: seq<Entry>) returns (k: nat)
      requires q != []
      ensures IsMin(q, k)
    {
      k := 0;
      for i := 1 to |q|
        invariant k < i && forall j :: 0 <= j < i ==> q[k].id <= q[j].id
      {
        if q[i].id < q[k].id {
          k := i;
        }
      }
    }

    /**
     The next stream at that urgency, if it still has data; hasMore is what the stream says after its frame is popped.
     A stream that is served is live; an entry that is dropped is not.
     */
    method GetNextStreamFrame(urgency: nat, hasMore: bool) returns (served: Option<nat>, ghost k: nat)
      requires Valid() && urgency < LEVELS
      modifies this`activeStreams, queues, lastSendWasIncremental
      ensures Enabled(old(View()), GetNext(urgency, k, hasMore))
      ensures Valid() && View() == Apply(old(View()), GetNext(urgency, k, hasMore))
      ensures served.Some? ==> served.value in old(activeStreams) && (served.value in activeStreams <==> hasMore)
      ensures var i := if ServesIncremental(old(View()), urgency) then 2 * urgency else 2 * urgency + 1;
              var q := old(queues[..])[i];
              served == if k < |q| && IsLive(old(View()), q[k]) then Some(q[k].id) else None
    {
      hide Invariant, ServeEntry;
      InvariantShape(View());
      ghost var s := View();
      k := 0;
      served := None;
      var non := queues[2 * urgency + 1];
      if |non| == 0 || (!lastSendWasIncremental[urgency] && |queues[2 * urgency]| > 0) {
        StepKeepsInvariant(s, GetNext(urgency, 0, hasMore));
        if |queues[2 * urgency]| > 0 {
          served := Serve(2 * urgency, 0, true, hasMore);
        }
      } else {
        var i := PeekHeap(non);
        k := i;
        StepKeepsInvariant(s, GetNext(urgency, k, hasMore));
        served := Serve(2 * urgency + 1, i, false, hasMore);
      }
    }

    method Serve(i: nat, k: nat, incremental: bool, hasMore: bool) returns (served: Option<nat>)
      requires i < queues.Length && k < |queues[i]| && i / 2 < lastSendWasIncremental.Length
      requires forall id :: id in activeStreams ==> id in priority
      modifies this`activeStreams, queues, lastSendWasIncremental
      ensures View() == ServeEntry(old(View()), i, k, incremental, hasMore)
      ensures served == if IsLive(old(View()), old(queues[i])[k]) then Some(old(queues[i])[k].id) else None
      ensures served.Some? ==> served.value in old(activeStreams) && (served.value in activeStreams <==> hasMore)
    {
      var entry := queues[i][k];
      if entry.id !in activeStreams || priority[entry.id].generation != entry.generation {
        queues[i] := DropAt(queues[i], k);
        return None;
      }
      lastSendWasIncremental[i / 2] := incremental;
      if !hasMore {
        activeStreams := activeStreams - {entry.id};
        queues[i] := DropAt(queues[i], k);
      } else if incremental {
        queues[i] := DropAt(queues[i], k) + [entry];
      }
      return Some(entry.id);
    }
  }

  lemma InvariantMeans(s: State, id: nat)
    requires Invariant(s) && id in s.priority
    ensures |s.queues| == 2 * LEVELS && 0 <= s.priority[id].urgency < LEVELS
    ensures id !in s.removed ==> NoClash(s, Step.AddActiveStream(id))
  {
    assert StreamOk(s, id);
  }
}
