/** The manager of the peer's connection IDs, updated in place. */
module ConnIdManagers {
  import opened Common
  import opened ConnectionIds

  /** Entries with smaller sequence numbers are passed over. */
  lemma {:induction false} InsertSkips(q: seq<ConnID>, i: nat, c: ConnID)
    requires i <= |q| && forall j :: 0 <= j < i ==> q[j].seqNo < c.seqNo
    ensures var r := Insert(q[i..], c);
            Insert(q, c) == if r.Err? then Err else Ok(q[..i] + r.value)
  {
    if i == 0 {
      assert q[0..] == q;
      var r := Insert(q, c);
      assert r.Ok? ==> q[..0] + r.value == r.value;
    } else {
      InsertSkips(q[1..], i - 1, c);
      assert q[1..][i - 1..] == q[i..];
      var r := Insert(q[i..], c);
      if r.Ok? {
        assert q[..i] + r.value == [q[0]] + (q[1..][..i - 1] + r.value);
      }
    }
  }

  lemma KeepSnoc(q: seq<ConnID>, i: nat, rpt: nat)
    requires i < |q|
    ensures Keep(q[i..], rpt) == (if q[i].seqNo >= rpt then [q[i]] else []) + Keep(q[i + 1..], rpt)
    ensures Below(q[i..], rpt) == (if q[i].seqNo < rpt then [q[i].seqNo] else []) + Below(q[i + 1..], rpt)
  {
    assert q[i..][1..] == q[i + 1..];
  }

  lemma KeepNothing(q: seq<ConnID>, rpt: nat)
    ensures Keep(q[|q|..], rpt) == [] && Below(q[|q|..], rpt) == [] && q[0..] == q
  {
  }

  class ConnIDManager {
    var queue: seq<ConnID>
    var highestProbingID: nat
    var pathProbing: map<nat, ConnID>
    var handshakeComplete: bool
    var activeSequenceNumber: nat
    var highestRetired: nat
    var activeConnectionID: nat
    var packetsSinceLastChange: nat
    var packetsPerConnectionID: nat
    /** The sequence numbers of the RETIRE_CONNECTION_ID frames queued so far. */
    var retired: seq<nat>

    ghost var everOnPath: set<nat>

    ghost function View(): State
      reads this
    {
      State(queue, activeSequenceNumber, activeConnectionID, highestRetired, highestProbingID, pathProbing,
            handshakeComplete, packetsSinceLastChange, packetsPerConnectionID, everOnPath, retired)
    }

    constructor (id: nat)
      ensures View() == Initial(id) && Valid(View())
    {
      queue, highestProbingID, pathProbing, handshakeComplete := [], 0, map[], false;
      activeSequenceNumber, highestRetired, activeConnectionID := 0, 0, id;
      packetsSinceLastChange, packetsPerConnectionID, retired, everOnPath := 0, 0, [], {};
    }

    /** Takes the IDs below rpt off their paths, in any order. */
    method RetirePaths(rpt: nat) returns (ghost pathRetired: seq<nat>)
      modifies this`pathProbing, this`retired
      ensures pathProbing == PathsFrom(old(pathProbing), rpt) && retired == old(retired) + pathRetired
      ensures FromPaths(old(View()), rpt, pathRetired)
    {
      pathRetired := [];
      var ids := pathProbing.Keys;
      while ids != {}
        invariant ids <= pathProbing.Keys <= old(pathProbing).Keys
        invariant forall p :: p in old(pathProbing) ==>
                    (p in pathProbing <==> p in ids || old(pathProbing)[p].seqNo >= rpt)
        invariant forall p :: p in pathProbing ==> pathProbing[p] == old(pathProbing)[p]
        invariant retired == old(retired) + pathRetired && FromPaths(old(View()), rpt, pathRetired)
        decreases ids
      {
        HasElement(ids);
        var p :| p in ids;
        ids := ids - {p};
        var entry := pathProbing[p];
        if entry.seqNo < rpt {
          retired := retired + [entry.seqNo];
          pathRetired := pathRetired + [entry.seqNo];
          pathProbing := pathProbing - {p};
        }
      }
    }

    method RetireQueued(rpt: nat)
      modifies this`queue, this`retired
      ensures queue == Keep(old(queue), rpt) && retired == old(retired) + Below(old(queue), rpt)
    {
      hide Keep, Below;
      var newQueue: seq<ConnID> := [];
      KeepNothing(queue, rpt);
      for i := 0 to |queue|
        invariant queue == old(queue)
        invariant newQueue + Keep(queue[i..], rpt) == Keep(queue, rpt)
        invariant retired + Below(queue[i..], rpt) == old(retired) + Below(queue, rpt)
      {
        KeepSnoc(queue, i, rpt);
        ghost var keep, below := Keep(queue[i + 1..], rpt), Below(queue[i + 1..], rpt);
        assert newQueue + ([queue[i]] + keep) == newQueue + [queue[i]] + keep && [] + keep == keep;
        assert retired + ([queue[i].seqNo] + below) == retired + [queue[i].seqNo] + below && [] + below == below;
        if queue[i].seqNo >= rpt {
          newQueue := newQueue + [queue[i]];
        } else {
          retired := retired + [queue[i].seqNo];
        }
      }
      assert newQueue + [] == newQueue && retired + [] == retired;
      queue := newQueue;
    }

    /** Appends, or else finds the position in the sorted queue. */
    method AddConnectionID(c: ConnID) returns (ok: bool)
      requires Sorted(queue)
      modifies this`queue
      ensures ok == Insert(old(queue), c).Ok? && queue == if ok then Insert(old(queue), c).value else old(queue)
    {
      if |queue| == 0 || queue[|queue| - 1].seqNo < c.seqNo {
        InsertSkips(queue, |queue|, c);
        assert queue[|queue|..] == [] && queue[..|queue|] == queue;
        queue := queue + [c];
        return true;
      }
      for i := 0 to |queue|
        invariant queue == old(queue) && forall j :: 0 <= j < i ==> queue[j].seqNo < c.seqNo
      {
        InsertSkips(queue, i, c);
        var entry := queue[i];
        if entry.seqNo == c.seqNo {
          assert queue[..i] + queue[i..] == queue;
          return entry == c;
        }
        if entry.seqNo > c.seqNo {
          queue := queue[..i] + ([c] + queue[i..]);
          return true;
        }
      }
      assert false;
    }

    method UpdateConnectionID(packetsPerID: nat)
      requires queue != []
      modifies this`queue, this`retired, this`highestRetired, this`activeSequenceNumber, this`activeConnectionID,
               this`packetsSinceLastChange, this`packetsPerConnectionID
      ensures View() == Update(old(View()), packetsPerID)
    {
      retired := retired + [activeSequenceNumber];
      highestRetired := Max(highestRetired, activeSequenceNumber);
      var front := queue[0];
      queue := queue[1..];
      activeSequenceNumber, activeConnectionID := front.seqNo, front.id;
      packetsSinceLastChange, packetsPerConnectionID := 0, packetsPerID;
    }

    /**
     A NEW_CONNECTION_ID frame. Too many connection IDs are an error, as are two with the same number.
     A frame that was not retired on arrival leaves nothing below its Retire Prior To field.
     */
    method Add(f: Frame, packetsPerID: nat) returns (ok: bool, ghost pathRetired: seq<nat>)
      requires Valid(View()) && f.retirePriorTo <= f.conn.seqNo
      modifies this
      ensures FromPaths(old(View()), f.retirePriorTo, pathRetired)
      ensures var r := ConnectionIds.Add(old(View()), f, pathRetired, packetsPerID);
              && (r.Ok? ==> View() == r.value && Valid(View()))
              && ok == (r.Ok? && |r.value.queue| < MAX_ACTIVE_CONNECTION_IDS)
      ensures ok && !RetiredOnArrival(old(View()), f.conn.seqNo) ==> NoneBelow(View(), f.retirePriorTo)
    {
      ok, pathRetired := AddFrame(f, packetsPerID);
      AddKeepsValid(old(View()), f, pathRetired, packetsPerID);
      if ok && |queue| >= MAX_ACTIVE_CONNECTION_IDS {
        ok := false;
      }
    }

    method AddFrame(f: Frame, packetsPerID: nat) returns (ok: bool, ghost pathRetired: seq<nat>)
      requires Valid(View()) && f.retirePriorTo <= f.conn.seqNo
      modifies this
      ensures FromPaths(old(View()), f.retirePriorTo, pathRetired)
      ensures var r := ConnectionIds.Add(old(View()), f, pathRetired, packetsPerID);
              ok == r.Ok? && (ok ==> View() == r.value)
    {
      hide Insert, Keep, Below, PathsFrom, FromPaths;
      ghost var s := View();
      if f.conn.seqNo < Max(activeSequenceNumber, highestProbingID) || f.conn.seqNo < highestRetired {
        retired := retired + [f.conn.seqNo];
        NoPaths(s, f.retirePriorTo);
        return true, [];
      }
      pathRetired := RetirePaths(f.retirePriorTo);
      if f.retirePriorTo > highestRetired {
        RetireQueued(f.retirePriorTo);
        highestRetired := f.retirePriorTo;
      }
      RetirePriorKeepsValid(s, f.retirePriorTo, pathRetired);
      assert View() == RetirePrior(s, f.retirePriorTo, pathRetired);
      if f.conn.seqNo == activeSequenceNumber {
        return true, pathRetired;
      }
      InsertIsSorted(queue, f.conn);
      ok := AddConnectionID(f.conn);
      if !ok {
        return;
      }
      if activeSequenceNumber < f.retirePriorTo {
        UpdateConnectionID(packetsPerID);
      }
    }

    /**
     The connection ID that comes with a preferred address has sequence number 1. It is queued at any time; the queue
     stays above the active and the retired numbers exactly if the first ID is active and at most that one was
     retired.
     */
    method AddFromPreferredAddress(id: nat, token: nat) returns (ok: bool)
      requires Valid(View())
      modifies this`queue
      ensures ok == Insert(old(queue), ConnID(1, id, token)).Ok?
      ensures queue == if ok then Insert(old(queue), ConnID(1, id, token)).value else old(queue)
      ensures ok ==> (Valid(View()) <==> activeSequenceNumber == 0 && highestRetired <= 1)
    {
      hide Insert;
      var c := ConnID(1, id, token);
      InsertIsSorted(queue, c);
      ok := AddConnectionID(c);
      if ok {
        assert c in queue;
        MembersAboveWith(old(queue), queue, c, activeSequenceNumber);
        MembersAboveWith(old(queue), queue, c, highestRetired - 1);
      }
    }

    method SetHandshakeComplete()
      requires Valid(View())
      modifies this`handshakeComplete
      ensures Valid(View()) && View() == Apply(old(View()), HandshakeComplete)
    {
      handshakeComplete := true;
    }

    method PacketSent()
      requires Valid(View())
      modifies this`packetsSinceLastChange
      ensures Valid(View()) && View() == Apply(old(View()), SentPacket)
    {
      packetsSinceLastChange := packetsSinceLastChange + 1;
    }

    method GetActive(packetsPerID: nat) returns (id: nat)
      requires Valid(View())
      modifies this
      ensures Valid(View()) && View() == Get(old(View()), packetsPerID) && id == activeConnectionID
      ensures old(activeSequenceNumber) <= activeSequenceNumber
    {
      var shouldUpdate := handshakeComplete &&
      ((|queue| > 0 && activeSequenceNumber == 0)
       || (2 * |queue| >= MAX_ACTIVE_CONNECTION_IDS && packetsSinceLastChange >= packetsPerConnectionID));
      if shouldUpdate {
        UpdateKeepsValid(View(), packetsPerID);
        UpdateConnectionID(packetsPerID);
      }
      id := activeConnectionID;
    }

    /** The same path gets the same connection ID again. */
    method GetConnIDForPath(p: nat) returns (id: Option<nat>)
      requires Valid(View())
      modifies this`queue, this`pathProbing, this`highestProbingID, this`everOnPath
      ensures Valid(View()) && View() == AssignPath(old(View()), p)
      ensures p in old(pathProbing) ==> id == Some(old(pathProbing)[p].id) && pathProbing == old(pathProbing)
      ensures id.None? <==> p !in old(pathProbing) && old(queue) == []
    {
      if p in pathProbing {
        return Some(pathProbing[p].id);
      }
      if |queue| == 0 {
        return None;
      }
      var front := queue[0];
      queue := queue[1..];
      pathProbing := pathProbing[p := front];
      highestProbingID := front.seqNo;
      everOnPath := everOnPath + {front.seqNo};
      return Some(front.id);
    }

    method RetireConnIDForPath(p: nat)
      requires Valid(View())
      modifies this`pathProbing, this`retired
      ensures Valid(View()) && View() == RetirePath(old(View()), p) && p !in pathProbing
    {
      if p !in pathProbing {
        return;
      }
      retired := retired + [pathProbing[p].seqNo];
      pathProbing := pathProbing - {p};
    }
  }

  lemma MembersAboveWith(q: seq<ConnID>, r: seq<ConnID>, c: ConnID, n: int)
    requires AllAbove(q, n) && forall d :: d in r <==> d in q || d == c
    ensures AllAbove(r, n) <==> c.seqNo > n
  {
    assert c in r;
    if c.seqNo > n {
      InsertedAbove(q, r, c, n);
    }
  }

  lemma NoPaths(s: State, rpt: nat)
    ensures FromPaths(s, rpt, [])
  {
  }
}
