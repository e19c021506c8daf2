/**
 The connection IDs a peer has issued: one in use, some queued, some assigned to paths (sections 5.1.1 and 5.1.2 of
 RFC 9000).
 */
module ConnectionIds {
  import opened Common

  const MAX_ACTIVE_CONNECTION_IDS: nat := 4

  datatype ConnID = ConnID(seqNo: nat, id: nat, token: nat)

  datatype Frame = Frame(conn: ConnID, retirePriorTo: nat)

  /**
   everOnPath holds the sequence numbers that were ever given to a path,
   and retired those RETIRE_CONNECTION_ID frames were queued for, in order.
   */
  datatype State = State(
    queue: seq<ConnID>, active: nat, activeID: nat, highestRetired: nat, highestProbing: nat, paths: map<nat, ConnID>,
    handshakeComplete: bool, packets: nat, packetsPerID: nat,
    everOnPath: set<nat>, retired: seq<nat>)

  // ---------------------------------------------------------------- operations

  function Keep(q: seq<ConnID>, rpt: nat): seq<ConnID> {
    if q == [] then [] else (if q[0].seqNo >= rpt then [q[0]] else []) + Keep(q[1..], rpt)
  }

  function Below(q: seq<ConnID>, rpt: nat): seq<nat> {
    if q == [] then [] else (if q[0].seqNo < rpt then [q[0].seqNo] else []) + Below(q[1..], rpt)
  }

  /** In order of sequence numbers; the same ID again changes nothing, another with its number is an error. */
  function Insert(q: seq<ConnID>, c: ConnID): Result<seq<ConnID>> {
    if q == [] then Ok([c])
    else if q[0].seqNo == c.seqNo then (if q[0] == c then Ok(q) else Err)
    else if q[0].seqNo > c.seqNo then Ok([c] + q)
    else
      var r := Insert(q[1..], c);
      if r.Err? then Err else Ok([q[0]] + r.value)
  }

  /** Goes over to the first connection ID in the queue and retires the active one. */
  function Update(s: State, packetsPerID: nat): State
    requires s.queue != []
  {
    s.(queue := s.queue[1..], active := s.queue[0].seqNo, activeID := s.queue[0].id,
       highestRetired := Max(s.highestRetired, s.active), retired := s.retired + [s.active],
       packets := 0, packetsPerID := packetsPerID)
  }

  predicate RetiredOnArrival(s: State, seqNo: nat) {
    seqNo < Max(s.active, s.highestProbing) || seqNo < s.highestRetired
  }

  function PathsFrom(paths: map<nat, ConnID>, rpt: nat): map<nat, ConnID> {
    map p | p in paths && paths[p].seqNo >= rpt :: paths[p]
  }

  /** What a NEW_CONNECTION_ID frame retires on paths and in the queue. pathRetired lists the former in any order. */
  function RetirePrior(s: State, rpt: nat, pathRetired: seq<nat>): State {
    var s1 := s.(paths := PathsFrom(s.paths, rpt), retired := s.retired + pathRetired);
    if rpt > s.highestRetired
    then s1.(queue := Keep(s.queue, rpt), retired := s1.retired + Below(s.queue, rpt), highestRetired := rpt)
    else s1
  }

  function Add(s: State, f: Frame, pathRetired: seq<nat>, packetsPerID: nat): Result<State> {
    if RetiredOnArrival(s, f.conn.seqNo) then Ok(s.(retired := s.retired + [f.conn.seqNo]))
    else
      var s1 := RetirePrior(s, f.retirePriorTo, pathRetired);
      if f.conn.seqNo == s.active then Ok(s1)
      else
        var q := Insert(s1.queue, f.conn);
        if q.Err? || q.value == [] then Err
        else
          var s2 := s1.(queue := q.value);
          Ok(if s2.active < f.retirePriorTo then Update(s2, packetsPerID) else s2)
  }

  predicate ShouldUpdate(s: State) {
    && s.handshakeComplete
    && ((|s.queue| > 0 && s.active == 0) || (2 * |s.queue| >= MAX_ACTIVE_CONNECTION_IDS && s.packets >= s.packetsPerID))
  }

  function Get(s: State, packetsPerID: nat): State {
    if ShouldUpdate(s) && s.queue != [] then Update(s, packetsPerID) else s
  }

  function AssignPath(s: State, p: nat): State {
    if p in s.paths || s.queue == [] then s
    else
      var front := s.queue[0];
      s.(queue := s.queue[1..], paths := s.paths[p := front], highestProbing := front.seqNo,
         everOnPath := s.everOnPath + {front.seqNo})
  }

  function RetirePath(s: State, p: nat): State {
    if p in s.paths then s.(paths := s.paths - {p}, retired := s.retired + [s.paths[p].seqNo]) else s
  }

  // ---------------------------------------------------------------- the queue

  predicate Sorted(q: seq<ConnID>) {
    forall i, j :: 0 <= i < j < |q| ==> q[i].seqNo < q[j].seqNo
  }

  predicate AllAbove(q: seq<ConnID>, n: int) {
    forall i :: 0 <= i < |q| ==> q[i].seqNo > n
  }

  /** The queue is sorted; its entries are newer than the active ID and not retired. */
  predicate Valid(s: State) {
    Sorted(s.queue) && AllAbove(s.queue, s.active) && AllAbove(s.queue, s.highestRetired - 1)
  }

  lemma {:induction false} KeepMembers(q: seq<ConnID>, rpt: nat)
    ensures forall c :: c in Keep(q, rpt) <==> c in q && c.seqNo >= rpt
  {
    if q != [] {
      KeepMembers(q[1..], rpt);
      assert q == [q[0]] + q[1..];
    }
  }

  lemma {:induction false} KeepIsFilter(q: seq<ConnID>, rpt: nat)
    requires Sorted(q)
    ensures Sorted(Keep(q, rpt)) && AllAbove(Keep(q, rpt), rpt - 1)
    ensures forall c :: c in Keep(q, rpt) <==> c in q && c.seqNo >= rpt
  {
    KeepMembers(q, rpt);
    if q != [] {
      var rest := Keep(q[1..], rpt);
      KeepIsFilter(q[1..], rpt);
      forall i | 0 <= i < |rest| ensures q[0].seqNo < rest[i].seqNo {
        assert rest[i] in q[1..];
      }
    }
  }

  lemma MembersAbove(q: seq<ConnID>, r: seq<ConnID>, n: int)
    requires AllAbove(q, n) && forall c :: c in r ==> c in q
    ensures AllAbove(r, n)
  {
    forall i | 0 <= i < |r| ensures r[i].seqNo > n {
      assert r[i] in q;
    }
  }

  /** Inserting keeps the order, and fails exactly if another ID has the sequence number. */
  lemma {:induction false} InsertIsSorted(q: seq<ConnID>, c: ConnID)
    requires Sorted(q)
    ensures Insert(q, c).Err? <==> exists i :: 0 <= i < |q| && q[i].seqNo == c.seqNo && q[i] != c
    ensures Insert(q, c).Ok? ==>
              var r := Insert(q, c).value;
              Sorted(r) && r != [] && forall d :: d in r <==> d in q || d == c
  {
    if q != [] && q[0].seqNo < c.seqNo {
      InsertIsSorted(q[1..], c);
      var r := Insert(q[1..], c);
      assert q == [q[0]] + q[1..];
      if r.Ok? {
        forall i | 0 <= i < |r.value| ensures q[0].seqNo < r.value[i].seqNo {
          assert r.value[i] in q[1..] || r.value[i] == c;
        }
      } else {
        var i :| 0 <= i < |q[1..]| && q[1..][i].seqNo == c.seqNo && q[1..][i] != c;
        assert q[i + 1] == q[1..][i];
      }
    }
  }

  lemma UpdateKeepsValid(s: State, packetsPerID: nat)
    requires Valid(s) && s.queue != []
    ensures Valid(Update(s, packetsPerID)) && s.active < Update(s, packetsPerID).active
  {
  }

  lemma RetirePriorKeepsValid(s: State, rpt: nat, pathRetired: seq<nat>)
    requires Valid(s)
    ensures var s' := RetirePrior(s, rpt, pathRetired);
            && Valid(s') && AllAbove(s'.queue, rpt - 1) && s'.active == s.active
            && s.highestRetired <= s'.highestRetired
            && s'.activeID == s.activeID
            && rpt <= s'.highestRetired && s'.highestProbing == s.highestProbing && s'.everOnPath == s.everOnPath
            && (s'.highestRetired == s.highestRetired || s'.highestRetired == rpt)
            && (forall p :: p in s'.paths ==> s'.paths[p].seqNo >= rpt)
            && (forall c :: c in s'.queue ==> c in s.queue)
  {
    KeepIsFilter(s.queue, rpt);
    MembersAbove(s.queue, Keep(s.queue, rpt), s.active);
  }

  /** Nothing below the given number is active, queued or assigned to a path. */
  predicate NoneBelow(s: State, rpt: nat) {
    s.active >= rpt && AllAbove(s.queue, rpt - 1) && forall p :: p in s.paths ==> s.paths[p].seqNo >= rpt
  }

  /**
   A NEW_CONNECTION_ID frame keeps the queue in order and the active number does not fall. If the frame was not retired
   on arrival, nothing below its Retire Prior To field is left; in particular the queue was not empty when it was
   needed.
   */
  lemma AddKeepsValid(s: State, f: Frame, pathRetired: seq<nat>, packetsPerID: nat)
    requires Valid(s) && f.retirePriorTo <= f.conn.seqNo
    ensures var r := Add(s, f, pathRetired, packetsPerID);
            && (r.Ok? ==> Valid(r.value) && s.active <= r.value.active)
            && (r.Ok? && !RetiredOnArrival(s, f.conn.seqNo) ==> NoneBelow(r.value, f.retirePriorTo))
            && (r.Err? <==>
                  && !RetiredOnArrival(s, f.conn.seqNo) && f.conn.seqNo != s.active
                  && exists i :: 0 <= i < |s.queue| && s.queue[i].seqNo == f.conn.seqNo && s.queue[i] != f.conn)
  {
    hide RetirePrior, Insert;
    var n: nat, rpt: int := f.conn.seqNo, f.retirePriorTo;
    if !RetiredOnArrival(s, n) {
      var s1 := RetirePrior(s, f.retirePriorTo, pathRetired);
      RetirePriorKeepsValid(s, f.retirePriorTo, pathRetired);
      if n != s.active {
        InsertIsSorted(s1.queue, f.conn);
        ConflictRemains(s, f, pathRetired);
        var q := Insert(s1.queue, f.conn);
        if q.Ok? {
          InsertedAbove(s1.queue, q.value, f.conn, s1.active);
          InsertedAbove(s1.queue, q.value, f.conn, rpt - 1);
          InsertedAbove(s1.queue, q.value, f.conn, s1.highestRetired - 1);
          var s2 := s1.(queue := q.value);
          if s2.active < rpt {
            UpdateKeepsValid(s2, packetsPerID);
          }
        }
      }
    }
  }

  lemma InsertedAbove(q: seq<ConnID>, r: seq<ConnID>, c: ConnID, n: int)
    requires AllAbove(q, n) && c.seqNo > n && forall d :: d in r <==> d in q || d == c
    ensures AllAbove(r, n)
  {
    forall i | 0 <= i < |r| ensures r[i].seqNo > n {
      assert r[i] in q || r[i] == c;
    }
  }

  /** A queued ID with the frame's sequence number is not retired by the frame. */
  lemma ConflictRemains(s: State, f: Frame, pathRetired: seq<nat>)
    requires Valid(s) && f.retirePriorTo <= f.conn.seqNo
    ensures var q := RetirePrior(s, f.retirePriorTo, pathRetired).queue;
            (exists i :: 0 <= i < |q| && q[i].seqNo == f.conn.seqNo && q[i] != f.conn) <==>
            (exists i :: 0 <= i < |s.queue| && s.queue[i].seqNo == f.conn.seqNo && s.queue[i] != f.conn)
  {
    var q := RetirePrior(s, f.retirePriorTo, pathRetired).queue;
    KeepIsFilter(s.queue, f.retirePriorTo);
    if i :| 0 <= i < |q| && q[i].seqNo == f.conn.seqNo && q[i] != f.conn {
      assert q[i] in s.queue;
    }
    if i :| 0 <= i < |s.queue| && s.queue[i].seqNo == f.conn.seqNo && s.queue[i] != f.conn {
      assert s.queue[i] in q;
    }
  }

  // ---------------------------------------------------------------- every run

  datatype Step =
    | NewConnectionID(f: Frame, pathRetired: seq<nat>, packetsPerID: nat)
    | PreferredAddress(conn: ConnID)
    | GetActive(packetsPerID: nat)
    | SentPacket
    | HandshakeComplete
    | GetForPath(path: nat)
    | RetireForPath(path: nat)

  /**
   Retire Prior To is at most the sequence number; the preferred address comes first; no error closes the connection.
   */
  predicate Enabled(s: State, step: Step) {
    match step
    case NewConnectionID(f, pathRetired, n) => f.retirePriorTo <= f.conn.seqNo && Add(s, f, pathRetired, n).Ok?
    case PreferredAddress(c) =>
      c.seqNo == 1 && s.active == 0 && s.highestRetired <= 1 && s.highestProbing == 0 && Insert(s.queue, c).Ok?
    case _ => true
  }

  function Apply(s: State, step: Step): State
    requires Enabled(s, step)
  {
    match step
    case NewConnectionID(f, pathRetired, n) => Add(s, f, pathRetired, n).value
    case PreferredAddress(c) => s.(queue := Insert(s.queue, c).value)
    case GetActive(n) => Get(s, n)
    case SentPacket => s.(packets := s.packets + 1)
    case HandshakeComplete => s.(handshakeComplete := true)
    case GetForPath(p) => AssignPath(s, p)
    case RetireForPath(p) => RetirePath(s, p)
  }

  function Initial(id: nat): State { State([], 0, id, 0, 0, map[], false, 0, 0, {}, []) }

  lemma StepKeepsValid(s: State, step: Step)
    requires Valid(s) && Enabled(s, step)
    ensures Valid(Apply(s, step)) && s.active <= Apply(s, step).active
  {
    hide Add, Insert;
    match step {
      case NewConnectionID(f, pathRetired, n) => AddKeepsValid(s, f, pathRetired, n);
      case PreferredAddress(c) =>
        var q := Insert(s.queue, c).value;
        InsertIsSorted(s.queue, c);
        InsertedAbove(s.queue, q, c, s.active);
        InsertedAbove(s.queue, q, c, s.highestRetired - 1);
      case GetActive(n) =>
        if s.queue != [] {
          UpdateKeepsValid(s, n);
        }
      case _ =>
    }
  }

  /** The connection ID is changed only when there is one to change to. */
  lemma UpdateHasQueue(s: State)
    requires ShouldUpdate(s)
    ensures s.queue != []
  {
  }

  predicate IsRun(s: State, steps: seq<Step>)
    decreases |steps|
  {
    steps == [] || (Enabled(s, steps[0]) && IsRun(Apply(s, steps[0]), steps[1..]))
  }

  function Final(s: State, steps: seq<Step>): State
    requires IsRun(s, steps)
    decreases |steps|
  {
    if steps == [] then s else Final(Apply(s, steps[0]), steps[1..])
  }

  /**
   On every run the queue stays sorted above the active and the retired numbers, and the active number never falls.
   */
  lemma {:induction false} QueueIsSafe(s: State, steps: seq<Step>)
    requires Valid(s) && IsRun(s, steps)
    ensures Valid(Final(s, steps)) && s.active <= Final(s, steps).active
    decreases |steps|
  {
    hide Apply, Enabled, Valid;
    if steps != [] {
      StepKeepsValid(s, steps[0]);
      QueueIsSafe(Apply(s, steps[0]), steps[1..]);
    }
  }

  // ---------------------------------------------------------------- only issued IDs are used

  /** What is queued or on a path was issued, and so was the active ID unless it is the first. */
  ghost predicate OnlyIssued(s: State, issued: set<ConnID>) {
    && (forall c :: c in s.queue ==> c in issued)
    && (forall p :: p in s.paths ==> s.paths[p] in issued)
    && (s.active != 0 ==> exists c :: c in issued && c.seqNo == s.active && c.id == s.activeID)
  }

  function Issues(step: Step): set<ConnID> {
    match step
    case NewConnectionID(f, _, _) => {f.conn}
    case PreferredAddress(c) => {c}
    case _ => {}
  }

  lemma UpdateKeepsIssued(s: State, packetsPerID: nat, issued: set<ConnID>)
    requires OnlyIssued(s, issued) && s.queue != []
    ensures OnlyIssued(Update(s, packetsPerID), issued)
  {
    var s' := Update(s, packetsPerID);
    assert s.queue[0] in s.queue;
    forall c | c in s'.queue ensures c in issued {
      assert c in s.queue;
    }
  }

  lemma MoreIssued(s: State, issued: set<ConnID>, more: set<ConnID>)
    requires OnlyIssued(s, issued)
    ensures OnlyIssued(s, issued + more)
  {
    if s.active != 0 {
      var c :| c in issued && c.seqNo == s.active && c.id == s.activeID;
      assert c in issued + more;
    }
  }

  lemma AddKeepsIssued(s: State, f: Frame, pathRetired: seq<nat>, packetsPerID: nat, issued: set<ConnID>)
    requires Valid(s) && OnlyIssued(s, issued) && f.conn in issued && Add(s, f, pathRetired, packetsPerID).Ok?
    ensures OnlyIssued(Add(s, f, pathRetired, packetsPerID).value, issued)
  {
    hide Insert, RetirePrior;
    if !RetiredOnArrival(s, f.conn.seqNo) {
      var s1 := RetirePrior(s, f.retirePriorTo, pathRetired);
      RetirePriorKeepsValid(s, f.retirePriorTo, pathRetired);
      RetirePriorPaths(s, f.retirePriorTo, pathRetired);
      if f.conn.seqNo != s.active {
        InsertIsSorted(s1.queue, f.conn);
        var s2 := s1.(queue := Insert(s1.queue, f.conn).value);
        assert OnlyIssued(s2, issued);
        UpdateKeepsIssued(s2, packetsPerID, issued);
      }
    }
  }

  /** No operation uses an ID that the peer has not issued with that sequence number. */
  lemma StepKeepsIssued(s: State, step: Step, issued: set<ConnID>)
    requires Valid(s) && Enabled(s, step) && OnlyIssued(s, issued)
    ensures OnlyIssued(Apply(s, step), issued + Issues(step))
  {
    hide Insert, Add;
    MoreIssued(s, issued, Issues(step));
    match step {
      case NewConnectionID(f, pathRetired, n) => AddKeepsIssued(s, f, pathRetired, n, issued + Issues(step));
      case PreferredAddress(c) => InsertIsSorted(s.queue, c);
      case GetActive(n) =>
        if s.queue != [] {
          UpdateKeepsIssued(s, n, issued + Issues(step));
        }
      case GetForPath(p) =>
        if s.queue != [] {
          assert s.queue[0] in s.queue;
        }
      case _ =>
    }
  }

  // ---------------------------------------------------------------- is an ID used for one path only?

  predicate Uses(s: State, n: nat) {
    n == s.active || exists i :: 0 <= i < |s.queue| && s.queue[i].seqNo == n
  }

  /** Numbers given to paths are at most the highest of them, and queued ones are above it. */
  predicate PathsBelow(s: State) {
    && AllAbove(s.queue, s.highestProbing)
    && (forall n :: n in s.everOnPath ==> n <= s.highestProbing && n != s.active)
    && (s.highestProbing > 0 ==> s.highestProbing in s.everOnPath)
    && (forall p :: p in s.paths ==> s.paths[p].seqNo in s.everOnPath)
  }

  /** An ID that was given to a path is neither active nor queued for another use. */
  predicate NoReuse(s: State) {
    forall n :: n in s.everOnPath ==> !Uses(s, n)
  }

  lemma BelowMeansNoReuse(s: State)
    requires PathsBelow(s)
    ensures NoReuse(s)
  {
  }

  /** The frame repeats the ID that was given to a path last, and that is newer than the active one. */
  predicate RepeatsPathID(s: State, f: Frame) {
    f.conn.seqNo == s.highestProbing > s.active && f.conn.seqNo >= s.highestRetired
  }

  lemma InsertedIsUsed(q: seq<ConnID>, c: ConnID)
    requires Sorted(q) && Insert(q, c).Ok?
    ensures exists i :: 0 <= i < |Insert(q, c).value| && Insert(q, c).value[i].seqNo == c.seqNo
  {
    InsertIsSorted(q, c);
    assert c in Insert(q, c).value;
  }

  /**
   IDs given to paths are not used again, exactly as long as no frame repeats the ID that was given to a path last:
   such a frame puts the ID into the queue a second time.
   */
  lemma ReuseExactlyWhenRepeated(s: State, f: Frame, pathRetired: seq<nat>, packetsPerID: nat)
    requires Valid(s) && PathsBelow(s) && f.retirePriorTo <= f.conn.seqNo && Add(s, f, pathRetired, packetsPerID).Ok?
    ensures var s' := Add(s, f, pathRetired, packetsPerID).value;
            && (NoReuse(s') <==> !RepeatsPathID(s, f))
            && (NoReuse(s') ==> PathsBelow(s'))
  {
    hide RetirePrior, Insert;
    var n := f.conn.seqNo;
    var s' := Add(s, f, pathRetired, packetsPerID).value;
    if RetiredOnArrival(s, n) {
      BelowMeansNoReuse(s);
      assert forall x :: Uses(s', x) == Uses(s, x);
    } else {
      var s1 := RetirePrior(s, f.retirePriorTo, pathRetired);
      RetirePriorKeepsValid(s, f.retirePriorTo, pathRetired);
      MembersAbove(s.queue, s1.queue, s.highestProbing);
      RetirePriorPaths(s, f.retirePriorTo, pathRetired);
      if n == s.active {
        BelowMeansNoReuse(s1);
      } else {
        InsertedIsUsed(s1.queue, f.conn);
        InsertIsSorted(s1.queue, f.conn);
        var s2 := s1.(queue := Insert(s1.queue, f.conn).value);
        if RepeatsPathID(s, f) {
          assert Uses(s2, n) && Uses(s', n) by { UsedAfterUpdate(s2, n, packetsPerID); }
        } else {
          InsertedAbove(s1.queue, s2.queue, f.conn, s.highestProbing);
          InsertedAbove(s1.queue, s2.queue, f.conn, s.active);
          PathsBelowAfterUpdate(s2, packetsPerID);
          BelowMeansNoReuse(s');
        }
      }
    }
  }

  lemma RetirePriorPaths(s: State, rpt: nat, pathRetired: seq<nat>)
    ensures forall p :: p in RetirePrior(s, rpt, pathRetired).paths ==>
              p in s.paths && RetirePrior(s, rpt, pathRetired).paths[p] == s.paths[p]
  {
  }

  /** The number that is used stays in use or becomes the active one. */
  lemma UsedAfterUpdate(s: State, n: nat, packetsPerID: nat)
    requires s.queue != [] && n != s.active && Uses(s, n)
    ensures Uses(Update(s, packetsPerID), n)
  {
    var i :| 0 <= i < |s.queue| && s.queue[i].seqNo == n;
    var s' := Update(s, packetsPerID);
    if i > 0 {
      assert s'.queue[i - 1].seqNo == n;
    }
  }

  lemma PathsBelowAfterUpdate(s: State, packetsPerID: nat)
    requires PathsBelow(s) && s.queue != [] && Sorted(s.queue)
    ensures PathsBelow(Update(s, packetsPerID))
  {
  }

  /** Every other step keeps IDs given to paths out of use. */
  lemma OtherStepsKeepPathsBelow(s: State, step: Step)
    requires Valid(s) && PathsBelow(s) && Enabled(s, step) && !step.NewConnectionID?
    ensures PathsBelow(Apply(s, step))
  {
    hide Insert;
    match step {
      case PreferredAddress(c) =>
        InsertIsSorted(s.queue, c);
        InsertedAbove(s.queue, Insert(s.queue, c).value, c, s.highestProbing);
      case GetActive(n) =>
        if s.queue != [] {
          PathsBelowAfterUpdate(s, n);
        }
      case _ =>
    }
  }

  // ---------------------------------------------------------------- is an ID in use ever retired on arrival?

  predicate InUse(s: State, n: nat) {
    n == s.active || exists p :: p in s.paths && s.paths[p].seqNo == n
  }

  /** RETIRE_CONNECTION_ID frames of paths whose ID is below rpt. */
  predicate FromPaths(s: State, rpt: nat, pathRetired: seq<nat>) {
    forall n :: n in pathRetired ==> n < rpt && exists p :: p in s.paths && s.paths[p].seqNo == n
  }

  /** What was retired since is not in use. */
  predicate RetiresUnused(s: State, s': State) {
    && |s.retired| <= |s'.retired| && s'.retired[..|s.retired|] == s.retired
    && forall i :: |s.retired| <= i < |s'.retired| ==> !InUse(s', s'.retired[i])
  }

  lemma {:induction false} BelowIsBelow(q: seq<ConnID>, rpt: nat)
    ensures forall n :: n in Below(q, rpt) ==> n < rpt
  {
    if q != [] {
      BelowIsBelow(q[1..], rpt);
    }
  }

  /** What the retirement of older IDs adds is below rpt. */
  lemma RetirePriorRetires(s: State, rpt: nat, pathRetired: seq<nat>)
    requires FromPaths(s, rpt, pathRetired)
    ensures var r := RetirePrior(s, rpt, pathRetired).retired;
            && |s.retired| <= |r| && r[..|s.retired|] == s.retired
            && forall i :: |s.retired| <= i < |r| ==> r[i] < rpt
  {
    BelowIsBelow(s.queue, rpt);
    var r := RetirePrior(s, rpt, pathRetired).retired;
    var more := pathRetired + if rpt > s.highestRetired then Below(s.queue, rpt) else [];
    assert r == s.retired + more;
    forall i | |s.retired| <= i < |r| ensures r[i] < rpt {
      assert r[i] == more[i - |s.retired|] && more[i - |s.retired|] in more;
    }
  }

  /**
   A frame retires no ID that is in use, exactly unless it repeats one in use and is retired on arrival.
   For the active ID that happens as soon as a newer one was given to a path.
   */
  lemma RetiresUnusedExactly(s: State, f: Frame, pathRetired: seq<nat>, packetsPerID: nat)
    requires Valid(s) && f.retirePriorTo <= f.conn.seqNo && Add(s, f, pathRetired, packetsPerID).Ok?
    requires FromPaths(s, f.retirePriorTo, pathRetired)
    ensures RetiresUnused(s, Add(s, f, pathRetired, packetsPerID).value)
            <==> !(RetiredOnArrival(s, f.conn.seqNo) && InUse(s, f.conn.seqNo))
    ensures f.conn.seqNo == s.active && s.active < s.highestProbing ==>
              !RetiresUnused(s, Add(s, f, pathRetired, packetsPerID).value)
  {
    hide RetirePrior, Insert;
    var n := f.conn.seqNo;
    var s' := Add(s, f, pathRetired, packetsPerID).value;
    if RetiredOnArrival(s, n) {
      assert s'.retired[|s.retired|] == n;
      assert InUse(s', n) == InUse(s, n);
    } else {
      RetirePriorRetires(s, f.retirePriorTo, pathRetired);
      AddKeepsValid(s, f, pathRetired, packetsPerID);
      assert NoneBelow(s', f.retirePriorTo);
      forall i | |s.retired| <= i < |s'.retired| ensures !InUse(s', s'.retired[i]) {
        assert s'.retired[i] < f.retirePriorTo;
      }
    }
  }

  function Issue(n: nat): Step { NewConnectionID(Frame(ConnID(n, n, n), 0), [], 5000) }

  /** Two IDs are issued. */
  lemma IssueTwo(s: State)
    requires s == Initial(9).(handshakeComplete := true)
    ensures Enabled(s, Issue(1)) && Enabled(Apply(s, Issue(1)), Issue(2))
    ensures Apply(Apply(s, Issue(1)), Issue(2)) == s.(queue := [ConnID(1, 1, 1), ConnID(2, 2, 2)])
  {
    var c1, c2 := ConnID(1, 1, 1), ConnID(2, 2, 2);
    var s2 := Apply(s, Issue(1));
    assert s2.queue == [c1] && s2.paths == map[];
    assert s2.queue[1..] == [] && Insert(s2.queue[1..], c2) == Ok([c2]);
    assert Insert(s2.queue, c2) == Ok([c1] + [c2]);
    var s3 := Apply(s2, Issue(2));
    assert s3.queue == [c1, c2] && s3.paths == map[] && s3.retired == [];
  }

  /** The first becomes active, the second is given to a path, and the first is issued again. */
  lemma IssueAgain(s: State)
    requires s.active == 0 && s.handshakeComplete && s.queue == [ConnID(1, 1, 1), ConnID(2, 2, 2)] && s.paths == map[]
    ensures var s4 := Apply(s, GetActive(5000));
            var s5 := Apply(s4, GetForPath(0));
            && Enabled(s5, Issue(1))
            && Apply(s5, Issue(1)).active == 1 && Apply(s5, Issue(1)).retired == s.retired + [0, 1]
  {
    var s4 := Apply(s, GetActive(5000));
    assert s4.active == 1 && s4.queue == [ConnID(2, 2, 2)];
    var s5 := Apply(s4, GetForPath(0));
    assert s5.highestProbing == 2 && s5.active == 1 && s5.retired == s.retired + [0];
    assert Apply(s5, Issue(1)).retired == s.retired + [0] + [1];
  }

  /** A run on which the active ID is retired and stays active. */
  lemma ActiveIDIsRetired()
    ensures var steps := [HandshakeComplete, Issue(1), Issue(2), GetActive(5000), GetForPath(0), Issue(1)];
            && IsRun(Initial(9), steps)
            && Final(Initial(9), steps).active == 1
            && Final(Initial(9), steps).retired == [0, 1]
  {
    var steps := [HandshakeComplete, Issue(1), Issue(2), GetActive(5000), GetForPath(0), Issue(1)];
    var s0 := Initial(9);
    var s1 := Apply(s0, HandshakeComplete);
    IssueTwo(s1);
    var s2 := Apply(s1, Issue(1));
    var s3 := Apply(s2, Issue(2));
    IssueAgain(s3);
    hide Add, Get, AssignPath, Update;
    var s4 := Apply(s3, GetActive(5000));
    var s5 := Apply(s4, GetForPath(0));
    var s6 := Apply(s5, Issue(1));
    RunOfSix(s0, steps, s1, s2, s3, s4, s5, s6);
  }

  /** The first becomes active, the second is given to a path, and the second is issued again. */
  lemma IssuePathIDAgain(s: State)
    requires s.active == 0 && s.highestRetired == 0 && s.handshakeComplete && s.paths == map[]
    requires s.queue == [ConnID(1, 1, 1), ConnID(2, 2, 2)]
    ensures var s4 := Apply(s, GetActive(5000));
            var s5 := Apply(s4, GetForPath(0));
            && Enabled(s5, Issue(2)) && 2 in Apply(s5, Issue(2)).everOnPath
            && Apply(s5, Issue(2)).queue == [ConnID(2, 2, 2)]
  {
    var s4 := Apply(s, GetActive(5000));
    assert s4.active == 1 && s4.queue == [ConnID(2, 2, 2)] && s4.highestRetired == 0;
    var s5 := Apply(s4, GetForPath(0));
    assert s5.highestProbing == 2 && s5.active == 1 && s5.queue == [];
    assert Insert(s5.queue, ConnID(2, 2, 2)) == Ok([ConnID(2, 2, 2)]);
  }

  /** A run on which an ID that was given to a path is queued for another use. */
  lemma PathIDIsReused()
    ensures var steps := [HandshakeComplete, Issue(1), Issue(2), GetActive(5000), GetForPath(0), Issue(2)];
            IsRun(Initial(9), steps) && !NoReuse(Final(Initial(9), steps))
  {
    var steps := [HandshakeComplete, Issue(1), Issue(2), GetActive(5000), GetForPath(0), Issue(2)];
    var s0 := Initial(9);
    var s1 := Apply(s0, HandshakeComplete);
    IssueTwo(s1);
    var s2 := Apply(s1, Issue(1));
    var s3 := Apply(s2, Issue(2));
    IssuePathIDAgain(s3);
    hide Add, Get, AssignPath, Update;
    var s4 := Apply(s3, GetActive(5000));
    var s5 := Apply(s4, GetForPath(0));
    var s6 := Apply(s5, Issue(2));
    RunOfSix(s0, steps, s1, s2, s3, s4, s5, s6);
    assert s6.queue[0].seqNo == 2;
  }

  lemma RunOfSix(s0: State, steps: seq<Step>, s1: State, s2: State, s3: State, s4: State, s5: State, s6: State)
    requires |steps| == 6
    requires Enabled(s0, steps[0]) && s1 == Apply(s0, steps[0])
    requires Enabled(s1, steps[1]) && s2 == Apply(s1, steps[1])
    requires Enabled(s2, steps[2]) && s3 == Apply(s2, steps[2])
    requires Enabled(s3, steps[3]) && s4 == Apply(s3, steps[3])
    requires Enabled(s4, steps[4]) && s5 == Apply(s4, steps[4])
    requires Enabled(s5, steps[5]) && s6 == Apply(s5, steps[5])
    ensures IsRun(s0, steps) && Final(s0, steps) == s6
  {
    hide Apply, Enabled;
    assert IsRun(s6, steps[6..]) && Final(s6, steps[6..]) == s6;
    RunStep(s5, steps, 5);
    RunStep(s4, steps, 4);
    RunStep(s3, steps, 3);
    RunStep(s2, steps, 2);
    RunStep(s1, steps, 1);
    RunStep(s0, steps, 0);
    assert steps[0..] == steps;
  }

  lemma RunStep(s: State, steps: seq<Step>, i: nat)
    requires i < |steps| && Enabled(s, steps[i]) && IsRun(Apply(s, steps[i]), steps[i + 1..])
    ensures IsRun(s, steps[i..]) && Final(s, steps[i..]) == Final(Apply(s, steps[i]), steps[i + 1..])
  {
    hide Apply, Enabled;
    assert steps[i..][1..] == steps[i + 1..];
  }
}
