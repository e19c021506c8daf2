/** Receive credit of a connection and its streams (section 4.1 of RFC 9000). */
module FlowControl {
  import opened Common

  /** What stream and connection controllers have in common. Times are in nanoseconds. */
  datatype Window = Window(
    bytesRead: nat, highestReceived: nat, receiveWindow: nat, size: nat, maxSize: nat, epochTime: int, epochOffset: nat)
  {
    /** Update the window when more than a quarter of it was consumed. */
    predicate HasWindowUpdate() { receiveWindow - bytesRead <= size * 3 / 4 }

    function StartEpoch(now: int): Window { this.(epochTime := now, epochOffset := bytesRead) }

    /** The window is consumed faster than once in four round trips. */
    predicate TooFast(now: int, rtt: nat) {
      size > 0 && now - epochTime < 4 * (bytesRead - epochOffset) * rtt / size
    }

    function MaybeAdjustSize(now: int, rtt: nat, allowed: bool): Window {
      if bytesRead - epochOffset <= size / 2 || rtt == 0 then this
      else
        var newSize := Min(2 * size, maxSize);
        (if TooFast(now, rtt) && newSize > size && allowed then this.(size := newSize) else this).StartEpoch(now)
    }

    function GetWindowUpdate(now: int, rtt: nat, allowed: bool): Window {
      if !HasWindowUpdate() then this
      else
        var w := MaybeAdjustSize(now, rtt, allowed);
        w.(receiveWindow := w.bytesRead + w.size)
    }

    /** A larger window on a stream makes room in the connection's. */
    function EnsureMinimumSize(inc: nat, now: int, allowed: bool): Window {
      if inc <= size then this
      else
        var newSize := Min(inc, maxSize);
        (if newSize > size && allowed then this.(size := newSize) else this).StartEpoch(now)
    }

    /** The first frame starts the auto-tuning. */
    function Receive(increment: nat, now: int): Window {
      (if highestReceived == 0 then StartEpoch(now) else this).(highestReceived := highestReceived + increment)
    }

    /** No more was received than was allowed, and no more is allowed than fits the window from here. */
    predicate Valid() {
      && bytesRead <= highestReceived <= receiveWindow <= bytesRead + size
      && epochOffset <= bytesRead
    }
  }

  datatype Stream = Stream(w: Window, finalReceived: bool)

  datatype Received = Received(stream: Stream, conn: Window, ok: bool)

  /** A frame of the stream ends at the offset, perhaps with the final size of the stream. */
  function UpdateHighestReceived(s: Stream, conn: Window, offset: nat, final: bool, now: int): Received {
    if s.finalReceived && ((final && offset != s.w.highestReceived) || offset > s.w.highestReceived)
    then Received(s, conn, false)
    else
      var s' := s.(finalReceived := s.finalReceived || final);
      if offset <= s.w.highestReceived then Received(s', conn, offset == s.w.highestReceived || !final)
      else
        var increment := offset - s.w.highestReceived;
        var w := s.w.Receive(increment, now);
        if w.highestReceived > w.receiveWindow then Received(s'.(w := w), conn, false)
        else
          var c := conn.Receive(increment, now);
          Received(s'.(w := w), c, c.highestReceived <= c.receiveWindow)
  }

  datatype Accounts = Accounts(stream: Stream, conn: Window)

  function AddBytesRead(s: Stream, conn: Window, n: nat): Accounts {
    Accounts(s.(w := s.w.(bytesRead := s.w.bytesRead + n)), conn.(bytesRead := conn.bytesRead + n))
  }

  /** What was not read is read now. */
  function Abandon(s: Stream, conn: Window): Accounts
    requires s.w.bytesRead <= s.w.highestReceived
  {
    AddBytesRead(s, conn, s.w.highestReceived - s.w.bytesRead)
  }

  function StreamUpdate(s: Stream, conn: Window, now: int, rtt: nat, allowed: bool): Accounts {
    if s.finalReceived then Accounts(s, conn)
    else
      var w := s.w.GetWindowUpdate(now, rtt, true);
      var c := if w.size > s.w.size then conn.EnsureMinimumSize(w.size * 3 / 2, now, allowed) else conn;
      Accounts(s.(w := w), c)
  }

  // ---------------------------------------------------------------- one window

  lemma UpdateKeepsWindow(w: Window, now: int, rtt: nat, allowed: bool)
    requires w.Valid()
    ensures var w' := w.GetWindowUpdate(now, rtt, allowed);
            && w'.Valid() && w'.bytesRead == w.bytesRead && w'.highestReceived == w.highestReceived
            && w'.maxSize == w.maxSize
            && w.receiveWindow <= w'.receiveWindow && w.size <= w'.size <= Max(w.size, w.maxSize)
            && (w' != w ==> w'.receiveWindow == w.bytesRead + w'.size)
            && (w'.size > w.size ==>
                  w'.size <= 2 * w.size && 2 * (w.bytesRead - w.epochOffset) > w.size && rtt > 0 && allowed)
  {
    hide Window.TooFast;
  }

  /** An update is due once a quarter of the window was consumed. */
  lemma UpdateThreshold(w: Window)
    requires w.Valid()
    ensures w.HasWindowUpdate() <==> 4 * (w.bytesRead + w.size - w.receiveWindow) >= w.size
  {
  }

  lemma MinimumKeepsWindow(w: Window, inc: nat, now: int, allowed: bool)
    requires w.Valid()
    ensures var w' := w.EnsureMinimumSize(inc, now, allowed);
            && w'.Valid() && w'.bytesRead == w.bytesRead && w'.highestReceived == w.highestReceived
            && w'.maxSize == w.maxSize
            && w.receiveWindow == w'.receiveWindow && w.size <= w'.size <= Max(w.size, w.maxSize)
  {
  }

  // ---------------------------------------------------------------- the ledger

  /** The connection and every stream it ever had, with the window sizes they started with. */
  datatype Ledger = Ledger(conn: Window, streams: seq<Stream>, initial: seq<nat>)

  datatype Event =
    | OpenStream(window: nat, maxWindow: nat)
    | FrameReceived(id: nat, offset: nat, final: bool, now: int)
    | Read(id: nat, n: nat)
    | Abandoned(id: nat)
    | StreamWindowUpdate(id: nat, now: int, rtt: nat, allowed: bool)
    | ConnWindowUpdate(now: int, rtt: nat, allowed: bool)

  function NewWindow(window: nat, maxWindow: nat): Window { Window(0, 0, window, window, maxWindow, 0, 0) }

  /** The event is about a stream that exists, no more is read than was received, and no error closes the connection. */
  predicate Enabled(l: Ledger, e: Event) {
    match e
    case OpenStream(_, _) => true
    case ConnWindowUpdate(_, _, _) => true
    case FrameReceived(id, offset, final, now) =>
      id < |l.streams| && UpdateHighestReceived(l.streams[id], l.conn, offset, final, now).ok
    case Read(id, n) => id < |l.streams| && n <= l.streams[id].w.highestReceived - l.streams[id].w.bytesRead
    case Abandoned(id) => id < |l.streams| && l.streams[id].w.bytesRead <= l.streams[id].w.highestReceived
    case StreamWindowUpdate(id, _, _, _) => id < |l.streams|
  }

  predicate IsStreamEvent(e: Event) { !e.OpenStream? && !e.ConnWindowUpdate? }

  /** What an event does to the accounts of its stream and of the connection. */
  function After(s: Stream, conn: Window, e: Event): Accounts
    requires IsStreamEvent(e) && (e.Abandoned? ==> s.w.bytesRead <= s.w.highestReceived)
  {
    match e
    case FrameReceived(_, offset, final, now) =>
      var r := UpdateHighestReceived(s, conn, offset, final, now);
      Accounts(r.stream, r.conn)
    case Read(_, n) => AddBytesRead(s, conn, n)
    case Abandoned(_) => Abandon(s, conn)
    case StreamWindowUpdate(_, now, rtt, allowed) => StreamUpdate(s, conn, now, rtt, allowed)
  }

  function With(l: Ledger, id: nat, a: Accounts): Ledger
    requires id < |l.streams|
  {
    l.(conn := a.conn, streams := l.streams[id := a.stream])
  }

  function Apply(l: Ledger, e: Event): Ledger
    requires Enabled(l, e)
  {
    match e
    case OpenStream(window, maxWindow) =>
      l.(streams := l.streams + [Stream(NewWindow(window, maxWindow), false)], initial := l.initial + [window])
    case ConnWindowUpdate(now, rtt, allowed) => l.(conn := l.conn.GetWindowUpdate(now, rtt, allowed))
    case _ => With(l, e.id, After(l.streams[e.id], l.conn, e))
  }

  function TotalRead(ss: seq<Stream>): nat {
    if ss == [] then 0 else ss[0].w.bytesRead + TotalRead(ss[1..])
  }

  function TotalReceived(ss: seq<Stream>): nat {
    if ss == [] then 0 else ss[0].w.highestReceived + TotalReceived(ss[1..])
  }

  lemma {:induction false} TotalsUpdate(ss: seq<Stream>, i: nat, s: Stream)
    requires i < |ss|
    ensures TotalRead(ss[i := s]) == TotalRead(ss) - ss[i].w.bytesRead + s.w.bytesRead
    ensures TotalReceived(ss[i := s]) == TotalReceived(ss) - ss[i].w.highestReceived + s.w.highestReceived
  {
    if i == 0 {
      assert ss[i := s][1..] == ss[1..];
    } else {
      TotalsUpdate(ss[1..], i - 1, s);
      assert ss[i := s][1..] == ss[1..][i - 1 := s];
    }
  }

  lemma {:induction false} TotalsAppend(ss: seq<Stream>, s: Stream)
    ensures TotalRead(ss + [s]) == TotalRead(ss) + s.w.bytesRead
    ensures TotalReceived(ss + [s]) == TotalReceived(ss) + s.w.highestReceived
  {
    if ss == [] {
      assert ss + [s] == [s] && [s][1..] == [];
    } else {
      TotalsAppend(ss[1..], s);
      assert (ss + [s])[1..] == ss[1..] + [s];
    }
  }

  lemma {:induction false} TotalsOrdered(ss: seq<Stream>)
    requires forall i :: 0 <= i < |ss| ==> ss[i].w.bytesRead <= ss[i].w.highestReceived
    ensures TotalRead(ss) <= TotalReceived(ss)
  {
    if ss != [] {
      TotalsOrdered(ss[1..]);
    }
  }

  /** The connection's totals are the sums over its streams, and every window is within bounds. */
  ghost predicate Valid(l: Ledger) {
    && l.conn.Valid()
    && |l.initial| == |l.streams|
    && (forall i :: 0 <= i < |l.streams| ==>
          l.streams[i].w.Valid() && l.streams[i].w.size <= Max(l.initial[i], l.streams[i].w.maxSize))
    && l.conn.highestReceived == TotalReceived(l.streams)
    && l.conn.bytesRead == TotalRead(l.streams)
  }

  /** No window falls or grows past the larger of its size and its maximum. */
  ghost predicate Advances(w: Window, w': Window) {
    && w.bytesRead <= w'.bytesRead && w.highestReceived <= w'.highestReceived && w.receiveWindow <= w'.receiveWindow
    && w.size <= w'.size <= Max(w.size, w.maxSize) && w'.maxSize == w.maxSize
  }

  lemma FrameKeepsAccounts(s: Stream, conn: Window, offset: nat, final: bool, now: int)
    requires s.w.Valid() && conn.Valid()
    ensures var r := UpdateHighestReceived(s, conn, offset, final, now);
            r.ok ==>
              && r.stream.w.Valid() && r.conn.Valid() && Advances(s.w, r.stream.w) && Advances(conn, r.conn)
              && r.stream.w.highestReceived == Max(s.w.highestReceived, offset)
              && r.stream.w.highestReceived - s.w.highestReceived == r.conn.highestReceived - conn.highestReceived
              && r.stream.w.bytesRead == s.w.bytesRead && r.conn.bytesRead == conn.bytesRead
              && r.stream.finalReceived == (s.finalReceived || final)
              && (final ==> offset == r.stream.w.highestReceived)
              && (s.finalReceived ==> offset <= s.w.highestReceived)
  {
  }

  lemma StreamUpdateKeepsAccounts(s: Stream, conn: Window, now: int, rtt: nat, allowed: bool)
    requires s.w.Valid() && conn.Valid()
    ensures var a := StreamUpdate(s, conn, now, rtt, allowed);
            && a.stream.w.Valid() && a.conn.Valid() && Advances(s.w, a.stream.w) && Advances(conn, a.conn)
            && a.stream.w.highestReceived == s.w.highestReceived && a.conn.highestReceived == conn.highestReceived
            && a.stream.w.bytesRead == s.w.bytesRead && a.conn.bytesRead == conn.bytesRead
  {
    hide Window.Valid, Window.GetWindowUpdate, Window.EnsureMinimumSize;
    UpdateKeepsWindow(s.w, now, rtt, true);
    MinimumKeepsWindow(conn, s.w.GetWindowUpdate(now, rtt, true).size * 3 / 2, now, allowed);
  }

  /** Both accounts move by the same amounts. */
  ghost predicate Moves(s: Stream, s': Stream, conn: Window, conn': Window) {
    && s'.w.Valid() && Advances(s.w, s'.w) && Advances(conn, conn')
    && conn'.highestReceived - conn.highestReceived == s'.w.highestReceived - s.w.highestReceived
    && conn'.bytesRead - conn.bytesRead == s'.w.bytesRead - s.w.bytesRead
    && conn'.highestReceived <= conn'.receiveWindow <= conn'.bytesRead + conn'.size
    && conn'.epochOffset <= conn'.bytesRead
  }

  lemma EventMoves(s: Stream, conn: Window, e: Event)
    requires s.w.Valid() && conn.Valid() && IsStreamEvent(e)
    requires e.FrameReceived? ==> UpdateHighestReceived(s, conn, e.offset, e.final, e.now).ok
    requires e.Read? ==> e.n <= s.w.highestReceived - s.w.bytesRead
    ensures Moves(s, After(s, conn, e).stream, conn, After(s, conn, e).conn)
  {
    hide UpdateHighestReceived, StreamUpdate;
    if e.FrameReceived? {
      FrameKeepsAccounts(s, conn, e.offset, e.final, e.now);
    } else if e.StreamWindowUpdate? {
      StreamUpdateKeepsAccounts(s, conn, e.now, e.rtt, e.allowed);
    }
  }

  lemma MovingIsValid(l: Ledger, id: nat, a: Accounts)
    requires Valid(l) && id < |l.streams| && Moves(l.streams[id], a.stream, l.conn, a.conn)
    ensures Valid(With(l, id, a))
  {
    var l' := With(l, id, a);
    TotalsUpdate(l.streams, id, a.stream);
    TotalsOrdered(l'.streams);
  }

  /** Receive credit is conserved: every event keeps the sums and the bounds, and no window falls. */
  lemma EventKeepsLedger(l: Ledger, e: Event)
    requires Valid(l) && Enabled(l, e)
    ensures Valid(Apply(l, e)) && Advances(l.conn, Apply(l, e).conn)
    ensures |l.streams| <= |Apply(l, e).streams|
    ensures forall i :: 0 <= i < |l.streams| ==> Advances(l.streams[i].w, Apply(l, e).streams[i].w)
  {
    hide UpdateHighestReceived, After, Window.GetWindowUpdate;
    match e {
      case OpenStream(window, maxWindow) =>
        TotalsAppend(l.streams, Stream(NewWindow(window, maxWindow), false));
      case ConnWindowUpdate(now, rtt, allowed) =>
        UpdateKeepsWindow(l.conn, now, rtt, allowed);
      case _ =>
        EventMoves(l.streams[e.id], l.conn, e);
        MovingIsValid(l, e.id, After(l.streams[e.id], l.conn, e));
    }
  }

  predicate IsRun(l: Ledger, es: seq<Event>)
    decreases |es|
  {
    es == [] || (Enabled(l, es[0]) && IsRun(Apply(l, es[0]), es[1..]))
  }

  function Final(l: Ledger, es: seq<Event>): Ledger
    requires IsRun(l, es)
    decreases |es|
  {
    if es == [] then l else Final(Apply(l, es[0]), es[1..])
  }

  lemma {:induction false} RunKeepsLedger(l: Ledger, es: seq<Event>)
    requires Valid(l) && IsRun(l, es)
    ensures Valid(Final(l, es)) && |l.streams| <= |Final(l, es).streams|
    ensures Advances(l.conn, Final(l, es).conn)
    ensures forall i :: 0 <= i < |l.streams| ==> Advances(l.streams[i].w, Final(l, es).streams[i].w)
    decreases |es|
  {
    hide Apply, Enabled, Valid, Window.Valid;
    if es != [] {
      var l1 := Apply(l, es[0]);
      EventKeepsLedger(l, es[0]);
      RunKeepsLedger(l1, es[1..]);
      AdvancesChain(l, l1, Final(l, es));
    }
  }

  lemma AdvancesChain(a: Ledger, b: Ledger, c: Ledger)
    requires Advances(a.conn, b.conn) && Advances(b.conn, c.conn)
    requires |a.streams| <= |b.streams| <= |c.streams|
    requires forall i :: 0 <= i < |a.streams| ==> Advances(a.streams[i].w, b.streams[i].w)
    requires forall i :: 0 <= i < |b.streams| ==> Advances(b.streams[i].w, c.streams[i].w)
    ensures Advances(a.conn, c.conn)
    ensures forall i :: 0 <= i < |a.streams| ==> Advances(a.streams[i].w, c.streams[i].w)
  {
  }

  function NewLedger(window: nat, maxWindow: nat): Ledger { Ledger(NewWindow(window, maxWindow), [], []) }

  /**
   On every run from a new connection the totals are the sums over the streams, unread data fits the window,
   and no window is larger than its initial size or its maximum.
   */
  lemma CreditIsConserved(window: nat, maxWindow: nat, es: seq<Event>)
    requires IsRun(NewLedger(window, maxWindow), es)
    ensures var l := Final(NewLedger(window, maxWindow), es);
            && l.conn.highestReceived == TotalReceived(l.streams) && l.conn.bytesRead == TotalRead(l.streams)
            && l.conn.highestReceived - l.conn.bytesRead <= l.conn.size <= Max(window, maxWindow)
            && |l.initial| == |l.streams|
            && forall i :: 0 <= i < |l.streams| ==>
                             var w := l.streams[i].w;
                             w.highestReceived - w.bytesRead <= w.size <= Max(l.initial[i], w.maxSize)
  {
    RunKeepsLedger(NewLedger(window, maxWindow), es);
  }

  // ---------------------------------------------------------------- send credit

  /** Octets charged, and the peer's limit on them. */
  datatype Account = Account(bytesSent: nat, sendWindow: nat)

  datatype SendLedger = SendLedger(conn: Account, streams: seq<Account>)

  function Raised(a: Account, limit: nat): Account { a.(sendWindow := Max(a.sendWindow, limit)) }

  function Charged(a: Account, n: nat): Account { a.(bytesSent := a.bytesSent + n) }

  predicate Fits(a: Account, n: nat) { a.bytesSent <= a.sendWindow && n <= a.sendWindow - a.bytesSent }

  /** The accounts of a stream and of its connection. */
  datatype Charges = Charges(stream: Account, conn: Account)

  /** All or nothing, at both levels. */
  function TryCharge(s: Account, c: Account, n: nat): Charges {
    if !Fits(s, n) then Charges(s, c)
    else if !Fits(c, n) then Charges(s, c)
    else Charges(Charged(s, n), Charged(c, n))
  }

  /** What a connection with a limiter charges; the limiter's answer is clamped to what the connection allows. */
  function ConnLimited(c: Account, n: nat, allowed: int): nat {
    if c.bytesSent >= c.sendWindow then 0 else Min(Max(allowed, 0), Min(n, c.sendWindow - c.bytesSent))
  }

  function Limited(s: Account, c: Account, n: nat, allowed: int): nat {
    if s.bytesSent >= s.sendWindow then 0 else ConnLimited(c, Min(n, s.sendWindow - s.bytesSent), allowed)
  }

  function LimitedCharge(s: Account, c: Account, n: nat, allowed: int): Charges {
    Charges(Charged(s, Limited(s, c, n, allowed)), Charged(c, Limited(s, c, n, allowed)))
  }

  /** Any call of the send side, at any time: each decides by itself whether it takes credit. */
  datatype SendEvent =
    | NewStream(sendWindow: nat)
    | TryAddBytesSent(id: nat, n: nat)
    | AddBytesSentWithLimiter(id: nat, n: nat, allowed: int)
    | MaxData(limit: nat)
    | MaxStreamData(id: nat, limit: nat)

  function ApplySend(l: SendLedger, e: SendEvent): SendLedger {
    match e
    case NewStream(sendWindow) => l.(streams := l.streams + [Account(0, sendWindow)])
    case MaxData(limit) => l.(conn := Raised(l.conn, limit))
    case _ => if e.id < |l.streams| then WithCharges(l, e.id, OnStream(l.streams[e.id], l.conn, e)) else l
  }

  function OnStream(s: Account, c: Account, e: SendEvent): Charges
    requires !e.NewStream? && !e.MaxData?
  {
    match e
    case TryAddBytesSent(_, n) => TryCharge(s, c, n)
    case AddBytesSentWithLimiter(_, n, allowed) => LimitedCharge(s, c, n, allowed)
    case MaxStreamData(_, limit) => Charges(Raised(s, limit), c)
  }

  function WithCharges(l: SendLedger, id: nat, a: Charges): SendLedger
    requires id < |l.streams|
  {
    SendLedger(a.conn, l.streams[id := a.stream])
  }

  function TotalSent(ss: seq<Account>): nat {
    if ss == [] then 0 else ss[0].bytesSent + TotalSent(ss[1..])
  }

  lemma {:induction false} TotalSentUpdate(ss: seq<Account>, i: nat, a: Account)
    requires i < |ss|
    ensures TotalSent(ss[i := a]) == TotalSent(ss) - ss[i].bytesSent + a.bytesSent
  {
    if i == 0 {
      assert ss[i := a][1..] == ss[1..];
    } else {
      TotalSentUpdate(ss[1..], i - 1, a);
      assert ss[i := a][1..] == ss[1..][i - 1 := a];
    }
  }

  lemma {:induction false} TotalSentAppend(ss: seq<Account>, a: Account)
    ensures TotalSent(ss + [a]) == TotalSent(ss) + a.bytesSent
  {
    if ss == [] {
      assert ss + [a] == [a] && [a][1..] == [];
    } else {
      TotalSentAppend(ss[1..], a);
      assert (ss + [a])[1..] == ss[1..] + [a];
    }
  }

  function FinalSend(l: SendLedger, es: seq<SendEvent>): SendLedger
    decreases |es|
  {
    if es == [] then l else FinalSend(ApplySend(l, es[0]), es[1..])
  }

  /** No account is over its limit, and the connection is charged the sum of what its streams are charged. */
  predicate SendValid(l: SendLedger) {
    && l.conn.bytesSent == TotalSent(l.streams) <= l.conn.sendWindow
    && forall i :: 0 <= i < |l.streams| ==> l.streams[i].bytesSent <= l.streams[i].sendWindow
  }

  /** An account is charged up to its limit only, and its limit does not fall. */
  predicate Spends(a: Account, a': Account) {
    a.bytesSent <= a'.bytesSent <= a'.sendWindow && a.sendWindow <= a'.sendWindow
  }

  /**
   The decisions keep both limits and charge both accounts the same. A call without limiter is refused exactly when
   one of the accounts lacks the credit; one with a limiter takes what the limiter, the stream and the connection all
   allow.
   */
  lemma DecisionsKeepLimits(s: Account, c: Account, e: SendEvent)
    requires s.bytesSent <= s.sendWindow && c.bytesSent <= c.sendWindow && !e.NewStream? && !e.MaxData?
    ensures var a := OnStream(s, c, e);
            && Spends(s, a.stream) && Spends(c, a.conn)
            && a.stream.bytesSent - s.bytesSent == a.conn.bytesSent - c.bytesSent
            && (e.TryAddBytesSent? && e.n > 0 ==>
                  (a == Charges(s, c) <==> s.bytesSent + e.n > s.sendWindow || c.bytesSent + e.n > c.sendWindow))
            && (e.AddBytesSentWithLimiter? ==>
                  a.stream.bytesSent - s.bytesSent ==
                  Min(Max(e.allowed, 0), Min(e.n, Min(s.sendWindow - s.bytesSent, c.sendWindow - c.bytesSent))))
  {
  }

  lemma SendEventKeepsLedger(l: SendLedger, e: SendEvent)
    requires SendValid(l)
    ensures var l' := ApplySend(l, e);
            && SendValid(l') && Spends(l.conn, l'.conn) && |l.streams| <= |l'.streams|
            && forall i :: 0 <= i < |l.streams| ==> Spends(l.streams[i], l'.streams[i])
  {
    hide OnStream;
    match e {
      case NewStream(w) => TotalSentAppend(l.streams, Account(0, w));
      case MaxData(_) =>
      case _ =>
        if e.id < |l.streams| {
          DecisionsKeepLimits(l.streams[e.id], l.conn, e);
          TotalSentUpdate(l.streams, e.id, OnStream(l.streams[e.id], l.conn, e).stream);
        }
    }
  }

  /** On every sequence of calls the sums and the limits are kept, and neither charges nor limits fall. */
  lemma {:induction false} SendCreditIsConserved(l: SendLedger, es: seq<SendEvent>)
    requires SendValid(l)
    ensures var l' := FinalSend(l, es);
            && SendValid(l') && Spends(l.conn, l'.conn) && |l.streams| <= |l'.streams|
            && forall i :: 0 <= i < |l.streams| ==> Spends(l.streams[i], l'.streams[i])
    decreases |es|
  {
    hide ApplySend;
    if es != [] {
      SendEventKeepsLedger(l, es[0]);
      SendCreditIsConserved(ApplySend(l, es[0]), es[1..]);
    }
  }
}
