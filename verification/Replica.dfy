/** Servers in a ring that keep copies of each other's data, and log what a copy has missed. */
module Replica {
  import opened DeltaLogs

  /** The ring position of x, which is at most one turn away from the positions 0 to n - 1. */
  function Wrap(x: int, n: int): int {
    if x >= n then x - n else if x < 0 then x + n else x
  }

  datatype Neighbours = Neighbours(next: int, prev: int, nextNext: int, prevPrev: int)

  /** The neighbours of a server, by the cases at both ends of the host list. */
  function Around(s: int, n: int): (p: Neighbours)
    requires n >= 2 && 0 <= s < n
    ensures p == Neighbours(Wrap(s + 1, n), Wrap(s - 1, n), Wrap(s + 2, n), Wrap(s - 2, n))
  {
    var next := if s == n - 1 then 0 else s + 1;
    var prev := if s == 0 then n - 1 else s - 1;
    Neighbours(next, prev, if next == n - 1 then 0 else next + 1, if prev == 0 then n - 1 else prev - 1)
  }

  /** The server that holds the given copy of an owner's data. */
  function Holder(owner: int, copy: int, n: int): int
    requires n >= 2
  {
    if copy == 0 then owner else if copy == 1 then Wrap(owner + 1, n) else Wrap(owner - 1, n)
  }

  /** The server whose data a server works on when it acts for the given copy. */
  function Owner(self: int, copy: int, n: int): int
    requires n >= 2
  {
    if copy == 0 then self else if copy == 1 then Wrap(self - 1, n) else Wrap(self + 1, n)
  }

  /** A server's neighbours are the holders of the copies whose logs it keeps. */
  lemma NeighboursHold(self: int, n: int)
    requires n >= 2 && 0 <= self < n
    ensures var at, p, s := Around(self, n), Wrap(self - 1, n), Wrap(self + 1, n);
            && at.prev == p == Holder(p, 0, n) == Holder(self, 2, n) && at.prevPrev == Holder(p, 2, n)
            && at.next == s == Holder(s, 0, n) == Holder(self, 1, n) && at.nextNext == Holder(s, 1, n)
  {
  }

  datatype Reply = Y | N

  /** For each of the three copies, whether its server did the write. */
  type Header = h: seq<Reply> | |h| == 3 witness [Y, Y, Y]

  /** The two servers a server asks, and the copies their answers stand for, when the client is gone. */
  function Asked(self: int, copy: int, n: int): (r: ((int, int), (int, int)))
    requires n >= 3 && 0 <= self < n && 0 <= copy <= 2
    ensures 0 <= r.0.1 <= 2 && 0 <= r.1.1 <= 2 && r.0.1 != r.1.1 && r.0.1 != copy && r.1.1 != copy
    ensures r.0.0 == Holder(Owner(self, copy, n), r.0.1, n) && r.1.0 == Holder(Owner(self, copy, n), r.1.1, n)
  {
    if copy == 0 then
      var pos1 := if self == n - 1 then 0 else self + 1;
      var pos2 := if self == 0 then n - 1 else self - 1;
      ((pos1, 1), (pos2, 2))
    else if copy == 1 then
      var pos1 := if self == 0 then n - 1 else self - 1;
      var pos2 := if self == 0 then n - 2 else if self == 1 then n - 1 else self - 2;
      ((pos1, 0), (pos2, 2))
    else
      var pos1 := if self == n - 1 then 0 else self + 1;
      var pos2 := if self == n - 1 then 1 else if self == n - 2 then 0 else self + 2;
      ((pos1, 0), (pos2, 1))
  }

  /** The header after the two other holders have been asked. */
  function Refreshed(header: Header, self: int, copy: int, n: int, up: set<int>): (r: Header)
    requires n >= 3 && 0 <= self < n && 0 <= copy <= 2
    ensures forall c :: 0 <= c <= 2 ==>
              r[c] == if c == copy then header[c] else if Holder(Owner(self, copy, n), c, n) in up then Y else N
  {
    var (first, second) := Asked(self, copy, n);
    header[first.1 := if first.0 in up then Y else N][second.1 := if second.0 in up then Y else N]
  }

  /** The log mode of a header. */
  function Mode(header: Header): int {
    match (header[0], header[1], header[2])
    case (Y, Y, N) => 1
    case (Y, N, Y) => 2
    case (Y, N, N) => 3
    case (N, Y, Y) => 4
    case (N, Y, N) => 5
    case (N, N, Y) => 6
    case _ => 0
  }

  /** A delta log is named by the owner of the data and the number of the copy that missed them. */
  datatype LogName = LogName(owner: int, copy: int)

  datatype Handle = Closed | Open(name: LogName, target: int)

  /** Whether a write with this header, done at self for the given copy, is one that the named log must hold. */
  ghost predicate Missed(header: Header, self: int, copy: int, n: int, copies: int, name: LogName)
    requires n >= 2 && copies <= 3 && 0 <= copy <= 2
  {
    && header[copy] == Y
    && name.owner == Owner(self, copy, n)
    && 0 <= name.copy < copies
    && header[name.copy] == N
  }

  /**
    When the client is gone, a server that did the write logs it for exactly the copies whose servers do not answer.
   */
  lemma SilentHoldersAreLogged(header: Header, self: int, copy: int, n: int, up: set<int>, name: LogName)
    requires n >= 3 && 0 <= self < n && 0 <= copy <= 2 && header[copy] == Y
    ensures Missed(Refreshed(header, self, copy, n, up), self, copy, n, 3, name) <==>
            && name.owner == Owner(self, copy, n) && 0 <= name.copy <= 2 && name.copy != copy
            && Holder(name.owner, name.copy, n) !in up
  {
  }

  class Server {
    var logs: map<LogName, Log>
    var prevOri: Handle
    var prevRep: Handle
    var prevOriRep: Handle
    var nextOri: Handle
    var nextRep: Handle
    var nextOriRep: Handle

    const n: int
    const self: int
    const copies: int

    ghost function At(name: LogName): Log
      reads `logs
    {
      if name in logs then logs[name] else EMPTYLOG
    }

    ghost predicate Ring() {
      0 <= self < n && ((copies == 2 && n >= 2) || (copies == 3 && n >= 3))
    }

    /** A handle is on the log of the given owner and copy, and its target is the server that holds that copy. */
    ghost predicate On(h: Handle, owner: int, copy: int)
      requires Ring()
      reads this
    {
      h == Open(LogName(owner, copy), Holder(owner, copy, n)) && h.name in logs
    }

    ghost predicate Valid()
      reads this
    {
      && Ring()
      && On(prevOri, Wrap(self - 1, n), 0)
      && On(nextRep, self, 1)
      && (copies == 2 ==> prevRep == prevOriRep == nextOri == nextOriRep == Closed)
      && (copies == 3 ==>
            && On(prevRep, self, 2) && On(prevOriRep, Wrap(self - 1, n), 2)
            && On(nextOri, Wrap(self + 1, n), 0) && On(nextOriRep, Wrap(self + 1, n), 1))
    }

    /** Opens a log to append, creating its file if need be. */
    method OpenLog(owner: int, copy: int, target: int) returns (h: Handle)
      modifies this`logs
      ensures h == Open(LogName(owner, copy), target) && logs.Keys == old(logs.Keys) + {h.name}
      ensures forall name :: At(name) == old(At(name))
    {
      h := Open(LogName(owner, copy), target);
      if h.name !in logs {
        logs := logs[h.name := EMPTYLOG];
      }
    }

    /** Opens the logs aimed backward: of the previous server's data, and of this server's for the copy held there. */
    method OpenBackward(at: Neighbours)
      requires copies == 2 || copies == 3
      modifies this`logs, this`prevOri, this`prevRep, this`prevOriRep
      ensures prevOri == Open(LogName(at.prev, 0), at.prev) && prevOri.name in logs
      ensures copies == 2 ==> prevRep == old(prevRep) && prevOriRep == old(prevOriRep)
      ensures copies == 3 ==> prevRep == Open(LogName(self, 2), at.prev) && prevRep.name in logs
      ensures copies == 3 ==> prevOriRep == Open(LogName(at.prev, 2), at.prevPrev) && prevOriRep.name in logs
      ensures old(logs.Keys) <= logs.Keys && forall name :: At(name) == old(At(name))
    {
      prevOri := OpenLog(at.prev, 0, at.prev);
      if copies == 3 {
        prevRep := OpenLog(self, 2, at.prev);
        prevOriRep := OpenLog(at.prev, 2, at.prevPrev);
      }
    }

    /** Opens the logs aimed forward. */
    method OpenForward(at: Neighbours)
      requires copies == 2 || copies == 3
      modifies this`logs, this`nextOri, this`nextRep, this`nextOriRep
      ensures nextRep == Open(LogName(self, 1), at.next) && nextRep.name in logs
      ensures copies == 2 ==> nextOri == old(nextOri) && nextOriRep == old(nextOriRep)
      ensures copies == 3 ==> nextOri == Open(LogName(at.next, 0), at.next) && nextOri.name in logs
      ensures copies == 3 ==> nextOriRep == Open(LogName(at.next, 1), at.nextNext) && nextOriRep.name in logs
      ensures old(logs.Keys) <= logs.Keys && forall name :: At(name) == old(At(name))
    {
      if copies == 3 {
        nextOri := OpenLog(at.next, 0, at.next);
      }
      nextRep := OpenLog(self, 1, at.next);
      if copies == 3 {
        nextOriRep := OpenLog(at.next, 1, at.nextNext);
      }
    }

    /** Closes and reopens the logs. What they hold stays. */
    method ResetLogs()
      requires Ring()
      requires copies == 2 ==> prevRep == prevOriRep == nextOri == nextOriRep == Closed
      modifies this
      ensures Valid()
      ensures forall name :: At(name) == old(At(name))
    {
      hide Around, Wrap, Holder, At;
      NeighboursHold(self, n);
      var at := Around(self, n);
      OpenBackward(at);
      OpenForward(at);
    }

    constructor (servers: int, nth: int, faultToleranceCopy: int)
      requires 0 <= nth < servers && ((faultToleranceCopy == 2 && servers >= 2)
               || (faultToleranceCopy == 3 && servers >= 3))
      ensures Valid() && n == servers && self == nth && copies == faultToleranceCopy
      ensures forall name :: At(name) == EMPTYLOG
    {
      n, self, copies, logs := servers, nth, faultToleranceCopy, map[];
      prevOri, prevRep, prevOriRep := Closed, Closed, Closed;
      nextOri, nextRep, nextOriRep := Closed, Closed, Closed;
      new;
      ResetLogs();
    }

    /** Appends a line through a handle, if it is open. */
    method Write(h: Handle, line: Line)
      requires h.Open? ==> h.name in logs
      modifies this`logs
      ensures logs.Keys == old(logs.Keys)
      ensures forall name :: At(name) ==
                if h.Open? && name == h.name then Step(old(At(name)), Append(line)) else old(At(name))
    {
      if h.Open? {
        logs := logs[h.name := Step(logs[h.name], Append(line))];
      }
    }

    /**
      Logs a command that this server has done for the given copy, for every copy that missed it: one line in each
      log that must hold it, and no line anywhere else.
     */
    method LogCommand(header: Header, copy: int, line: Line)
      requires Valid() && 0 <= copy < copies
      modifies this`logs
      ensures Valid()
      ensures forall name :: At(name) == if Missed(header, self, copy, n, copies, name)
                                         then Step(old(At(name)), Append(line)) else old(At(name))
    {
      var mode := Mode(header);
      if copies == 2 {
        if mode == 1 {
          mode := 0;
        } else if mode == 3 {
          mode := 2;
        } else if mode == 5 {
          mode := 4;
        }
      }
      if mode == 1 {
        if copy == 0 {
          Write(prevRep, line);
        } else if copy == 1 {
          Write(prevOriRep, line);
        }
      } else if mode == 2 {
        if copy == 0 {
          Write(nextRep, line);
        } else if copy == 2 {
          Write(nextOriRep, line);
        }
      } else if mode == 3 {
        if copy == 0 {
          Write(prevRep, line);
          Write(nextRep, line);
        }
      } else if mode == 4 {
        if copy == 1 {
          Write(prevOri, line);
        } else if copy == 2 {
          Write(nextOri, line);
        }
      } else if mode == 5 {
        if copy == 1 {
          Write(prevOri, line);
          Write(prevOriRep, line);
        }
      } else if mode == 6 {
        if copy == 2 {
          Write(nextOri, line);
          Write(nextOriRep, line);
        }
      }
    }

    /** The first half of a shipment: if the target answers, the log's file moves to history. */
    method BeginShipment(h: Handle, hostAnswers: bool)
      requires h.Open? && h.name in logs
      modifies this`logs
      ensures logs.Keys == old(logs.Keys)
      ensures forall name :: At(name) ==
                if name == h.name then Step(old(At(name)), Begin(hostAnswers)) else old(At(name))
      ensures !hostAnswers ==> logs == old(logs)
    {
      var log := logs[h.name];
      if |log.active| > 0 && !log.shipping && hostAnswers {
        logs := logs[h.name := log.(active := [], history := log.active, shipping := true)];
      }
    }

    /** The second half: a shipment that failed is put back in front of what came in since. */
    method FinishShipment(h: Handle, sent: bool)
      requires h.Open? && h.name in logs && logs[h.name].shipping
      modifies this`logs
      ensures logs.Keys == old(logs.Keys)
      ensures forall name :: At(name) == if name == h.name then Step(old(At(name)), Finish(sent)) else old(At(name))
    {
      var log := logs[h.name];
      if !sent {
        logs := logs[h.name := Log(log.history + log.active, [], false, log.delivered)];
      } else {
        logs := logs[h.name := Log(log.active, [], false, log.delivered + log.history)];
      }
    }
  }

  type Copy = c: int | 0 <= c <= 2

  /** What can happen at one server: a write it did, with the answers of all copies, or a step of a shipment. */
  datatype Action = Did(header: Header, copy: Copy, line: Line) | Ship(name: LogName, event: Event)

  /** What an action does to one log, if anything. */
  ghost function EventOf(act: Action, self: int, n: int, copies: int, name: LogName): seq<Event>
    requires n >= 2 && copies <= 3
  {
    match act
    case Did(header, copy, line) => if Missed(header, self, copy, n, copies, name) then [Append(line)] else []
    case Ship(to, event) => if to == name && !event.Append? then [event] else []
  }

  /** The events of one log. */
  ghost function Events(acts: seq<Action>, self: int, n: int, copies: int, name: LogName): seq<Event>
    requires n >= 2 && copies <= 3
  {
    if acts == [] then []
    else Events(acts[..|acts| - 1], self, n, copies, name) + EventOf(acts[|acts| - 1], self, n, copies, name)
  }

  ghost predicate Doable(acts: seq<Action>, copies: int) {
    forall i :: 0 <= i < |acts| && acts[i].Did? ==> acts[i].copy < copies
  }

  /** One action of a server: the events it stands for, in all logs at once. */
  method Act(s: Server, act: Action)
    requires s.Valid() && (act.Did? ==> act.copy < s.copies)
    modifies s`logs
    ensures s.Valid()
    ensures forall name :: var es := EventOf(act, s.self, s.n, s.copies, name);
              s.At(name) == if es == [] then old(s.At(name)) else Step(old(s.At(name)), es[0])
  {
    match act
    case Did(header, copy, line) => s.LogCommand(header, copy, line);
    case Ship(name, Begin(hostAnswers)) =>
      if name in s.logs {
        s.BeginShipment(Open(name, 0), hostAnswers);
      }
    case Ship(name, Finish(sent)) =>
      if name in s.logs && s.logs[name].shipping {
        s.FinishShipment(Open(name, 0), sent);
      }
    case Ship(_, Append(_)) =>
  }

  lemma EventsOn(acts: seq<Action>, i: nat, self: int, n: int, copies: int, name: LogName)
    requires n >= 2 && copies <= 3 && i < |acts|
    ensures var before, es := Events(acts[..i], self, n, copies, name), EventOf(acts[i], self, n, copies, name);
            Run(EMPTYLOG, Events(acts[..i + 1], self, n, copies, name)) ==
              if es == [] then Run(EMPTYLOG, before) else Step(Run(EMPTYLOG, before), es[0])
  {
    var before, es := Events(acts[..i], self, n, copies, name), EventOf(acts[i], self, n, copies, name);
    assert acts[..i + 1][..i] == acts[..i];
    if es == [] {
      assert before + es == before;
    } else {
      assert es == [es[0]];
      RunOn(before, es[0]);
    }
  }

  lemma NothingRun(name: LogName, self: int, n: int, copies: int)
    requires n >= 2 && copies <= 3
    ensures Run(EMPTYLOG, Events([], self, n, copies, name)) == EMPTYLOG
  {
  }

  /** A server put through any run: each of its logs is what the log's events make of an empty one. */
  method Perform(n: int, self: int, copies: int, acts: seq<Action>) returns (s: Server)
    requires 0 <= self < n && ((copies == 2 && n >= 2) || (copies == 3 && n >= 3)) && Doable(acts, copies)
    ensures fresh(s) && s.Valid() && s.n == n && s.self == self && s.copies == copies
    ensures forall name :: s.At(name) == Run(EMPTYLOG, Events(acts, self, n, copies, name))
  {
    hide EventOf, Run, Step;
    s := new Server(n, self, copies);
    var i := 0;
    forall name
      ensures Run(EMPTYLOG, Events(acts[..0], self, n, copies, name)) == EMPTYLOG
    {
      NothingRun(name, self, n, copies);
    }
    while i < |acts|
      invariant 0 <= i <= |acts| && fresh(s) && s.Valid() && s.n == n && s.self == self && s.copies == copies
      invariant forall name :: s.At(name) == Run(EMPTYLOG, Events(acts[..i], self, n, copies, name))
    {
      forall name
        ensures var before, es := Events(acts[..i], self, n, copies, name), EventOf(acts[i], self, n, copies, name);
                Run(EMPTYLOG, Events(acts[..i + 1], self, n, copies, name)) ==
                  if es == [] then Run(EMPTYLOG, before) else Step(Run(EMPTYLOG, before), es[0])
      {
        EventsOn(acts, i, self, n, copies, name);
      }
      Act(s, acts[i]);
      i := i + 1;
    }
    assert acts[..i] == acts;
  }

  /** The commands that a copy of an owner's data has missed while self did them for another copy. */
  ghost function MissedLines(acts: seq<Action>, self: int, n: int, copies: int, name: LogName): seq<Line>
    requires n >= 2 && copies <= 3
  {
    if acts == [] then []
    else
      MissedLines(acts[..|acts| - 1], self, n, copies, name)
      + match acts[|acts| - 1]
        case Did(header, copy, line) => if Missed(header, self, copy, n, copies, name) then [line] else []
        case Ship(_, _) => []
  }

  lemma {:induction false} EventsAppend(acts: seq<Action>, self: int, n: int, copies: int, name: LogName)
    requires n >= 2 && copies <= 3
    ensures Appended(Events(acts, self, n, copies, name)) == MissedLines(acts, self, n, copies, name)
  {
    if acts != [] {
      EventsAppend(acts[..|acts| - 1], self, n, copies, name);
      var before := Events(acts[..|acts| - 1], self, n, copies, name);
      var all := Events(acts, self, n, copies, name);
      if all != before {
        assert all[..|all| - 1] == before;
      }
    }
  }

  /**
    Over every run of a server, each log has delivered, is shipping or still holds exactly what its copy missed, in
    order.
   */
  lemma NothingMissedIsLost(acts: seq<Action>, self: int, n: int, copies: int, name: LogName)
    requires n >= 2 && copies <= 3
    ensures var log := Run(EMPTYLOG, Events(acts, self, n, copies, name));
            log.delivered + log.history + log.active == MissedLines(acts, self, n, copies, name)
  {
    EveryLineOnce(Events(acts, self, n, copies, name));
    EventsAppend(acts, self, n, copies, name);
  }

  /**
    A write of an owner's data that at least one copy did: every copy that missed it is in the log of every copy that
    did it, and the target of that log is the server that holds the missed copy.
   */
  lemma EveryMissIsLogged(owner: int, header: Header, n: int, copies: int, done: int, missed: int)
    requires 0 <= owner < n && ((copies == 2 && n >= 2) || (copies == 3 && n >= 3))
    requires 0 <= done < copies && 0 <= missed < copies && header[done] == Y
    ensures var self := Holder(owner, done, n);
            && 0 <= self < n && Owner(self, done, n) == owner
            && (header[missed] == N <==> Missed(header, self, done, n, copies, LogName(owner, missed)))
            && (missed != done ==> Holder(owner, missed, n) != self)
  {
  }

  /**
    What can happen in the whole ring: a write of an owner's data, done by some of its copies, or a step of a shipment
    at a server.
   */
  datatype RingEvent = Write(owner: int, header: Header, line: Line) | ShipAt(server: int, name: LogName, event: Event)

  /** What a server does for a write as the holder of one copy. */
  ghost function DoneFor(owner: int, header: Header, line: Line, self: int, n: int, copies: int, c: Copy): seq<Action>
    requires n >= 2
  {
    if c < copies && Holder(owner, c, n) == self && header[c] == Y then [Did(header, c, line)] else []
  }

  /** What a server does for a write: it acts for the copy it holds, if it is one of those that did the write. */
  ghost function DoneAt(owner: int, header: Header, line: Line, self: int, n: int, copies: int): seq<Action>
    requires n >= 2
  {
    DoneFor(owner, header, line, self, n, copies, 0) + DoneFor(owner, header, line, self, n, copies, 1)
    + DoneFor(owner, header, line, self, n, copies, 2)
  }

  /** What one server sees of a run of the ring. */
  ghost function SeenAt(es: seq<RingEvent>, self: int, n: int, copies: int): seq<Action>
    requires n >= 2
  {
    if es == [] then []
    else
      SeenAt(es[..|es| - 1], self, n, copies)
      + match es[|es| - 1]
        case Write(owner, header, line) => DoneAt(owner, header, line, self, n, copies)
        case ShipAt(server, name, event) => if server == self then [Ship(name, event)] else []
  }

  /** The writes of an owner's data that copy done did and copy missed did not. */
  ghost function WritesMissed(es: seq<RingEvent>, owner: int, done: int, missed: int): seq<Line>
    requires 0 <= done <= 2 && 0 <= missed <= 2
  {
    if es == [] then []
    else
      WritesMissed(es[..|es| - 1], owner, done, missed)
      + match es[|es| - 1]
        case Write(o, header, line) => if o == owner && header[done] == Y && header[missed] == N then [line] else []
        case ShipAt(_, _, _) => []
  }

  ghost predicate OwnersInRing(es: seq<RingEvent>, n: int) {
    forall i :: 0 <= i < |es| && es[i].Write? ==> 0 <= es[i].owner < n
  }

  lemma {:induction false} MissedJoin(a: seq<Action>, b: seq<Action>, self: int, n: int, copies: int, name: LogName)
    requires n >= 2 && copies <= 3
    ensures MissedLines(a + b, self, n, copies, name) == MissedLines(a, self, n, copies, name)
            + MissedLines(b, self, n, copies, name)
  {
    if b == [] {
      assert a + b == a;
    } else {
      assert (a + b)[..|a + b| - 1] == a + b[..|b| - 1];
      MissedJoin(a, b[..|b| - 1], self, n, copies, name);
    }
  }

  lemma MissedOne(a: Action, self: int, n: int, copies: int, name: LogName)
    requires n >= 2 && copies <= 3
    ensures MissedLines([a], self, n, copies, name)
            == if a.Did? && Missed(a.header, self, a.copy, n, copies, name) then [a.line] else []
  {
    assert [a][..0] == [];
  }

  /** A server holds at most one copy of an owner's data. */
  lemma OneCopyHere(o: int, owner: int, done: int, n: int, copies: int)
    requires 0 <= owner < n && 0 <= o < n && ((copies == 2 && n >= 2) || (copies == 3 && n >= 3)) && 0 <= done < copies
    ensures forall c, d :: 0 <= c < d < copies ==> Holder(o, c, n) != Holder(o, d, n)
    ensures forall c :: 0 <= c < copies && Holder(o, c, n) == Holder(owner, done, n) && o == owner ==> c == done
    ensures forall c :: 0 <= c < copies && Holder(o, c, n) == Holder(owner, done, n) && o != owner ==>
              Owner(Holder(owner, done, n), c, n) == o
  {
  }

  lemma PartIsSeen(o: int, header: Header, line: Line, owner: int, done: int, missed: int, n: int, copies: int, c: Copy)
    requires 0 <= owner < n && 0 <= o < n && ((copies == 2 && n >= 2) || (copies == 3 && n >= 3))
    requires 0 <= done < copies && 0 <= missed < copies && done != missed
    ensures var self := Holder(owner, done, n);
            MissedLines(DoneFor(o, header, line, self, n, copies, c), self, n, copies, LogName(owner, missed))
            == if c == done && o == owner && header[done] == Y && header[missed] == N then [line] else []
  {
    var self := Holder(owner, done, n);
    OneCopyHere(o, owner, done, n, copies);
    hide Holder, Owner;
    if DoneFor(o, header, line, self, n, copies, c) != [] {
      MissedOne(Did(header, c, line), self, n, copies, LogName(owner, missed));
    }
  }

  /** A write shows in the log of one of its copies for another exactly if the one did it and the other missed it. */
  lemma WriteIsSeen(o: int, header: Header, line: Line, owner: int, done: int, missed: int, n: int, copies: int)
    requires 0 <= owner < n && 0 <= o < n && ((copies == 2 && n >= 2) || (copies == 3 && n >= 3))
    requires 0 <= done < copies && 0 <= missed < copies && done != missed
    ensures var self := Holder(owner, done, n);
            MissedLines(DoneAt(o, header, line, self, n, copies), self, n, copies, LogName(owner, missed))
            == if o == owner && header[done] == Y && header[missed] == N then [line] else []
  {
    hide DoneFor, MissedLines, Holder;
    var self, name := Holder(owner, done, n), LogName(owner, missed);
    var first, second, third := DoneFor(o, header, line, self, n, copies, 0),
                                DoneFor(o, header, line, self, n, copies, 1),
                                DoneFor(o, header, line, self, n, copies, 2);
    MissedJoin(first + second, third, self, n, copies, name);
    MissedJoin(first, second, self, n, copies, name);
    PartIsSeen(o, header, line, owner, done, missed, n, copies, 0);
    PartIsSeen(o, header, line, owner, done, missed, n, copies, 1);
    PartIsSeen(o, header, line, owner, done, missed, n, copies, 2);
  }

  lemma EventLogsMiss(es: seq<RingEvent>, owner: int, done: int, missed: int, n: int, copies: int)
    requires 0 <= owner < n && ((copies == 2 && n >= 2) || (copies == 3 && n >= 3)) && es != [] && OwnersInRing(es, n)
    requires 0 <= done < copies && 0 <= missed < copies && done != missed
    ensures var self, name := Holder(owner, done, n), LogName(owner, missed);
            var before, e := es[..|es| - 1], es[|es| - 1];
            MissedLines(SeenAt(es, self, n, copies), self, n, copies, name)
            == MissedLines(SeenAt(before, self, n, copies), self, n, copies, name)
               + if e.Write? && e.owner == owner && e.header[done] == Y && e.header[missed] == N then [e.line] else []
  {
    hide MissedLines, DoneAt, Holder, Owner, Missed;
    var before, e := es[..|es| - 1], es[|es| - 1];
    var self, name := Holder(owner, done, n), LogName(owner, missed);
    var seen := SeenAt(before, self, n, copies);
    match e
    case Write(o, header, line) =>
      MissedJoin(seen, DoneAt(o, header, line, self, n, copies), self, n, copies, name);
      WriteIsSeen(o, header, line, owner, done, missed, n, copies);
    case ShipAt(server, to, event) =>
      MissedJoin(seen, [Ship(to, event)], self, n, copies, name);
      MissedOne(Ship(to, event), self, n, copies, name);
      assert seen + [] == seen;
  }

  lemma {:induction false} RingLogsEveryMiss(es: seq<RingEvent>, owner: int, done: int, missed: int, n: int,
                                             copies: int)
    requires 0 <= owner < n && ((copies == 2 && n >= 2) || (copies == 3 && n >= 3)) && OwnersInRing(es, n)
    requires 0 <= done < copies && 0 <= missed < copies && done != missed
    ensures var self := Holder(owner, done, n);
            MissedLines(SeenAt(es, self, n, copies), self, n, copies, LogName(owner, missed))
              == WritesMissed(es, owner, done, missed)
  {
    if es != [] {
      RingLogsEveryMiss(es[..|es| - 1], owner, done, missed, n, copies);
      EventLogsMiss(es, owner, done, missed, n, copies);
    }
  }

  /**
    Over every run of the ring, and for any two copies of an owner's data: the log that the one keeps for the other has
    delivered, is shipping or still holds exactly the writes that the one did and the other missed, in order.
   */
  lemma {:induction false} RingLosesNoWrite(es: seq<RingEvent>, owner: int, done: int, missed: int, n: int, copies: int)
    requires 0 <= owner < n && ((copies == 2 && n >= 2) || (copies == 3 && n >= 3)) && OwnersInRing(es, n)
    requires 0 <= done < copies && 0 <= missed < copies && done != missed
    ensures var self, name := Holder(owner, done, n), LogName(owner, missed);
            var log := Run(EMPTYLOG, Events(SeenAt(es, self, n, copies), self, n, copies, name));
            log.delivered + log.history + log.active == WritesMissed(es, owner, done, missed)
  {
    RingLogsEveryMiss(es, owner, done, missed, n, copies);
    var self, name := Holder(owner, done, n), LogName(owner, missed);
    NothingMissedIsLost(SeenAt(es, self, n, copies), self, n, copies, name);
  }

  /** One transfer of a recovery: the sender's directory goes to the asking server's directory. */
  datatype Transfer = Transfer(from: int, to: int)

  function When(c: bool, t: Transfer): (r: seq<Transfer>)
    ensures forall u :: u in r <==> c && u == t
  {
    if c then [t] else []
  }

  function Both(here: bool, full: set<int>, t: Transfer, u: Transfer): seq<Transfer> {
    When(here && t.from in full, t) + When(here && u.from in full, u)
  }

  /**
    What server self sends when server asking has lost its data; full names the directories of self that hold objects.
   */
  function Transfers(asking: int, self: int, n: int, copies: int, full: set<int>): seq<Transfer>
    requires n >= 2 && 0 <= asking < n
  {
    var at := Around(asking, n);
    if copies == 2 then
      When(at.next == self && 1 in full, Transfer(1, 0)) + When(at.prev == self && 0 in full, Transfer(0, 1))
    else if copies == 3 then
      Both(at.next == self, full, Transfer(1, 0), Transfer(0, 2))
      + Both(at.prev == self, full, Transfer(2, 0), Transfer(0, 1))
      + When(at.nextNext == self && 1 in full, Transfer(1, 2))
      + When(at.prevPrev == self && 2 in full, Transfer(2, 1))
    else []
  }

  /** Directory from of a server holds what directory to of the asking server has lost. */
  ghost predicate Due(asking: int, self: int, n: int, copies: int, full: set<int>, t: Transfer)
    requires n >= 2
  {
    && self != asking && 0 <= t.from < copies && 0 <= t.to < copies && t.from in full
    && Owner(self, t.from, n) == Owner(asking, t.to, n)
  }

  lemma AroundOthers(asking: int, n: int)
    requires n >= 2 && 0 <= asking < n
    ensures Around(asking, n).next != asking && Around(asking, n).prev != asking
    ensures n >= 3 ==> Around(asking, n).nextNext != asking && Around(asking, n).prevPrev != asking
  {
  }

  lemma WhenCounts(c: bool, t: Transfer, u: Transfer)
    ensures multiset(When(c, t))[u] == if c && u == t then 1 else 0
  {
  }

  lemma TransfersOfTwo(asking: int, self: int, n: int, full: set<int>, t: Transfer)
    requires n >= 2 && 0 <= asking < n
    ensures var at := Around(asking, n);
            multiset(Transfers(asking, self, n, 2, full))[t] ==
              if t.from !in full then 0
              else if (t == Transfer(1, 0) && at.next == self) || (t == Transfer(0, 1) && at.prev == self)
              then 1 else 0
  {
    hide Around, When;
    var at := Around(asking, n);
    WhenCounts(at.next == self && 1 in full, Transfer(1, 0), t);
    WhenCounts(at.prev == self && 0 in full, Transfer(0, 1), t);
  }

  lemma BothCount(here: bool, full: set<int>, t: Transfer, u: Transfer, x: Transfer)
    requires t != u
    ensures multiset(Both(here, full, t, u))[x] == if here && x.from in full && (x == t || x == u) then 1 else 0
  {
    hide When;
    WhenCounts(here && t.from in full, t, x);
    WhenCounts(here && u.from in full, u, x);
  }

  lemma TransfersOfThree(asking: int, self: int, n: int, full: set<int>, t: Transfer)
    requires n >= 3 && 0 <= asking < n
    ensures var at := Around(asking, n);
            multiset(Transfers(asking, self, n, 3, full))[t] ==
              if t.from !in full then 0
              else if || (at.next == self && (t == Transfer(1, 0) || t == Transfer(0, 2)))
                      || (at.prev == self && (t == Transfer(2, 0) || t == Transfer(0, 1)))
                      || (at.nextNext == self && t == Transfer(1, 2)) || (at.prevPrev == self && t == Transfer(2, 1))
              then 1 else 0
  {
    hide Around, When, Both;
    var at := Around(asking, n);
    BothCount(at.next == self, full, Transfer(1, 0), Transfer(0, 2), t);
    BothCount(at.prev == self, full, Transfer(2, 0), Transfer(0, 1), t);
    WhenCounts(at.nextNext == self && 1 in full, Transfer(1, 2), t);
    WhenCounts(at.prevPrev == self && 2 in full, Transfer(2, 1), t);
  }

  /** Which copies two servers hold of the same owner's data, by their distance in the ring. */
  lemma SameOwner(asking: int, self: int, n: int, copies: int, from: int, to: int)
    requires 0 <= asking < n && 0 <= self < n && ((copies == 2 && n >= 2) || (copies == 3 && n >= 3))
    requires self != asking && 0 <= from < copies && 0 <= to < copies
    ensures var at := Around(asking, n);
            Owner(self, from, n) == Owner(asking, to, n) <==>
              || (from == 1 && to == 0 && at.next == self) || (from == 0 && to == 2 && at.next == self)
              || (from == 2 && to == 0 && at.prev == self) || (from == 0 && to == 1 && at.prev == self)
              || (from == 1 && to == 2 && at.nextNext == self) || (from == 2 && to == 1 && at.prevPrev == self)
  {
  }

  /**
    A server sends a directory into another exactly if both stand for the data of the same owner and there is something
    to send, and it sends it once.
   */
  lemma TransfersAreDue(asking: int, self: int, n: int, copies: int, full: set<int>, t: Transfer)
    requires 0 <= asking < n && 0 <= self < n && ((copies == 2 && n >= 2) || (copies == 3 && n >= 3))
    ensures multiset(Transfers(asking, self, n, copies, full))[t] ==
              if Due(asking, self, n, copies, full, t) then 1 else 0
    ensures t in Transfers(asking, self, n, copies, full) <==> Due(asking, self, n, copies, full, t)
  {
    hide Transfers, Owner;
    AroundOthers(asking, n);
    if copies == 2 {
      TransfersOfTwo(asking, self, n, full, t);
    } else {
      TransfersOfThree(asking, self, n, full, t);
    }
    if self != asking && 0 <= t.from < copies && 0 <= t.to < copies {
      SameOwner(asking, self, n, copies, t.from, t.to);
    }
    assert t in multiset(Transfers(asking, self, n, copies, full)) <==> t in Transfers(asking, self, n, copies, full);
  }

  /** A copy's holder works for its owner, and no server holds two copies of one owner's data. */
  lemma HolderOfOwner(owner: int, n: int, copies: int, copy: int)
    requires 0 <= owner < n && ((copies == 2 && n >= 2) || (copies == 3 && n >= 3)) && 0 <= copy < copies
    ensures 0 <= Holder(owner, copy, n) < n && Owner(Holder(owner, copy, n), copy, n) == owner
    ensures forall c :: 0 <= c < copies && Holder(owner, c, n) == Holder(owner, copy, n) ==> c == copy
  {
  }

  lemma OwnerHeld(self: int, n: int, copies: int, copy: int)
    requires 0 <= self < n && ((copies == 2 && n >= 2) || (copies == 3 && n >= 3)) && 0 <= copy < copies
    ensures 0 <= Owner(self, copy, n) < n && Holder(Owner(self, copy, n), copy, n) == self
  {
  }

  lemma ToBeSent(asking: int, self: int, n: int, copies: int, full: set<int>, t: Transfer)
    requires n >= 2 && 0 <= t.from < copies && 0 <= t.to < copies && t.from in full
    requires Owner(self, t.from, n) == Owner(asking, t.to, n)
    ensures Due(asking, self, n, copies, full, t) <==> self != asking
  {
  }

  /** Whoever holds a copy of what a directory of the asking server has lost sends it there, whatever else it has. */
  lemma HoldersSend(asking: int, n: int, copies: int, to: int, copy: int, full: set<int>)
    requires 0 <= asking < n && ((copies == 2 && n >= 2) || (copies == 3 && n >= 3)) && 0 <= to < copies
    requires 0 <= copy < copies && copy in full
    ensures var self := Holder(Owner(asking, to, n), copy, n);
            && 0 <= self < n && (self == asking <==> copy == to)
            && (self != asking ==> Transfer(copy, to) in Transfers(asking, self, n, copies, full))
  {
    hide *;
    var self := Holder(Owner(asking, to, n), copy, n);
    OwnerHeld(asking, n, copies, to);
    HolderOfOwner(Owner(asking, to, n), n, copies, copy);
    TransfersAreDue(asking, self, n, copies, full, Transfer(copy, to));
    ToBeSent(asking, self, n, copies, full, Transfer(copy, to));
  }

  /** With two copies each directory has one sender, which sends whenever it has the data, and nobody else ever does. */
  lemma RecoversWithTwoCopies(asking: int, n: int, dir: int, self: int, full: set<int>, from: int)
    requires n >= 2 && 0 <= asking < n && 0 <= dir <= 1 && 0 <= self < n
    ensures Transfer(from, dir) in Transfers(asking, self, n, 2, full) <==>
              from == 1 - dir && from in full && self == Holder(Owner(asking, dir, n), from, n)
  {
    hide Holder, Owner, Transfers;
    OwnerHeld(asking, n, 2, dir);
    TransfersAreDue(asking, self, n, 2, full, Transfer(from, dir));
    if 0 <= from <= 1 {
      OwnerHeld(self, n, 2, from);
      HolderOfOwner(Owner(asking, dir, n), n, 2, from);
    }
  }

  /**
    With three copies, each directory still has a sender when any one other server is silent, even if the sender has
    nothing else to send.
   */
  lemma RecoversWithOneSilent(asking: int, n: int, silent: int, dir: int) returns (self: int, t: Transfer)
    requires n >= 3 && 0 <= asking < n && silent != asking && 0 <= dir <= 2
    ensures 0 <= self < n && self != asking && self != silent
    ensures t.to == dir && forall full: set<int> :: t.from in full ==> t in Transfers(asking, self, n, 3, full)
  {
    var at := Around(asking, n);
    if dir == 0 {
      self, t := if silent != at.next then (at.next) else (at.prev),
                 if silent != at.next then Transfer(1, 0) else Transfer(2, 0);
    } else if dir == 1 {
      self, t := if silent != at.prev then at.prev else at.prevPrev,
                 if silent != at.prev then Transfer(0, 1) else Transfer(2, 1);
    } else {
      self, t := if silent != at.next then at.next else at.nextNext,
                 if silent != at.next then Transfer(0, 2) else Transfer(1, 2);
    }
  }

  function Real(pos: int): seq<int> {
    if pos >= 0 then [pos] else []
  }

  /** The servers that are told of a recovery, the asking one first. */
  function BroadcastHosts(asking: int, n: int, copies: int): seq<int>
    requires n >= 2 && 0 <= asking < n
  {
    var at := Around(asking, n);
    var pos1 := if at.next == asking then -1 else at.next;
    var pos2 := if at.prev == asking || at.prev == pos1 then -1 else at.prev;
    var pos3 := if at.nextNext == asking || at.nextNext == pos1 || at.nextNext == pos2 then -1 else at.nextNext;
    var pos4 := if at.prevPrev == asking || at.prevPrev == pos1 || at.prevPrev == pos2 || at.prevPrev == pos3
                then -1 else at.prevPrev;
    [asking]
    + (if copies == 2 then Real(pos1) else if copies == 3 then Real(pos1) + Real(pos2) + Real(pos3) + Real(pos4)
      else [])
  }

  ghost predicate Sends(asking: int, self: int, n: int, copies: int)
    requires n >= 2 && 0 <= asking < n
  {
    Transfers(asking, self, n, copies, {0, 1, 2}) != []
  }

  ghost predicate Distinct(s: seq<int>) {
    forall i, j :: 0 <= i < j < |s| ==> s[i] != s[j]
  }

  /** In a small ring the far neighbours coincide with near ones, or with each other. */
  lemma HostsAre(asking: int, n: int)
    requires n >= 3 && 0 <= asking < n
    ensures var at := Around(asking, n);
            BroadcastHosts(asking, n, 3) ==
              if n == 3 then [asking, at.next, at.prev]
              else if n == 4 then [asking, at.next, at.prev, at.nextNext]
              else [asking, at.next, at.prev, at.nextNext, at.prevPrev]
  {
    var at := Around(asking, n);
    assert at.next != asking && at.prev != asking && at.next != at.prev;
    assert Real(-1) == [];
  }

  lemma SendersAround(asking: int, self: int, n: int)
    requires n >= 3 && 0 <= asking < n
    ensures Sends(asking, self, n, 3) <==>
              self in {Around(asking, n).next, Around(asking, n).prev, Around(asking, n).nextNext,
                Around(asking, n).prevPrev}
  {
    var at := Around(asking, n);
    if self in {at.next, at.prev, at.nextNext, at.prevPrev} {
      assert |Transfers(asking, self, n, 3, {0, 1, 2})| > 0;
    }
  }

  /** With three copies the broadcast names the asking server and every sender, each of them once. */
  lemma BroadcastNamesSenders(asking: int, n: int, self: int)
    requires n >= 3 && 0 <= asking < n
    ensures Distinct(BroadcastHosts(asking, n, 3))
    ensures self in BroadcastHosts(asking, n, 3) <==> self == asking || (0 <= self < n && Sends(asking, self, n, 3))
  {
    hide BroadcastHosts, Sends;
    HostsAre(asking, n);
    SendersAround(asking, self, n);
    var at := Around(asking, n);
    var hosts := BroadcastHosts(asking, n, 3);
    if n == 3 {
      assert self in hosts <==> self == hosts[0] || self == hosts[1] || self == hosts[2];
    } else if n == 4 {
      assert self in hosts <==> self == hosts[0] || self == hosts[1] || self == hosts[2] || self == hosts[3];
    } else {
      assert self in hosts <==>
               self == hosts[0] || self == hosts[1] || self == hosts[2] || self == hosts[3] || self == hosts[4];
    }
  }

  /** With two copies it names only the right neighbour, which is every sender only where there are two servers. */
  lemma BroadcastWithTwoCopies(asking: int, n: int)
    requires n >= 2 && 0 <= asking < n
    ensures BroadcastHosts(asking, n, 2) == [asking, Holder(asking, 1, n)]
    ensures (forall self :: 0 <= self < n && Sends(asking, self, n, 2) ==> self in BroadcastHosts(asking, n, 2)) <==>
              n == 2
  {
    var at := Around(asking, n);
    assert Sends(asking, at.prev, n, 2) && Sends(asking, at.next, n, 2);
  }
}
