/**
  One delta log: lines appended while a host is down, shipped to it as a whole when it answers again, restored on
  failure.
 */
module DeltaLogs {
  datatype Line = Line(timediff: int, command: string)

  /** The active file, the file moved to history while it is being shipped, and what the host has received. */
  datatype Log = Log(active: seq<Line>, history: seq<Line>, shipping: bool, delivered: seq<Line>)

  const EMPTYLOG := Log([], [], false, [])

  /** Appends may come between the two halves of a shipment: the lock is released while the lines travel. */
  datatype Event = Append(line: Line) | Begin(hostAnswers: bool) | Finish(sent: bool)

  function Step(log: Log, e: Event): Log {
    match e
    case Append(line) => log.(active := log.active + [line])
    case Begin(hostAnswers) =>
      if log.shipping || log.active == [] || !hostAnswers then log
      else log.(active := [], history := log.active, shipping := true)
    case Finish(sent) =>
      if !log.shipping then log
      else if sent then log.(history := [], shipping := false, delivered := log.delivered + log.history)
      else log.(active := log.history + log.active, history := [], shipping := false)
  }

  function Run(log: Log, es: seq<Event>): Log {
    if es == [] then log else Step(Run(log, es[..|es| - 1]), es[|es| - 1])
  }

  /** The lines of the append events, in order. */
  function Appended(es: seq<Event>): seq<Line> {
    if es == [] then []
    else Appended(es[..|es| - 1]) + match es[|es| - 1] case Append(line) => [line] case _ => []
  }

  /** Over every interleaving, what was delivered, what is under way and what waits are all the lines, in order. */
  lemma {:induction false} EveryLineOnce(es: seq<Event>)
    ensures var log := Run(EMPTYLOG, es);
            && log.delivered + log.history + log.active == Appended(es)
            && (!log.shipping ==> log.history == [])
  {
    if es != [] {
      EveryLineOnce(es[..|es| - 1]);
    }
  }

  lemma RunOn(es: seq<Event>, e: Event)
    ensures Run(EMPTYLOG, es + [e]) == Step(Run(EMPTYLOG, es), e)
  {
    assert (es + [e])[..|es|] == es;
  }

  function Appends(lines: seq<Line>): seq<Event> {
    seq(|lines|, i requires 0 <= i < |lines| => Append(lines[i]))
  }

  lemma AppendsOne(es: seq<Event>, lines: seq<Line>, n: nat)
    requires |lines| == n + 1
    ensures es + Appends(lines) == es + Appends(lines[..n]) + [Append(lines[n])]
    ensures lines == lines[..n] + [lines[n]]
  {
  }

  lemma {:induction false} RunAppends(es: seq<Event>, lines: seq<Line>)
    ensures var log := Run(EMPTYLOG, es);
            Run(EMPTYLOG, es + Appends(lines)) == log.(active := log.active + lines)
  {
    hide Run;
    if lines == [] {
      assert es + Appends(lines) == es;
    } else {
      var n := |lines| - 1;
      RunAppends(es, lines[..n]);
      AppendsOne(es, lines, n);
      RunOn(es + Appends(lines[..n]), Append(lines[n]));
    }
  }

  /** A shipment that succeeds leaves nothing behind but what was appended while it was under way. */
  lemma ShipmentDelivers(es: seq<Event>, meanwhile: seq<Line>)
    requires !Run(EMPTYLOG, es).shipping && Run(EMPTYLOG, es).active != []
    ensures var log := Run(EMPTYLOG, es + [Begin(true)] + Appends(meanwhile) + [Finish(true)]);
            log.delivered == Appended(es) && log.active == meanwhile && !log.shipping
  {
    var before := Run(EMPTYLOG, es);
    EveryLineOnce(es);
    var begun := es + [Begin(true)];
    RunOn(es, Begin(true));
    RunAppends(begun, meanwhile);
    RunOn(begun + Appends(meanwhile), Finish(true));
  }

  /** A host that does not answer changes nothing, now or later. */
  lemma {:induction false} SilentHostChangesNothing(es: seq<Event>, later: seq<Event>)
    ensures Run(EMPTYLOG, es + [Begin(false)] + later) == Run(EMPTYLOG, es + later)
  {
    if later == [] {
      assert es + [Begin(false)] + later == es + [Begin(false)] && es + later == es;
      RunOn(es, Begin(false));
    } else {
      var n := |later| - 1;
      SilentHostChangesNothing(es, later[..n]);
      assert es + [Begin(false)] + later == es + [Begin(false)] + later[..n] + [later[n]];
      assert es + later == es + later[..n] + [later[n]];
      RunOn(es + [Begin(false)] + later[..n], later[n]);
      RunOn(es + later[..n], later[n]);
    }
  }

  /** A shipment that fails puts its lines back in front of what was appended meanwhile. */
  lemma FailureRestores(es: seq<Event>, meanwhile: seq<Line>)
    requires !Run(EMPTYLOG, es).shipping && Run(EMPTYLOG, es).active != []
    ensures Run(EMPTYLOG, es + [Begin(true)] + Appends(meanwhile) + [Finish(false)])
            == Run(EMPTYLOG, es + Appends(meanwhile))
  {
    EveryLineOnce(es);
    var before := Run(EMPTYLOG, es);
    var begun := es + [Begin(true)];
    RunOn(es, Begin(true));
    assert Run(EMPTYLOG, begun) == before.(active := [], history := before.active, shipping := true);
    RunAppends(begun, meanwhile);
    RunAppends(es, meanwhile);
    var ended := begun + Appends(meanwhile);
    RunOn(ended, Finish(false));
    assert [] + meanwhile == meanwhile;
  }
}
