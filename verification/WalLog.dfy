/** The write-ahead log of a table: printed by one method, replayed by another and trimmed by a third. */
module WalLog {
  import opened Decimal

  const MSGLEN: nat := 10

  datatype Entry = Entry(replicType: int, timediff: int, batch: int, message: string)

  function PrintEntry(e: Entry): string {
    PrintSigned(e.replicType) + ";" + (PrintSigned(e.timediff) + ";"
      + (PrintSigned(e.batch) + ";" + (PrintPadded(|e.message|, MSGLEN) + e.message)))
  }

  function PrintAll(es: seq<Entry>): string {
    if es == [] then "" else PrintEntry(es[0]) + PrintAll(es[1..])
  }

  lemma PrintOfTwo()
    ensures PrintSigned(2) == "2" && PrintSigned(-5) == "-5" && PrintSigned(0) == "0"
    ensures PrintPadded(2, MSGLEN) == "0000000002"
  {
    assert Print(2) == "2" && Print(5) == "5" && Print(0) == "0";
  }

  /** The third copy's entry of a two-letter message, five seconds behind and in no batch. */
  lemma EntryInPrint()
    ensures PrintEntry(Entry(2, -5, 0, "ab")) == "2;-5;0;0000000002ab"
  {
    hide PrintSigned, PrintPadded;
    PrintOfTwo();
    assert "0000000002" + "ab" == "0000000002ab";
    assert "0" + ";" + "0000000002ab" == "0;0000000002ab" && "-5" + ";" + "0;0000000002ab" == "-5;0;0000000002ab";
  }

  /**
    What a session can log: one of three copies, a 32-bit time difference, a flag, and a C string whose length fits
    its field.
   */
  ghost predicate Loggable(e: Entry) {
    && 0 <= e.replicType <= 2
    && -0x8000_0000 <= e.timediff < 0x8000_0000
    && 0 <= e.batch <= 1
    && |e.message| < 10_000_000_000 && '\0' !in e.message
  }

  ghost predicate AllLoggable(es: seq<Entry>) {
    forall i :: 0 <= i < |es| ==> Loggable(es[i])
  }

  lemma {:induction false} PrintAllAppend(es: seq<Entry>, fs: seq<Entry>)
    ensures PrintAll(es + fs) == PrintAll(es) + PrintAll(fs)
  {
    if es == [] {
      assert es + fs == fs;
    } else {
      assert (es + fs)[1..] == es[1..] + fs;
      PrintAllAppend(es[1..], fs);
    }
  }

  lemma PrintAllOne(e: Entry)
    ensures PrintAll([e]) == PrintEntry(e)
  {
    assert [e][1..] == [];
  }

  /** A field as the log's readers can find it again. */
  ghost predicate Field(f: string, limit: nat) {
    1 <= |f| <= limit + 1 && forall i :: 0 <= i < |f| ==> f[i] != ';' && f[i] != '\0'
  }

  lemma TenDigits()
    ensures Power10(10) == 10_000_000_000
  {
    assert Power10(5) == 100_000;
  }

  lemma FieldsOf(e: Entry)
    requires Loggable(e)
    ensures Field(PrintSigned(e.replicType), 0) && Field(PrintSigned(e.timediff), 15) && Field(PrintSigned(e.batch), 0)
    ensures Atoi(PrintSigned(e.replicType)) == e.replicType && PrintSigned(e.replicType)[0] in ['0', '1', '2']
    ensures Atoi(PrintSigned(e.timediff)) == e.timediff && Atoi(PrintSigned(e.batch)) == e.batch
    ensures |PrintPadded(|e.message|, MSGLEN)| == MSGLEN && Atoi(PrintPadded(|e.message|, MSGLEN)) == |e.message|
  {
    TenDigits();
    AtoiSigned(e.replicType);
    AtoiSigned(e.timediff);
    AtoiSigned(e.batch);
    SignedChars(e.timediff);
    AtoiPadded(|e.message|, MSGLEN);
    PrintLength(|e.message|, MSGLEN);
  }

  /** Reads a field up to the next semicolon or the end of the log, giving up past the limit. */
  method ReadField(log: string, pos: nat, limit: nat, ghost f: string, ghost g: string)
    returns (field: string, over: bool, next: nat)
    requires pos <= |log|
    ensures pos <= next <= |log| && (field != "" ==> next > pos)
    ensures Field(f, limit) && log[pos..] == f + ";" + g ==> !over && field == f && log[next..] == g
    ensures pos == |log| ==> !over && field == ""
  {
    var i := 0;
    while pos + i < |log|
      invariant pos + i <= |log|
      invariant Field(f, limit) && log[pos..] == f + ";" + g ==> i <= |f|
    {
      var c := log[pos + i];
      assert c == log[pos..][i];
      assert log[pos..][i + 1..] == log[pos + i + 1..];
      if c == ';' {
        assert log[pos..][..i] == log[pos..pos + i];
        return log[pos..pos + i], false, pos + i + 1;
      } else if i > limit {
        return log[pos..pos + i], true, pos + i;
      }
      i := i + 1;
    }
    return log[pos..], false, |log|;
  }

  /** Reads up to n characters. */
  method ReadSafely(log: string, pos: nat, n: int, ghost f: string, ghost g: string) returns (s: string, next: nat)
    requires pos <= |log|
    ensures pos <= next <= |log|
    ensures n == |f| && log[pos..] == f + g ==> s == f && log[next..] == g
  {
    next := if n < 0 then pos else if n <= |log| - pos then pos + n else |log|;
    s := log[pos..next];
    assert log[pos..][..next - pos] == s && log[pos..][next - pos..] == log[next..];
  }

  predicate Blank(field: string) {
    field == "" || field[0] == '\0'
  }

  datatype Outcome = Entered(e: Entry) | Ended | Broken

  /** The rest of the log, as it has been printed: nothing, or an entry and more. */
  ghost predicate Ahead(text: string, rest: seq<Entry>) {
    AllLoggable(rest) && text == PrintAll(rest)
  }

  /** The text of an entry and of all that follows it, as its readers take it apart. */
  datatype Pieces = Pieces(kind: string, timediff: string, batch: string, length: string, message: string, rest: string)

  function Join(p: Pieces): string {
    p.kind + ";" + (p.timediff + ";" + (p.batch + ";" + (p.length + (p.message + p.rest))))
  }

  ghost function PiecesOf(es: seq<Entry>): Pieces {
    if es == [] then Pieces("", "", "", "", "", "")
    else
      Pieces(PrintSigned(es[0].replicType), PrintSigned(es[0].timediff), PrintSigned(es[0].batch),
             PrintPadded(|es[0].message|, MSGLEN), es[0].message, PrintAll(es[1..]))
  }

  lemma JoinEntry(e: Entry, rest: string)
    ensures PrintEntry(e) + rest
            == Join(Pieces(PrintSigned(e.replicType), PrintSigned(e.timediff), PrintSigned(e.batch),
                           PrintPadded(|e.message|, MSGLEN), e.message, rest))
  {
    var a, b, c, d, m := PrintSigned(e.replicType), PrintSigned(e.timediff), PrintSigned(e.batch),
        PrintPadded(|e.message|, MSGLEN), e.message;
    assert d + m + rest == d + (m + rest);
    assert c + ";" + (d + m) + rest == c + ";" + (d + (m + rest));
    assert b + ";" + (c + ";" + (d + m)) + rest == b + ";" + (c + ";" + (d + (m + rest)));
  }

  lemma TakenApart(text: string, es: seq<Entry>)
    requires Ahead(text, es) && es != []
    ensures var p := PiecesOf(es);
            && text == Join(p) && Ahead(p.rest, es[1..])
            && Field(p.kind, 0) && Field(p.timediff, 15) && Field(p.batch, 0) && |p.length| == MSGLEN
            && p.kind[0] in ['0', '1', '2']
            && Atoi(p.length) == |p.message|
            && Entry(Atoi(p.kind), Atoi(p.timediff), Atoi(p.batch), p.message) == es[0]
  {
    var e, rest := es[0], PrintAll(es[1..]);
    FieldsOf(e);
    JoinEntry(e, rest);
  }

  lemma Start(log: string, pos: nat, rest: seq<Entry>)
    requires pos <= |log|
    ensures Ahead(log[pos..], rest) && rest == [] ==> pos == |log|
    ensures Ahead(log[pos..], rest) && rest != [] ==>
              var p := PiecesOf(rest);
              && log[pos..] == Join(p) && Ahead(p.rest, rest[1..])
              && Field(p.kind, 0) && Field(p.timediff, 15) && Field(p.batch, 0) && |p.length| == MSGLEN
              && !Blank(p.kind) && !Blank(p.timediff) && !Blank(p.batch)
              && p.kind[0] in ['0', '1', '2'] && Atoi(p.length) == |p.message|
              && Entry(Atoi(p.kind), Atoi(p.timediff), Atoi(p.batch), p.message) == rest[0]
  {
    if Ahead(log[pos..], rest) && rest != [] {
      TakenApart(log[pos..], rest);
    }
  }

  /** Reads one entry. */
  method ReadEntry(log: string, pos: nat, strict: bool, ghost rest: seq<Entry>) returns (r: Outcome, next: nat)
    requires pos <= |log|
    ensures pos <= next <= |log| && (r.Entered? ==> next > pos)
    ensures Ahead(log[pos..], rest) ==>
              if rest == [] then r == Ended else r == Entered(rest[0]) && Ahead(log[next..], rest[1..])
  {
    hide PrintSigned, PrintPadded, PrintAll, AllLoggable, Atoi, Ahead, PiecesOf, Field;
    Start(log, pos, rest);
    ghost var p := PiecesOf(rest);
    ghost var m1 := p.message + p.rest;
    ghost var m2 := p.length + m1;
    ghost var m3 := p.batch + ";" + m2;
    ghost var m4 := p.timediff + ";" + m3;
    var field1, over1, p1 := ReadField(log, pos, 0, p.kind, m4);
    if over1 {
      return Broken, p1;
    }
    if Blank(field1) {
      return Ended, p1;
    }
    if strict && field1[0] != '0' && field1[0] != '1' && field1[0] != '2' {
      return Ended, p1;
    }
    var field2, over2, p2 := ReadField(log, p1, 15, p.timediff, m3);
    if over2 {
      return Broken, p2;
    }
    if Blank(field2) {
      return Ended, p2;
    }
    var field3, over3, p3 := ReadField(log, p2, 0, p.batch, m2);
    if over3 {
      return Broken, p3;
    }
    if Blank(field3) {
      return Ended, p3;
    }
    var field4, p4 := ReadSafely(log, p3, MSGLEN, p.length, m1);
    var length := Atoi(field4);
    var message;
    message, next := ReadSafely(log, p4, length, p.message, p.rest);
    r := Entered(Entry(Atoi(field1), Atoi(field2), Atoi(field3), message));
  }

  /** How many of the entries were written for the owner's own copy. */
  function Originals(es: seq<Entry>): nat {
    if es == [] then 0 else Originals(es[..|es| - 1]) + if es[|es| - 1].replicType == 0 then 1 else 0
  }

  /** They are as many as the entries of copy 0. */
  lemma {:induction false} OriginalsCount(es: seq<Entry>)
    ensures Originals(es) == |set i | 0 <= i < |es| && es[i].replicType == 0|
  {
    if es != [] {
      var n := |es| - 1;
      OriginalsCount(es[..n]);
      assert (set i | 0 <= i < |es| && es[i].replicType == 0)
          == (set i | 0 <= i < n && es[..n][i].replicType == 0) + (if es[n].replicType == 0 then {n} else {});
    }
  }

  /** The entries for which a trim finds a live key. */
  function Kept(es: seq<Entry>, live: Entry -> bool): seq<Entry> {
    if es == [] then [] else Kept(es[..|es| - 1], live) + if live(es[|es| - 1]) then [es[|es| - 1]] else []
  }

  /** They stay in order: what is kept of one log and then of another is what is kept of both in a row. */
  lemma {:induction false} KeptJoins(a: seq<Entry>, b: seq<Entry>, live: Entry -> bool)
    ensures Kept(a + b, live) == Kept(a, live) + Kept(b, live)
  {
    if b == [] {
      assert a + b == a;
    } else {
      assert (a + b)[..|a + b| - 1] == a + b[..|b| - 1];
      KeptJoins(a, b[..|b| - 1], live);
    }
  }

  lemma RedoStarts(log: string, es: seq<Entry>)
    ensures log[0..] == log && es[0..] == es && es[..0] == [] && Originals([]) == 0 && es[..|es|] == es
  {
  }

  lemma RedoGoesOn(es: seq<Entry>, done: seq<Entry>, e: Entry)
    ensures Originals(done + [e]) == Originals(done) + if e.replicType == 0 then 1 else 0
    ensures |done| < |es| ==> es[|done|..][1..] == es[|done| + 1..] && es[|done|..][0] == es[|done|]
    ensures |done| < |es| && done == es[..|done|] && e == es[|done|] ==> done + [e] == es[..|done| + 1]
  {
    assert (done + [e])[..|done|] == done;
  }

  /** Replays a log: hands every entry on, and counts those of the owner's own copy. */
  method Redo(log: string, ghost es: seq<Entry>) returns (count: nat, replayed: seq<Entry>)
    ensures Ahead(log, es) ==> replayed == es && count == Originals(es)
  {
    hide Ahead, PrintAll, Originals;
    count, replayed := 0, [];
    var pos := 0;
    RedoStarts(log, es);
    while true
      invariant pos <= |log| && count == Originals(replayed)
      invariant Ahead(log, es) ==>
                  |replayed| <= |es| && replayed == es[..|replayed|] && Ahead(log[pos..], es[|replayed|..])
      decreases |log| - pos
    {
      ghost var rest := if |replayed| <= |es| then es[|replayed|..] else [];
      var r, next := ReadEntry(log, pos, true, rest);
      match r
      case Broken => return;
      case Ended => break;
      case Entered(e) =>
        RedoGoesOn(es, replayed, e);
        replayed := replayed + [e];
        if e.replicType == 0 {
          count := count + 1;
        }
        pos := next;
    }
  }

  lemma TrimStarts(log: string, es: seq<Entry>, live: Entry -> bool)
    ensures log[0..] == log && es[0..] == es && PrintAll(Kept(es[..0], live)) == "" && |Kept(es[..0], live)| == 0
    ensures es[..|es|] == es
  {
  }

  lemma KeptOne(es: seq<Entry>, k: nat, live: Entry -> bool)
    requires k < |es|
    ensures Kept(es[..k + 1], live) == Kept(es[..k], live) + if live(es[k]) then [es[k]] else []
  {
    assert es[..k + 1][..k] == es[..k];
  }

  lemma TrimGoesOn(es: seq<Entry>, k: nat, live: Entry -> bool)
    requires k < |es|
    ensures es[k..][1..] == es[k + 1..]
    ensures var before := Kept(es[..k], live);
            && |Kept(es[..k + 1], live)| == |before| + (if live(es[k]) then 1 else 0)
            && PrintAll(Kept(es[..k + 1], live)) == PrintAll(before) + if live(es[k]) then PrintEntry(es[k]) else ""
  {
    hide PrintAll, PrintEntry;
    KeptOne(es, k, live);
    PrintAllOne(es[k]);
    var before := Kept(es[..k], live);
    PrintAllAppend(before, [es[k]]);
    assert before + [] == before && PrintAll(before) + "" == PrintAll(before);
  }

  /**
    Trims a log: the entries whose key is live are printed to a new log, which then takes the place of the old one. A
    log that cannot be read to its end stays as it is.
   */
  method Trim(log: string, live: Entry -> bool, ghost es: seq<Entry>) returns (trimmed: string, written: nat)
    ensures Ahead(log, es) ==> trimmed == PrintAll(Kept(es, live)) && written == |Kept(es, live)|
  {
    hide Ahead, PrintAll, Kept;
    trimmed, written := "", 0;
    var pos := 0;
    ghost var k := 0;
    TrimStarts(log, es, live);
    while true
      invariant pos <= |log|
      invariant Ahead(log, es) ==> k <= |es| && Ahead(log[pos..], es[k..])
      invariant Ahead(log, es) ==> trimmed == PrintAll(Kept(es[..k], live)) && written == |Kept(es[..k], live)|
      decreases |log| - pos
    {
      ghost var rest := if k <= |es| then es[k..] else [];
      var r, next := ReadEntry(log, pos, false, rest);
      match r
      case Broken => return log, written;
      case Ended => break;
      case Entered(e) =>
        if k < |es| && e == es[k] {
          TrimGoesOn(es, k, live);
        }
        if live(e) {
          trimmed := trimmed + PrintEntry(e);
          written := written + 1;
        }
        pos := next;
        k := k + 1;
    }
  }

  /** A trimmed log keeps, as often as they were, exactly the entries that are live. */
  lemma {:induction false} KeptAreLive(es: seq<Entry>, live: Entry -> bool, e: Entry)
    ensures multiset(Kept(es, live))[e] == if live(e) then multiset(es)[e] else 0
  {
    if es != [] {
      var n := |es| - 1;
      KeptAreLive(es[..n], live, e);
      assert es == es[..n] + [es[n]];
    }
  }

  lemma {:induction false} KeptLoggable(es: seq<Entry>, live: Entry -> bool)
    requires AllLoggable(es)
    ensures AllLoggable(Kept(es, live))
  {
    if es != [] {
      KeptLoggable(es[..|es| - 1], live);
    }
  }

  /** Trimming once more changes nothing. */
  lemma {:induction false} KeptTwice(es: seq<Entry>, live: Entry -> bool)
    ensures Kept(Kept(es, live), live) == Kept(es, live)
  {
    if es != [] {
      var before, e := Kept(es[..|es| - 1], live), es[|es| - 1];
      KeptTwice(es[..|es| - 1], live);
      if live(e) {
        assert (before + [e])[..|before|] == before;
      } else {
        assert before + [] == before;
      }
    }
  }

  lemma FieldsAlign(f: string, f': string, g: string, g': string)
    requires f + ";" + g == f' + ";" + g'
    requires (forall i :: 0 <= i < |f| ==> f[i] != ';') && (forall i :: 0 <= i < |f'| ==> f'[i] != ';')
    ensures f == f' && g == g'
  {
    var s := f + ";" + g;
    assert s[|f|] == ';' && s[|f'|] == ';';
    assert forall i :: 0 <= i < |f| ==> s[i] == f[i];
    assert forall i :: 0 <= i < |f'| ==> s[i] == f'[i];
    assert |f| == |f'|;
    assert s[..|f|] == f && s[..|f|] == f';
    assert s[|f| + 1..] == g && s[|f| + 1..] == g';
  }

  lemma SomethingPrinted(es: seq<Entry>)
    ensures es == [] <==> PrintAll(es) == ""
  {
    if es != [] {
      assert |PrintEntry(es[0])| > 0;
    }
  }

  lemma Halves(f: string, f': string, g: string, g': string)
    requires f + g == f' + g' && |f| == |f'|
    ensures f == f' && g == g'
  {
    assert (f + g)[..|f|] == f && (f + g)[..|f|] == f';
    assert (f + g)[|f|..] == g && (f + g)[|f|..] == g';
  }

  lemma PiecesAlign(p: Pieces, q: Pieces)
    requires Join(p) == Join(q)
    requires Field(p.kind, 0) && Field(p.timediff, 15) && Field(p.batch, 0) && |p.length| == MSGLEN
             && Atoi(p.length) == |p.message|
    requires Field(q.kind, 0) && Field(q.timediff, 15) && Field(q.batch, 0) && |q.length| == MSGLEN
             && Atoi(q.length) == |q.message|
    ensures p == q
  {
    hide Atoi;
    var p1, q1 := p.length + (p.message + p.rest), q.length + (q.message + q.rest);
    var p2, q2 := p.batch + ";" + p1, q.batch + ";" + q1;
    FieldsAlign(p.kind, q.kind, p.timediff + ";" + p2, q.timediff + ";" + q2);
    FieldsAlign(p.timediff, q.timediff, p2, q2);
    FieldsAlign(p.batch, q.batch, p1, q1);
    Halves(p.length, q.length, p.message + p.rest, q.message + q.rest);
    Halves(p.message, q.message, p.rest, q.rest);
  }

  /** A log can be taken apart in one way only. */
  lemma {:induction false} PrintAllUnique(es: seq<Entry>, fs: seq<Entry>)
    requires AllLoggable(es) && AllLoggable(fs) && PrintAll(es) == PrintAll(fs)
    ensures es == fs
  {
    SomethingPrinted(es);
    SomethingPrinted(fs);
    if es != [] && fs != [] {
      hide PrintAll, Join, Loggable, Field, Atoi;
      var p, q := PiecesOf(es), PiecesOf(fs);
      TakenApart(PrintAll(es), es);
      TakenApart(PrintAll(fs), fs);
      PiecesAlign(p, q);
      PrintAllUnique(es[1..], fs[1..]);
      assert es == [es[0]] + es[1..] && fs == [fs[0]] + fs[1..];
    }
  }

  /** The log of one table. The entries are what the commands logged so far, less what trims have dropped. */
  lemma EntryAhead(text: string, entries: seq<Entry>, e: Entry)
    requires Ahead(text, entries) && Loggable(e)
    ensures Ahead(text + PrintEntry(e), entries + [e])
  {
    PrintAllAppend(entries, [e]);
    PrintAllOne(e);
  }

  class WalFile {
    var text: string
    ghost var entries: seq<Entry>

    ghost predicate Valid()
      reads this
    {
      Ahead(text, entries)
    }

    constructor ()
      ensures Valid() && entries == []
    {
      text, entries := "", [];
    }

    /** Logs a command. */
    method LogCommand(replicType: int, timediff: int, message: string, spMode: int)
      requires Valid() && Loggable(Entry(replicType, timediff, 0, message))
      modifies this
      ensures Valid()
      ensures entries == old(entries) + [Entry(replicType, timediff, if spMode == 2 then 1 else 0, message)]
    {
      var e := Entry(replicType, timediff, if spMode == 2 then 1 else 0, message);
      EntryAhead(text, entries, e);
      text := text + PrintEntry(e);
      entries := entries + [e];
    }

    /** Replaying gives back every entry. */
    method Replay() returns (count: nat, replayed: seq<Entry>)
      requires Valid()
      ensures replayed == entries && count == Originals(entries)
    {
      count, replayed := Redo(text, entries);
    }

    /** Trimming drops the entries that are not live. */
    method TrimFile(live: Entry -> bool) returns (written: nat)
      requires Valid()
      modifies this
      ensures Valid() && entries == Kept(old(entries), live) && written == |entries|
    {
      ghost var before := entries;
      text, written := Trim(text, live, entries);
      entries := Kept(before, live);
      KeptLoggable(before, live);
    }
  }
}
