/**
 The MPD client's exchanges in the protocol's own bytes and the numbers of the header
 file: which lines are refusals, what plain commands and plain lists expect, and how
 reading and sending fail.
 */
module MpdExchanges {
  import opened Common
  import opened MpdWire
  import opened MpdProtocol
  import opened MpdConnection

  // ---------- lines ----------

  /** A line that starts with ACK, whatever follows, ends the command with its error. */
  lemma RefusalEnds(v: View, t: string, rest: string)
    requires !v.done && '\n' !in t && 3 + |t| < 50000
    requires v.stream == ("ACK" + t) + "\n" + rest
    ensures var f := Finish(v);
            f.done && f.error == 18 && f.stream == rest && f.tail == v.tail && f.listOks == v.listOks && !f.doneListOk
  {
    var w := FinishLine(v, "ACK" + t, rest);
    StepReads(v.(doneListOk := false), "ACK" + t, rest);
    assert w.done;
  }

  /** Any other line is no refusal, and it ends the command if and only if it is OK. */
  lemma OtherLinesGoOn(v: View, line: string, rest: string) returns (w: View)
    requires !v.done && '\n' !in line && |line| < 50000 && !("ACK" <= line)
    requires v.stream == line + "\n" + rest
    ensures Finish(v) == Finish(w) && w.stream == rest && w.tail == v.tail
    ensures w.error == v.error || w.error == 1
    ensures w.done <==> line == "OK"
  {
    var u := v.(doneListOk := false);
    StepReads(u, line, rest);
    w := Step(u);
    assert Finish(v) == Finish(w);
  }

  /** The command ends in error 18 if and only if the first line that is OK or starts with ACK starts with ACK. */
  lemma {:induction false} RefusedIff(v: View, lines: seq<string>, last: string, rest: string)
    requires !v.done && v.error != 18 && v.stream == Join(lines, last + "\n" + rest)
    requires forall line | line in lines :: '\n' !in line && |line| < 50000 && line != "OK" && !("ACK" <= line)
    requires '\n' !in last && |last| < 50000 && (last == "OK" || "ACK" <= last)
    ensures Finish(v).done && Finish(v).stream == rest && (Finish(v).error == 18 <==> last != "OK")
    decreases |lines|
  {
    if lines != [] {
      var more := Join(lines[1..], last + "\n" + rest);
      assert lines[0] in lines && forall line | line in lines[1..] :: line in lines;
      var w := OtherLinesGoOn(v, lines[0], more);
      RefusedIff(w, lines[1..], last, rest);
    } else if last == "OK" {
      var w := OtherLinesGoOn(v, last, rest);
    } else {
      assert last == "ACK" + last[3..];
      RefusalEnds(v, last[3..], rest);
    }
  }

  // ---------- failures ----------

  /** The bytes before the first newline fill the buffer. */
  predicate Overruns(s: string) {
    |s| >= 50000 && '\n' !in s[..50000]
  }

  /**
   How a read fails, for every stream and network: 19 if 50000 bytes hold no newline;
   otherwise, if no newline has come, 17 if the connection is closed next and else 10.
   Without one of these a line is read, and none of these errors appears.
   */
  lemma StepFails(v: View)
    requires !Blocked(v) && v.error == 0
    ensures Step(v).error == 19 <==> Overruns(v.stream)
    ensures Step(v).error == 17 <==>
            !Overruns(v.stream) && '\n' !in v.stream && v.tail != [] && v.tail[0].Closed?
    ensures Step(v).error == 10 <==>
            !Overruns(v.stream) && '\n' !in v.stream && !(v.tail != [] && v.tail[0].Closed?)
    ensures Step(v).error in {10, 17, 19} ==> Step(v).done && !Step(v).doneListOk && Step(v).elem == None
  {
    var s := v.stream;
    var k := NewlineAt(s);
    assert forall i | 0 <= i < k :: s[i] in s[..k];
    if |s| >= 50000 {
      assert 50000 <= k ==> '\n' !in s[..50000];
      assert k < 50000 ==> s[..50000][k] == '\n';
    }
  }

  /** Reading when nothing may be read changes nothing but the error and the lookahead. */
  lemma BlockedStep(v: View)
    requires v.done || (v.listOks != 0 && v.doneListOk)
    ensures Step(v) == v.(elem := None, error := 1)
  {
  }

  // ---------- plain commands and plain lists ----------

  /** A plain command: refused while an answer is pending, and otherwise sent, cut short or stuck. */
  lemma PlainCommand(v: View, o: SendOutcome)
    requires v.commandList == 0
    ensures !v.done ==> Execute(v, o) == v.(error := 1)
    ensures v.done ==> Execute(v, o) == match o
                                        case Sent => v.(error := 0, done := false)
                                        case SendFailed => v.(error := 16)
                                        case SendTimedOut => v.(error := 10)
  {
  }

  /** List mode is entered whether the begin goes out or not; only an OK list counts its commands. */
  lemma ListModes(v: View, o: SendOutcome)
    requires v.commandList == 0
    ensures ListBegin(v, o).commandList == 1 && ListBegin(v, o).listOks == v.listOks
    ensures ListOkBegin(v, o).commandList == 2 && ListOkBegin(v, o).listOks == 0
    ensures ListBegin(v, o).error == ListOkBegin(v, o).error == if o.Sent? then 0 else if o.SendFailed? then 16 else 10
    ensures ListBegin(v, o).done == ListOkBegin(v, o).done == v.done
  {
  }

  /** In list mode a second begin, and outside it an end, changes nothing but the error. */
  lemma ListModesExclude(v: View, o: SendOutcome)
    ensures v.commandList != 0 ==> ListBegin(v, o) == ListOkBegin(v, o) == v.(error := 1)
    ensures v.commandList == 0 ==> ListEnd(v, o) == v.(error := 1)
  {
  }

  lemma {:induction false} PlainListCounts(v: View, n: nat)
    requires v.commandList == 1 && v.error == 0
    ensures ExecuteAll(v, n) == v
    decreases n
  {
    if n > 0 {
      PlainListCounts(Execute(v, Sent), n - 1);
    }
  }

  /** A plain list of any number of commands is one command: nothing is owed for its parts. */
  lemma PlainListSent(v: View, n: nat)
    requires v.done && v.commandList == 0
    ensures ListEnd(ExecuteAll(ListBegin(v, Sent), n), Sent) == v.(done := false, error := 0)
  {
    PlainListCounts(ListBegin(v, Sent), n);
  }

  /**
   The whole exchange of a plain list: without debt, however its answer is used, it
   finishes clean if and only if the answer is well-formed and holds no list_OK.
   */
  lemma PlainListExchange(v: View, n: nat, ops: seq<Op>)
    requires v.done && !v.doneListOk && v.commandList == 0 && v.listOks == 0
    ensures var sent := ListEnd(ExecuteAll(ListBegin(v, Sent), n), Sent);
            && (Finish(sent).error == 0 <==> Owed(v.stream, 0))
            && (Owed(v.stream, 0) ==>
                  var f := Finish(Run(sent, ops)); f.done && f.listOks == 0 && !f.doneListOk && f.error == 0)
  {
    PlainListSent(v, n);
    var sent := ListEnd(ExecuteAll(ListBegin(v, Sent), n), Sent);
    FinishIsCleanIff(sent);
    if Owed(v.stream, 0) {
      PartsRun(sent, ops, 0);
      FinishIsClean(Run(sent, ops));
    }
  }

  // ---------- sending ----------

  predicate Flows(sends: seq<SendEvent>) {
    forall e | e in sends :: e.Accept? || e.Retry?
  }

  function Room(sends: seq<SendEvent>): nat {
    if sends == [] then 0 else (if sends[0].Accept? then sends[0].count else 0) + Room(sends[1..])
  }

  /** Over short writes and retries, a command is sent if and only if the socket takes as many bytes as it has. */
  lemma {:induction false} SentIff(sends: seq<SendEvent>, left: nat)
    requires 0 < left && Flows(sends)
    ensures Sending(sends, left) == if left <= Room(sends) then (Sent, left) else (SendTimedOut, Room(sends))
    decreases |sends|
  {
    if sends != [] {
      assert sends[0] in sends && forall e | e in sends[1..] :: e in sends;
      if sends[0].Retry? {
        SentIff(sends[1..], left);
      } else if sends[0].count < left {
        SentIff(sends[1..], left - sends[0].count);
      }
    }
  }

  /** Behind events that take less than there is, a failure or a stuck socket ends the sending. */
  lemma {:induction false} SendingFails(sends: seq<SendEvent>, e: SendEvent, more: seq<SendEvent>, left: nat)
    requires Flows(sends) && Room(sends) < left && (e.Broken? || e.Stuck?)
    ensures Sending(sends + ([e] + more), left) == (if e.Broken? then SendFailed else SendTimedOut, Room(sends))
    decreases |sends|
  {
    var all := sends + ([e] + more);
    if sends == [] {
      assert all == [e] + more;
    } else {
      assert sends[0] in sends && forall d | d in sends[1..] :: d in sends;
      assert all[1..] == sends[1..] + ([e] + more) && all[0] == sends[0];
      SendingFails(sends[1..], e, more, if sends[0].Accept? then left - sends[0].count else left);
    }
  }
}
