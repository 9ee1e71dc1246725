/**
 What the MPD client's operations mean on a View, and what every run of them
 keeps: line framing, resynchronisation after a command, and the accounting of
 command lists answered part by part.
 */
module MpdProtocol {
  import opened Common
  import opened MpdWire

  // ---------- framing: successive reads are the lines of the stream ----------

  /** A line that fits the buffer together with its newline. */
  predicate Fits(line: string) {
    '\n' !in line && |line| < BUFFER_MAX
  }

  /** `lines`, each with its newline, and then `rest`. */
  function Join(lines: seq<string>, rest: string): string {
    if lines == [] then rest else lines[0] + "\n" + Join(lines[1..], rest)
  }

  lemma ReadsLine(v: View, line: string, rest: string)
    requires v.stream == line + "\n" + rest && Fits(line)
    ensures AwaitLine(v) == (Line(line), v.(stream := rest))
  {
    assert v.stream[..|line|] == line && v.stream[|line| + 1..] == rest;
    NewlineAtUnique(v.stream, |line|);
  }

  /** Reads lines until a read fails; returns the lines and the failure. */
  function Drain(v: View): (seq<string>, LineResult)
    decreases |v.stream|
  {
    var (r, u) := AwaitLine(v);
    if r.Line? then
      var (lines, why) := Drain(u);
      ([r.text] + lines, why)
    else ([], r)
  }

  /** How a wait with `rest` pending, and no more complete lines, fails. */
  function Failure(rest: string, tail: seq<Event>): LineResult {
    if BUFFER_MAX <= |rest| then Overrun
    else if tail != [] && tail[0].Closed? then ConnClosed
    else TimedOut
  }

  /** No newline among the bytes a full buffer would hold. */
  predicate Unfinished(rest: string) {
    '\n' !in rest[..if |rest| < BUFFER_MAX then |rest| else BUFFER_MAX]
  }

  lemma DrainLine(v: View, line: string, rest: string)
    requires v.stream == line + "\n" + rest && Fits(line)
    ensures var (lines, why) := Drain(v.(stream := rest)); Drain(v) == ([line] + lines, why)
  {
    ReadsLine(v, line, rest);
  }

  lemma DrainNothing(v: View)
    requires Unfinished(v.stream)
    ensures Drain(v) == ([], Failure(v.stream, v.tail))
  {
    NoNewlineBefore(v.stream, v.stream[..if |v.stream| < BUFFER_MAX then |v.stream| else BUFFER_MAX]);
  }

  /** The lines read are exactly the lines of the stream, in order. */
  lemma {:induction false} DrainReadsAllLines(v: View, lines: seq<string>, rest: string)
    requires v.stream == Join(lines, rest)
    requires forall line | line in lines :: Fits(line)
    requires Unfinished(rest)
    ensures Drain(v) == (lines, Failure(rest, v.tail))
    decreases |lines|
  {
    if lines == [] {
      DrainNothing(v);
    } else {
      var more := Join(lines[1..], rest);
      DrainLine(v, lines[0], more);
      DrainReadsAllLines(v.(stream := more), lines[1..], rest);
      assert lines == [lines[0]] + lines[1..];
    }
  }

  /** Every stream splits that way, so the previous lemma covers every input. */
  lemma {:induction false} EveryStreamSplits(s: string) returns (lines: seq<string>, rest: string)
    ensures s == Join(lines, rest)
    ensures forall line | line in lines :: Fits(line)
    ensures Unfinished(rest)
    decreases |s|
  {
    var k := NewlineAt(s);
    if k < |s| && k < BUFFER_MAX {
      var more;
      more, rest := EveryStreamSplits(s[k + 1..]);
      lines := [s[..k]] + more;
      assert lines[1..] == more;
      assert s == s[..k] + "\n" + s[k + 1..];
    } else {
      lines, rest := [], s;
      assert forall i | 0 <= i < k :: s[i] in s[..k];
    }
  }

  /** The bytes of the Data events of a script. */
  function Payload(script: seq<Event>): string {
    if script == [] then ""
    else (if script[0].Data? then script[0].bytes else "") + Payload(script[1..])
  }

  /** However a stream is cut into chunks and EAGAINs, the reader sees the same bytes. */
  lemma {:induction false} ChunkingIsInvisible(feed: seq<Event>, after: seq<Event>)
    requires forall e | e in feed :: e.Data? || e.Again?
    ensures Flow(feed + after) == Payload(feed) + Flow(after)
    ensures Stop(feed + after) == Stop(after)
  {
    if feed == [] {
      assert feed + after == after;
    } else {
      FirstEvent(feed, after);
      ChunkingIsInvisible(feed[1..], after);
      var first := if feed[0].Data? then feed[0].bytes else "";
      assert first + (Payload(feed[1..]) + Flow(after)) == first + Payload(feed[1..]) + Flow(after);
    }
  }

  lemma FirstEvent(feed: seq<Event>, after: seq<Event>)
    requires feed != [] && (feed[0].Data? || feed[0].Again?)
    ensures Flow(feed + after) == (if feed[0].Data? then feed[0].bytes else "") + Flow(feed[1..] + after)
    ensures Stop(feed + after) == Stop(feed[1..] + after)
  {
    assert (feed + after)[1..] == feed[1..] + after;
    assert feed[0].Again? ==> "" + Flow(feed[1..] + after) == Flow(feed[1..] + after);
  }

  // ---------- one step ----------

  lemma StepKeepsCoherent(v: View)
    requires Coherent(v)
    ensures Coherent(Step(v))
  {
  }

  lemma StepShrinks(v: View)
    ensures Blocked(v) || Step(v).done || |Step(v).stream| < |v.stream|
  {
  }

  lemma StepReads(v: View, line: string, rest: string)
    requires !Blocked(v) && v.stream == line + "\n" + rest && Fits(line)
    ensures Step(v) == Classify(line, v.(stream := rest, elem := None))
  {
    ReadsLine(v.(elem := None), line, rest);
  }

  // ---------- mpd_finishCommand ----------

  function Finish(v: View): View
    decreases !v.done, |v.stream|
  {
    if v.done then v
    else
      var u := v.(doneListOk := false);
      StepShrinks(u);
      Finish(Step(u))
  }

  lemma {:induction false} FinishKeepsCoherent(v: View)
    requires Coherent(v)
    ensures Coherent(Finish(v)) && Finish(v).done && !Finish(v).doneListOk
    ensures Finish(v).elem == (if v.done then v.elem else None)
    decreases !v.done, |v.stream|
  {
    if !v.done {
      var u := v.(doneListOk := false);
      StepShrinks(u);
      FinishKeepsCoherent(Step(u));
    }
  }

  predicate IsTransport(error: int) {
    error in {ERROR_TIMEOUT, ERROR_CONNCLOSED, ERROR_BUFFEROVERRUN}
  }

  /** The stream starts with a response: whole lines, the last one `OK` or an ACK. */
  ghost predicate Responds(s: string, lines: seq<string>, last: string, rest: string) {
    && s == Join(lines, last + "\n" + rest)
    && (forall line | line in lines :: Fits(line) && !Terminates(line))
    && Fits(last) && Terminates(last)
  }

  /** After a complete response the reader stands right behind its last line. */
  lemma {:induction false} FinishStopsBehindResponse(v: View, lines: seq<string>, last: string, rest: string)
    requires !v.done && Responds(v.stream, lines, last, rest)
    ensures var f := Finish(v); f.done && f.stream == rest && f.tail == v.tail
    ensures !IsTransport(v.error) ==> !IsTransport(Finish(v).error)
    ensures if last == "OK" then Finish(v).listOks == 0 else Finish(v).error == ERROR_ACK
    decreases |lines|
  {
    if lines == [] {
      var w := FinishLine(v, last, rest);
    } else {
      var more := Join(lines[1..], last + "\n" + rest);
      assert lines[0] in lines && forall line | line in lines[1..] :: line in lines;
      var w := FinishLine(v, lines[0], more);
      FinishStopsBehindResponse(w, lines[1..], last, rest);
    }
  }

  /** One turn of the loop of mpd_finishCommand, on a complete line. */
  lemma FinishLine(v: View, line: string, rest: string) returns (w: View)
    requires !v.done && v.stream == line + "\n" + rest && Fits(line)
    ensures Finish(v) == Finish(w) && w.stream == rest && w.tail == v.tail && (w.done <==> Terminates(line))
    ensures !IsTransport(v.error) ==> !IsTransport(w.error)
    ensures line == "OK" ==> w.listOks == 0
    ensures IsAck(line) ==> w.error == ERROR_ACK
  {
    var u := v.(doneListOk := false);
    StepReads(u, line, rest);
    w := Classify(line, u.(stream := rest, elem := None));
    assert Finish(v) == Finish(Step(u));
  }

  /**
   Finishing fails with a transport error exactly when the stream holds no
   complete response; otherwise the next command starts in sync.
   */
  lemma {:induction false} FinishIsSyncedOrReportsTransport(v: View)
    requires !v.done && !IsTransport(v.error)
    ensures !IsTransport(Finish(v).error) <==>
            exists lines, last, rest :: Responds(v.stream, lines, last, rest)
  {
    if !IsTransport(Finish(v).error) {
      var lines, last, rest := ResponseOf(v);
    }
    forall lines, last, rest | Responds(v.stream, lines, last, rest)
      ensures !IsTransport(Finish(v).error)
    {
      FinishStopsBehindResponse(v, lines, last, rest);
    }
  }

  lemma {:induction false} ResponseOf(v: View) returns (lines: seq<string>, last: string, rest: string)
    requires !v.done && !IsTransport(Finish(v).error)
    ensures Responds(v.stream, lines, last, rest)
    decreases |v.stream|
  {
    var k := NewlineAt(v.stream);
    if !(k < |v.stream| && k < BUFFER_MAX) {
      assert false;
    }
    var line, more := v.stream[..k], v.stream[k + 1..];
    assert v.stream == line + "\n" + more;
    var w := FinishLine(v, line, more);
    if Terminates(line) {
      lines, last, rest := [], line, more;
    } else {
      var others;
      others, last, rest := ResponseOf(w);
      lines := [line] + others;
      assert lines[1..] == others;
    }
  }

  // ---------- command lists ----------

  datatype SendOutcome = Sent | SendFailed | SendTimedOut

  /** mpd_executeCommand, given how sending went. */
  function Execute(v: View, o: SendOutcome): View {
    if !v.done && v.commandList == 0 then v.(error := 1)
    else match o
      case SendFailed => v.(error := ERROR_SENDING)
      case SendTimedOut => v.(error := ERROR_TIMEOUT)
      case Sent =>
        if v.commandList == 0 then v.(error := 0, done := false)
        else if v.commandList == COMMAND_LIST_OK then v.(error := 0, listOks := v.listOks + 1)
        else v.(error := 0)
  }

  function ListBegin(v: View, o: SendOutcome): View {
    if v.commandList != 0 then v.(error := 1)
    else Execute(v.(commandList := COMMAND_LIST), o)
  }

  function ListOkBegin(v: View, o: SendOutcome): View {
    if v.commandList != 0 then v.(error := 1)
    else Execute(v.(commandList := COMMAND_LIST_OK), o).(listOks := 0)
  }

  function ListEnd(v: View, o: SendOutcome): View {
    if v.commandList == 0 then v.(error := 1)
    else Execute(v.(commandList := 0), o)
  }

  function ExecuteAll(v: View, n: nat): View
    decreases n
  {
    if n == 0 then v else ExecuteAll(Execute(v, Sent), n - 1)
  }

  lemma {:induction false} ExecuteAllCounts(v: View, n: nat)
    requires v.commandList == COMMAND_LIST_OK && v.error == 0
    ensures ExecuteAll(v, n) == v.(listOks := v.listOks + n)
    decreases n
  {
    if n > 0 {
      ExecuteAllCounts(Execute(v, Sent), n - 1);
    }
  }

  /** What the program expects after sending a list of `n` commands. */
  lemma OkListSent(v: View, n: nat)
    requires v.done && v.commandList == 0
    ensures ListEnd(ExecuteAll(ListOkBegin(v, Sent), n), Sent)
         == v.(done := false, listOks := n, error := 0)
  {
    ExecuteAllCounts(ListOkBegin(v, Sent), n);
  }

  /** A line of a part of the answer: a pair, or one without a colon. */
  predicate Harmless(line: string) {
    && !IsAck(line)
    && var c := ColonAt(line);
      c == |line| || (c + 1 < |line| && line[c + 1] == ' ')
  }

  /** `s` starts with an ACK-free answer that holds exactly `n` list_OK lines before its OK. */
  predicate Owed(s: string, n: int)
    decreases |s|
  {
    var k := NewlineAt(s);
    && k < |s| && k < BUFFER_MAX
    && if s[..k] == "OK" then n == 0
      else if s[..k] == "list_OK" then 0 < n && Owed(s[k + 1..], n - 1)
      else Harmless(s[..k]) && Owed(s[k + 1..], n)
  }

  /** `listOks` is what the server still owes. */
  predicate InSync(v: View) {
    && v.error == 0
    && if v.done then v.listOks == 0 && !v.doneListOk
      else 0 <= v.listOks && Owed(v.stream, v.listOks)
  }

  lemma StepKeepsSync(v: View)
    requires InSync(v) && !Blocked(v)
    ensures InSync(Step(v)) && Step(v).tail == v.tail
    ensures Step(v).done ==> v.listOks == 0
    ensures !Step(v).done ==>
              Step(v).listOks + (if Step(v).doneListOk then 1 else 0) == v.listOks + (if v.doneListOk then 1 else 0)
  {
  }

  function FinishListOk(v: View): View
    decreases !v.done, |v.stream|
  {
    if !v.done && v.listOks != 0 && !v.doneListOk then
      StepShrinks(v);
      FinishListOk(Step(v))
    else v
  }

  /** mpd_nextListOkCommand: its result and its effect. */
  function NextListOk(v: View): (int, View) {
    var w := FinishListOk(v);
    var u := if w.done then w else w.(doneListOk := false);
    (if u.listOks == 0 || u.done then -1 else 0, u)
  }

  /** How many parts of the answer have not been left behind. */
  function Parts(v: View): int {
    v.listOks + if v.doneListOk then 1 else 0
  }

  lemma {:induction false} FinishListOkAccounts(v: View)
    requires InSync(v) && !v.done
    ensures var w := FinishListOk(v);
            InSync(w) && !w.done && Parts(w) == Parts(v) && w.tail == v.tail && (w.listOks == 0 || w.doneListOk)
    decreases |v.stream|
  {
    if v.listOks != 0 && !v.doneListOk {
      StepKeepsSync(v);
      StepShrinks(v);
      FinishListOkAccounts(Step(v));
    }
  }

  /** What a program does between sending a list and finishing it. */
  datatype Op = Read | NextPart

  /** Every public reader returns at once when nothing is to be read. */
  function Apply(v: View, op: Op): View {
    match op
    case Read => if Blocked(v) then v else Step(v)
    case NextPart => NextListOk(v).1
  }

  function Run(v: View, ops: seq<Op>): View
    decreases |ops|
  {
    if ops == [] then v else Run(Apply(v, ops[0]), ops[1..])
  }

  /** The results of the NextPart calls of a run, in order. */
  function Results(v: View, ops: seq<Op>): seq<int>
    decreases |ops|
  {
    if ops == [] then []
    else (if ops[0].NextPart? then [NextListOk(v).0] else []) + Results(Apply(v, ops[0]), ops[1..])
  }

  /** `m` parts of the answer have not been left, counting one that reading ran out of. */
  predicate At(v: View, m: nat) {
    InSync(v) && if v.done then m <= 1 else Parts(v) == m
  }

  lemma ApplyKeepsAt(v: View, op: Op, m: nat)
    requires At(v, m)
    ensures At(Apply(v, op), if op.NextPart? && m > 0 then m - 1 else m)
    ensures Apply(v, op).tail == v.tail
    ensures op.NextPart? ==> NextListOk(v).0 == if m > 1 then 0 else -1
  {
    if op.Read? && !Blocked(v) {
      StepKeepsSync(v);
    }
    if op.NextPart? && !v.done {
      FinishListOkAccounts(v);
    }
  }

  /**
   However reads and part changes are interleaved: `listOks` stays what the server
   owes, no error appears, and the j-th mpd_nextListOkCommand returns 0 exactly for
   j < m.
   */
  lemma {:induction false} PartsRun(v: View, ops: seq<Op>, m: nat)
    requires At(v, m)
    ensures InSync(Run(v, ops)) && Run(v, ops).tail == v.tail
    ensures forall j | 0 <= j < |Results(v, ops)| :: Results(v, ops)[j] == if j + 1 < m then 0 else -1
    decreases |ops|
  {
    if ops != [] {
      ApplyKeepsAt(v, ops[0], m);
      PartsRun(Apply(v, ops[0]), ops[1..], if ops[0].NextPart? && m > 0 then m - 1 else m);
    }
  }

  /** Finishing an ACK-free answer leaves the connection clean. */
  lemma {:induction false} FinishIsClean(v: View)
    requires InSync(v)
    ensures var f := Finish(v);
            f.done && f.listOks == 0 && !f.doneListOk && f.error == 0 && f.tail == v.tail
    decreases !v.done, |v.stream|
  {
    if !v.done {
      var u := v.(doneListOk := false);
      StepKeepsSync(u);
      StepShrinks(u);
      FinishIsClean(Step(u));
    }
  }

  lemma {:induction false} ErrorsStick(v: View)
    requires v.error != 0
    ensures Finish(v).error != 0
    decreases !v.done, |v.stream|
  {
    if !v.done {
      var u := v.(doneListOk := false);
      StepShrinks(u);
      ErrorsStick(Step(u));
    }
  }

  /** One line of a clean answer. */
  lemma CleanStep(u: View)
    requires !u.done && !u.doneListOk && u.error == 0 && 0 <= u.listOks
    ensures var w := Step(u);
            Owed(u.stream, u.listOks) <==> w.error == 0 && (w.done || Owed(w.stream, w.listOks))
    ensures 0 <= Step(u).listOks
  {
    var k := NewlineAt(u.stream);
    if k < |u.stream| && k < BUFFER_MAX {
      CleanLine(u.stream[..k], u.(stream := u.stream[k + 1..], elem := None));
    }
  }

  lemma CleanLine(line: string, v: View)
    requires !v.done && v.error == 0 && 0 <= v.listOks
    ensures var w := Classify(line, v);
            && (w.error == 0 <==>
                if line == "OK" then v.listOks == 0 else if line == "list_OK" then 0 < v.listOks else Harmless(line))
            && (w.error == 0 ==> (w.done <==> line == "OK"))
            && w.stream == v.stream
            && w.listOks == (if line == "OK" then 0
                             else if line == "list_OK" && 0 < v.listOks then v.listOks - 1
                             else v.listOks)
  {
  }

  /**
   Finishing a command ends without error exactly when the answer is complete, free
   of ACKs and malformed pairs, and holds as many list_OKs as were waited for.
   */
  lemma {:induction false} FinishIsCleanIff(v: View)
    requires !v.done && v.error == 0 && 0 <= v.listOks
    ensures Finish(v).error == 0 <==> Owed(v.stream, v.listOks)
    decreases |v.stream|
  {
    var u := v.(doneListOk := false);
    var w := Step(u);
    StepShrinks(u);
    CleanStep(u);
    assert Finish(v) == Finish(w);
    if w.error != 0 {
      ErrorsStick(w);
    } else if !w.done {
      FinishIsCleanIff(w);
    }
  }

  /** The whole exchange: send n commands in an OK list, use the answer in any way, finish. */
  lemma OkListExchange(v: View, n: nat, ops: seq<Op>)
    requires v.done && !v.doneListOk && v.commandList == 0
    requires Owed(v.stream, n)
    ensures var sent := ListEnd(ExecuteAll(ListOkBegin(v, Sent), n), Sent);
            var f := Finish(Run(sent, ops));
            && f.done && f.listOks == 0 && !f.doneListOk && f.error == 0
            && forall j | 0 <= j < |Results(sent, ops)| :: Results(sent, ops)[j] == if j + 1 < n then 0 else -1
  {
    OkListSent(v, n);
    var sent := ListEnd(ExecuteAll(ListOkBegin(v, Sent), n), Sent);
    PartsRun(sent, ops, n);
    FinishIsClean(Run(sent, ops));
  }

  // ---------- lists cut short by an ACK ----------

  /** How many list_OKs stand before the ACK that ends the answer, and what stands behind it. */
  function AckAfter(s: string): Option<(nat, string)>
    decreases |s|
  {
    var k := NewlineAt(s);
    if |s| <= k || BUFFER_MAX <= k || s[..k] == "OK" then None
    else if IsAck(s[..k]) then Some((0, s[k + 1..]))
    else match AckAfter(s[k + 1..])
      case None => None
      case Some((j, rest)) => Some((if s[..k] == "list_OK" then j + 1 else j, rest))
  }

  /** Of `n` list_OKs waited for, those that the answer does not hold. */
  function Missing(n: int, j: nat): int {
    if j <= n then n - j else 0
  }

  /** The answer ends, or has ended, in an ACK with `rest` behind it; then `debt` list_OKs are owed. */
  predicate InDebt(v: View, debt: int, rest: string) {
    && v.commandList == 0 && 0 <= v.listOks
    && if v.done then v.error == ERROR_ACK && !v.doneListOk && v.listOks == debt && v.stream == rest
      else var a := AckAfter(v.stream);
        a.Some? && a.value.1 == rest && Missing(v.listOks, a.value.0) == debt
  }

  lemma StepKeepsDebt(v: View, debt: int, rest: string)
    requires InDebt(v, debt, rest) && !Blocked(v)
    ensures InDebt(Step(v), debt, rest)
  {
  }

  lemma {:induction false} FinishListOkKeepsDebt(v: View, debt: int, rest: string)
    requires InDebt(v, debt, rest)
    ensures InDebt(FinishListOk(v), debt, rest)
    decreases !v.done, |v.stream|
  {
    if !v.done && v.listOks != 0 && !v.doneListOk {
      StepKeepsDebt(v, debt, rest);
      StepShrinks(v);
      FinishListOkKeepsDebt(Step(v), debt, rest);
    }
  }

  lemma {:induction false} RunKeepsDebt(v: View, ops: seq<Op>, debt: int, rest: string)
    requires InDebt(v, debt, rest)
    ensures InDebt(Run(v, ops), debt, rest)
    decreases |ops|
  {
    if ops != [] {
      if ops[0].NextPart? {
        FinishListOkKeepsDebt(v, debt, rest);
      } else if !Blocked(v) {
        StepKeepsDebt(v, debt, rest);
      }
      RunKeepsDebt(Apply(v, ops[0]), ops[1..], debt, rest);
    }
  }

  lemma {:induction false} FinishKeepsDebt(v: View, debt: int, rest: string)
    requires InDebt(v, debt, rest)
    ensures InDebt(Finish(v), debt, rest) && Finish(v).done
    decreases !v.done, |v.stream|
  {
    if !v.done {
      var u := v.(doneListOk := false);
      StepKeepsDebt(u, debt, rest);
      StepShrinks(u);
      FinishKeepsDebt(Step(u), debt, rest);
    }
  }

  /**
   A list of `n` commands whose answer an ACK ends after `j` list_OKs, used in any way
   and finished: the error is the ACK, and `listOks` keeps what is missing.
   */
  lemma AckedListLeavesDebt(v: View, n: nat, ops: seq<Op>, j: nat, rest: string)
    requires v.done && !v.doneListOk && v.commandList == 0 && AckAfter(v.stream) == Some((j, rest))
    ensures var f := Finish(Run(ListEnd(ExecuteAll(ListOkBegin(v, Sent), n), Sent), ops));
            && f.done && !f.doneListOk && f.commandList == 0 && f.error == ERROR_ACK && f.stream == rest
            && f.listOks == if j <= n then n - j else 0
  {
    OkListSent(v, n);
    var sent := ListEnd(ExecuteAll(ListOkBegin(v, Sent), n), Sent);
    RunKeepsDebt(sent, ops, Missing(n, j), rest);
    FinishKeepsDebt(Run(sent, ops), Missing(n, j), rest);
  }

  lemma {:induction false} OwedIsUnique(s: string, m: int, n: int)
    requires Owed(s, m) && Owed(s, n)
    ensures m == n
    decreases |s|
  {
    var k := NewlineAt(s);
    if s[..k] == "list_OK" {
      OwedIsUnique(s[k + 1..], m - 1, n - 1);
    } else if s[..k] != "OK" {
      OwedIsUnique(s[k + 1..], m, n);
    }
  }

  /** An answer that ends in OK takes all debts away, whether it reports them or not. */
  lemma {:induction false} OkClearsDebt(v: View, m: int)
    requires !v.done && Owed(v.stream, m)
    ensures Finish(v).done && Finish(v).listOks == 0
    decreases |v.stream|
  {
    var u := v.(doneListOk := false);
    var k := NewlineAt(v.stream);
    StepShrinks(u);
    assert Finish(v) == Finish(Step(u));
    if v.stream[..k] != "OK" {
      OkClearsDebt(Step(u), if v.stream[..k] == "list_OK" then m - 1 else m);
    }
  }

  /**
   A command sent while list_OKs are owed, with any well-formed answer of its own: it
   ends without error if and only if none was, and then or not the debt is gone.
   */
  lemma DebtAfterAckIsReported(v: View)
    requires v.done && v.commandList == 0 && 0 <= v.listOks && Owed(v.stream, 0)
    ensures var g := Finish(Execute(v, Sent));
            g.done && g.listOks == 0 && (g.error == 0 <==> v.listOks == 0)
  {
    var next := Execute(v, Sent);
    OkClearsDebt(next, 0);
    FinishIsCleanIff(next);
    if Owed(v.stream, v.listOks) {
      OwedIsUnique(v.stream, 0, v.listOks);
    }
  }

  /**
   The command after a list that an ACK has cut short after `j` list_OKs: it is blamed
   for the list if and only if `j` was fewer than the list had commands.
   */
  lemma NextCommandPaysDebt(v: View, n: nat, ops: seq<Op>, j: nat, rest: string)
    requires v.done && !v.doneListOk && v.commandList == 0 && AckAfter(v.stream) == Some((j, rest))
    requires Owed(rest, 0)
    ensures var f := Finish(Run(ListEnd(ExecuteAll(ListOkBegin(v, Sent), n), Sent), ops));
            var g := Finish(Execute(f, Sent));
            g.done && g.listOks == 0 && (g.error == 0 <==> n <= j)
  {
    AckedListLeavesDebt(v, n, ops, j, rest);
    DebtAfterAckIsReported(Finish(Run(ListEnd(ExecuteAll(ListOkBegin(v, Sent), n), Sent), ops)));
  }
}
