/**
 mpd_getNextOutput: pairs are grouped into audio outputs.  Unlike the entities, an
 output is also returned when there was nothing to read.
 */
module MpdOutputs {
  import opened Common
  import opened MpdWire
  import opened MpdProtocol
  import opened MpdEntities

  datatype Output = Output(id: int, name: Option<string>, enabled: int)

  const BLANK := Output(-10, None, 0)

  /** One pair; later values replace earlier ones. */
  function Update(o: Output, p: Pair): Output {
    if p.name == "outputid" then o.(id := Atoi(p.value))
    else if p.name == "outputname" then o.(name := Some(p.value))
    else if p.name == "outputenabled" then o.(enabled := Atoi(p.value))
    else o
  }

  /** The pair opens another output: this one has a proper number already. */
  predicate Opens(o: Output, p: Pair) {
    p.name == "outputid" && o.id >= 0
  }

  /** The loop; an error found behind a pair discards the output. */
  function ReadOutput(v: View, o: Output): (Option<Output>, View)
    decreases v.elem.Some?, |v.stream|
  {
    if v.elem.None? || Opens(o, v.elem.value) then (Some(o), v)
    else
      StepShrinks(v);
      if Step(v).error != 0 then (None, Step(v)) else ReadOutput(Step(v), Update(o, v.elem.value))
  }

  function NextOutput(v: View): (Option<Output>, View) {
    if Blocked(v) || v.error != 0 then (None, v)
    else ReadOutput(if v.elem.None? then Step(v) else v, BLANK)
  }

  lemma {:induction false} ReadOutputShrinks(v: View, o: Output)
    ensures var u := ReadOutput(v, o).1; Blocked(u) || (!Blocked(v) && |u.stream| <= |v.stream|)
    decreases v.elem.Some?, |v.stream|
  {
    if v.elem.Some? && !Opens(o, v.elem.value) {
      StepShrinks(v);
      if Step(v).error == 0 {
        ReadOutputShrinks(Step(v), Update(o, v.elem.value));
      }
    }
  }

  lemma NextOutputShrinks(v: View)
    requires NextOutput(v).0.Some?
    ensures var u := NextOutput(v).1; !Blocked(v) && (Blocked(u) || |u.stream| < |v.stream|)
  {
    StepShrinks(v);
    if v.elem.None? {
      ReadOutputShrinks(Step(v), BLANK);
    } else {
      ReadOutputShrinks(Step(v), Update(BLANK, v.elem.value));
    }
  }

  /** Calling mpd_getNextOutput until it returns NULL. */
  function Outputs(v: View): (seq<Output>, View)
    decreases !Blocked(v), |v.stream|
  {
    var (r, u) := NextOutput(v);
    if r.None? then ([], u)
    else
      NextOutputShrinks(v);
      var (more, end) := Outputs(u);
      ([r.value] + more, end)
  }

  // ---------- the grouping, on the pair list alone ----------

  /** The last pair named `key`, or -1. */
  function LastNamed(body: seq<Pair>, key: string): (k: int)
    ensures -1 <= k < |body|
  {
    if body == [] then -1
    else if body[|body| - 1].name == key then |body| - 1
    else LastNamed(body[..|body| - 1], key)
  }

  function NumberOf(body: seq<Pair>, key: string, none: int): int {
    var k := LastNamed(body, key);
    if k < 0 then none else Atoi(body[k].value)
  }

  /** The output that a run of pairs denotes: the last value of each key. */
  function OutputOf(body: seq<Pair>): Output {
    var k := LastNamed(body, "outputname");
    Output(NumberOf(body, "outputid", -10),
           if k < 0 then None else Some(body[k].value), NumberOf(body, "outputenabled", 0))
  }

  /** Where the output that starts with the `i` pairs read so far ends. */
  function EndFrom(pairs: seq<Pair>, i: nat): (k: nat)
    requires i <= |pairs|
    ensures i <= k <= |pairs|
    ensures i == 0 < |pairs| ==> 0 < k
    decreases |pairs| - i
  {
    if i == |pairs| || (pairs[i].name == "outputid" && NumberOf(pairs[..i], "outputid", -10) >= 0) then i
    else EndFrom(pairs, i + 1)
  }

  function OutputGroups(pairs: seq<Pair>): seq<Output>
    decreases |pairs|
  {
    if pairs == [] then []
    else
      var k := EndFrom(pairs, 0);
      [OutputOf(pairs[..k])] + OutputGroups(pairs[k..])
  }

  // ---------- the loop computes the grouping ----------

  /** Reading one more pair. */
  lemma UpdateExtends(body: seq<Pair>, p: Pair)
    ensures Update(OutputOf(body), p) == OutputOf(body + [p])
  {
    assert (body + [p])[..|body|] == body;
  }

  lemma PrefixGrowsByOne(pairs: seq<Pair>, i: nat)
    requires i < |pairs|
    ensures pairs[..i] + [pairs[i]] == pairs[..i + 1] && pairs[i..][1..] == pairs[i + 1..]
  {
  }

  /** The lookahead moves on to the next pair, or to the end line. */
  lemma FrontMoves(b: View, pairs: seq<Pair>, i: nat, a: Answer)
    requires !Blocked(b) && Closing(b, a) && b.error == 0 && i < |pairs|
    requires forall p | p in pairs :: WellFormed(p)
    ensures Step(Front(b, pairs[i..], a)) == Front(b, pairs[i + 1..], a)
    ensures Front(b, pairs[i + 1..], a).error == 0
  {
    PrefixGrowsByOne(pairs, i);
    StepFront(b, pairs[i..], a);
  }

  /** The loop stops in front of the next output and keeps its first pair as lookahead. */
  lemma {:induction false} ReadOutputReads(b: View, pairs: seq<Pair>, i: nat, a: Answer)
    requires !Blocked(b) && Closing(b, a) && b.error == 0 && i <= |pairs|
    requires forall p | p in pairs :: WellFormed(p)
    ensures var k := EndFrom(pairs, i);
            ReadOutput(Front(b, pairs[i..], a), OutputOf(pairs[..i]))
            == (Some(OutputOf(pairs[..k])), Front(b, pairs[k..], a))
    decreases |pairs| - i
  {
    var k := EndFrom(pairs, i);
    var end := (Some(OutputOf(pairs[..k])), Front(b, pairs[k..], a));
    if k != i {
      ReadOutputReads(b, pairs, i + 1, a);
      assert ReadOutput(Front(b, pairs[i + 1..], a), OutputOf(pairs[..i + 1])) == end;
      ReadOutputMoves(b, pairs, i, a);
    } else {
      ReadOutputStops(b, pairs, i, a);
    }
  }

  lemma ReadOutputStops(b: View, pairs: seq<Pair>, i: nat, a: Answer)
    requires !Blocked(b) && Closing(b, a) && i <= |pairs| && EndFrom(pairs, i) == i
    ensures var f := Front(b, pairs[i..], a); var o := OutputOf(pairs[..i]);
            ReadOutput(f, o) == (Some(o), f)
  {
    if i < |pairs| {
      assert Opens(OutputOf(pairs[..i]), pairs[i]);
      assert Front(b, pairs[i..], a).elem == Some(pairs[i]);
    }
  }

  /** One turn of the loop. */
  lemma ReadOutputMoves(b: View, pairs: seq<Pair>, i: nat, a: Answer)
    requires !Blocked(b) && Closing(b, a) && b.error == 0 && i < |pairs| && !Opens(OutputOf(pairs[..i]), pairs[i])
    requires forall p | p in pairs :: WellFormed(p)
    ensures ReadOutput(Front(b, pairs[i..], a), OutputOf(pairs[..i]))
         == ReadOutput(Front(b, pairs[i + 1..], a), OutputOf(pairs[..i + 1]))
  {
    FrontMoves(b, pairs, i, a);
    UpdateExtends(pairs[..i], pairs[i]);
    PrefixGrowsByOne(pairs, i);
    assert Front(b, pairs[i..], a).elem == Some(pairs[i]);
  }

  function BlankIf(yes: bool): seq<Output> {
    if yes then [BLANK] else []
  }

  /** Behind the end line: the last part of an OK list yields one more blank output. */
  lemma AtEndLine(b: View, a: Answer)
    requires !Blocked(b) && Closing(b, a) && b.error == 0
    ensures var (os, u) := Outputs(Front(b, [], a));
            os == BlankIf(LastPart(b, a)) && Blocked(u) && u.error == 0
            && u.tail == b.tail && u.stream == Behind(b, a)
  {
    var f := Front(b, [], a);
    if LastPart(b, a) {
      var more := a.rest[3..];
      assert f.stream == "OK" + "\n" + more;
      StepReads(f, "OK", more);
      assert NextOutput(f) == (Some(BLANK), Step(f));
      assert Outputs(Step(f)) == ([], Step(f));
    }
  }

  lemma {:induction false} OutputsFromFront(b: View, pairs: seq<Pair>, a: Answer)
    requires !Blocked(b) && Closing(b, a) && b.error == 0
    requires forall p | p in pairs :: WellFormed(p)
    ensures var (os, u) := Outputs(Front(b, pairs, a));
            os == OutputGroups(pairs) + BlankIf(LastPart(b, a)) && Blocked(u) && u.error == 0
            && u.tail == b.tail && u.stream == Behind(b, a)
    decreases |pairs|
  {
    if pairs == [] {
      AtEndLine(b, a);
    } else {
      var k := EndFrom(pairs, 0);
      FirstOutput(b, pairs, a);
      OutputsFromFront(b, pairs[k..], a);
    }
  }

  lemma FirstOutput(b: View, pairs: seq<Pair>, a: Answer)
    requires !Blocked(b) && Closing(b, a) && b.error == 0 && pairs != []
    requires forall p | p in pairs :: WellFormed(p)
    ensures var k := EndFrom(pairs, 0);
            NextOutput(Front(b, pairs, a)) == (Some(OutputOf(pairs[..k])), Front(b, pairs[k..], a))
  {
    ReadOutputReads(b, pairs, 0, a);
    assert pairs[0..] == pairs && OutputOf(pairs[..0]) == BLANK;
  }

  /**
   Asking for outputs until NULL: the groups of the pairs, none lost or repeated.
   A blank output appears besides in exactly two cases: the answer holds no pair,
   or it is the last part of an OK list.
   */
  lemma OutputsAreTheGroups(v: View, a: Answer)
    requires !Blocked(v) && v.elem == None && v.error == 0 && v.stream == Text(a.pairs, a) && Closing(v, a)
    requires forall p | p in a.pairs :: WellFormed(p)
    ensures Outputs(v).0 == BlankIf(a.pairs == []) + OutputGroups(a.pairs) + BlankIf(LastPart(v, a))
    ensures Outputs(v).1.error == 0 && Blocked(Outputs(v).1)
    ensures Outputs(v).1.tail == v.tail && Outputs(v).1.stream == Behind(v, a)
  {
    OutputsFromStart(v, a);
    OutputsFromFront(v, a.pairs, a);
    Associative(BlankIf(a.pairs == []), OutputGroups(a.pairs), BlankIf(LastPart(v, a)));
  }

  lemma OutputsFromStart(v: View, a: Answer)
    requires !Blocked(v) && v.elem == None && v.error == 0 && v.stream == Text(a.pairs, a) && Closing(v, a)
    requires forall p | p in a.pairs :: WellFormed(p)
    ensures var f := Front(v, a.pairs, a);
            Outputs(v) == (BlankIf(a.pairs == []) + Outputs(f).0, Outputs(f).1)
  {
    var f := Front(v, a.pairs, a);
    StepToFront(v, a.pairs, a);
    if a.pairs == [] {
      EmptyAnswer(v, f);
    } else {
      SameOutputs(v, f);
      assert [] + Outputs(f).0 == Outputs(f).0;
    }
  }

  /** Without a pair the first call returns what it started with. */
  lemma EmptyAnswer(v: View, f: View)
    requires !Blocked(v) && v.elem == None && v.error == 0 && Step(v) == f && f.elem == None
    ensures Outputs(v) == ([BLANK] + Outputs(f).0, Outputs(f).1)
  {
  }

  /** A first pair that is already in sight makes no difference. */
  lemma SameOutputs(v: View, f: View)
    requires !Blocked(v) && v.elem == None && v.error == 0
    requires Step(v) == f && f.elem.Some? && !Blocked(f) && f.error == 0
    ensures Outputs(v) == Outputs(f)
  {
    assert NextOutput(v) == NextOutput(f);
  }

  // ---------- outputs that no server has announced ----------

  /** A line that is read as a pair. */
  predicate IsPairLine(line: string) {
    && line != "OK" && line != "list_OK" && !IsAck(line)
    && var c := ColonAt(line);
      c + 1 < |line| && line[c + 1] == ' '
  }

  /** The stream starts with a complete line that fits the buffer and is a pair. */
  predicate StartsWithPair(s: string) {
    var k := NewlineAt(s);
    k < |s| && k < BUFFER_MAX && IsPairLine(s[..k])
  }

  lemma PairIsSeen(v: View)
    requires !Blocked(v)
    ensures Step(v).elem.Some? <==> StartsWithPair(v.stream)
  {
  }

  /**
   For every stream: when nothing is in sight, a call returns a blank output for
   nothing it has read if and only if no pair comes first.  Then what came instead may
   be the end of an answer, an ACK, a malformed line or a failure of the network.
   */
  lemma BlankIff(v: View)
    requires !Blocked(v) && v.elem == None && v.error == 0
    ensures NextOutput(v) == (Some(BLANK), Step(v)) <==> !StartsWithPair(v.stream)
  {
    PairIsSeen(v);
    var w := Step(v);
    if w.elem.Some? {
      StepShrinks(w);
      if Step(w).error == 0 {
        ReadOutputShrinks(Step(w), Update(BLANK, w.elem.value));
      }
      assert !Opens(BLANK, w.elem.value);
    }
  }

  /** Such an input is the ordinary refusal: an output comes with the error. */
  lemma RefusalIsAnOutput(v: View, line: string, rest: string)
    requires !Blocked(v) && v.elem == None && v.error == 0
    requires v.stream == line + "\n" + rest && Fits(line) && IsAck(line)
    ensures NextOutput(v).0 == Some(BLANK) && NextOutput(v).1.error == ERROR_ACK && NextOutput(v).1.stream == rest
    ensures Outputs(v).0 == [BLANK]
  {
    StepReads(v, line, rest);
  }

  /** What reading comes to behind `pairs`, when they are followed by `end`, whatever that is. */
  function Ahead(b: View, pairs: seq<Pair>, end: string): View {
    if pairs == [] then Step(b.(stream := end))
    else b.(stream := Join(Lines(pairs[1..]), end), elem := Some(pairs[0]))
  }

  /** `end` brings an error. */
  predicate Breaks(b: View, end: string) {
    var e := Step(b.(stream := end));
    e.elem == None && e.error != 0
  }

  lemma StepAhead(b: View, pairs: seq<Pair>, end: string)
    requires !Blocked(b) && b.stream == Join(Lines(pairs), end)
    requires forall p | p in pairs :: WellFormed(p)
    ensures Step(b) == Ahead(b, pairs, end)
  {
    if pairs != [] {
      assert Lines(pairs)[1..] == Lines(pairs[1..]) && WellFormed(pairs[0]);
      var rest := Join(Lines(pairs[1..]), end);
      StepReads(b, LineOf(pairs[0]), rest);
      PairParses(pairs[0], b.(stream := rest, elem := None));
    } else {
      assert b.(stream := end) == b;
    }
  }

  lemma AheadMoves(b: View, pairs: seq<Pair>, i: nat, end: string)
    requires !Blocked(b) && i < |pairs|
    requires forall p | p in pairs :: WellFormed(p)
    ensures Step(Ahead(b, pairs[i..], end)) == Ahead(b, pairs[i + 1..], end)
  {
    PrefixGrowsByOne(pairs, i);
    var f := Ahead(b, pairs[i..], end);
    StepAhead(f, pairs[i + 1..], end);
    assert i + 1 == |pairs| ==> Step(f) == Step(b.(stream := end));
  }

  /** The loop returns an output only if another one is opened behind it. */
  lemma {:induction false} ReadOutputBreaks(b: View, pairs: seq<Pair>, i: nat, end: string)
    requires !Blocked(b) && b.error == 0 && Breaks(b, end) && i < |pairs|
    requires forall p | p in pairs :: WellFormed(p)
    ensures var k := EndFrom(pairs, i);
            ReadOutput(Ahead(b, pairs[i..], end), OutputOf(pairs[..i])) ==
            (if k < |pairs| then Some(OutputOf(pairs[..k])) else None, Ahead(b, pairs[k..], end))
    decreases |pairs| - i
  {
    var f := Ahead(b, pairs[i..], end);
    assert f.elem == Some(pairs[i]);
    if EndFrom(pairs, i) != i {
      AheadMoves(b, pairs, i, end);
      UpdateExtends(pairs[..i], pairs[i]);
      PrefixGrowsByOne(pairs, i);
      if i + 1 < |pairs| {
        assert Ahead(b, pairs[i + 1..], end).error == 0;
        ReadOutputBreaks(b, pairs, i + 1, end);
      } else {
        assert pairs[i + 1..] == [];
      }
    }
  }

  lemma {:induction false} OutputsAhead(b: View, pairs: seq<Pair>, end: string)
    requires !Blocked(b) && b.error == 0 && Breaks(b, end) && pairs != []
    requires forall p | p in pairs :: WellFormed(p)
    ensures var (os, u) := Outputs(Ahead(b, pairs, end)); var groups := OutputGroups(pairs);
            groups != [] && os == groups[..|groups| - 1] && u == Step(b.(stream := end))
    decreases |pairs|
  {
    var k := EndFrom(pairs, 0);
    ReadOutputBreaks(b, pairs, 0, end);
    assert pairs[0..] == pairs && OutputOf(pairs[..0]) == BLANK;
    if k < |pairs| {
      OutputsAhead(b, pairs[k..], end);
    } else {
      assert pairs[k..] == [] && OutputGroups(pairs) == [OutputOf(pairs[..k])] + [];
    }
  }

  /**
   An answer that an ACK, a malformed line or the network breaks off behind any pairs:
   the last output is lost, because an error behind it discards it; and without any
   pair a blank one is returned, because behind the first read nothing is checked.
   */
  lemma BrokenAnswerLosesLast(v: View, pairs: seq<Pair>, end: string)
    requires !Blocked(v) && v.elem == None && v.error == 0 && v.stream == Join(Lines(pairs), end) && Breaks(v, end)
    requires forall p | p in pairs :: WellFormed(p)
    ensures var (os, u) := Outputs(v); var groups := OutputGroups(pairs);
            && u == Step(v.(stream := end))
            && os == if pairs == [] then [BLANK] else groups[..|groups| - 1]
  {
    StepAhead(v, pairs, end);
    if pairs != [] {
      OutputsAhead(v, pairs, end);
      SameOutputs(v, Ahead(v, pairs, end));
    } else {
      assert v.(stream := end) == v;
      EmptyAnswer(v, Step(v));
      assert Outputs(Step(v)) == ([], Step(v));
    }
  }

  /** Every group but a last one without a number is an output in its own right. */
  lemma {:induction false} GroupsAreNumbered(pairs: seq<Pair>)
    ensures forall i | 0 <= i < |OutputGroups(pairs)| - 1 :: OutputGroups(pairs)[i].id >= 0
    decreases |pairs|
  {
    if pairs != [] {
      var k := EndFrom(pairs, 0);
      EndIsNumbered(pairs, 0);
      GroupsAreNumbered(pairs[k..]);
    }
  }

  lemma {:induction false} EndIsNumbered(pairs: seq<Pair>, i: nat)
    requires i <= |pairs|
    ensures var k := EndFrom(pairs, i); k < |pairs| ==> OutputOf(pairs[..k]).id >= 0
    decreases |pairs| - i
  {
    if EndFrom(pairs, i) != i {
      EndIsNumbered(pairs, i + 1);
    }
  }

  // ---------- what a server announces comes back ----------

  predicate Announced(o: Output) {
    o.id >= 0 && o.name.Some?
  }

  /** The three pairs of one output. */
  function PairsOf(o: Output): seq<Pair>
    requires Announced(o)
  {
    [Pair("outputid", Print(o.id)), Pair("outputname", o.name.value), Pair("outputenabled", Print(o.enabled))]
  }

  function AllPairsOf(os: seq<Output>): seq<Pair>
    requires forall o | o in os :: Announced(o)
  {
    if os == [] then [] else PairsOf(os[0]) + AllPairsOf(os[1..])
  }

  lemma OutputOfPairs(o: Output)
    requires Announced(o)
    ensures OutputOf(PairsOf(o)) == o
  {
    AtoiPrint(o.id);
    AtoiPrint(o.enabled);
    var three := PairsOf(o);
    var two := three[..2];
    var one := two[..1];
    assert LastNamed(one, "outputid") == LastNamed(two, "outputid") == LastNamed(three, "outputid") == 0;
    assert LastNamed(two, "outputname") == LastNamed(three, "outputname") == 1;
    assert LastNamed(three, "outputenabled") == 2;
  }

  lemma EndOfPairs(o: Output, rest: seq<Pair>)
    requires Announced(o) && (rest != [] ==> rest[0].name == "outputid")
    ensures EndFrom(PairsOf(o) + rest, 0) == 3
  {
    var pairs := PairsOf(o) + rest;
    OutputOfPairs(o);
    assert pairs[..3] == PairsOf(o);
    assert NumberOf(pairs[..0], "outputid", -10) == -10;
    assert EndFrom(pairs, 0) == EndFrom(pairs, 1) == EndFrom(pairs, 2) == EndFrom(pairs, 3);
  }

  /** Round trip: the outputs a server announces are the groups of its pairs. */
  lemma {:induction false} AnnouncedOutputsComeBack(os: seq<Output>)
    requires forall o | o in os :: Announced(o)
    ensures OutputGroups(AllPairsOf(os)) == os
  {
    if os != [] {
      var rest := AllPairsOf(os[1..]);
      var pairs := PairsOf(os[0]) + rest;
      EndOfPairs(os[0], rest);
      OutputOfPairs(os[0]);
      assert pairs[..3] == PairsOf(os[0]) && pairs[3..] == rest;
      AnnouncedOutputsComeBack(os[1..]);
      assert [os[0]] + os[1..] == os;
    }
  }

  /** The last value of a key wins, wherever it stands among the pairs of an output. */
  lemma LastWins(before: seq<Pair>, behind: seq<Pair>, name: string, id: int, enabled: int)
    requires forall p | p in behind :: p.name !in {"outputid", "outputname", "outputenabled"}
    ensures var body := before + ([Pair("outputname", name), Pair("outputenabled", Print(enabled)),
                                   Pair("outputid", Print(id))] + behind);
            OutputOf(body) == Output(id, Some(name), enabled)
  {
    var three := [Pair("outputname", name), Pair("outputenabled", Print(enabled)), Pair("outputid", Print(id))];
    var body := before + (three + behind);
    AtoiPrint(id);
    AtoiPrint(enabled);
    var at := |before|;
    assert body[at] == three[0] && body[at + 1] == three[1] && body[at + 2] == three[2];
    forall i | at + 3 <= i < |body|
      ensures body[i].name !in {"outputid", "outputname", "outputenabled"}
    {
      assert body[i] == behind[i - at - 3] && body[i] in behind;
    }
    LastNamedIs(body, "outputname", at);
    LastNamedIs(body, "outputenabled", at + 1);
    LastNamedIs(body, "outputid", at + 2);
  }

  lemma {:induction false} LastNamedIs(body: seq<Pair>, key: string, k: nat)
    requires k < |body| && body[k].name == key && forall i | k < i < |body| :: body[i].name != key
    ensures LastNamed(body, key) == k
    decreases |body|
  {
    if k < |body| - 1 {
      LastNamedIs(body[..|body| - 1], key, k);
    }
  }
}
