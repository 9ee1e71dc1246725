/**
 cutcom.c: comments are stripped by a table-driven automaton.  The lexer is the one
 of the tables: for example a `*` after the `*` of a block comment does not keep
 the end of the comment in sight, and a quote right after a slash opens nothing.
 */
module Cutcom {
  import opened Common

  const SLASH: Byte := 47
  const STAR: Byte := 42
  const QUOTE: Byte := 34
  const APOSTROPHE: Byte := 39
  const BACKSLASH: Byte := 92
  const NEWLINE: Byte := 10

  datatype State =
    | Text | InString | StringEscape | InChar | CharEscape
    | AfterSlash | LineComment | BlockComment | AfterStar

  // ---------- the tables ----------

  /** A row: it applies to `ch`, or to every character if `ch` is 0. */
  datatype Row = Row(ch: Byte, echo: bool, before: Byte, newState: State)

  function Table(s: State): seq<Row> {
    match s
    case Text => [Row(SLASH, false, 0, AfterSlash), Row(QUOTE, true, 0, InString),
                  Row(APOSTROPHE, true, 0, InChar), Row(0, true, 0, Text)]
    case InString => [Row(QUOTE, true, 0, Text), Row(BACKSLASH, true, 0, StringEscape), Row(0, true, 0, InString)]
    case StringEscape => [Row(0, true, 0, InString)]
    case InChar => [Row(APOSTROPHE, true, 0, Text), Row(BACKSLASH, true, 0, CharEscape), Row(0, true, 0, InChar)]
    case CharEscape => [Row(0, true, 0, InChar)]
    case AfterSlash => [Row(SLASH, false, 0, LineComment), Row(STAR, false, 0, BlockComment), Row(0, true, SLASH, Text)]
    case LineComment => [Row(NEWLINE, true, 0, Text), Row(0, false, 0, LineComment)]
    case BlockComment => [Row(STAR, false, 0, AfterStar), Row(0, false, 0, BlockComment)]
    case AfterStar => [Row(SLASH, false, 0, Text), Row(0, false, 0, BlockComment)]
  }

  // ---------- the automaton ----------

  function Next(s: State, ch: Byte): State {
    match s
    case Text =>
      if ch == SLASH then AfterSlash else if ch == QUOTE then InString else if ch == APOSTROPHE then InChar else Text
    case InString => if ch == QUOTE then Text else if ch == BACKSLASH then StringEscape else InString
    case StringEscape => InString
    case InChar => if ch == APOSTROPHE then Text else if ch == BACKSLASH then CharEscape else InChar
    case CharEscape => InChar
    case AfterSlash => if ch == SLASH then LineComment else if ch == STAR then BlockComment else Text
    case LineComment => if ch == NEWLINE then Text else LineComment
    case BlockComment => if ch == STAR then AfterStar else BlockComment
    case AfterStar => if ch == SLASH then Text else BlockComment
  }

  predicate InComment(s: State) {
    s == LineComment || s == BlockComment || s == AfterStar
  }

  /** A slash is held back until the next character shows that it starts no comment. */
  function Output(s: State, ch: Byte): seq<Byte> {
    if InComment(s) then (if s == LineComment && ch == NEWLINE then [ch] else [])
    else if s == AfterSlash then (if InComment(Next(s, ch)) then [] else [SLASH, ch])
    else if Next(s, ch) == AfterSlash then []
    else [ch]
  }

  function Strip(s: State, input: seq<Byte>): seq<Byte>
    decreases |input|
  {
    if input == [] then [] else Output(s, input[0]) + Strip(Next(s, input[0]), input[1..])
  }

  function Final(s: State, input: seq<Byte>): State
    decreases |input|
  {
    if input == [] then s else Final(Next(s, input[0]), input[1..])
  }

  predicate EntersComment(s: State, input: seq<Byte>)
    decreases |input|
  {
    InComment(s) || (input != [] && EntersComment(Next(s, input[0]), input[1..]))
  }

  // ---------- the program ----------

  /** The inner loop: the first row that applies. */
  method FindRow(s: State, ch: Byte) returns (row: Row)
    ensures row.newState == Next(s, ch)
    ensures (if row.before != 0 then [row.before] else []) + (if row.echo then [ch] else []) == Output(s, ch)
  {
    var func := 0;
    var table := Table(s);
    while table[func].ch != 0 && table[func].ch != ch
      invariant 0 <= func < |table|
      invariant forall i | 0 <= i < func :: table[i].ch != 0 && table[i].ch != ch
      decreases |table| - func
    {
      func := func + 1;
    }
    assert func > 0 ==> table[0].ch != ch;
    assert func > 1 ==> table[1].ch != ch;
    assert func > 2 ==> table[2].ch != ch;
    row := table[func];
  }

  /** One character of the loop. */
  method Advance(state: State, ch: Byte, output0: seq<Byte>) returns (next: State, output: seq<Byte>)
    ensures next == Next(state, ch) && output == output0 + Output(state, ch)
  {
    var row := FindRow(state, ch);
    output := output0;
    if row.before != 0 {
      output := output + [row.before];
    }
    if row.echo {
      output := output + [ch];
    }
    next := row.newState;
  }

  lemma StripAt(s: State, input: seq<Byte>, i: nat, done: seq<Byte>)
    requires i < |input|
    ensures done + Strip(s, input[i..]) == done + Output(s, input[i]) + Strip(Next(s, input[i]), input[i + 1..])
  {
    assert input[i..] == [input[i]] + input[i + 1..];
    StripCons(s, input[i], input[i + 1..]);
  }

  /** The loop over one file. */
  method CutFile(input: seq<Byte>) returns (output: seq<Byte>)
    ensures output == Strip(Text, input)
  {
    var state := Text;
    output := [];
    assert input[0..] == input;
    for i := 0 to |input|
      invariant Strip(Text, input) == output + Strip(state, input[i..])
    {
      StripAt(state, input, i, output);
      state, output := Advance(state, input[i], output);
    }
  }

  /** What main prints: every file that can be opened, each from the text state. */
  function StripAll(files: seq<Option<seq<Byte>>>): seq<Byte> {
    if files == [] then []
    else StripAll(files[..|files| - 1]) + match files[|files| - 1] case None => [] case Some(f) => Strip(Text, f)
  }

  method CutAll(files: seq<Option<seq<Byte>>>) returns (output: seq<Byte>)
    ensures output == StripAll(files)
  {
    output := [];
    for i := 0 to |files|
      invariant output == StripAll(files[..i])
    {
      assert files[..i + 1][..i] == files[..i];
      if files[i].Some? {
        var part := CutFile(files[i].value);
        output := output + part;
      }
    }
    assert files[..|files|] == files;
  }

  // ---------- stripping twice ----------

  /** The state a second pass over the output is in: it sees neither held slashes nor comments. */
  function Settled(s: State): State {
    if s == AfterSlash || InComment(s) then Text else s
  }

  lemma StripCons(s: State, ch: Byte, rest: seq<Byte>)
    ensures Strip(s, [ch] + rest) == Output(s, ch) + Strip(Next(s, ch), rest)
  {
    assert ([ch] + rest)[1..] == rest;
  }

  /** A second pass reprints what the first has printed for one character. */
  lemma OutputSettles(s: State, ch: Byte, rest: seq<Byte>)
    ensures Strip(Settled(s), Output(s, ch) + rest) == Output(s, ch) + Strip(Settled(Next(s, ch)), rest)
  {
    var t := Settled(s);
    var o := Output(s, ch);
    if o == [] {
      assert o + rest == rest && [] + Strip(t, rest) == Strip(t, rest);
    } else if |o| == 1 {
      StripCons(t, ch, rest);
    } else {
      assert o + rest == [SLASH] + ([ch] + rest);
      StripCons(Text, SLASH, [ch] + rest);
      StripCons(AfterSlash, ch, rest);
      assert [] + Strip(AfterSlash, [ch] + rest) == Strip(AfterSlash, [ch] + rest);
    }
  }

  lemma {:induction false} StripSettles(s: State, input: seq<Byte>)
    ensures Strip(Settled(s), Strip(s, input)) == Strip(s, input)
    decreases |input|
  {
    if input != [] {
      var ch, n := input[0], Next(s, input[0]);
      StripSettles(n, input[1..]);
      OutputSettles(s, ch, Strip(n, input[1..]));
    }
  }

  /** Stripping is idempotent on every input. */
  lemma StripTwice(input: seq<Byte>)
    ensures Strip(Text, Strip(Text, input)) == Strip(Text, input)
  {
    StripSettles(Text, input);
  }

  // ---------- what is left alone ----------

  function Held(s: State): nat {
    if s == AfterSlash then 1 else 0
  }

  lemma {:induction false} WithoutComments(s: State, input: seq<Byte>)
    requires !EntersComment(s, input) && Final(s, input) != AfterSlash
    ensures Strip(s, input) == (if s == AfterSlash then [SLASH] else []) + input
    decreases |input|
  {
    if input != [] {
      WithoutComments(Next(s, input[0]), input[1..]);
    }
  }

  lemma {:induction false} CommentsShorten(s: State, input: seq<Byte>)
    ensures |Strip(s, input)| <= |input| + Held(s)
    ensures EntersComment(s, input) && !InComment(s) ==> |Strip(s, input)| < |input| + Held(s)
    ensures Final(s, input) == AfterSlash ==> |Strip(s, input)| < |input| + Held(s)
    decreases |input|
  {
    if input != [] {
      CommentsShorten(Next(s, input[0]), input[1..]);
    }
  }

  /** An input is returned unchanged exactly when it has no comment and does not end in a held slash. */
  lemma UnchangedIff(input: seq<Byte>)
    ensures Strip(Text, input) == input <==> !EntersComment(Text, input) && Final(Text, input) != AfterSlash
  {
    CommentsShorten(Text, input);
    if !EntersComment(Text, input) && Final(Text, input) != AfterSlash {
      WithoutComments(Text, input);
    }
  }

  /** The output never holds a comment, even where a comment has been cut out between two characters. */
  lemma OutputHasNoComments(input: seq<Byte>)
    ensures !EntersComment(Text, Strip(Text, input)) && Final(Text, Strip(Text, input)) != AfterSlash
  {
    StripTwice(input);
    UnchangedIff(Strip(Text, input));
  }

  // ---------- where comments and strings are not those of C++ ----------

  /** How many stars `body` ends in. */
  function Stars(body: seq<Byte>): (n: nat)
    ensures n <= |body|
  {
    if body == [] || body[|body| - 1] != STAR then 0 else 1 + Stars(body[..|body| - 1])
  }

  /** No place in `body` ends a comment in C++. */
  predicate NoEnd(body: seq<Byte>) {
    forall i | 1 <= i < |body| :: !(body[i] == SLASH && body[i - 1] == STAR)
  }

  lemma {:induction false} FinalSnoc(s: State, body: seq<Byte>, ch: Byte)
    ensures Final(s, body + [ch]) == Next(Final(s, body), ch)
    decreases |body|
  {
    if body == [] {
      assert [ch][1..] == [];
    } else {
      assert (body + [ch])[1..] == body[1..] + [ch];
      FinalSnoc(Next(s, body[0]), body[1..], ch);
    }
  }

  /** Inside a comment the automaton sees of a run of stars only whether its length is odd. */
  lemma {:induction false} CommentState(body: seq<Byte>)
    requires NoEnd(body)
    ensures Final(BlockComment, body) == if Stars(body) % 2 == 1 then AfterStar else BlockComment
    decreases |body|
  {
    if body != [] {
      var front, ch := body[..|body| - 1], body[|body| - 1];
      assert body == front + [ch];
      CommentState(front);
      FinalSnoc(BlockComment, front, ch);
      assert ch == SLASH && front != [] ==> front[|front| - 1] != STAR;
    }
  }

  /**
   Where C++ ends a comment, at the first slash behind a star, the program does if and
   only if the number of stars right before it is odd; otherwise the comment goes on.
   */
  lemma CommentEndsIffOdd(body: seq<Byte>)
    requires NoEnd(body) && Stars(body) > 0
    ensures Final(BlockComment, body + [SLASH]) == if Stars(body) % 2 == 1 then Text else BlockComment
  {
    CommentState(body);
    FinalSnoc(BlockComment, body, SLASH);
  }

  /** A run of stars and a slash, from either state inside a comment. */
  lemma {:induction false} StarsThenSlash(run: seq<Byte>)
    requires forall ch | ch in run :: ch == STAR
    ensures Final(BlockComment, run + [SLASH]) == Text <==> |run| % 2 == 1
    ensures Final(AfterStar, run + [SLASH]) == Text <==> |run| % 2 == 0
    decreases |run|
  {
    if run == [] {
      assert [SLASH][1..] == [];
    } else {
      assert run[0] in run && forall ch | ch in run[1..] :: ch in run;
      assert (run + [SLASH])[1..] == run[1..] + [SLASH];
      StarsThenSlash(run[1..]);
    }
  }

  /** Such an input, three stars between two slashes and an x: the x is in the comment too. */
  lemma EvenRunStaysOpen()
    ensures var x: Byte := 120; var input := [SLASH, STAR, STAR, STAR, SLASH, x];
            Final(Text, input) == BlockComment && Strip(Text, input) == []
  {
    var x: Byte := 120;
    var s5: seq<Byte>, s4: seq<Byte> := [x], [SLASH, x];
    var s3: seq<Byte>, s2: seq<Byte> := [STAR, SLASH, x], [STAR, STAR, SLASH, x];
    var s1: seq<Byte>, s0: seq<Byte> := [STAR, STAR, STAR, SLASH, x], [SLASH, STAR, STAR, STAR, SLASH, x];
    assert s0[1..] == s1 && s1[1..] == s2 && s2[1..] == s3 && s3[1..] == s4 && s4[1..] == s5 && s5[1..] == [];
    assert Final(BlockComment, s5) == BlockComment && Strip(BlockComment, s5) == [];
    assert Final(Text, s0) == Final(AfterSlash, s1) == Final(BlockComment, s2) == Final(AfterStar, s3);
    assert Final(AfterStar, s3) == Final(BlockComment, s4) == Final(BlockComment, s5);
    assert Strip(BlockComment, s4) == Strip(AfterStar, s3) == Strip(BlockComment, s2) == [];
    assert Strip(AfterSlash, s1) == Strip(Text, s0) == [];
  }

  /** Where C++ ends a line comment: at a newline, unless a backslash stands before it. */
  predicate LineEnds(body: seq<Byte>) {
    body == [] || body[|body| - 1] != BACKSLASH
  }

  lemma {:induction false} InLineComment(body: seq<Byte>, rest: seq<Byte>)
    requires NEWLINE !in body
    ensures Strip(LineComment, body + rest) == Strip(LineComment, rest)
    ensures Final(LineComment, body + rest) == Final(LineComment, rest)
    decreases |body|
  {
    if body == [] {
      assert body + rest == rest;
    } else {
      assert (body + rest)[1..] == body[1..] + rest && body[0] in body;
      assert [] + Strip(LineComment, body[1..] + rest) == Strip(LineComment, body[1..] + rest);
      InLineComment(body[1..], rest);
    }
  }

  /** The state behind the newline that C++ would have it be. */
  function BehindNewline(body: seq<Byte>): State {
    if LineEnds(body) then Text else LineComment
  }

  /** The program ends a line comment at every newline, so it agrees unless the line is continued. */
  lemma LineCommentEndsIff(body: seq<Byte>)
    requires NEWLINE !in body
    ensures Final(LineComment, body + [NEWLINE]) == Text && Strip(LineComment, body + [NEWLINE]) == [NEWLINE]
    ensures Final(LineComment, body + [NEWLINE]) == BehindNewline(body) <==> LineEnds(body)
  {
    InLineComment(body, [NEWLINE]);
    assert [NEWLINE][1..] == [];
  }

  /** Such an input: two slashes and a backslash in front of a newline and an x, which is printed. */
  lemma ContinuedLineIsPrinted()
    ensures var x: Byte := 120; Strip(Text, [SLASH, SLASH, BACKSLASH, NEWLINE, x]) == [NEWLINE, x]
  {
    var x: Byte := 120;
    var s4: seq<Byte>, s3: seq<Byte>, s2: seq<Byte> := [x], [NEWLINE, x], [BACKSLASH, NEWLINE, x];
    var s1: seq<Byte>, s0: seq<Byte> := [SLASH, BACKSLASH, NEWLINE, x], [SLASH, SLASH, BACKSLASH, NEWLINE, x];
    assert s0[1..] == s1 && s1[1..] == s2 && s2[1..] == s3 && s3[1..] == s4 && s4[1..] == [];
    assert Strip(Text, s4) == [x] + [] == [x];
    assert Strip(LineComment, s3) == [NEWLINE] + [x];
    assert Strip(LineComment, s2) == [] + Strip(LineComment, s3);
    assert Strip(AfterSlash, s1) == [] + Strip(LineComment, s2);
    assert Strip(Text, s0) == [] + Strip(AfterSlash, s1);
  }

  /** A quote right behind a slash is text: what would be its string is stripped like code. */
  lemma QuoteBehindSlash(rest: seq<Byte>)
    ensures Strip(Text, [SLASH, QUOTE] + rest) == [SLASH, QUOTE] + Strip(Text, rest)
    ensures Final(Text, [SLASH, QUOTE] + rest) == Final(Text, rest)
  {
    var all := [SLASH, QUOTE] + rest;
    assert all[1..] == [QUOTE] + rest && ([QUOTE] + rest)[1..] == rest;
    assert [] + Strip(AfterSlash, [QUOTE] + rest) == Strip(Text, all);
  }

  /** Such an input, a slash and a string that holds two: the end of the string is lost. */
  lemma StringIsStripped()
    ensures Strip(Text, [SLASH, QUOTE] + [SLASH, SLASH, QUOTE]) == [SLASH, QUOTE]
  {
    var rest: seq<Byte> := [SLASH, SLASH, QUOTE];
    QuoteBehindSlash(rest);
    assert rest[1..] == [SLASH, QUOTE] && rest[1..][1..] == [QUOTE] && [QUOTE][1..] == [];
    assert Strip(LineComment, [QUOTE]) == [] && Strip(AfterSlash, [SLASH, QUOTE]) == [] && Strip(Text, rest) == [];
  }

  // ---------- the laws of stripping, byte by byte ----------

  /** A character that opens nothing is printed. */
  lemma PlainIsKept(ch: Byte, rest: seq<Byte>)
    requires ch != 47 && ch != 34 && ch != 39
    ensures Strip(Text, [ch] + rest) == [ch] + Strip(Text, rest)
  {
    StripCons(Text, ch, rest);
  }

  /** So is a slash that starts no comment, with what stands behind it. */
  lemma SlashIsKept(ch: Byte, rest: seq<Byte>)
    requires ch != 47 && ch != 42
    ensures Strip(Text, [47, ch] + rest) == [47, ch] + Strip(Text, rest)
  {
    var all: seq<Byte> := [47, ch] + rest;
    assert all == [47] + ([ch] + rest);
    StripCons(Text, 47, [ch] + rest);
    StripCons(AfterSlash, ch, rest);
    assert [] + Strip(AfterSlash, [ch] + rest) == Strip(AfterSlash, [ch] + rest);
  }

  /** `body` is the inside of a quoted text: no closing quote but behind a backslash, and no backslash at its end. */
  predicate Enclosed(body: seq<Byte>, quote: Byte)
    decreases |body|
  {
    if body == [] then true
    else if body[0] == 92 then |body| > 1 && Enclosed(body[2..], quote)
    else body[0] != quote && Enclosed(body[1..], quote)
  }

  function Inside(quote: Byte): State {
    if quote == 34 then InString else InChar
  }

  lemma InsideStep(quote: Byte, ch: Byte, rest: seq<Byte>)
    requires (quote == 34 || quote == 39) && ch != quote && ch != 92
    ensures Strip(Inside(quote), [ch] + rest) == [ch] + Strip(Inside(quote), rest)
  {
    StripCons(Inside(quote), ch, rest);
  }

  lemma EscapeStep(quote: Byte, ch: Byte, rest: seq<Byte>)
    requires quote == 34 || quote == 39
    ensures Strip(Inside(quote), [92, ch] + rest) == [92, ch] + Strip(Inside(quote), rest)
  {
    var s := Inside(quote);
    assert [92, ch] + rest == [92] + ([ch] + rest);
    StripCons(s, 92, [ch] + rest);
    StripCons(Next(s, 92), ch, rest);
  }

  lemma {:induction false} EnclosedIsKept(body: seq<Byte>, quote: Byte, close: seq<Byte>)
    requires (quote == 34 || quote == 39) && Enclosed(body, quote)
    ensures Strip(Inside(quote), body + close) == body + Strip(Inside(quote), close)
    decreases |body|
  {
    if body == [] {
      assert body + close == close;
    } else {
      var n := if body[0] == 92 then 2 else 1;
      var more := body[n..];
      assert body == body[..n] + more;
      Associative(body[..n], more, close);
      EnclosedIsKept(more, quote, close);
      Associative(body[..n], more, Strip(Inside(quote), close));
      if n == 1 {
        InsideStep(quote, body[0], more + close);
      } else {
        EscapeStep(quote, body[1], more + close);
      }
    }
  }

  /** Strings and character constants are printed as they are, whatever they hold. */
  lemma QuotedIsKept(body: seq<Byte>, quote: Byte, rest: seq<Byte>)
    requires (quote == 34 || quote == 39) && Enclosed(body, quote)
    ensures Strip(Text, [quote] + (body + ([quote] + rest))) == [quote] + (body + ([quote] + Strip(Text, rest)))
  {
    StripCons(Text, quote, body + ([quote] + rest));
    EnclosedIsKept(body, quote, [quote] + rest);
    StripCons(Inside(quote), quote, rest);
  }

  /** In particular without quotes and backslashes. */
  lemma {:induction false} SimpleIsEnclosed(body: seq<Byte>, quote: Byte)
    requires quote !in body && 92 !in body
    ensures Enclosed(body, quote)
    decreases |body|
  {
    if body != [] {
      assert body[0] in body && forall ch | ch in body[1..] :: ch in body;
      SimpleIsEnclosed(body[1..], quote);
    }
  }

  /** A line comment is cut out, its newline is not. */
  lemma LineCommentIsCut(body: seq<Byte>, rest: seq<Byte>)
    requires 10 !in body
    ensures Strip(Text, [47, 47] + (body + ([10] + rest))) == [10] + Strip(Text, rest)
  {
    var close: seq<Byte> := [10] + rest;
    var all: seq<Byte> := [47, 47] + (body + close);
    assert all == [47] + ([47] + (body + close));
    StripCons(Text, 47, [47] + (body + close));
    StripCons(AfterSlash, 47, body + close);
    InLineComment(body, close);
    StripCons(LineComment, 10, rest);
    assert [] + ([] + Strip(LineComment, body + close)) == Strip(LineComment, body + close);
  }

  /** A block comment that the program ends is cut out. */
  lemma BlockCommentIsCut(body: seq<Byte>, rest: seq<Byte>)
    requires NoEnd(body) && Stars(body) % 2 == 1
    ensures Strip(Text, [47, 42] + (body + ([47] + rest))) == Strip(Text, rest)
  {
    var close: seq<Byte> := [47] + rest;
    var all: seq<Byte> := [47, 42] + (body + close);
    assert all == [47] + ([42] + (body + close));
    StripCons(Text, 47, [42] + (body + close));
    StripCons(AfterSlash, 42, body + close);
    assert [] + ([] + Strip(BlockComment, body + close)) == Strip(BlockComment, body + close);
    InBlockComment(BlockComment, body, close);
    CommentState(body);
    StripCons(AfterStar, 47, rest);
    assert [] + Strip(Text, rest) == Strip(Text, rest);
  }

  /** Nothing of a comment is printed before a place where it can end. */
  lemma {:induction false} InBlockComment(s: State, body: seq<Byte>, rest: seq<Byte>)
    requires s == BlockComment || s == AfterStar
    requires NoEnd(body) && (s == AfterStar && body != [] ==> body[0] != 47)
    ensures Strip(s, body + rest) == Strip(Final(s, body), rest)
    decreases |body|
  {
    if body == [] {
      assert body + rest == rest;
    } else {
      assert body + rest == [body[0]] + (body[1..] + rest);
      StripCons(s, body[0], body[1..] + rest);
      assert forall i | 0 <= i < |body| - 1 :: body[1..][i] == body[i + 1];
      InBlockComment(Next(s, body[0]), body[1..], rest);
      assert [] + Strip(Next(s, body[0]), body[1..] + rest) == Strip(Next(s, body[0]), body[1..] + rest);
    }
  }

  /** Each file is stripped on its own; one that cannot be opened adds nothing. */
  lemma FileAlone(f: seq<Byte>)
    ensures StripAll([Some(f)]) == Strip(Text, f) && StripAll([None]) == []
  {
    var one: seq<Option<seq<Byte>>>, none: seq<Option<seq<Byte>>> := [Some(f)], [None];
    assert one[..0] == [] && none[..0] == [];
    assert [] + Strip(Text, f) == Strip(Text, f);
  }

  /** They are printed in order. */
  lemma {:induction false} FilesInOrder(a: seq<Option<seq<Byte>>>, b: seq<Option<seq<Byte>>>)
    ensures StripAll(a + b) == StripAll(a) + StripAll(b)
    decreases |b|
  {
    if b == [] {
      assert a + b == a;
    } else {
      var front, last := b[..|b| - 1], match b[|b| - 1] case None => [] case Some(f) => Strip(Text, f);
      assert (a + b)[..|a + b| - 1] == a + front;
      assert StripAll(b) == StripAll(front) + last && StripAll(a + b) == StripAll(a + front) + last;
      FilesInOrder(a, front);
      Associative(StripAll(a), StripAll(front), last);
    }
  }
}
