/**
 Where skipFormatting and skipBraces of mpd-show.c respect the nesting of brackets,
 and where they do not: the skip as it is coded against one that counts brackets.
 */
module ShowSkipping {
  import opened Common
  import opened ShowFormat

  predicate IsStop(c: char) {
    c == '&' || c == '|' || c == ']'
  }

  /**
   How many brackets are open behind the first `]` from `p` on, where skipBraces
   stops: a nested `[` adds one, and a quoted `]` closes none.
   */
  function OpenBehind(fmt: string, p: nat, open: nat): (k: nat)
    requires p <= |fmt| && 0 < open
    ensures open - 1 <= k
    decreases |fmt| - p
  {
    if p == |fmt| then open
    else match fmt[p]
      case '[' => OpenBehind(fmt, p + 1, open + 1)
      case '#' => if p + 1 == |fmt| || fmt[p + 1] == ']' then open else OpenBehind(fmt, p + 2, open)
      case ']' => open - 1
      case _ => OpenBehind(fmt, p + 1, open)
  }

  /**
   With `open` brackets passed and not closed, the skip from `p` ends well: at `&` or
   `|` with none open, or behind a `]` that closes the only one, with a stop behind it.
   At the end of the format nothing is left to go wrong.
   */
  predicate Lands(fmt: string, p: nat, open: nat)
    requires p <= |fmt|
    decreases |fmt| - p
  {
    if p == |fmt| then true
    else match fmt[p]
      case '[' => var c := FirstFrom(fmt, p, ']'); c == |fmt| || Lands(fmt, c + 1, OpenBehind(fmt, p + 1, open + 1))
      case '#' => p + 1 == |fmt| || Lands(fmt, p + 2, open)
      case ']' => 0 < open && (p + 1 == |fmt| || (open == 1 && IsStop(fmt[p + 1])))
      case '&' => open == 0
      case '|' => open == 0
      case _ => Lands(fmt, p + 1, open)
  }

  /** Counting from inside a group to the `]` that ends skipBraces. */
  lemma {:induction false} CountsOn(fmt: string, p: nat, open: nat)
    requires p <= |fmt| && 0 < open
    ensures var c := FirstFrom(fmt, p, ']');
            DepthSkip(fmt, p, open) == if c == |fmt| then c else DepthSkip(fmt, c + 1, OpenBehind(fmt, p, open))
    decreases |fmt| - p
  {
    if p < |fmt| {
      match fmt[p]
      case '[' => CountsOn(fmt, p + 1, open + 1);
      case '#' => if p + 1 < |fmt| && fmt[p + 1] != ']' {
        CountsOn(fmt, p + 2, open);
      }
      case ']' =>
      case _ => CountsOn(fmt, p + 1, open);
    }
  }

  /** The skip ends where one that counts brackets ends if and only if it ends well. */
  lemma {:induction false} SkipLands(fmt: string, p: nat, open: nat)
    requires p <= |fmt|
    ensures SkipTo(fmt, p) == DepthSkip(fmt, p, open) <==> Lands(fmt, p, open)
    decreases |fmt| - p
  {
    if p < |fmt| {
      match fmt[p]
      case '[' =>
        CountsOn(fmt, p + 1, open + 1);
        var c := FirstFrom(fmt, p + 1, ']');
        if c < |fmt| {
          SkipLands(fmt, c + 1, OpenBehind(fmt, p + 1, open + 1));
        }
      case '#' => if p + 1 < |fmt| {
        SkipLands(fmt, p + 2, open);
      }
      case ']' =>
      case '&' =>
      case '|' =>
      case _ => SkipLands(fmt, p + 1, open);
    }
  }

  // ---------- in terms of the groups that are passed ----------

  /** From inside a group: no `[` is nested before its first `]`, and that one is not quoted. */
  predicate Flat(fmt: string, p: nat)
    requires p <= |fmt|
    decreases |fmt| - p
  {
    if p == |fmt| then false
    else match fmt[p]
      case '[' => false
      case '#' => p + 1 < |fmt| && fmt[p + 1] != ']' && Flat(fmt, p + 2)
      case ']' => true
      case _ => Flat(fmt, p + 1)
  }

  lemma {:induction false} FlatClosesOne(fmt: string, p: nat, open: nat)
    requires p <= |fmt| && 0 < open
    ensures Flat(fmt, p) <==> OpenBehind(fmt, p, open) == open - 1
    decreases |fmt| - p
  {
    if p < |fmt| {
      match fmt[p]
      case '[' =>
      case '#' => if p + 1 < |fmt| && fmt[p + 1] != ']' {
        FlatClosesOne(fmt, p + 2, open);
      }
      case ']' =>
      case _ => FlatClosesOne(fmt, p + 1, open);
    }
  }

  /** The skip stops at `&` or `|`. */
  predicate StopsAtSign(fmt: string, p: nat)
    requires p <= |fmt|
    decreases |fmt| - p
  {
    p < |fmt| && match fmt[p]
      case '[' => var c := FirstFrom(fmt, p, ']'); c < |fmt| && StopsAtSign(fmt, c + 1)
      case '#' => p + 1 < |fmt| && StopsAtSign(fmt, p + 2)
      case ']' => false
      case c => c == '&' || c == '|' || StopsAtSign(fmt, p + 1)
  }

  /** Every group that the skip passes is flat, and no closing bracket ends it. */
  predicate Tidy(fmt: string, p: nat)
    requires p <= |fmt|
    decreases |fmt| - p
  {
    if p == |fmt| then true
    else match fmt[p]
      case '[' => var c := FirstFrom(fmt, p, ']'); c == |fmt| || (Flat(fmt, p + 1) && Tidy(fmt, c + 1))
      case '#' => p + 1 == |fmt| || Tidy(fmt, p + 2)
      case ']' => false
      case c => c == '&' || c == '|' || Tidy(fmt, p + 1)
  }

  lemma {:induction false} TidyLands(fmt: string, p: nat, open: nat)
    requires p <= |fmt|
    ensures open == 0 && Tidy(fmt, p) ==> Lands(fmt, p, open)
    ensures StopsAtSign(fmt, p) ==> (Lands(fmt, p, open) <==> open == 0 && Tidy(fmt, p))
    decreases |fmt| - p
  {
    if p < |fmt| {
      match fmt[p]
      case '[' =>
        var c := FirstFrom(fmt, p, ']');
        if c < |fmt| {
          FlatClosesOne(fmt, p + 1, open + 1);
          TidyLands(fmt, c + 1, OpenBehind(fmt, p + 1, open + 1));
        }
      case '#' => if p + 1 < |fmt| {
        TidyLands(fmt, p + 2, open);
      }
      case ']' =>
      case '&' =>
      case '|' =>
      case _ => TidyLands(fmt, p + 1, open);
    }
  }

  /**
   Flat groups are skipped rightly; and a skip that stops at `&` or `|` is right only
   if all the groups it has passed are flat.
   */
  lemma FlatGroupsAreRespected(fmt: string, p: nat)
    requires p <= |fmt|
    ensures Tidy(fmt, p) ==> SkipTo(fmt, p) == DepthSkip(fmt, p, 0)
    ensures StopsAtSign(fmt, p) ==> (SkipTo(fmt, p) == DepthSkip(fmt, p, 0) <==> Tidy(fmt, p))
  {
    SkipLands(fmt, p, 0);
    TidyLands(fmt, p, 0);
  }

  /**
   An alternative that is the last of its group is never skipped rightly: the skip
   goes one too far, behind the bracket.
   */
  lemma {:induction false} BracketIsPassed(fmt: string, p: nat)
    requires p <= |fmt| && Flat(fmt, p) && forall i | p <= i < FirstFrom(fmt, p, ']') :: fmt[i] != '&' && fmt[i] != '|'
    ensures var c := FirstFrom(fmt, p, ']');
            c < |fmt| && DepthSkip(fmt, p, 0) == c && SkipTo(fmt, p) == c + 1 && !Lands(fmt, p, 0)
    decreases |fmt| - p
  {
    if fmt[p] == '#' {
      BracketIsPassed(fmt, p + 2);
    } else if fmt[p] != ']' {
      BracketIsPassed(fmt, p + 1);
    }
  }

  // ---------- inputs ----------

  /** A nested group is left at its first `]`: the skip ends inside the outer one. */
  lemma SkipEndsInsideNested()
    ensures SkipTo("[a[b]|c]|d", 0) == 5 && DepthSkip("[a[b]|c]|d", 0, 0) == 8
  {
    var fmt := "[a[b]|c]|d";
    assert SkipTo(fmt, 0) == SkipTo(fmt, 5);
    assert DepthSkip(fmt, 0, 0) == DepthSkip(fmt, 1, 1) == DepthSkip(fmt, 2, 1) == DepthSkip(fmt, 3, 2);
    assert DepthSkip(fmt, 3, 2) == DepthSkip(fmt, 4, 2) == DepthSkip(fmt, 5, 1) == DepthSkip(fmt, 6, 1);
    assert DepthSkip(fmt, 6, 1) == DepthSkip(fmt, 7, 1) == DepthSkip(fmt, 8, 0) == 8;
  }

  /** A nested group whose outer bracket is followed by `|` is skipped rightly by two mistakes. */
  lemma SkipEndsWellByChance()
    ensures !Tidy("[a[b]c]|d", 0) && SkipTo("[a[b]c]|d", 0) == DepthSkip("[a[b]c]|d", 0, 0) == 7
  {
    var fmt := "[a[b]c]|d";
    assert FirstFrom(fmt, 0, ']') == 4;
    assert !Flat(fmt, 2) && Flat(fmt, 1) == Flat(fmt, 2);
    assert SkipTo(fmt, 0) == SkipTo(fmt, 5) == SkipTo(fmt, 6) == 7;
    assert OpenBehind(fmt, 1, 1) == OpenBehind(fmt, 2, 1) == OpenBehind(fmt, 3, 2) == OpenBehind(fmt, 4, 2) == 1;
    assert Lands(fmt, 0, 0) == Lands(fmt, 5, 1) == Lands(fmt, 6, 1);
    SkipLands(fmt, 0, 0);
  }

  // ---------- formats on which the program does what counting brackets does ----------

  /** Behind every sign a skip would end well. */
  predicate SkipsLand(fmt: string) {
    forall i | 0 < i <= |fmt| && (fmt[i - 1] == '&' || fmt[i - 1] == '|') :: Lands(fmt, i, 0)
  }

  /** Then every group means the same, for every song. */
  lemma {:induction false} EvalAgrees(fmt: string, tags: Tags, p: nat, acc: string, found: bool)
    requires p <= |fmt| && Safe(fmt, p) && SkipsLand(fmt)
    ensures Eval(AsCoded, fmt, tags, p, acc, found) == Eval(ByDepth, fmt, tags, p, acc, found)
    decreases |fmt| - p
  {
    if p < |fmt| {
      if fmt[p] == '&' || fmt[p] == '|' {
        assert Lands(fmt, p + 1, 0);
        SkipLands(fmt, p + 1, 0);
      }
      if fmt[p] == '[' {
        EvalAgrees(fmt, tags, p + 1, "", false);
      }
      var m := Construct(AsCoded, fmt, tags, p, acc, found);
      assert m == Construct(ByDepth, fmt, tags, p, acc, found);
      if m.Go? {
        EvalAgrees(fmt, tags, m.p, m.acc, m.found);
      }
    }
  }
}
