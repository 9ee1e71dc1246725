/**
 What groups print in the format language of mpd-show.c: alternatives and
 conjunctions of tags and text, each as the program evaluates it and as a skip that
 counts brackets would have it.
 */
module ShowGroups {
  import opened Common
  import opened ShowFormat

  predicate TagName(name: string) {
    forall c | c in name :: Plain(c)
  }

  /** `text` stands in `fmt` at `p`. */
  predicate Stands(fmt: string, p: nat, text: string) {
    p + |text| <= |fmt| && forall i | p <= i < p + |text| :: fmt[i] == text[i - p]
  }

  function Head(name: string): string {
    "%" + name + "%"
  }

  // ---------- one construct ----------

  lemma {:induction false} NameEndIs(fmt: string, p: nat, name: string)
    requires Stands(fmt, p, name) && p + |name| < |fmt| && fmt[p + |name|] == '%' && TagName(name)
    ensures FirstFrom(fmt, p, '%') == p + |name|
    decreases |name|
  {
    if name != "" {
      assert fmt[p] == name[0] && name[0] in name;
      NameEndIs(fmt, p + 1, name[1..]);
    }
  }

  lemma {:induction false} SkipPlain(fmt: string, p: nat, text: string)
    requires Stands(fmt, p, text) && forall c | c in text :: c == '%' || Plain(c)
    ensures SkipTo(fmt, p) == SkipTo(fmt, p + |text|) && DepthSkip(fmt, p, 0) == DepthSkip(fmt, p + |text|, 0)
    decreases |text|
  {
    if text != "" {
      assert fmt[p] == text[0] && text[0] in text;
      SkipPlain(fmt, p + 1, text[1..]);
    }
  }

  /** A tag adds its text. */
  lemma TagEval(skip: Skip, fmt: string, tags: Tags, p: nat, name: string, acc: string, found: bool)
    requires Stands(fmt, p, Head(name)) && TagName(name) && Safe(fmt, p)
    ensures var q := p + |name| + 2;
            Safe(fmt, q) && Eval(skip, fmt, tags, p, acc, found)
            == Eval(skip, fmt, tags, q, acc + TagOutput(tags, name), found || TagFound(tags, name))
  {
    var q := p + |name| + 2;
    HeadParts(fmt, p, name, q);
    SafeLater(fmt, p, q);
    assert Construct(skip, fmt, tags, p, acc, found)
        == Go(q, acc + TagOutput(tags, name), found || TagFound(tags, name));
  }

  lemma HeadParts(fmt: string, p: nat, name: string, q: nat)
    requires Stands(fmt, p, Head(name)) && TagName(name) && q == p + |name| + 2
    ensures fmt[p] == '%' && fmt[q - 1] == '%' && fmt[p + 1..q - 1] == name && FirstFrom(fmt, p + 1, '%') == q - 1
  {
    var h := Head(name);
    assert fmt[p] == h[0] && fmt[q - 1] == h[|name| + 1];
    assert forall i | p < i < q - 1 :: fmt[i] == h[i - p] == name[i - p - 1];
    NameEndIs(fmt, p + 1, name);
  }

  /** The same at the start of a group or an alternative. */
  lemma FirstTagEval(skip: Skip, fmt: string, tags: Tags, p: nat, name: string)
    requires Stands(fmt, p, Head(name)) && TagName(name) && Safe(fmt, p)
    ensures var q := p + |name| + 2;
            Safe(fmt, q) && Eval(skip, fmt, tags, p, "", false)
            == Eval(skip, fmt, tags, q, TagOutput(tags, name), TagFound(tags, name))
  {
    assert "" + TagOutput(tags, name) == TagOutput(tags, name);
    TagEval(skip, fmt, tags, p, name, "", false);
  }

  /** The bracket behind the last tag of a group. */
  lemma GroupEnds(skip: Skip, fmt: string, tags: Tags, q: nat, acc: string, found: bool)
    requires q < |fmt| && fmt[q] == ']' && Safe(fmt, q)
    ensures Eval(skip, fmt, tags, q, acc, found) == (if found then acc else "", q + 1)
  {
    assert Construct(skip, fmt, tags, q, acc, found) == End(if found then acc else "", q + 1);
  }

  /** `|` behind what was not found. */
  lemma OrGoesOn(skip: Skip, fmt: string, tags: Tags, q: nat, acc: string)
    requires q < |fmt| && fmt[q] == '|' && Safe(fmt, q)
    ensures Safe(fmt, q + 1) && Eval(skip, fmt, tags, q, acc, false) == Eval(skip, fmt, tags, q + 1, "", false)
  {
    assert Construct(skip, fmt, tags, q, acc, false) == Go(q + 1, "", false);
  }

  /** `&` behind what was. */
  lemma AndGoesOn(skip: Skip, fmt: string, tags: Tags, q: nat, acc: string)
    requires q < |fmt| && fmt[q] == '&' && Safe(fmt, q)
    ensures Safe(fmt, q + 1) && Eval(skip, fmt, tags, q, acc, true) == Eval(skip, fmt, tags, q + 1, acc, false)
  {
    assert Construct(skip, fmt, tags, q, acc, true) == Go(q + 1, acc, false);
  }

  /** A nested group that comes to `r`. */
  lemma GroupEval(skip: Skip, fmt: string, tags: Tags, p: nat, acc: string, found: bool, r: (string, nat))
    requires p < |fmt| && fmt[p] == '[' && Safe(fmt, p) && Eval(skip, fmt, tags, p + 1, "", false) == r
    ensures r.1 <= |fmt| && Safe(fmt, r.1)
    ensures Eval(skip, fmt, tags, p, acc, found) == Eval(skip, fmt, tags, r.1, acc + r.0, found || r.0 != "")
  {
    assert Construct(skip, fmt, tags, p, acc, found) == Go(r.1, acc + r.0, found || r.0 != "");
  }

  /** The same at the start of a group. */
  lemma FirstGroupEval(skip: Skip, fmt: string, tags: Tags, p: nat, r: (string, nat))
    requires p < |fmt| && fmt[p] == '[' && Safe(fmt, p) && Eval(skip, fmt, tags, p + 1, "", false) == r
    ensures r.1 <= |fmt| && Safe(fmt, r.1)
    ensures Eval(skip, fmt, tags, p, "", false) == Eval(skip, fmt, tags, r.1, r.0, r.0 != "")
  {
    assert "" + r.0 == r.0;
    GroupEval(skip, fmt, tags, p, "", false, r);
  }

  /** `|` behind what was found, and `&` behind what was not. */
  lemma SignSkips(skip: Skip, fmt: string, tags: Tags, p: nat, acc: string, to: nat)
    requires p < |fmt| && (fmt[p] == '|' || fmt[p] == '&') && Safe(fmt, p)
    requires to == if skip.AsCoded? then SkipTo(fmt, p + 1) else DepthSkip(fmt, p + 1, 0)
    ensures to <= |fmt| && Safe(fmt, to)
    ensures Eval(skip, fmt, tags, p, acc, fmt[p] == '|') == Eval(skip, fmt, tags, to, acc, fmt[p] == '|')
  {
    assert SkipBy(skip, fmt, p + 1) == to;
    assert Construct(skip, fmt, tags, p, acc, fmt[p] == '|') == Go(to, acc, fmt[p] == '|');
  }

  // ---------- texts one behind the other ----------

  function Concat(texts: seq<string>, i: nat): string
    requires i <= |texts|
    decreases |texts| - i
  {
    if i == |texts| then "" else texts[i] + Concat(texts, i + 1)
  }

  /** How long it is. */
  function Length(texts: seq<string>, i: nat): nat
    requires i <= |texts|
    decreases |texts| - i
  {
    if i == |texts| then 0 else |texts[i]| + Length(texts, i + 1)
  }

  lemma {:induction false} ConcatLength(texts: seq<string>, i: nat)
    requires i <= |texts|
    ensures |Concat(texts, i)| == Length(texts, i)
    decreases |texts| - i
  {
    if i < |texts| {
      ConcatLength(texts, i + 1);
    }
  }

  lemma {:induction false} LengthShrinks(texts: seq<string>, i: nat)
    requires i <= |texts|
    ensures Length(texts, i) <= Length(texts, 0)
    decreases i
  {
    if i > 0 {
      LengthShrinks(texts, i - 1);
    }
  }

  lemma StandsApart(fmt: string, p: nat, text: string, a: string, b: string)
    requires Stands(fmt, p, text) && text == a + b
    ensures Stands(fmt, p, a) && Stands(fmt, p + |a|, b)
  {
  }

  /** From text `i` on they stand in their place, when they end at `e`. */
  lemma {:induction false} ConcatStands(fmt: string, texts: seq<string>, i: nat, e: nat)
    requires i <= |texts| && Length(texts, 0) <= e && Stands(fmt, e - Length(texts, 0), Concat(texts, 0))
    ensures Length(texts, i) <= e && Stands(fmt, e - Length(texts, i), Concat(texts, i))
    decreases i
  {
    if i > 0 {
      ConcatStands(fmt, texts, i - 1, e);
      StandsApart(fmt, e - Length(texts, i - 1), Concat(texts, i - 1), texts[i - 1], Concat(texts, i));
    }
  }

  lemma TextInPlace(fmt: string, texts: seq<string>, i: nat, e: nat, p: nat, text: string)
    requires i < |texts| && texts[i] == text && Length(texts, 0) <= e
    requires Stands(fmt, e - Length(texts, 0), Concat(texts, 0)) && p == e - Length(texts, i)
    ensures Stands(fmt, p, text) && p + |text| == e - Length(texts, i + 1)
  {
    ConcatStands(fmt, texts, i, e);
    StandsApart(fmt, p, Concat(texts, i), text, Concat(texts, i + 1));
  }

  function Start(texts: seq<string>, i: nat, e: nat): nat
    requires i <= |texts| && Length(texts, 0) <= e
  {
    LengthShrinks(texts, i);
    e - Length(texts, i)
  }

  /** Where the texts start, when they end at `e`. */
  function Starts(texts: seq<string>, e: nat): (starts: seq<nat>)
    requires Length(texts, 0) <= e
    ensures |starts| == |texts| + 1
    ensures forall i: nat | i <= |texts| :: starts[i] == e - Length(texts, i)
  {
    seq(|texts| + 1, i requires 0 <= i <= |texts| => Start(texts, i, e))
  }

  // ---------- items ----------

  /** A tag, or text that is quoted where it has to be. */
  datatype Piece = Tag(name: string) | Literal(text: string)

  /** What stands between two signs. */
  type Item = seq<Piece>

  function PieceText(piece: Piece): string {
    if piece.Tag? then Head(piece.name) else Quote(piece.text)
  }

  function PieceTexts(item: Item): seq<string> {
    seq(|item|, i requires 0 <= i < |item| => PieceText(item[i]))
  }

  function ItemText(item: Item): string {
    Concat(PieceTexts(item), 0)
  }

  predicate IsItem(item: Item) {
    forall i | 0 <= i < |item| :: item[i].Tag? ==> TagName(item[i].name)
  }

  /** Text is printed whether a tag is found or not. */
  function PieceOutput(piece: Piece, tags: Tags): string {
    if piece.Tag? then TagOutput(tags, piece.name) else piece.text
  }

  function ItemOutput(item: Item, tags: Tags): string {
    if item == [] then ""
    else PieceOutput(item[0], tags) + ItemOutput(item[1..], tags)
  }

  predicate PieceFound(piece: Piece, tags: Tags) {
    piece.Tag? && TagFound(tags, piece.name)
  }

  /** The song has one of the tags. */
  predicate ItemFound(item: Item, tags: Tags) {
    item != [] && (PieceFound(item[0], tags) || ItemFound(item[1..], tags))
  }

  lemma {:induction false} QuoteStands(fmt: string, p: nat, s: string)
    requires Stands(fmt, p, Quote(s))
    ensures QuotedAt(fmt, p, s)
    decreases |s|
  {
    if s != "" {
      var c := QuoteChar(s[0]);
      StandsApart(fmt, p, Quote(s), c, Quote(s[1..]));
      assert fmt[p] == c[0] && fmt[p + |c| - 1] == c[|c| - 1];
      QuoteStands(fmt, p + |c|, s[1..]);
    }
  }

  lemma {:induction false} SkipsQuote(fmt: string, p: nat, s: string)
    requires p <= |fmt| && QuotedAt(fmt, p, s) && p + |Quote(s)| <= |fmt|
    ensures SkipTo(fmt, p) == SkipTo(fmt, p + |Quote(s)|) && DepthSkip(fmt, p, 0) == DepthSkip(fmt, p + |Quote(s)|, 0)
    decreases |s|
  {
    if s != "" {
      SkipsQuote(fmt, p + |QuoteChar(s[0])|, s[1..]);
    }
  }

  lemma {:induction false} SafeBeforeQuote(fmt: string, p: nat, s: string)
    requires p <= |fmt| && QuotedAt(fmt, p, s) && p + |Quote(s)| <= |fmt| && Safe(fmt, p + |Quote(s)|)
    ensures Safe(fmt, p)
    decreases |s|
  {
    if s != "" {
      SafeBeforeQuote(fmt, p + |QuoteChar(s[0])|, s[1..]);
    }
  }

  lemma {:induction false} SafeBefore(fmt: string, p: nat, q: nat)
    requires p <= q <= |fmt| && Safe(fmt, q) && forall i | p <= i < q :: fmt[i] != '#'
    ensures Safe(fmt, p)
    decreases q - p
  {
    if p < q {
      SafeBefore(fmt, p + 1, q);
    }
  }

  function PieceLength(piece: Piece): nat {
    if piece.Tag? then |piece.name| + 2 else |Quote(piece.text)|
  }

  /** The piece stands between `p` and `q`. */
  ghost predicate PieceAt(fmt: string, p: nat, piece: Piece, q: nat) {
    && q == p + PieceLength(piece) <= |fmt|
    && if piece.Tag? then TagName(piece.name) && Stands(fmt, p, Head(piece.name)) else QuotedAt(fmt, p, piece.text)
  }

  /** The item stands between `p` and `q`. */
  ghost predicate ItemAt(fmt: string, p: nat, item: Item, q: nat)
    decreases |item|
  {
    if item == [] then p == q <= |fmt|
    else
      var m := p + PieceLength(item[0]);
      PieceAt(fmt, p, item[0], m) && ItemAt(fmt, m, item[1..], q)
  }

  lemma ItemCons(fmt: string, p: nat, item: Item, i: nat, m: nat, q: nat)
    requires i < |item| && PieceAt(fmt, p, item[i], m) && ItemAt(fmt, m, item[i + 1..], q)
    ensures ItemAt(fmt, p, item[i..], q)
  {
    assert item[i..][0] == item[i] && item[i..][1..] == item[i + 1..];
  }

  /** The pieces from `i` on, when each stands in its place. */
  lemma {:induction false} PiecesMakeItem(fmt: string, item: Item, starts: seq<nat>, i: nat)
    requires |starts| == |item| + 1 && i <= |item| && starts[|item|] <= |fmt|
    requires forall j: nat | j < |item| :: PieceOf(fmt, item, starts, j)
    ensures ItemAt(fmt, starts[i], item[i..], starts[|item|])
    decreases |item| - i
  {
    if i == |item| {
      assert item[i..] == [];
    } else {
      PiecesMakeItem(fmt, item, starts, i + 1);
      assert PieceOf(fmt, item, starts, i);
      ItemCons(fmt, starts[i], item, i, starts[i + 1], starts[|item|]);
    }
  }

  ghost predicate PieceOf(fmt: string, item: Item, starts: seq<nat>, i: nat)
    requires i < |item| && |starts| == |item| + 1
  {
    PieceAt(fmt, starts[i], item[i], starts[i + 1])
  }

  lemma ItemStands(fmt: string, p: nat, item: Item, text: string, q: nat)
    requires text == ItemText(item) && Stands(fmt, p, text) && IsItem(item) && q == p + |text|
    ensures ItemAt(fmt, p, item, q)
  {
    var texts := PieceTexts(item);
    ConcatLength(texts, 0);
    var starts := Starts(texts, q);
    forall i: nat | i < |item|
      ensures PieceOf(fmt, item, starts, i)
    {
      TextInPlace(fmt, texts, i, q, starts[i], texts[i]);
      PieceStands(fmt, starts[i], item[i], texts[i]);
    }
    PiecesMakeItem(fmt, item, starts, 0);
    assert item[0..] == item;
  }

  lemma PieceStands(fmt: string, p: nat, piece: Piece, text: string)
    requires text == PieceText(piece) && Stands(fmt, p, text) && (piece.Tag? ==> TagName(piece.name))
    ensures PieceAt(fmt, p, piece, p + |text|)
  {
    if piece.Literal? {
      QuoteStands(fmt, p, piece.text);
    }
  }

  /** Both skips pass a piece, and what stands before it is safe if what stands behind it is. */
  lemma PieceIsPassed(fmt: string, p: nat, piece: Piece, q: nat)
    requires PieceAt(fmt, p, piece, q)
    ensures SkipTo(fmt, p) == SkipTo(fmt, q) && DepthSkip(fmt, p, 0) == DepthSkip(fmt, q, 0)
    ensures Safe(fmt, q) ==> Safe(fmt, p)
  {
    if piece.Literal? {
      SkipsQuote(fmt, p, piece.text);
      if Safe(fmt, q) {
        SafeBeforeQuote(fmt, p, piece.text);
      }
    } else {
      HeadIsPassed(fmt, p, piece.name);
    }
  }

  lemma HeadIsPassed(fmt: string, p: nat, name: string)
    requires Stands(fmt, p, Head(name)) && TagName(name)
    ensures var q := p + |Head(name)|;
            && SkipTo(fmt, p) == SkipTo(fmt, q) && DepthSkip(fmt, p, 0) == DepthSkip(fmt, q, 0)
            && (Safe(fmt, q) ==> Safe(fmt, p))
  {
    var h := Head(name);
    var q := p + |h|;
    assert forall c | c in h :: c == '%' || Plain(c);
    SkipPlain(fmt, p, h);
    if Safe(fmt, q) {
      assert forall i | p <= i < q :: fmt[i] == h[i - p] && h[i - p] in h;
      SafeBefore(fmt, p, q);
    }
  }

  lemma {:induction false} ItemIsPassed(fmt: string, p: nat, item: Item, q: nat)
    requires p <= |fmt| && ItemAt(fmt, p, item, q)
    ensures p <= q <= |fmt|
    ensures SkipTo(fmt, p) == SkipTo(fmt, q) && DepthSkip(fmt, p, 0) == DepthSkip(fmt, q, 0)
    ensures Safe(fmt, q) ==> Safe(fmt, p)
    decreases |item|
  {
    if item != [] {
      var m := ItemParts(fmt, p, item, q);
      PieceIsPassed(fmt, p, item[0], m);
      ItemIsPassed(fmt, m, item[1..], q);
    }
  }

  lemma ItemParts(fmt: string, p: nat, item: Item, q: nat) returns (m: nat)
    requires ItemAt(fmt, p, item, q) && item != []
    ensures m <= |fmt| && PieceAt(fmt, p, item[0], m) && ItemAt(fmt, m, item[1..], q)
  {
    m := p + PieceLength(item[0]);
  }

  lemma PieceEval(skip: Skip, fmt: string, tags: Tags, p: nat, piece: Piece, q: nat,
                  acc: string, out: string, found: bool)
    requires PieceAt(fmt, p, piece, q) && Safe(fmt, p) && out == acc + PieceOutput(piece, tags)
    ensures Safe(fmt, q)
    ensures Eval(skip, fmt, tags, p, acc, found) == Eval(skip, fmt, tags, q, out, found || PieceFound(piece, tags))
  {
    if piece.Tag? {
      TagEval(skip, fmt, tags, p, piece.name, acc, found);
    } else {
      QuoteEval(skip, fmt, tags, p, q, piece.text, acc, out, found);
    }
  }

  /** An item adds its output, and is found if one of its tags is. */
  lemma {:induction false} ItemEval(skip: Skip, fmt: string, tags: Tags, p: nat, item: Item, q: nat,
                                    acc: string, out: string, found: bool)
    requires p <= |fmt| && ItemAt(fmt, p, item, q) && Safe(fmt, p) && out == acc + ItemOutput(item, tags)
    ensures q <= |fmt| && Safe(fmt, q)
    ensures Eval(skip, fmt, tags, p, acc, found) == Eval(skip, fmt, tags, q, out, found || ItemFound(item, tags))
    decreases |item|
  {
    if item == [] {
      assert out == acc;
    } else {
      var m := ItemParts(fmt, p, item, q);
      var first := acc + PieceOutput(item[0], tags);
      Associative(acc, PieceOutput(item[0], tags), ItemOutput(item[1..], tags));
      PieceEval(skip, fmt, tags, p, item[0], m, acc, first, found);
      ItemEval(skip, fmt, tags, m, item[1..], q, first, out, found || PieceFound(item[0], tags));
    }
  }

  // ---------- lists of items ----------

  predicate IsSign(c: char) {
    c == '|' || c == '&'
  }

  predicate AreItems(items: seq<Item>) {
    items != [] && forall i | 0 <= i < |items| :: IsItem(items[i])
  }

  function TextsOf(items: seq<Item>): seq<string> {
    seq(|items|, i requires 0 <= i < |items| => ItemText(items[i]))
  }

  /** What stands behind text `i` of `n`. */
  function SignBehind(n: nat, i: nat, sign: char): char {
    if i + 1 >= n then ']' else sign
  }

  /** Each text with the sign or bracket behind it. */
  function Signed(texts: seq<string>, sign: char): seq<string> {
    seq(|texts|, i requires 0 <= i < |texts| => texts[i] + [SignBehind(|texts|, i, sign)])
  }

  /** `%a%|%b%|...]`, the inside of a group of alternatives; or with `&`, of a conjunction. */
  function List(items: seq<Item>, sign: char): string {
    Concat(Signed(TextsOf(items), sign), 0)
  }

  /** A text and a character. */
  lemma SignStands(fmt: string, p: nat, text: string, h: string, sign: char)
    requires Stands(fmt, p, text) && text == h + [sign]
    ensures Stands(fmt, p, h) && p + |h| < |fmt| && fmt[p + |h|] == sign
  {
    StandsApart(fmt, p, text, h, [sign]);
    assert fmt[p + |h|] == [sign][0];
  }

  /** An item from `p` on, and the character behind it in front of `next`. */
  ghost predicate PartAt(fmt: string, p: nat, item: Item, c: char, next: nat) {
    p < next <= |fmt| && fmt[next - 1] == c && ItemAt(fmt, p, item, next - 1)
  }

  ghost predicate PartOf(fmt: string, items: seq<Item>, sign: char, starts: seq<nat>, i: nat)
    requires i < |items| && |starts| == |items| + 1
  {
    PartAt(fmt, starts[i], items[i], SignBehind(|items|, i, sign), starts[i + 1])
  }

  /** The items stand in `fmt`, each from its place in `starts` on, and the group ends at the last of these. */
  ghost predicate ListAt(fmt: string, items: seq<Item>, sign: char, starts: seq<nat>) {
    && items != [] && IsSign(sign) && |starts| == |items| + 1
    && forall i: nat | i < |items| :: PartOf(fmt, items, sign, starts, i)
  }

  lemma PartStands(fmt: string, p: nat, item: Item, text: string, h: string, c: char)
    requires Stands(fmt, p, text) && text == h + [c] && h == ItemText(item) && IsItem(item)
    ensures PartAt(fmt, p, item, c, p + |text|)
  {
    SignStands(fmt, p, text, h, c);
    ItemStands(fmt, p, item, h, p + |h|);
  }

  /** One part of a list: what stands before it is safe if what stands behind it is. */
  lemma PartIsSafe(fmt: string, p: nat, item: Item, c: char, next: nat)
    requires PartAt(fmt, p, item, c, next) && c != '#' && Safe(fmt, next)
    ensures Safe(fmt, next - 1) && Safe(fmt, p)
  {
    ItemIsPassed(fmt, p, item, next - 1);
  }

  ghost predicate ReadsFrom(fmt: string, p: nat) {
    p <= |fmt| && Safe(fmt, p)
  }

  /** A list is safe to read if what stands behind its group is. */
  lemma {:induction false} ListIsSafe(fmt: string, items: seq<Item>, sign: char, starts: seq<nat>, i: nat)
    requires ListAt(fmt, items, sign, starts) && i <= |items| && ReadsFrom(fmt, starts[|items|])
    ensures forall j: nat | i <= j <= |items| :: ReadsFrom(fmt, starts[j])
    decreases |items| - i
  {
    if i < |items| {
      ListIsSafe(fmt, items, sign, starts, i + 1);
      assert PartOf(fmt, items, sign, starts, i);
      PartIsSafe(fmt, starts[i], items[i], SignBehind(|items|, i, sign), starts[i + 1]);
    }
  }

  /** A list that can be read from everywhere. */
  ghost predicate ListReads(fmt: string, items: seq<Item>, sign: char, starts: seq<nat>) {
    && ListAt(fmt, items, sign, starts)
    && forall i: nat | i <= |items| :: ReadsFrom(fmt, starts[i])
  }

  lemma SignedText(items: seq<Item>, sign: char, i: nat)
    requires i < |items|
    ensures |Signed(TextsOf(items), sign)| == |items|
    ensures Signed(TextsOf(items), sign)[i] == ItemText(items[i]) + [SignBehind(|items|, i, sign)]
  {
  }

  lemma PartReady(fmt: string, items: seq<Item>, sign: char, signed: seq<string>, starts: seq<nat>, e: nat, i: nat)
    requires AreItems(items) && i < |items| == |signed| && |starts| == |items| + 1 && Length(signed, 0) <= e
    requires signed[i] == ItemText(items[i]) + [SignBehind(|items|, i, sign)]
    requires Stands(fmt, e - Length(signed, 0), Concat(signed, 0))
    requires starts[i] == e - Length(signed, i) && starts[i + 1] == e - Length(signed, i + 1)
    ensures PartOf(fmt, items, sign, starts, i)
  {
    TextInPlace(fmt, signed, i, e, starts[i], signed[i]);
    PartStands(fmt, starts[i], items[i], signed[i], ItemText(items[i]), SignBehind(|items|, i, sign));
  }

  lemma PartsReady(fmt: string, items: seq<Item>, sign: char, signed: seq<string>, e: nat)
    requires AreItems(items) && signed == Signed(TextsOf(items), sign) && Length(signed, 0) <= e
    requires Stands(fmt, e - Length(signed, 0), Concat(signed, 0)) && IsSign(sign)
    ensures ListAt(fmt, items, sign, Starts(signed, e))
  {
    var starts := Starts(signed, e);
    forall i: nat | i < |items|
      ensures PartOf(fmt, items, sign, starts, i)
    {
      SignedText(items, sign, i);
      PartReady(fmt, items, sign, signed, starts, e, i);
    }
  }

  lemma ListReady(fmt: string, p: nat, items: seq<Item>, sign: char, e: nat) returns (starts: seq<nat>)
    requires AreItems(items) && Stands(fmt, p, List(items, sign))
    requires IsSign(sign) && e == p + |List(items, sign)| && Safe(fmt, e)
    ensures ListReads(fmt, items, sign, starts) && starts[0] == p && starts[|items|] == e
  {
    var signed := Signed(TextsOf(items), sign);
    ConcatLength(signed, 0);
    starts := Starts(signed, e);
    PartsReady(fmt, items, sign, signed, e);
    ListIsSafe(fmt, items, sign, starts, 0);
  }

  // ---------- skipping the rest of a list ----------

  /** Behind a sign, either skip takes one item and ends behind it; as coded, behind the bracket too. */
  lemma SkipsPart(fmt: string, p: nat, item: Item, c: char, next: nat)
    requires PartAt(fmt, p, item, c, next) && (IsSign(c) || c == ']')
    ensures DepthSkip(fmt, p, 0) == next - 1 && SkipTo(fmt, p) == if c == ']' then next else next - 1
  {
    ItemIsPassed(fmt, p, item, next - 1);
  }

  /** What evaluation comes to when the rest of a list that ends at `e` is passed. */
  function Passed(skip: Skip, fmt: string, tags: Tags, e: nat, acc: string, found: bool): (string, nat)
    requires e <= |fmt| && Safe(fmt, e)
  {
    if skip.AsCoded? then Eval(skip, fmt, tags, e, acc, found) else (if found then acc else "", e)
  }

  /** A sign at `p`, the last item of a list and the bracket behind it. */
  lemma LastIsSkipped(skip: Skip, fmt: string, tags: Tags, p: nat, item: Item, e: nat, acc: string)
    requires p < |fmt| && IsSign(fmt[p]) && PartAt(fmt, p + 1, item, ']', e) && Safe(fmt, p) && Safe(fmt, e)
    ensures Eval(skip, fmt, tags, p, acc, fmt[p] == '|') == Passed(skip, fmt, tags, e, acc, fmt[p] == '|')
  {
    SkipsPart(fmt, p + 1, item, ']', e);
    SignSkips(skip, fmt, tags, p, acc, if skip.AsCoded? then e else e - 1);
    if skip.ByDepth? {
      GroupEnds(skip, fmt, tags, e - 1, acc, fmt[p] == '|');
    }
  }

  /** A sign at `p`, an item and another sign. */
  lemma PartIsSkipped(skip: Skip, fmt: string, tags: Tags, p: nat, item: Item, next: nat, acc: string)
    requires p < |fmt| && IsSign(fmt[p]) && PartAt(fmt, p + 1, item, fmt[p], next) && Safe(fmt, p)
    ensures Safe(fmt, next - 1)
    ensures Eval(skip, fmt, tags, p, acc, fmt[p] == '|') == Eval(skip, fmt, tags, next - 1, acc, fmt[p] == '|')
  {
    SkipsPart(fmt, p + 1, item, fmt[p], next);
    SignSkips(skip, fmt, tags, p, acc, next - 1);
  }

  /**
   The rest of a list from item `i` on, none of which is to be printed.  As coded,
   evaluation goes on behind the bracket as if it were still inside the group.
   */
  lemma {:induction false} RestIsSkipped(skip: Skip, fmt: string, tags: Tags, items: seq<Item>, sign: char,
                                         starts: seq<nat>, i: nat, p: nat, acc: string)
    requires ListReads(fmt, items, sign, starts) && i < |items|
    requires p + 1 == starts[i] && p < |fmt| && fmt[p] == sign && Safe(fmt, p)
    ensures ReadsFrom(fmt, starts[|items|])
    ensures Eval(skip, fmt, tags, p, acc, sign == '|') == Passed(skip, fmt, tags, starts[|items|], acc, sign == '|')
    decreases |items| - i
  {
    assert PartOf(fmt, items, sign, starts, i);
    if i + 1 == |items| {
      LastIsSkipped(skip, fmt, tags, p, items[i], starts[i + 1], acc);
    } else {
      PartIsSkipped(skip, fmt, tags, p, items[i], starts[i + 1], acc);
      RestIsSkipped(skip, fmt, tags, items, sign, starts, i + 1, starts[i + 1] - 1, acc);
    }
  }

  /** Evaluation that goes on ends further on. */
  lemma GoesOn(skip: Skip, fmt: string, tags: Tags, e: nat, acc: string, found: bool)
    requires e <= |fmt| && Safe(fmt, e)
    ensures Eval(skip, fmt, tags, e, acc, found).1 == e <==> e == |fmt|
    ensures e == |fmt| ==> Eval(skip, fmt, tags, e, acc, found) == (acc, e)
  {
  }

  // ---------- one item of a list ----------

  /** What an item prints for a song, and whether the song has one of its tags. */
  datatype Shown = Shown(output: string, found: bool)

  function ShownOf(items: seq<Item>, tags: Tags): (shown: seq<Shown>)
    ensures IsShown(items, tags, shown)
  {
    seq(|items|, i requires 0 <= i < |items| => Shown(ItemOutput(items[i], tags), ItemFound(items[i], tags)))
  }

  predicate IsShown(items: seq<Item>, tags: Tags, shown: seq<Shown>) {
    |shown| == |items| && forall i: nat | i < |items| :: ShownAt(items, tags, shown, i)
  }

  predicate ShownAt(items: seq<Item>, tags: Tags, shown: seq<Shown>, i: nat)
    requires i < |items| == |shown|
  {
    shown[i] == Shown(ItemOutput(items[i], tags), ItemFound(items[i], tags))
  }

  /** Items, their places in `fmt`, and what they print. */
  ghost predicate Listed(fmt: string, tags: Tags, items: seq<Item>, sign: char, starts: seq<nat>, shown: seq<Shown>) {
    ListReads(fmt, items, sign, starts) && IsShown(items, tags, shown)
  }

  /** Item `i`, up to what stands behind it. */
  lemma PartEval(skip: Skip, fmt: string, tags: Tags, items: seq<Item>, sign: char, starts: seq<nat>,
                 shown: seq<Shown>, i: nat, acc: string, out: string)
    requires Listed(fmt, tags, items, sign, starts, shown) && i < |items| && out == acc + shown[i].output
    ensures ReadsFrom(fmt, starts[i]) && 0 < starts[i + 1] && ReadsFrom(fmt, starts[i + 1] - 1)
    ensures var q := starts[i + 1] - 1;
            && q < |fmt| && fmt[q] == SignBehind(|items|, i, sign)
            && Eval(skip, fmt, tags, starts[i], acc, false) == Eval(skip, fmt, tags, q, out, shown[i].found)
  {
    assert PartOf(fmt, items, sign, starts, i) && ShownAt(items, tags, shown, i) && ReadsFrom(fmt, starts[i]);
    ItemEval(skip, fmt, tags, starts[i], items[i], starts[i + 1] - 1, acc, out, false);
  }

  /** The last item. */
  lemma LastEval(skip: Skip, fmt: string, tags: Tags, items: seq<Item>, sign: char, starts: seq<nat>,
                 shown: seq<Shown>, i: nat, acc: string, out: string)
    requires Listed(fmt, tags, items, sign, starts, shown) && i + 1 == |items| && out == acc + shown[i].output
    ensures ReadsFrom(fmt, starts[i])
    ensures Eval(skip, fmt, tags, starts[i], acc, false) == (if shown[i].found then out else "", starts[i + 1])
  {
    PartEval(skip, fmt, tags, items, sign, starts, shown, i, acc, out);
    GroupEnds(skip, fmt, tags, starts[i + 1] - 1, out, shown[i].found);
  }

  /** An item behind which the rest is skipped: an alternative that is found, or a part that is not. */
  lemma SkippingEval(skip: Skip, fmt: string, tags: Tags, items: seq<Item>, sign: char, starts: seq<nat>,
                     shown: seq<Shown>, i: nat, acc: string, out: string)
    requires Listed(fmt, tags, items, sign, starts, shown) && i + 1 < |items| && out == acc + shown[i].output
    requires shown[i].found <==> sign == '|'
    ensures ReadsFrom(fmt, starts[i]) && ReadsFrom(fmt, starts[|items|])
    ensures Eval(skip, fmt, tags, starts[i], acc, false)
         == Passed(skip, fmt, tags, starts[|items|], out, sign == '|')
  {
    PartEval(skip, fmt, tags, items, sign, starts, shown, i, acc, out);
    RestIsSkipped(skip, fmt, tags, items, sign, starts, i + 1, starts[i + 1] - 1, out);
  }

  /** An item behind which the next is evaluated. */
  lemma PassingEval(skip: Skip, fmt: string, tags: Tags, items: seq<Item>, sign: char, starts: seq<nat>,
                    shown: seq<Shown>, i: nat, acc: string, out: string)
    requires Listed(fmt, tags, items, sign, starts, shown) && i + 1 < |items| && out == acc + shown[i].output
    requires shown[i].found <==> sign == '&'
    ensures ReadsFrom(fmt, starts[i]) && ReadsFrom(fmt, starts[i + 1])
    ensures Eval(skip, fmt, tags, starts[i], acc, false)
         == Eval(skip, fmt, tags, starts[i + 1], if sign == '|' then "" else out, false)
  {
    PartEval(skip, fmt, tags, items, sign, starts, shown, i, acc, out);
    if sign == '|' {
      OrGoesOn(skip, fmt, tags, starts[i + 1] - 1, out);
    } else {
      AndGoesOn(skip, fmt, tags, starts[i + 1] - 1, out);
    }
  }

  // ---------- alternatives ----------

  /** The first from `i` on that is found. */
  function FirstFound(shown: seq<Shown>, i: nat): string
    requires i <= |shown|
    decreases |shown| - i
  {
    if i == |shown| then "" else if shown[i].found then shown[i].output else FirstFound(shown, i + 1)
  }

  /** None from `i` on but the last is found, so nothing has to be skipped. */
  predicate OnlyLast(shown: seq<Shown>, i: nat) {
    forall j | i <= j < |shown| - 1 :: !shown[j].found
  }

  lemma {:induction false} AlternativesEval(skip: Skip, fmt: string, tags: Tags, items: seq<Item>, starts: seq<nat>,
                                            shown: seq<Shown>, i: nat)
    requires Listed(fmt, tags, items, '|', starts, shown) && i < |items|
    ensures ReadsFrom(fmt, starts[i]) && ReadsFrom(fmt, starts[|items|])
    ensures Eval(skip, fmt, tags, starts[i], "", false) ==
            if OnlyLast(shown, i) then (FirstFound(shown, i), starts[|items|])
            else Passed(skip, fmt, tags, starts[|items|], FirstFound(shown, i), true)
    decreases |items| - i
  {
    var out := shown[i].output;
    assert "" + out == out;
    if i + 1 == |items| {
      LastEval(skip, fmt, tags, items, '|', starts, shown, i, "", out);
    } else if shown[i].found {
      SkippingEval(skip, fmt, tags, items, '|', starts, shown, i, "", out);
    } else {
      PassingEval(skip, fmt, tags, items, '|', starts, shown, i, "", out);
      AlternativesEval(skip, fmt, tags, items, starts, shown, i + 1);
      assert OnlyLast(shown, i) <==> OnlyLast(shown, i + 1);
    }
  }

  /**
   `[%a%|%b% text|...]`, wherever it stands and whatever follows.  Counting brackets, it
   prints the first alternative of which the song has a tag and ends at its bracket.
   As coded it does so if and only if nothing follows or no alternative but the last is
   found; otherwise what follows is evaluated as a part of the group, which has its
   text already.
   */
  lemma FirstAlternativeWins(fmt: string, tags: Tags, p: nat, items: seq<Item>, e: nat)
    requires AreItems(items) && Stands(fmt, p, List(items, '|'))
    requires e == p + |List(items, '|')| && Safe(fmt, e)
    ensures var shown := ShownOf(items, tags); var text := FirstFound(shown, 0);
            var rightly := e == |fmt| || OnlyLast(shown, 0);
            && Safe(fmt, p) && Eval(ByDepth, fmt, tags, p, "", false) == (text, e)
            && (Eval(AsCoded, fmt, tags, p, "", false) == (text, e) <==> rightly)
            && (Eval(AsCoded, fmt, tags, p, "", false).1 == e <==> rightly)
            && (!OnlyLast(shown, 0) ==>
                  Eval(AsCoded, fmt, tags, p, "", false) == Eval(AsCoded, fmt, tags, e, text, true))
  {
    var starts := ListReady(fmt, p, items, '|', e);
    AlternativesStanding(fmt, tags, items, starts, ShownOf(items, tags));
  }

  lemma AlternativesStanding(fmt: string, tags: Tags, items: seq<Item>, starts: seq<nat>, shown: seq<Shown>)
    requires Listed(fmt, tags, items, '|', starts, shown)
    ensures var p, e, text := starts[0], starts[|items|], FirstFound(shown, 0);
            var rightly := e == |fmt| || OnlyLast(shown, 0);
            && ReadsFrom(fmt, p) && ReadsFrom(fmt, e) && Eval(ByDepth, fmt, tags, p, "", false) == (text, e)
            && (Eval(AsCoded, fmt, tags, p, "", false) == (text, e) <==> rightly)
            && (Eval(AsCoded, fmt, tags, p, "", false).1 == e <==> rightly)
            && (!OnlyLast(shown, 0) ==>
                  Eval(AsCoded, fmt, tags, p, "", false) == Eval(AsCoded, fmt, tags, e, text, true))
  {
    AlternativesEval(ByDepth, fmt, tags, items, starts, shown, 0);
    AlternativesEval(AsCoded, fmt, tags, items, starts, shown, 0);
    GoesOn(AsCoded, fmt, tags, starts[|items|], FirstFound(shown, 0), true);
  }

  // ---------- conjunctions ----------

  /** The output from `i` on up to the first that is not found, its text included. */
  function SoFar(shown: seq<Shown>, i: nat): string
    requires i <= |shown|
    decreases |shown| - i
  {
    if i == |shown| then "" else shown[i].output + if shown[i].found then SoFar(shown, i + 1) else ""
  }

  predicate AllFound(shown: seq<Shown>, i: nat) {
    forall j | i <= j < |shown| :: shown[j].found
  }

  /** Whatever the last is, no `&` has anything to skip. */
  predicate AllButLast(shown: seq<Shown>, i: nat) {
    forall j | i <= j < |shown| - 1 :: shown[j].found
  }

  /** What a conjunction comes to from item `i` on, when `all` is the text it would print at most. */
  function Conjunction(skip: Skip, fmt: string, tags: Tags, shown: seq<Shown>, i: nat, e: nat, all: string):
    (string, nat)
    requires e <= |fmt| && Safe(fmt, e)
  {
    if AllFound(shown, i) then (all, e)
    else if AllButLast(shown, i) then ("", e)
    else Passed(skip, fmt, tags, e, all, false)
  }

  /** `all` is `acc` and the output so far. */
  lemma {:induction false} ConjunctionEval(skip: Skip, fmt: string, tags: Tags, items: seq<Item>, starts: seq<nat>,
                                           shown: seq<Shown>, i: nat, acc: string, all: string)
    requires Listed(fmt, tags, items, '&', starts, shown) && i < |items| && all == acc + SoFar(shown, i)
    ensures ReadsFrom(fmt, starts[i]) && ReadsFrom(fmt, starts[|items|])
    ensures Eval(skip, fmt, tags, starts[i], acc, false)
         == Conjunction(skip, fmt, tags, shown, i, starts[|items|], all)
    decreases |items| - i
  {
    var out := acc + shown[i].output;
    SoFarCons(shown, i, acc, out);
    if i + 1 == |items| {
      LastEval(skip, fmt, tags, items, '&', starts, shown, i, acc, out);
    } else if shown[i].found {
      PassingEval(skip, fmt, tags, items, '&', starts, shown, i, acc, out);
      ConjunctionEval(skip, fmt, tags, items, starts, shown, i + 1, out, all);
      FoundMakesNoDifference(shown, i);
    } else {
      SkippingEval(skip, fmt, tags, items, '&', starts, shown, i, acc, out);
      assert !AllButLast(shown, i);
    }
  }

  lemma FoundMakesNoDifference(shown: seq<Shown>, i: nat)
    requires i + 1 < |shown| && shown[i].found
    ensures AllFound(shown, i) <==> AllFound(shown, i + 1)
    ensures AllButLast(shown, i) <==> AllButLast(shown, i + 1)
  {
  }

  lemma SoFarCons(shown: seq<Shown>, i: nat, acc: string, out: string)
    requires i < |shown| && out == acc + shown[i].output
    ensures acc + SoFar(shown, i) == if i + 1 < |shown| && shown[i].found then out + SoFar(shown, i + 1) else out
  {
    Associative(acc, shown[i].output, SoFar(shown, i + 1));
    assert shown[i].output + "" == shown[i].output;
  }

  /**
   `[%a%&%b% text&...]`, wherever it stands and whatever follows.  Counting brackets, it
   prints all its parts if each has a tag of the song, and otherwise nothing.  As coded
   it does so if and only if all parts but perhaps the last have one, or nothing follows
   and the parts up to the first without one print nothing; otherwise their text is kept
   and the group goes on behind its bracket.
   */
  lemma AllOrNothing(fmt: string, tags: Tags, p: nat, items: seq<Item>, e: nat)
    requires AreItems(items) && Stands(fmt, p, List(items, '&'))
    requires e == p + |List(items, '&')| && Safe(fmt, e)
    ensures var shown := ShownOf(items, tags); var text := SoFar(shown, 0);
            var meant := (if AllFound(shown, 0) then text else "", e);
            && Safe(fmt, p) && Eval(ByDepth, fmt, tags, p, "", false) == meant
            && (Eval(AsCoded, fmt, tags, p, "", false) == meant
                <==> AllButLast(shown, 0) || (e == |fmt| && text == ""))
            && (!AllButLast(shown, 0) ==>
                  Eval(AsCoded, fmt, tags, p, "", false) == Eval(AsCoded, fmt, tags, e, text, false))
  {
    var starts := ListReady(fmt, p, items, '&', e);
    var shown := ShownOf(items, tags);
    ConjunctionStanding(ByDepth, fmt, tags, items, starts, shown);
    ConjunctionStanding(AsCoded, fmt, tags, items, starts, shown);
    RightlyIff(fmt, tags, shown, e, SoFar(shown, 0));
  }

  lemma ConjunctionStanding(skip: Skip, fmt: string, tags: Tags, items: seq<Item>, starts: seq<nat>, shown: seq<Shown>)
    requires Listed(fmt, tags, items, '&', starts, shown)
    ensures ReadsFrom(fmt, starts[0]) && ReadsFrom(fmt, starts[|items|])
    ensures Eval(skip, fmt, tags, starts[0], "", false)
         == Conjunction(skip, fmt, tags, shown, 0, starts[|items|], SoFar(shown, 0))
  {
    assert "" + SoFar(shown, 0) == SoFar(shown, 0);
    ConjunctionEval(skip, fmt, tags, items, starts, shown, 0, "", SoFar(shown, 0));
  }

  lemma RightlyIff(fmt: string, tags: Tags, shown: seq<Shown>, e: nat, text: string)
    requires e <= |fmt| && Safe(fmt, e)
    ensures var coded := Conjunction(AsCoded, fmt, tags, shown, 0, e, text);
            var meant := Conjunction(ByDepth, fmt, tags, shown, 0, e, text);
            && meant == (if AllFound(shown, 0) then text else "", e)
            && (coded == meant <==> AllButLast(shown, 0) || (e == |fmt| && text == ""))
            && (!AllButLast(shown, 0) ==> coded == Eval(AsCoded, fmt, tags, e, text, false))
  {
    if !AllButLast(shown, 0) {
      assert !AllFound(shown, 0);
      GoesOn(AsCoded, fmt, tags, e, text, false);
    }
  }

  // ---------- an input ----------

  const NESTED := "[%t%&[%a%|%b%]&%c%]"

  const A_OR_B: seq<Item> := [[Tag("a")], [Tag("b")]]

  lemma OneTag(name: string)
    ensures ItemText([Tag(name)]) == Head(name)
    ensures forall tags: Tags :: ItemOutput([Tag(name)], tags) == TagOutput(tags, name)
                               && (ItemFound([Tag(name)], tags) <==> TagFound(tags, name))
  {
    var texts := PieceTexts([Tag(name)]);
    assert texts[0] == Head(name) && Concat(texts, 1) == "" && texts[0] + "" == texts[0];
    assert [Tag(name)][1..] == [];
  }

  lemma AlternativesText()
    ensures List(A_OR_B, '|') == "%a%|%b%]"
  {
    OneTag("a");
    OneTag("b");
    var texts := Signed(TextsOf(A_OR_B), '|');
    assert texts[0] == "%a%|" && texts[1] == "%b%]";
    assert Concat(texts, 2) == "" && Concat(texts, 1) == "%b%]";
  }

  lemma NestedLayout()
    ensures IsNested(NESTED)
  {
    AlternativesText();
    forall p | 0 <= p <= 19
      ensures Safe(NESTED, p)
    {
      assert Safe(NESTED, 19);
      SafeBefore(NESTED, p, 19);
    }
  }

  /**
   Alternatives inside a conjunction: with `t` and `a` found and `c` missing, nothing
   is to be printed.  As coded the rest of the conjunction is evaluated as a part of
   the inner group, and `t` is printed.
   */
  lemma ConjunctionIsLost(tags: Tags)
    requires tags("t").Some? && TagFound(tags, "t") && tags("a").Some? && TagFound(tags, "a") && !TagFound(tags, "c")
    ensures Safe(NESTED, 0) && Format(ByDepth, NESTED, tags) == ""
    ensures Format(AsCoded, NESTED, tags) == TagOutput(tags, "t")
  {
    NestedLayout();
    NestedEval(ByDepth, NESTED, tags);
    NestedEval(AsCoded, NESTED, tags);
  }

  /** What the lemmas below use of the format. */
  ghost predicate IsNested(fmt: string) {
    && |fmt| == 19 && fmt[0] == fmt[5] == '[' && fmt[4] == fmt[14] == '&' && fmt[18] == ']'
    && Stands(fmt, 1, Head("t")) && Stands(fmt, 6, List(A_OR_B, '|')) && Stands(fmt, 15, Head("c"))
    && |List(A_OR_B, '|')| == 8 && forall p | 0 <= p <= 19 :: Safe(fmt, p)
  }

  lemma NestedEval(skip: Skip, fmt: string, tags: Tags)
    requires IsNested(fmt) && tags("t").Some? && TagFound(tags, "t")
    requires tags("a").Some? && TagFound(tags, "a") && !TagFound(tags, "c")
    ensures Eval(skip, fmt, tags, 0, "", false).0 == if skip.ByDepth? then "" else TagOutput(tags, "t")
  {
    var t := TagOutput(tags, "t");
    var r := if skip.ByDepth? then ("", 19) else (t, 19);
    FirstTagEval(skip, fmt, tags, 1, "t");
    BehindFirst(skip, fmt, tags, t);
    FirstGroupEval(skip, fmt, tags, 0, r);
    EvalAtEnd(skip, fmt, tags, r.0, r.0 != "");
  }

  lemma BehindFirst(skip: Skip, fmt: string, tags: Tags, t: string)
    requires IsNested(fmt) && tags("a").Some? && TagFound(tags, "a") && !TagFound(tags, "c")
    ensures Eval(skip, fmt, tags, 4, t, true) == (if skip.ByDepth? then "" else t, 19)
  {
    InnerGroup(skip, fmt, tags);
    AndGoesOn(skip, fmt, tags, 4, t);
    if skip.ByDepth? {
      GroupEval(skip, fmt, tags, 5, t, false, (TagOutput(tags, "a"), 14));
      NothingBehind(skip, fmt, tags, t + TagOutput(tags, "a"));
    } else {
      GroupEval(skip, fmt, tags, 5, t, false, ("", 19));
      assert t + "" == t;
      EvalAtEnd(skip, fmt, tags, t, false);
    }
  }

  lemma InnerGroup(skip: Skip, fmt: string, tags: Tags)
    requires IsNested(fmt) && TagFound(tags, "a") && !TagFound(tags, "c")
    ensures Eval(skip, fmt, tags, 6, "", false) == if skip.ByDepth? then (TagOutput(tags, "a"), 14) else ("", 19)
  {
    OneTag("a");
    var shown := ShownOf(A_OR_B, tags);
    assert shown[0] == Shown(TagOutput(tags, "a"), true);
    assert !OnlyLast(shown, 0);
    FirstAlternativeWins(fmt, tags, 6, A_OR_B, 14);
    if skip.AsCoded? {
      NothingBehind(skip, fmt, tags, TagOutput(tags, "a"));
    }
  }

  lemma NothingBehind(skip: Skip, fmt: string, tags: Tags, acc: string)
    requires IsNested(fmt) && !TagFound(tags, "c")
    ensures Eval(skip, fmt, tags, 14, acc, true) == ("", 19)
  {
    AndGoesOn(skip, fmt, tags, 14, acc);
    TagEval(skip, fmt, tags, 15, "c", acc, false);
    GroupEnds(skip, fmt, tags, 18, acc + TagOutput(tags, "c"), false);
  }
}
