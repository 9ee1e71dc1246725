/**
 `buildChars` in genpass.pl: the alphabet of a custom specification, in which
 `a-z` is a range.
 */
module GenpassChars {
  import opened Common
  import opened GenpassEncode

  const DASH: Byte := 45

  function Range(a: Byte, b: Byte): (r: seq<Byte>)
    requires a <= b
    ensures forall x :: x in r <==> a <= x <= b
    decreases b - a
  {
    if a == b then [a] else [a] + Range(a + 1, b)
  }

  /**
   The characters a specification names, in order: a range where a dash stands
   second, a single character otherwise.  A dash at the end is ignored; a range
   that does not go upwards is an error.
   */
  function Items(spec: seq<Byte>): Result<seq<Byte>> {
    if spec == [] then Ok([])
    else if |spec| == 1 || spec[1] != DASH then Prepend([spec[0]], Items(spec[1..]))
    else if |spec| == 2 then Ok([spec[0]])
    else if spec[0] < spec[2] then Prepend(Range(spec[0], spec[2]), Items(spec[3..]))
    else Err
  }

  function Prepend(a: seq<Byte>, r: Result<seq<Byte>>): Result<seq<Byte>> {
    if r.Err? then Err else Ok(a + r.value)
  }

  lemma PrependNothing(r: Result<seq<Byte>>)
    ensures Prepend([], r) == r
  {
    if r.Ok? {
      assert [] + r.value == r.value;
    }
  }

  lemma PrependTwice(a: seq<Byte>, b: seq<Byte>, r: Result<seq<Byte>>)
    ensures Prepend(a, Prepend(b, r)) == Prepend(a + b, r)
  {
    if r.Ok? {
      assert a + (b + r.value) == a + b + r.value;
    }
  }

  lemma ItemsOfRange(p: Byte, ch: Byte, rest: seq<Byte>)
    ensures Items([p, DASH] + ([ch] + rest)) == if p < ch then Prepend(Range(p, ch), Items(rest)) else Err
  {
    assert ([p, DASH] + ([ch] + rest))[3..] == rest;
  }

  lemma ItemsOfSingle(p: Byte, ch: Byte, rest: seq<Byte>)
    requires ch != DASH
    ensures Items([p] + ([ch] + rest)) == Prepend([p], Items([ch] + rest))
  {
    assert ([p] + ([ch] + rest))[1..] == [ch] + rest;
  }

  /** The part of the input the loop has taken but not decided about. */
  function Undecided(prev: Option<Byte>, range: bool): seq<Byte> {
    if prev.None? then [] else if range then [prev.value, DASH] else [prev.value]
  }

  lemma ItemsAtEnd(prev: Option<Byte>, range: bool)
    ensures Items(Undecided(prev, range)) == Ok(if prev.Some? then [prev.value] else [])
  {
    if prev.Some? && !range {
      assert [prev.value][1..] == [];
      assert [prev.value] + [] == [prev.value];
    }
  }

  /** The characters that are decided, and what the rest of the input adds to them. */
  function Outlook(chars: seq<Byte>, prev: Option<Byte>, range: bool, rest: seq<Byte>): Result<seq<Byte>>
    requires prev.Some? ==> chars != []
  {
    Prepend(if prev.Some? then chars[..|chars| - 1] else chars, Items(Undecided(prev, range) + rest))
  }

  lemma OutlookAtEnd(chars: seq<Byte>, prev: Option<Byte>, range: bool)
    requires prev.Some? ==> chars != [] && chars[|chars| - 1] == prev.value
    ensures Outlook(chars, prev, range, []) == Ok(chars)
  {
    ItemsAtEnd(prev, range);
    assert Undecided(prev, range) + [] == Undecided(prev, range);
    assert prev.Some? ==> chars == chars[..|chars| - 1] + [prev.value];
    assert chars + [] == chars;
  }

  /** One turn of the first loop; None when a range does not go upwards. */
  method TakeCharacter(ch: Byte, chars0: seq<Byte>, prev0: Option<Byte>, range0: bool, ghost rest: seq<Byte>)
    returns (chars: seq<Byte>, prev: Option<Byte>, range: bool, ok: bool)
    requires prev0.Some? ==> chars0 != [] && chars0[|chars0| - 1] == prev0.value
    requires range0 ==> prev0.Some?
    ensures !ok ==> Outlook(chars0, prev0, range0, [ch] + rest) == Err
    ensures ok ==> (prev.Some? ==> chars != [] && chars[|chars| - 1] == prev.value) && (range ==> prev.Some?)
    ensures ok ==> Outlook(chars0, prev0, range0, [ch] + rest) == Outlook(chars, prev, range, rest)
  {
    chars, prev, range, ok := chars0, prev0, range0, true;
    if range {
      ItemsOfRange(prev.value, ch, rest);
      chars := chars[..|chars| - 1];
      if prev.value >= ch {
        ok := false;
        return;
      }
      PrependTwice(chars, Range(prev.value, ch), Items(rest));
      assert [] + rest == rest;
      chars := chars + Range(prev.value, ch);
      prev, range := None, false;
    } else if prev.Some? && ch == DASH {
      assert [prev.value] + ([ch] + rest) == [prev.value, DASH] + rest;
      range := true;
    } else {
      if prev.Some? {
        ItemsOfSingle(prev.value, ch, rest);
        PrependTwice(chars[..|chars| - 1], [prev.value], Items([ch] + rest));
        assert chars == chars[..|chars| - 1] + [prev.value];
      } else {
        assert [] + ([ch] + rest) == [ch] + rest;
      }
      assert (chars + [ch])[..|chars|] == chars;
      chars := chars + [ch];
      prev := Some(ch);
    }
  }

  /** The first loop: `prev` and `range` remember the last one or two characters. */
  method Collect(spec: seq<Byte>) returns (r: Result<seq<Byte>>)
    ensures r == Items(spec)
  {
    var chars: seq<Byte> := [];
    var prev: Option<Byte>, range, ok := None, false, true;
    assert [] + spec[0..] == spec;
    PrependNothing(Items(spec));
    for i := 0 to |spec|
      invariant prev.Some? ==> chars != [] && chars[|chars| - 1] == prev.value
      invariant range ==> prev.Some?
      invariant Items(spec) == Outlook(chars, prev, range, spec[i..])
    {
      assert spec[i..] == [spec[i]] + spec[i + 1..];
      chars, prev, range, ok := TakeCharacter(spec[i], chars, prev, range, spec[i + 1..]);
      if !ok {
        return Err;
      }
    }
    assert spec[|spec|..] == [];
    OutlookAtEnd(chars, prev, range);
    r := Ok(chars);
  }

  // ---------- what specifications say ----------

  /** A character, or a range of them. */
  datatype Part = Single(b: Byte) | Span(a: Byte, b: Byte)

  /** How it is written: with a dash between the ends of a range. */
  function Written(p: Part): seq<Byte> {
    match p case Single(b) => [b] case Span(a, b) => [a, 45, b]
  }

  function Meant(p: Part): (r: seq<Byte>)
    ensures forall x :: x in r <==> if p.Single? then x == p.b else p.a <= x <= p.b
  {
    match p case Single(b) => [b] case Span(a, b) => if a <= b then Range(a, b) else []
  }

  function Spec(parts: seq<Part>): seq<Byte> {
    if parts == [] then [] else Written(parts[0]) + Spec(parts[1..])
  }

  function Named(parts: seq<Part>): seq<Byte> {
    if parts == [] then [] else Meant(parts[0]) + Named(parts[1..])
  }

  /** A range goes upwards, and a single character is not followed by a dash. */
  predicate IsClear(p: Part, behind: seq<Byte>) {
    if p.Span? then p.a < p.b else behind == [] || behind[0] != 45
  }

  predicate Clear(parts: seq<Part>, rest: seq<Byte>) {
    parts == [] || (IsClear(parts[0], Spec(parts[1..]) + rest) && Clear(parts[1..], rest))
  }

  lemma PartRead(p: Part, behind: seq<Byte>)
    requires IsClear(p, behind)
    ensures Items(Written(p) + behind) == Prepend(Meant(p), Items(behind))
  {
    match p
    case Single(b) =>
      assert ([b] + behind)[1..] == behind;
      assert behind == [] ==> [b] + [] == [b];
    case Span(a, b) =>
      assert Written(p) + behind == [a, DASH] + ([b] + behind);
      ItemsOfRange(a, b, behind);
  }

  /** Parts are read as what they name, and reading goes on behind them. */
  lemma {:induction false} PartsRead(parts: seq<Part>, rest: seq<Byte>)
    requires Clear(parts, rest)
    ensures Items(Spec(parts) + rest) == Prepend(Named(parts), Items(rest))
  {
    if parts == [] {
      assert [] + rest == rest;
      PrependNothing(Items(rest));
    } else {
      var p, more := parts[0], parts[1..];
      PartsRead(more, rest);
      PartRead(p, Spec(more) + rest);
      Associative(Written(p), Spec(more), rest);
      PrependTwice(Meant(p), Named(more), Items(rest));
    }
  }

  /** How a specification can end behind its parts: with a dash, or in a range that does not go upwards. */
  predicate IsEnd(rest: seq<Byte>) {
    rest == [] || (|rest| >= 2 && rest[1] == 45 && (|rest| == 2 || rest[2] <= rest[0]))
  }

  /** A specification names what its parts name; a dash at its end is ignored. */
  lemma SpecReads(parts: seq<Part>, rest: seq<Byte>)
    requires Clear(parts, rest) && IsEnd(rest)
    ensures Items(Spec(parts) + rest) ==
            if |rest| > 2 then Err else Ok(Named(parts) + if rest == [] then [] else [rest[0]])
  {
    PartsRead(parts, rest);
  }

  /** Every specification consists of parts and such an end. */
  lemma {:induction false} EverySpecSplits(spec: seq<Byte>) returns (parts: seq<Part>, rest: seq<Byte>)
    ensures spec == Spec(parts) + rest && Clear(parts, rest) && IsEnd(rest)
    decreases |spec|
  {
    if IsEnd(spec) {
      parts, rest := [], spec;
      assert [] + spec == spec;
    } else {
      var single := |spec| == 1 || spec[1] != 45;
      var n := if single then 1 else 3;
      var more;
      more, rest := EverySpecSplits(spec[n..]);
      var p := if single then Single(spec[0]) else Span(spec[0], spec[2]);
      parts := [p] + more;
      assert parts[0] == p && parts[1..] == more && Written(p) == spec[..n];
      Associative(Written(p), Spec(more), rest);
    }
  }

  // ---------- the default sort of Perl compares numbers as text ----------

  function Text(b: Byte): string {
    Common.Digits(b)
  }

  predicate LexLe(a: string, b: string) {
    a == "" || (b != "" && (a[0] < b[0] || (a[0] == b[0] && LexLe(a[1..], b[1..]))))
  }

  lemma {:induction false} LexTotal(a: string, b: string)
    ensures LexLe(a, b) || LexLe(b, a)
    ensures LexLe(a, b) && LexLe(b, a) ==> a == b
  {
    if a != "" && b != "" && a[0] == b[0] {
      LexTotal(a[1..], b[1..]);
      assert a == [a[0]] + a[1..] && b == [b[0]] + b[1..];
    }
  }

  lemma {:induction false} LexTransitive(a: string, b: string, c: string)
    requires LexLe(a, b) && LexLe(b, c)
    ensures LexLe(a, c)
  {
    if a != "" && a[0] == b[0] == c[0] {
      LexTransitive(a[1..], b[1..], c[1..]);
    }
  }

  lemma {:induction false} TextIsInjective(a: nat, b: nat)
    requires Common.Digits(a) == Common.Digits(b)
    ensures a == b
  {
    var x, y := Common.Digits(a), Common.Digits(b);
    assert x[|x| - 1] == y[|y| - 1];
    assert |x| == 1 <==> a < 10;
    if 10 <= a {
      assert x[..|x| - 1] == Common.Digits(a / 10) && y[..|y| - 1] == Common.Digits(b / 10);
      TextIsInjective(a / 10, b / 10);
    }
  }

  /** A last letter decides only behind equal texts. */
  lemma {:induction false} LexSnoc(x: string, y: string, c: char, d: char)
    requires |x| == |y|
    ensures LexLe(x + [c], y + [d]) <==> if x == y then c <= d else LexLe(x, y)
  {
    if x == "" {
      assert x + [c] == [c] && y + [d] == [d];
    } else {
      assert (x + [c])[1..] == x[1..] + [c] && (y + [d])[1..] == y[1..] + [d];
      assert x == [x[0]] + x[1..] && y == [y[0]] + y[1..];
      LexSnoc(x[1..], y[1..], c, d);
    }
  }

  /** Behind a text that is no shorter than the other it decides nothing. */
  lemma {:induction false} LexCut(x: string, y: string, d: char)
    requires |x| <= |y|
    ensures LexLe(x, y + [d]) <==> LexLe(x, y)
  {
    if x != "" {
      assert (y + [d])[1..] == y[1..] + [d];
      LexCut(x[1..], y[1..], d);
    }
  }

  /** Numbers with equally many digits are in the order of their values. */
  lemma {:induction false} OrderOfEquals(a: nat, b: nat)
    requires |Common.Digits(a)| == |Common.Digits(b)|
    ensures LexLe(Common.Digits(a), Common.Digits(b)) <==> a <= b
  {
    var c, d := ('0' as int + a % 10) as char, ('0' as int + b % 10) as char;
    if a < 10 {
      assert Common.Digits(a) == "" + [c] && Common.Digits(b) == "" + [d];
      LexSnoc("", "", c, d);
    } else {
      OrderOfEquals(a / 10, b / 10);
      LexSnoc(Common.Digits(a / 10), Common.Digits(b / 10), c, d);
      if Common.Digits(a / 10) == Common.Digits(b / 10) {
        TextIsInjective(a / 10, b / 10);
      }
    }
  }

  /** A number with more digits is compared without its last ones. */
  lemma OrderOfLonger(a: nat, b: nat)
    requires |Common.Digits(a)| < |Common.Digits(b)|
    ensures LexLe(Common.Digits(a), Common.Digits(b)) <==> LexLe(Common.Digits(a), Common.Digits(b / 10))
    ensures LexLe(Common.Digits(b), Common.Digits(a)) <==> !LexLe(Common.Digits(a), Common.Digits(b))
  {
    LexCut(Common.Digits(a), Common.Digits(b / 10), ('0' as int + b % 10) as char);
    LexTotal(Common.Digits(a), Common.Digits(b));
  }

  lemma CodeLength(b: Byte)
    requires 10 <= b
    ensures |Common.Digits(b)| == if b < 100 then 2 else 3
  {
    assert |Common.Digits(b / 10)| == if b < 100 then 1 else 2;
  }

  /** Characters of three digits are sorted between those of two: 100 to 109 behind 10, and so on. */
  lemma OrderOfCodes(a: Byte, b: Byte)
    requires 10 <= a && 10 <= b
    ensures Le(a, b) <==> if (a < 100) == (b < 100) then a <= b else if a < 100 then a <= b / 10 else a / 10 < b
  {
    CodeLength(a);
    CodeLength(b);
    if (a < 100) == (b < 100) {
      OrderOfEquals(a, b);
    } else if a < 100 {
      OrderOfLonger(a, b);
      OrderOfEquals(a, b / 10);
    } else {
      OrderOfLonger(b, a);
      OrderOfEquals(b, a / 10);
    }
  }

  predicate Le(a: Byte, b: Byte) {
    LexLe(Text(a), Text(b))
  }

  predicate Sorted(s: seq<Byte>) {
    forall i, j | 0 <= i < j < |s| :: Le(s[i], s[j])
  }

  function Insert(s: seq<Byte>, x: Byte): (r: seq<Byte>)
    requires Sorted(s)
    ensures Sorted(r) && forall y :: y in r <==> y == x || y in s
  {
    if s == [] then [x]
    else
      LexTotal(Text(x), Text(s[0]));
      if Le(x, s[0]) then InsertFirst(s, x); [x] + s
      else InsertLater(s, x); [s[0]] + Insert(s[1..], x)
  }

  lemma InsertFirst(s: seq<Byte>, x: Byte)
    requires s != [] && Sorted(s) && Le(x, s[0])
    ensures Sorted([x] + s)
  {
    forall j | 1 <= j < |s|
      ensures Le(x, s[j])
    {
      LexTransitive(Text(x), Text(s[0]), Text(s[j]));
    }
  }

  lemma InsertLater(s: seq<Byte>, x: Byte)
    requires s != [] && Sorted(s) && Le(s[0], x)
    ensures Sorted(s[1..]) && forall y | y == x || y in s[1..] :: Le(s[0], y)
  {
  }

  /** `sort`, for the default comparison. */
  function Sort(s: seq<Byte>): (r: seq<Byte>)
    ensures Sorted(r) && forall y :: y in r <==> y in s
  {
    if s == [] then [] else Insert(Sort(s[1..]), s[0])
  }

  predicate SameCharacters(text: string, items: seq<Byte>) {
    && (forall c | c in text :: c as int < 256 && (c as int) in items)
    && (forall b | b in items :: (b as char) in text)
  }

  /** The characters ascend, in the order of their codes as text. */
  predicate InOrder(text: string) {
    forall i, j | 0 <= i < j < |text| ::
      text[i] as int < 256 && text[j] as int < 256 && Le(text[i] as int, text[j] as int)
  }

  lemma OrderGrows(chars: string, s: seq<Byte>, i: nat)
    requires Sorted(s) && i < |s| && InOrder(chars) && SameCharacters(chars, s[..i])
    ensures InOrder(chars + [s[i] as char])
  {
    forall j | 0 <= j < |chars|
      ensures chars[j] as int < 256 && Le(chars[j] as int, s[i])
    {
      assert chars[j] in chars && (chars[j] as int) in s[..i];
    }
  }

  /** The second loop: equal neighbours of the sorted list are dropped. */
  method DropRepeats(s: seq<Byte>) returns (chars: string)
    requires Sorted(s)
    ensures Distinct(chars) && SameCharacters(chars, s) && InOrder(chars)
  {
    chars := "";
    var prev: Option<Byte> := None;
    for i := 0 to |s|
      invariant if i == 0 then prev == None && chars == "" else prev == Some(s[i - 1])
      invariant Distinct(chars) && SameCharacters(chars, s[..i]) && InOrder(chars)
    {
      var ch := s[i];
      OrderGrows(chars, s, i);
      assert s[..i + 1] == s[..i] + [ch];
      if prev.None? || prev.value != ch {
        NotBefore(s, i);
        assert (ch as char) !in chars;
        chars := chars + [ch as char];
      } else {
        assert (ch as char) in chars by {
          assert s[i - 1] in s[..i];
        }
      }
      prev := Some(ch);
    }
    assert s[..|s|] == s;
  }

  /** In a sorted list a value that differs from its neighbour has not occurred before. */
  lemma NotBefore(s: seq<Byte>, i: nat)
    requires Sorted(s) && i < |s| && (i > 0 ==> s[i - 1] != s[i])
    ensures s[i] !in s[..i]
  {
    forall j | 0 <= j < i
      ensures s[j] != s[i]
    {
      if s[j] == s[i] && j < i - 1 {
        LexTotal(Text(s[i - 1]), Text(s[i]));
        assert Le(s[j], s[i - 1]) && Le(s[i - 1], s[i]);
        TextIsInjective(s[i - 1], s[i]);
      }
    }
  }

  /** buildChars: distinct characters, exactly those the specification names, and at least two. */
  method BuildChars(spec: seq<Byte>) returns (r: Result<string>)
    ensures r.Ok? ==> Items(spec).Ok? && 2 <= |r.value| && Distinct(r.value)
    ensures r.Ok? ==> SameCharacters(r.value, Items(spec).value)
    ensures r.Ok? ==> InOrder(r.value)
    ensures r.Err? <==> Items(spec).Err? || forall a, b | a in Items(spec).value && b in Items(spec).value :: a == b
  {
    var items := Collect(spec);
    if items.Err? {
      return Err;
    }
    var chars := DropRepeats(Sort(items.value));
    ghost var sorted := Sort(items.value);
    assert SameCharacters(chars, items.value);
    if |chars| < 2 {
      forall a, b | a in items.value && b in items.value
        ensures a == b
      {
        assert (a as char) in chars && (b as char) in chars;
      }
      return Err;
    }
    assert chars[0] in chars && chars[1] in chars;
    assert (chars[0] as int) in items.value && (chars[1] as int) in items.value;
    r := Ok(chars);
  }
}
