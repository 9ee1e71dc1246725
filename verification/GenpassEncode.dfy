/**
 The general branch of `encode` in genpass.pl: bytes are turned into characters
 of an alphabet by streaming base conversion, which carries an undecided value
 `val` and the largest value it could have, `ent`.
 */
module GenpassEncode {
  import opened Arithmetic
  import opened Common

  /** Digits that can be given out while `ent` is at least `n`, and what is left. */
  datatype Carry = Carry(val: nat, ent: nat)

  function Absorb(c: Carry, b: Byte): Carry {
    Carry(c.val * 256 + b, c.ent * 256 + 255)
  }

  function Shrink(c: Carry, n: nat): Carry
    requires 2 <= n
  {
    Carry(Quot(c.val, n), Quot(c.ent, n))
  }

  function Emitted(c: Carry, n: nat): seq<nat>
    requires 2 <= n
    decreases c.ent
  {
    if c.ent < n then [] else [Rem(c.val, n)] + Emitted(Shrink(c, n), n)
  }

  function Left(c: Carry, n: nat): (r: Carry)
    requires 2 <= n
    ensures r.ent < n
    decreases c.ent
  {
    if c.ent < n then c else Left(Shrink(c, n), n)
  }

  /** The digits of a byte string, from a carry on. */
  function Digits(bytes: seq<Byte>, c: Carry, n: nat): seq<nat>
    requires 2 <= n
  {
    if bytes == [] then (if c.ent > 0 then [c.val] else [])
    else
      var a := Absorb(c, bytes[0]);
      Emitted(a, n) + Digits(bytes[1..], Left(a, n), n)
  }

  /** `val` never exceeds `ent`. */
  predicate Fits(c: Carry) {
    c.val <= c.ent
  }

  lemma {:induction false} LeftFits(c: Carry, n: nat)
    requires 2 <= n && Fits(c)
    ensures Fits(Left(c, n))
    decreases c.ent
  {
    if n <= c.ent {
      QuotMonotone(c.val, c.ent, n);
      LeftFits(Shrink(c, n), n);
    }
  }

  lemma {:induction false} EmittedAreDigits(c: Carry, n: nat)
    requires 2 <= n
    ensures InRange(Emitted(c, n), n)
    decreases c.ent
  {
    if n <= c.ent {
      EmittedAreDigits(Shrink(c, n), n);
    }
  }

  predicate InRange(digits: seq<nat>, n: nat) {
    forall i | 0 <= i < |digits| :: digits[i] < n
  }

  /** Every index into the alphabet is in range. */
  lemma {:induction false} DigitsInRange(bytes: seq<Byte>, c: Carry, n: nat)
    requires 2 <= n && Fits(c) && c.ent < n
    ensures InRange(Digits(bytes, c, n), n)
    decreases |bytes|
  {
    if bytes != [] {
      var a := Absorb(c, bytes[0]);
      EmittedAreDigits(a, n);
      LeftFits(a, n);
      DigitsInRange(bytes[1..], Left(a, n), n);
    }
  }

  // ---------- decoding ----------

  /** How many digits a carry gives out depends on `ent` alone. */
  function Count(ent: nat, n: nat): nat
    requires 2 <= n
  {
    if ent < n then 0 else 1 + Count(Quot(ent, n), n)
  }

  function LeftEnt(ent: nat, n: nat): (r: nat)
    requires 2 <= n
    ensures r < n
  {
    if ent < n then ent else LeftEnt(Quot(ent, n), n)
  }

  lemma {:induction false} CountOfEmitted(c: Carry, n: nat)
    requires 2 <= n
    ensures |Emitted(c, n)| == Count(c.ent, n) && Left(c, n).ent == LeftEnt(c.ent, n)
    decreases c.ent
  {
    if n <= c.ent {
      CountOfEmitted(Shrink(c, n), n);
    }
  }

  /** Puts digits back under a value, the last one first. */
  function Unemit(digits: seq<nat>, val: nat, n: nat): nat {
    if digits == [] then val else Recompose(Unemit(digits[1..], val, n), digits[0], n)
  }

  lemma {:induction false} UnemitEmitted(c: Carry, n: nat)
    requires 2 <= n
    ensures Unemit(Emitted(c, n), Left(c, n).val, n) == c.val
    decreases c.ent
  {
    if n <= c.ent {
      UnemitEmitted(Shrink(c, n), n);
      RecomposeQuotRem(c.val, n);
      assert Emitted(c, n)[1..] == Emitted(Shrink(c, n), n);
    }
  }

  /** How many digits each of `count` bytes gives out: it depends on its position and `n` alone. */
  function Plan(count: nat, ent: nat, n: nat): seq<nat>
    requires 2 <= n
    decreases count
  {
    if count == 0 then []
    else [Count(ent * 256 + 255, n)] + Plan(count - 1, LeftEnt(ent * 256 + 255, n), n)
  }

  /** A value that a byte has been absorbed into, taken apart. */
  function Unabsorb(v: nat, bytes: seq<Byte>): (nat, seq<Byte>) {
    (v / 256, [v % 256] + bytes)
  }

  /**
   Reads bytes back from their digits: the value carried into them, which is found
   from the end, and the bytes.
   */
  function Decode(digits: seq<nat>, plan: seq<nat>, n: nat): (nat, seq<Byte>)
    decreases |plan|
  {
    if plan == [] then (if digits == [] then 0 else digits[0], [])
    else if |digits| < plan[0] then (0, [])
    else
      var (val, bytes) := Decode(digits[plan[0]..], plan[1..], n);
      Unabsorb(Unemit(digits[..plan[0]], val, n), bytes)
  }

  lemma DecodeByte(e: seq<nat>, rest: seq<nat>, plan: seq<nat>, n: nat)
    ensures var (val, bytes) := Decode(rest, plan, n);
            Decode(e + rest, [|e|] + plan, n) == Unabsorb(Unemit(e, val, n), bytes)
  {
    assert (e + rest)[..|e|] == e && (e + rest)[|e|..] == rest;
    assert ([|e|] + plan)[1..] == plan;
  }

  lemma UnabsorbAbsorb(c: Carry, b: Byte, bytes: seq<Byte>)
    ensures Unabsorb(Absorb(c, b).val, bytes) == (c.val, [b] + bytes)
  {
  }

  lemma PlanByte(count: nat, c: Carry, b: Byte, n: nat)
    requires 2 <= n
    ensures var a := Absorb(c, b);
            Plan(count + 1, c.ent, n) == [|Emitted(a, n)|] + Plan(count, Left(a, n).ent, n)
  {
    CountOfEmitted(Absorb(c, b), n);
  }

  /** The reverse decoder recovers the carried value and every byte. */
  lemma {:induction false} DecodeDigits(bytes: seq<Byte>, c: Carry, n: nat)
    requires 2 <= n && Fits(c)
    ensures Decode(Digits(bytes, c, n), Plan(|bytes|, c.ent, n), n) == (c.val, bytes)
    decreases |bytes|
  {
    if bytes != [] {
      var b, more := bytes[0], bytes[1..];
      var a := Absorb(c, b);
      var e, left := Emitted(a, n), Left(a, n);
      assert [b] + more == bytes;
      LeftFits(a, n);
      UnabsorbAbsorb(c, b, more);
      UnemitEmitted(a, n);
      PlanByte(|more|, c, b, n);
      DecodeByte(e, Digits(more, left, n), Plan(|more|, left.ent, n), n);
      DecodeDigits(more, left, n);
    }
  }

  /** How many digits `count` bytes take, from a carry on. */
  function Length(count: nat, ent: nat, n: nat): nat
    requires 2 <= n
    decreases count
  {
    if count == 0 then (if ent > 0 then 1 else 0)
    else Count(ent * 256 + 255, n) + Length(count - 1, LeftEnt(ent * 256 + 255, n), n)
  }

  /** The number of digits depends on the number of bytes and the alphabet alone. */
  lemma {:induction false} DigitsLength(bytes: seq<Byte>, c: Carry, n: nat)
    requires 2 <= n
    ensures |Digits(bytes, c, n)| == Length(|bytes|, c.ent, n)
    decreases |bytes|
  {
    if bytes != [] {
      var a := Absorb(c, bytes[0]);
      CountOfEmitted(a, n);
      DigitsLength(bytes[1..], Left(a, n), n);
    }
  }

  // ---------- characters ----------

  predicate Distinct(chars: string) {
    forall i, j | 0 <= i < j < |chars| :: chars[i] != chars[j]
  }

  function Spell(digits: seq<nat>, chars: string): string
    requires InRange(digits, |chars|)
  {
    if digits == [] then "" else [chars[digits[0]]] + Spell(digits[1..], chars)
  }

  lemma {:induction false} SpellAppends(a: seq<nat>, b: seq<nat>, chars: string)
    requires InRange(a, |chars|) && InRange(b, |chars|)
    ensures InRange(a + b, |chars|)
    ensures Spell(a + b, chars) == Spell(a, chars) + Spell(b, chars)
    decreases |a|
  {
    if a == [] {
      assert a + b == b;
    } else {
      SpellAppends(a[1..], b, chars);
      SpellCons(a[0], a[1..] + b, chars);
      assert [a[0]] + (a[1..] + b) == a + b;
      assert [chars[a[0]]] + (Spell(a[1..], chars) + Spell(b, chars)) == Spell(a, chars) + Spell(b, chars);
    }
  }

  lemma SpellCons(d: nat, digits: seq<nat>, chars: string)
    requires d < |chars| && InRange(digits, |chars|)
    ensures InRange([d] + digits, |chars|) && Spell([d] + digits, chars) == [chars[d]] + Spell(digits, chars)
  {
    assert ([d] + digits)[1..] == digits;
  }

  lemma {:induction false} SpellIsInjective(a: seq<nat>, b: seq<nat>, chars: string)
    requires Distinct(chars)
    requires InRange(a, |chars|) && InRange(b, |chars|)
    requires Spell(a, chars) == Spell(b, chars)
    ensures a == b
    decreases |a|
  {
    if a != [] && b != [] {
      assert Spell(a, chars)[1..] == Spell(a[1..], chars);
      assert Spell(b, chars)[1..] == Spell(b[1..], chars);
      SpellIsInjective(a[1..], b[1..], chars);
    }
  }

  /** The characters still to come when `bytes` are left and `c` is carried. */
  function Text(bytes: seq<Byte>, c: Carry, chars: string): string
    requires 2 <= |chars| && Fits(c) && c.ent < |chars|
  {
    DigitsInRange(bytes, c, |chars|);
    Spell(Digits(bytes, c, |chars|), chars)
  }

  /** The password text of a byte string. */
  function Encoding(bytes: seq<Byte>, chars: string): string
    requires 2 <= |chars|
  {
    Text(bytes, Carry(0, 0), chars)
  }

  /** Different byte strings of one length never share a password. */
  lemma EncodingIsInjective(a: seq<Byte>, b: seq<Byte>, chars: string)
    requires 2 <= |chars| && Distinct(chars) && |a| == |b|
    requires Encoding(a, chars) == Encoding(b, chars)
    ensures a == b
  {
    var n := |chars|;
    DigitsInRange(a, Carry(0, 0), n);
    DigitsInRange(b, Carry(0, 0), n);
    SpellIsInjective(Digits(a, Carry(0, 0), n), Digits(b, Carry(0, 0), n), chars);
    DecodeDigits(a, Carry(0, 0), n);
    DecodeDigits(b, Carry(0, 0), n);
  }

  lemma {:induction false} SpellLength(digits: seq<nat>, chars: string)
    requires InRange(digits, |chars|)
    ensures |Spell(digits, chars)| == |digits|
  {
    if digits != [] {
      SpellLength(digits[1..], chars);
    }
  }

  /** All byte strings of one length give passwords of one length. */
  lemma EncodingLength(bytes: seq<Byte>, chars: string)
    requires 2 <= |chars|
    ensures |Encoding(bytes, chars)| == Length(|bytes|, 0, |chars|)
  {
    DigitsInRange(bytes, Carry(0, 0), |chars|);
    DigitsLength(bytes, Carry(0, 0), |chars|);
    SpellLength(Digits(bytes, Carry(0, 0), |chars|), chars);
  }

  // ---------- the program ----------

  /** The inner loop of encode: digits go out as long as `ent` decides them. */
  method GiveOut(val0: nat, ent0: nat, chars: string, ret0: string) returns (val: nat, ent: nat, ret: string)
    requires 2 <= |chars| && val0 <= ent0
    ensures Carry(val, ent) == Left(Carry(val0, ent0), |chars|) && val <= ent < |chars|
    ensures InRange(Emitted(Carry(val0, ent0), |chars|), |chars|)
    ensures ret == ret0 + Spell(Emitted(Carry(val0, ent0), |chars|), chars)
  {
    val, ent, ret := val0, ent0, ret0;
    var groupSize := |chars|;
    EmittedAreDigits(Carry(val, ent), groupSize);
    while ent >= groupSize
      invariant val <= ent && Left(Carry(val, ent), groupSize) == Left(Carry(val0, ent0), groupSize)
      invariant InRange(Emitted(Carry(val, ent), groupSize), groupSize)
      invariant ret + Spell(Emitted(Carry(val, ent), groupSize), chars)
             == ret0 + Spell(Emitted(Carry(val0, ent0), groupSize), chars)
      decreases ent
    {
      DivIsQuot(val, groupSize);
      DivIsQuot(ent, groupSize);
      QuotMonotone(val, ent, groupSize);
      EmittedAreDigits(Shrink(Carry(val, ent), groupSize), groupSize);
      SpellHead(Emitted(Carry(val, ent), groupSize), chars, ret);
      ret := ret + [chars[val % groupSize]];
      ent := ent / groupSize;
      val := val / groupSize;
    }
  }

  lemma SpellHead(digits: seq<nat>, chars: string, ret: string)
    requires digits != [] && InRange(digits, |chars|)
    ensures ret + Spell(digits, chars) == ret + [chars[digits[0]]] + Spell(digits[1..], chars)
  {
  }

  /** One byte of encode.  The low eight bits of `val * 256` are clear, so `|` adds. */
  method EncodeByte(val0: nat, ent0: nat, ch: Byte, chars: string, ret0: string, ghost more: seq<Byte>)
    returns (val: nat, ent: nat, ret: string)
    requires 2 <= |chars| && val0 <= ent0 < |chars|
    ensures val <= ent < |chars|
    ensures ret + Text(more, Carry(val, ent), chars) == ret0 + Text([ch] + more, Carry(val0, ent0), chars)
  {
    ghost var n := |chars|;
    ghost var a := Absorb(Carry(val0, ent0), ch);
    ghost var rest := Digits(more, Left(a, n), n);
    assert ([ch] + more)[1..] == more;
    LeftFits(a, n);
    DigitsInRange(more, Left(a, n), n);
    EmittedAreDigits(a, n);
    SpellAppends(Emitted(a, n), rest, chars);
    val := val0 * 256 + ch;
    ent := ent0 * 256 + 255;
    val, ent, ret := GiveOut(val, ent, chars, ret0);
    assert ret0 + (Spell(Emitted(a, n), chars) + Spell(rest, chars))
        == ret0 + Spell(Emitted(a, n), chars) + Spell(rest, chars);
  }

  /** The general branch of encode. */
  method Encode(bytes: seq<Byte>, chars: string) returns (ret: string)
    requires 2 <= |chars|
    ensures ret == Encoding(bytes, chars)
  {
    ret := "";
    var val: nat, ent: nat := 0, 0;
    assert ret + Encoding(bytes, chars) == Encoding(bytes, chars) && bytes[0..] == bytes;
    for i := 0 to |bytes|
      invariant val <= ent < |chars|
      invariant ret + Text(bytes[i..], Carry(val, ent), chars) == Encoding(bytes, chars)
    {
      assert bytes[i..] == [bytes[i]] + bytes[i + 1..];
      val, ent, ret := EncodeByte(val, ent, bytes[i], chars, ret, bytes[i + 1..]);
    }
    assert bytes[|bytes|..] == [];
    ghost var last := Digits([], Carry(val, ent), |chars|);
    assert ret + Spell(last, chars) == Encoding(bytes, chars);
    if ent > 0 {
      assert Spell([val], chars) == [chars[val]];
      ret := ret + [chars[val]];
    } else {
      assert ret + "" == ret;
    }
  }
}
