/** Datatypes shared by the models of the tools. */
module Common {

  datatype Option<+T> = None | Some(value: T)

  datatype Result<+T> = Ok(value: T) | Err

  lemma Associative<T>(a: seq<T>, b: seq<T>, c: seq<T>)
    ensures a + b + c == a + (b + c)
  {
  }

  type Byte = b: int | 0 <= b < 256

  const NUL := '\0'

  /** The index of the first `c` from `p` on, or `|s|`. */
  function FirstFrom<T(==)>(s: seq<T>, p: nat, c: T): (q: nat)
    requires p <= |s|
    ensures p <= q <= |s| && (q < |s| ==> s[q] == c)
    ensures c !in s[p..q] && forall i | p <= i < q :: s[i] != c
    decreases |s| - p
  {
    if p == |s| || s[p] == c then p else FirstFrom(s, p + 1, c)
  }

  /** The index of the first `c`, or `|s|`. */
  function First<T(==)>(s: seq<T>, c: T): (k: nat)
    ensures k <= |s| && c !in s[..k]
    ensures k < |s| ==> s[k] == c
  {
    FirstFrom(s, 0, c)
  }

  function Digits(n: nat): string {
    if n < 10 then [('0' as int + n) as char] else Digits(n / 10) + [('0' as int + n % 10) as char]
  }

  function Pow(b: int, e: nat): (r: int)
    requires 0 < b
    ensures 0 < r
  {
    if e == 0 then 1 else b * Pow(b, e - 1)
  }

  lemma {:induction false} DigitsLength(n: nat, d: nat)
    requires 0 < d && n < Pow(10, d)
    ensures |Digits(n)| <= d
    decreases d
  {
    assert Pow(10, 1) == 10;
    if n >= 10 {
      DigitsLength(n / 10, d - 1);
    }
  }

  /** `%i` and `%lld` */
  function Print(i: int): string {
    if i < 0 then "-" + Digits(-i) else Digits(i)
  }

  function Decimal(s: string, acc: nat): nat {
    if s != "" && '0' <= s[0] <= '9' then Decimal(s[1..], 10 * acc + (s[0] - '0') as nat) else acc
  }

  /** `atoi`, for values that fit. */
  function Atoi(s: string): int {
    if s == "" then 0
    else if s[0] == ' ' || '\t' <= s[0] <= '\r' then Atoi(s[1..])
    else if s[0] == '-' then 0 - Decimal(s[1..], 0)
    else if s[0] == '+' then Decimal(s[1..], 0)
    else Decimal(s, 0)
  }

  lemma {:induction false} DecimalAppends(s: string, c: char, acc: nat)
    requires '0' <= c <= '9' && forall d | d in s :: '0' <= d <= '9'
    ensures Decimal(s + [c], acc) == 10 * Decimal(s, acc) + (c - '0') as nat
    decreases |s|
  {
    if s == "" {
      assert s + [c] == [c];
    } else {
      assert s[0] in s && (s + [c])[1..] == s[1..] + [c];
      assert forall d | d in s[1..] :: d in s;
      DecimalAppends(s[1..], c, 10 * acc + (s[0] - '0') as nat);
    }
  }

  lemma {:induction false} DecimalDigits(n: nat)
    ensures Digits(n) != "" && Decimal(Digits(n), 0) == n && forall d | d in Digits(n) :: '0' <= d <= '9'
  {
    var c := ('0' as int + n % 10) as char;
    if n < 10 {
      DecimalAppends("", c, 0);
      assert Digits(n) == "" + [c];
    } else {
      DecimalDigits(n / 10);
      DecimalAppends(Digits(n / 10), c, 0);
    }
  }

  /** `atoi` undoes `%i`. */
  lemma AtoiPrint(i: int)
    ensures Atoi(Print(i)) == i
  {
    DecimalDigits(if i < 0 then -i else i);
    var d := Digits(if i < 0 then -i else i);
    assert d[0] in d;
    assert ("-" + d)[1..] == d;
  }
}
