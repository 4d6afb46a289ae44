/**
 * The JavaScript values the dashboard moves around: optional values,
 * record ids that are sometimes numbers and sometimes strings, the
 * decimal rendering `String(n)` of an integer, and the few string
 * operations the code uses (lower-casing, `includes`, `trim`).
 */
module Values {

  datatype Option<+T> = None | Some(value: T)

  /** A record id as JSON carries it: `Date.now()` gives a number, the
      table create handler and URL parameters give strings. */
  datatype Id = Num(n: int) | Str(s: string)

  function DigitChar(d: nat): (c: char)
    requires d < 10
    ensures '0' <= c <= '9'
  {
    "0123456789"[d]
  }

  /** Decimal digits of a natural number, most significant first. */
  function NatToString(n: nat): (s: string)
    ensures |s| >= 1
    ensures forall i :: 0 <= i < |s| ==> '0' <= s[i] <= '9'
  {
    if n < 10 then [DigitChar(n)] else NatToString(n / 10) + [DigitChar(n % 10)]
  }

  /** `String(n)` for an integer-valued JavaScript number. */
  function IntToString(n: int): (s: string)
    ensures |s| >= 1
    ensures s[0] == '-' <==> n < 0
    ensures forall i :: (if n < 0 then 1 else 0) <= i < |s| ==> '0' <= s[i] <= '9'
  {
    if n < 0 then "-" + NatToString(-n) else NatToString(n)
  }

  lemma SingleDigit(n: nat)
    ensures |NatToString(n)| == 1 <==> n < 10
    ensures n < 10 ==> NatToString(n) == [DigitChar(n)]
  {
    if n >= 10 {
      assert |NatToString(n)| == |NatToString(n / 10)| + 1;
    }
  }

  /** `String(id)`: the form every lookup in the backend compares. A string
      id is itself; a number is its decimal text, signed when negative. */
  function ToStr(id: Id): (r: string)
    ensures id.Str? ==> r == id.s
    ensures id.Num? ==> |r| >= 1 && (r[0] == '-' <==> id.n < 0)
    ensures id.Num? ==> forall i :: 0 < i < |r| ==> '0' <= r[i] <= '9'
  {
    match id
    case Num(n) => IntToString(n)
    case Str(s) => s
  }

  /** `String(a) === String(b)`: between two numbers or two strings it is
      `===`; only a number and a string can be loosely but not strictly equal. */
  predicate LooseEq(a: Id, b: Id): (r: bool)
    ensures a == b ==> r
    ensures a.Num? == b.Num? ==> (r <==> a == b)
  {
    NumbersCompareByValue(a, b);
    ToStr(a) == ToStr(b)
  }

  /** Two numbers with the same decimal text are the same number. */
  lemma NumbersCompareByValue(a: Id, b: Id)
    ensures a.Num? && b.Num? && ToStr(a) == ToStr(b) ==> a == b
  {
    if a.Num? && b.Num? && ToStr(a) == ToStr(b) {
      IntToStringInjective(a.n, b.n);
    }
  }

  lemma IntToStringInjective(m: int, n: int)
    requires IntToString(m) == IntToString(n)
    ensures m == n
  {
    if m < 0 {
      assert n < 0;
      var x, y := IntToString(m), IntToString(n);
      assert NatToString(-m) == x[1..];
      assert NatToString(-n) == y[1..];
      NatToStringInjective(-m, -n);
    } else {
      assert n >= 0;
      NatToStringInjective(m, n);
    }
  }

  lemma {:induction false} NatToStringInjective(m: nat, n: nat)
    requires NatToString(m) == NatToString(n)
    ensures m == n
  {
    SingleDigit(m);
    SingleDigit(n);
    if m >= 10 && n >= 10 {
      var x, y := NatToString(m), NatToString(n);
      assert NatToString(m / 10) == x[..|x| - 1];
      assert NatToString(n / 10) == y[..|y| - 1];
      NatToStringInjective(m / 10, n / 10);
      DigitInjective(m % 10, n % 10);
    } else if m < 10 && n < 10 {
      DigitInjective(m, n);
    }
  }

  lemma DigitInjective(d: nat, e: nat)
    requires d < 10 && e < 10 && DigitChar(d) == DigitChar(e)
    ensures d == e
  {
  }


  /** Stringifying a stringified id changes nothing more. */
  lemma ToStrIdempotent(id: Id)
    ensures ToStr(Str(ToStr(id))) == ToStr(id)
    ensures LooseEq(Str(ToStr(id)), id)
  {
  }

  /** A number and its decimal string are loosely but not strictly equal. */
  lemma NumberAndItsString(n: int)
    ensures LooseEq(Num(n), Str(IntToString(n)))
    ensures Num(n) != Str(IntToString(n))
  {
  }

  function LowerChar(c: char): (d: char)
    ensures 'A' <= c <= 'Z' ==> 'a' <= d <= 'z'
    ensures !('A' <= c <= 'Z') ==> d == c
  {
    if 'A' <= c <= 'Z' then (c as int + 32) as char else c
  }

  /** `s.toLowerCase()` restricted to ASCII letters. */
  function Lower(s: string): (r: string)
    ensures |r| == |s|
    ensures forall i :: 0 <= i < |s| ==> r[i] == LowerChar(s[i])
  {
    if s == [] then [] else [LowerChar(s[0])] + Lower(s[1..])
  }

  /** `s.includes(t)`: `t` occurs as a contiguous piece of `s`. */
  predicate Contains(s: string, t: string)
    decreases |s|
  {
    t <= s || (|s| > 0 && Contains(s[1..], t))
  }

  /** `t` occurs in `s` starting at position `i`. */
  predicate OccursAt(s: string, t: string, i: nat)
  {
    i + |t| <= |s| && s[i..i + |t|] == t
  }

  lemma {:induction false} ContainsAt(s: string, t: string, i: nat)
    requires OccursAt(s, t, i)
    ensures Contains(s, t)
  {
    if i > 0 {
      assert s[1..][i - 1..i - 1 + |t|] == t;
      ContainsAt(s[1..], t, i - 1);
    }
  }

  lemma {:induction false} ContainsWitness(s: string, t: string) returns (i: nat)
    requires Contains(s, t)
    ensures OccursAt(s, t, i)
  {
    if t <= s {
      i := 0;
    } else {
      var j := ContainsWitness(s[1..], t);
      i := j + 1;
      assert s[i..i + |t|] == s[1..][j..j + |t|];
    }
  }

  /** The empty string occurs in every string: `s.includes('')` is true. */
  lemma EmptyContained(s: string)
    ensures Contains(s, "")
  {
  }

  /** `Contains` is exactly "occurs at some position". */
  lemma ContainsIff(s: string, t: string)
    ensures Contains(s, t) <==> exists i: nat :: OccursAt(s, t, i)
  {
    if Contains(s, t) {
      var i := ContainsWitness(s, t);
    }
    if exists i: nat :: OccursAt(s, t, i) {
      var i: nat :| OccursAt(s, t, i);
      ContainsAt(s, t, i);
    }
  }

  predicate IsWhitespace(c: char)
  {
    c == ' ' || c == '\t' || c == '\n' || c == '\r' || c == 11 as char || c == 12 as char
  }

  function TrimStart(s: string): (r: string)
    ensures |r| <= |s| && r == s[|s| - |r|..]
    ensures r != [] ==> !IsWhitespace(r[0])
  {
    if s != [] && IsWhitespace(s[0]) then TrimStart(s[1..]) else s
  }

  function TrimEnd(s: string): (r: string)
    ensures |r| <= |s| && r == s[..|r|]
    ensures r != [] ==> !IsWhitespace(r[|r| - 1])
  {
    if s != [] && IsWhitespace(s[|s| - 1]) then TrimEnd(s[..|s| - 1]) else s
  }

  /** `s.trim()`: leading and trailing whitespace removed. */
  function Trim(s: string): string
  {
    TrimEnd(TrimStart(s))
  }

  /** `s.trim()` is non-empty exactly when `s` holds a non-whitespace character. */
  lemma {:induction false} TrimNonEmptyIff(s: string)
    ensures Trim(s) != [] <==> exists i :: 0 <= i < |s| && !IsWhitespace(s[i])
  {
    if s == [] {
    } else if IsWhitespace(s[0]) {
      TrimNonEmptyIff(s[1..]);
      assert forall i :: 1 <= i < |s| ==> s[i] == s[1..][i - 1];
    } else {
      TrimEndKeepsNonWhite(s, 0);
    }
  }

  lemma {:induction false} TrimEndKeepsNonWhite(s: string, i: nat)
    requires i < |s| && !IsWhitespace(s[i])
    ensures |TrimEnd(s)| > i
  {
    if IsWhitespace(s[|s| - 1]) {
      TrimEndKeepsNonWhite(s[..|s| - 1], i);
    }
  }
}
