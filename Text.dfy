/**
 * The few .NET string and number primitives the generator relies on, with their
 * ordinal (culture-independent) behaviour: `char.ToLower` on ASCII, `Contains`,
 * `Split`, `Replace`, `int.TryParse`, `int.ToString` and unchecked 32-bit addition.
 */
module Text {
  import opened Wrappers

  const MinInt32: int := -0x8000_0000
  const MaxInt32: int := 0x7fff_ffff

  /** `char.ToLower`, restricted to ASCII letters. */
  function ToLowerAscii(c: char): (r: char)
    ensures 'A' <= c <= 'Z' ==> r as int == c as int + 32
    ensures !('A' <= c <= 'Z') ==> r == c
  {
    if 'A' <= c <= 'Z' then (c as int + 32) as char else c
  }

  /** `s` occurs in `t` starting at position `i`. */
  predicate OccursAt(t: string, s: string, i: nat) {
    i + |s| <= |t| && t[i..i + |s|] == s
  }

  /** Ordinal `string.Contains`. */
  predicate Contains(t: string, s: string) {
    exists i: nat | i <= |t| - |s| :: OccursAt(t, s, i)
  }

  /** `t.Split(sep)`: the pieces between the non-overlapping occurrences of `sep`, found left to right. */
  function SplitOn(t: string, sep: string): (parts: seq<string>)
    requires |sep| > 0
    ensures |parts| >= 1
    decreases |t|
  {
    if |t| < |sep| then [t]
    else if t[..|sep|] == sep then [""] + SplitOn(t[|sep|..], sep)
    else
      var rest := SplitOn(t[1..], sep);
      [[t[0]] + rest[0]] + rest[1..]
  }

  /** `t.Split(sep, count)`: as `SplitOn`, but at most `count` pieces; the last one keeps the remainder. */
  function SplitN(t: string, sep: string, count: nat): (parts: seq<string>)
    requires |sep| > 0 && count >= 1
    ensures 1 <= |parts| <= count
    decreases |t|
  {
    if count == 1 || |t| < |sep| then [t]
    else if t[..|sep|] == sep then [""] + SplitN(t[|sep|..], sep, count - 1)
    else
      var rest := SplitN(t[1..], sep, count);
      [[t[0]] + rest[0]] + rest[1..]
  }

  /** A string without a dot splits into itself alone. */
  lemma {:induction false} SplitNoDot(t: string, count: nat)
    requires '.' !in t && count >= 1
    ensures SplitOn(t, ".") == [t] && SplitN(t, ".", count) == [t]
    decreases |t|
  {
    if |t| >= 1 {
      assert t[..1] != "." by { assert t[0] in t; }
      assert '.' !in t[1..] by {
        forall i | 0 <= i < |t[1..]| ensures t[1..][i] != '.' { assert t[1..][i] == t[i + 1]; }
      }
      SplitNoDot(t[1..], count);
      assert [t[0]] + t[1..] == t;
    }
  }

  /** Splitting `x.rest` at dots, where `x` has no dot, yields `x` and then the pieces of `rest`. */
  lemma {:induction false} SplitOnJoin(x: string, rest: string)
    requires '.' !in x
    ensures SplitOn(x + "." + rest, ".") == [x] + SplitOn(rest, ".")
    decreases |x|
  {
    var t := x + "." + rest;
    if x == [] {
      assert t == "." + rest && t[..1] == "." && t[1..] == rest;
    } else {
      assert t[..1] != "." by { assert t[0] == x[0] && x[0] in x; }
      assert '.' !in x[1..] by {
        forall i | 0 <= i < |x[1..]| ensures x[1..][i] != '.' { assert x[1..][i] == x[i + 1]; }
      }
      assert t[1..] == x[1..] + "." + rest;
      SplitOnJoin(x[1..], rest);
      assert [t[0]] + x[1..] == x;
    }
  }

  /** As `SplitOnJoin`, for a split into at most `count` pieces. */
  lemma {:induction false} SplitNJoin(x: string, rest: string, count: nat)
    requires '.' !in x && count >= 2
    ensures SplitN(x + "." + rest, ".", count) == [x] + SplitN(rest, ".", count - 1)
    decreases |x|
  {
    var t := x + "." + rest;
    if x == [] {
      assert t == "." + rest && t[..1] == "." && t[1..] == rest;
    } else {
      assert t[..1] != "." by { assert t[0] == x[0] && x[0] in x; }
      assert '.' !in x[1..] by {
        forall i | 0 <= i < |x[1..]| ensures x[1..][i] != '.' { assert x[1..][i] == x[i + 1]; }
      }
      assert t[1..] == x[1..] + "." + rest;
      SplitNJoin(x[1..], rest, count);
      assert [t[0]] + x[1..] == x;
    }
  }

  /** A split into at most `count` pieces has as many pieces as the full split allows. */
  lemma {:induction false} SplitNCount(t: string, sep: string, count: nat)
    requires |sep| > 0 && count >= 1
    ensures |SplitN(t, sep, count)| == if count < |SplitOn(t, sep)| then count else |SplitOn(t, sep)|
    decreases |t|
  {
    if count == 1 || |t| < |sep| {
    } else if t[..|sep|] == sep {
      SplitNCount(t[|sep|..], sep, count - 1);
    } else {
      SplitNCount(t[1..], sep, count);
    }
  }

  /** When the full split has more than `count` pieces, the last of `count` pieces still holds a dot. */
  lemma {:induction false} SplitNLast(t: string, count: nat)
    requires 1 <= count < |SplitOn(t, ".")|
    ensures |SplitN(t, ".", count)| == count
    ensures '.' in SplitN(t, ".", count)[count - 1]
    decreases |t|
  {
    SplitNCount(t, ".", count);
    if count == 1 {
      if '.' !in t { SplitNoDot(t, 1); }
    } else if |t| < 1 {
    } else if t[..1] == "." {
      SplitNLast(t[1..], count - 1);
    } else {
      SplitNCount(t[1..], ".", count);
      SplitNLast(t[1..], count);
    }
  }

  /** Ordinal `t.Replace(pattern, replacement)`: every non-overlapping occurrence, left to right. */
  function ReplaceAll(t: string, pattern: string, replacement: string): string
    requires |pattern| > 0
    decreases |t|
  {
    if |t| < |pattern| then t
    else if t[..|pattern|] == pattern then replacement + ReplaceAll(t[|pattern|..], pattern, replacement)
    else [t[0]] + ReplaceAll(t[1..], pattern, replacement)
  }

  lemma {:induction false} ReplaceAbsent(t: string, pattern: string, replacement: string)
    requires |pattern| > 0 && !Contains(t, pattern)
    ensures ReplaceAll(t, pattern, replacement) == t
    decreases |t|
  {
    if |t| >= |pattern| {
      assert !OccursAt(t, pattern, 0);
      assert !Contains(t[1..], pattern) by {
        forall i: nat | i <= |t[1..]| - |pattern| ensures !OccursAt(t[1..], pattern, i) {
          assert t[1..][i..i + |pattern|] == t[i + 1..i + 1 + |pattern|];
          assert !OccursAt(t, pattern, i + 1);
        }
      }
      ReplaceAbsent(t[1..], pattern, replacement);
    }
  }

  predicate IsDigit(c: char) {
    '0' <= c <= '9'
  }

  predicate AllDigits(s: string) {
    forall i | 0 <= i < |s| :: IsDigit(s[i])
  }

  /** The characters `int.TryParse` skips before and after the number. */
  predicate IsWhite(c: char) {
    c == ' ' || '\t' <= c <= '\r'
  }

  /** The value of a string of decimal digits, most significant first. */
  function DigitsValue(s: string): nat
    requires AllDigits(s)
  {
    if s == [] then 0 else DigitsValue(s[..|s| - 1]) * 10 + (s[|s| - 1] as int - '0' as int)
  }

  function DigitChar(d: nat): (c: char)
    requires d < 10
    ensures IsDigit(c) && c as int - '0' as int == d
  {
    ('0' as int + d) as char
  }

  /** Decimal digits of a natural number, without leading zeros. */
  function NatToString(n: nat): string
  {
    if n < 10 then [DigitChar(n)] else NatToString(n / 10) + [DigitChar(n % 10)]
  }

  lemma {:induction false} NatToStringDigits(n: nat)
    ensures |NatToString(n)| > 0 && AllDigits(NatToString(n))
    ensures DigitsValue(NatToString(n)) == n
  {
    if n >= 10 {
      NatToStringDigits(n / 10);
      var s := NatToString(n);
      assert s[..|s| - 1] == NatToString(n / 10);
    }
  }

  /** `int.ToString()` with "-" as the negative sign. */
  function FormatInt(n: int): string
  {
    if n < 0 then "-" + NatToString(-n) else NatToString(n)
  }

  /** `s` without its leading white space. */
  function TrimStart(s: string): (r: string)
    ensures |r| <= |s| && (|r| > 0 ==> !IsWhite(r[0]))
  {
    if |s| > 0 && IsWhite(s[0]) then TrimStart(s[1..]) else s
  }

  /** `s` without its trailing white space. */
  function TrimEnd(s: string): (r: string)
    ensures |r| <= |s|
  {
    if |s| > 0 && IsWhite(s[|s| - 1]) then TrimEnd(s[..|s| - 1]) else s
  }

  /**
   * `int.TryParse(s, out v)` with the default number style: optional white space,
   * an optional leading sign, at least one ASCII digit, optional white space, and a
   * value that fits in 32 bits; `None` is the `false` return.
   */
  function TryParseInt32(s: string): (r: Option<int>)
    ensures r.Some? ==> MinInt32 <= r.value <= MaxInt32
  {
    var t := TrimEnd(TrimStart(s));
    var signed := |t| > 0 && (t[0] == '-' || t[0] == '+');
    var body := if signed then t[1..] else t;
    if |body| == 0 || !AllDigits(body) then None
    else
      var magnitude: int := DigitsValue(body);
      var v := if signed && t[0] == '-' then -magnitude else magnitude;
      if MinInt32 <= v <= MaxInt32 then Some(v) else None
  }

  lemma NoWhiteInDigits(s: string)
    requires AllDigits(s)
    ensures TrimStart(s) == s && TrimEnd(s) == s
  {
  }

  /** `int.ToString` followed by `int.TryParse` gives back every 32-bit value. */
  lemma {:induction false} ParseFormat(n: int)
    requires MinInt32 <= n <= MaxInt32
    ensures TryParseInt32(FormatInt(n)) == Some(n)
  {
    var m: nat := if n < 0 then -n else n;
    NatToStringDigits(m);
    var digits := NatToString(m);
    if n < 0 {
      var s := "-" + digits;
      assert TrimStart(s) == s;
      assert s[|s| - 1] == digits[|digits| - 1];
      assert TrimEnd(s) == s;
      assert s[1..] == digits;
    } else {
      NoWhiteInDigits(digits);
    }
  }

  /** A formatted number holds only digits and possibly a leading "-". */
  lemma FormatIntHasNo(n: int, c: char)
    requires c != '-' && !IsDigit(c)
    ensures c !in FormatInt(n)
  {
    var m: nat := if n < 0 then -n else n;
    NatToStringDigits(m);
    assert FormatInt(n) == (if n < 0 then "-" else "") + NatToString(m);
  }

  lemma {:induction false} TrimStartKeeps(s: string, c: char)
    requires c in s && !IsWhite(c)
    ensures c in TrimStart(s)
    decreases |s|
  {
    if |s| > 0 && IsWhite(s[0]) {
      assert c in s[1..] by { var i :| 0 <= i < |s| && s[i] == c; assert i > 0 && s[1..][i - 1] == c; }
      TrimStartKeeps(s[1..], c);
    }
  }

  lemma {:induction false} TrimEndKeeps(s: string, c: char)
    requires c in s && !IsWhite(c)
    ensures c in TrimEnd(s)
    decreases |s|
  {
    if |s| > 0 && IsWhite(s[|s| - 1]) {
      assert c in s[..|s| - 1] by { var i :| 0 <= i < |s| && s[i] == c; assert i < |s| - 1 && s[..|s| - 1][i] == c; }
      TrimEndKeeps(s[..|s| - 1], c);
    }
  }

  /** A character that is neither white space, a sign nor a digit makes `int.TryParse` fail. */
  lemma TryParseRejects(s: string, c: char)
    requires c in s && !IsWhite(c) && !IsDigit(c) && c != '-' && c != '+'
    ensures TryParseInt32(s) == None
  {
    TrimStartKeeps(s, c);
    TrimEndKeeps(TrimStart(s), c);
    var t := TrimEnd(TrimStart(s));
    var i :| 0 <= i < |t| && t[i] == c;
    if |t| > 0 && (t[0] == '-' || t[0] == '+') {
      assert t[1..][i - 1] == c;
    }
  }

  /** Unchecked 32-bit two's-complement wrap-around of a mathematical integer. */
  function Wrap32(n: int): (r: int)
    ensures MinInt32 <= r <= MaxInt32
    ensures MinInt32 <= n <= MaxInt32 ==> r == n
    ensures (r - n) % 0x1_0000_0000 == 0
  {
    (n - MinInt32) % 0x1_0000_0000 + MinInt32
  }

  /** Ordinal string order (`string.CompareOrdinal(a, b) < 0`). */
  predicate OrdinalLess(a: string, b: string)
  {
    if |a| == 0 then |b| > 0
    else if |b| == 0 then false
    else if a[0] != b[0] then a[0] < b[0]
    else OrdinalLess(a[1..], b[1..])
  }

  /** No string is ordinally below itself. */
  lemma {:induction false} OrdinalIrreflexive(a: string)
    ensures !OrdinalLess(a, a)
    decreases |a|
  {
    if |a| > 0 {
      OrdinalIrreflexive(a[1..]);
    }
  }

  /** Ordinal order is transitive. */
  lemma {:induction false} OrdinalTransitive(a: string, b: string, c: string)
    ensures OrdinalLess(a, b) && OrdinalLess(b, c) ==> OrdinalLess(a, c)
    decreases |a|
  {
    if |a| > 0 && |b| > 0 && |c| > 0 && a[0] == b[0] && b[0] == c[0] {
      OrdinalTransitive(a[1..], b[1..], c[1..]);
    }
  }
}
