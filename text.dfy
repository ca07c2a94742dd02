/** The string and integer-conversion library behaviour the controller relies on:
    splitting a query value on a separator (Go's strings.Split with a one-character
    separator), decimal formatting of shard indexes (strconv.Itoa) and decimal parsing
    of the timeout field (strconv.Atoi on a 64-bit platform, whose error is ignored). */
module Text {

  // ---------------------------------------------------------------------------
  // Splitting on a separator

  /** The fragments of `s` between occurrences of `sep`, in order. Like Go's
      strings.Split with a non-empty separator, the empty string yields one empty
      fragment and a trailing separator yields a trailing empty fragment. */
  function Split(s: string, sep: char): (parts: seq<string>)
    ensures |parts| >= 1
    decreases |s|
  {
    if s == [] then [""]
    else
      var rest := Split(s[1..], sep);
      if s[0] == sep then [""] + rest
      else [[s[0]] + rest[0]] + rest[1..]
  }

  /** Glues non-empty lists of fragments back together with `sep` between them. */
  function Join(parts: seq<string>, sep: char): string
    decreases |parts|
  {
    if parts == [] then ""
    else if |parts| == 1 then parts[0]
    else parts[0] + [sep] + Join(parts[1..], sep)
  }

  /** Number of occurrences of `c` in `s`. */
  function Count(s: string, c: char): nat
    decreases |s|
  {
    if s == [] then 0 else (if s[0] == c then 1 else 0) + Count(s[1..], c)
  }

  /** No fragment produced by Split contains the separator. */
  lemma {:induction false} SplitFragmentsFree(s: string, sep: char)
    ensures forall k :: 0 <= k < |Split(s, sep)| ==> sep !in Split(s, sep)[k]
    decreases |s|
  {
    if s != [] {
      SplitFragmentsFree(s[1..], sep);
      var rest := Split(s[1..], sep);
      if s[0] != sep {
        assert sep !in rest[0];
        assert sep !in [s[0]] + rest[0];
      }
    }
  }

  /** Split yields one more fragment than there are separators. */
  lemma {:induction false} SplitLength(s: string, sep: char)
    ensures |Split(s, sep)| == Count(s, sep) + 1
    decreases |s|
  {
    if s != [] {
      SplitLength(s[1..], sep);
    }
  }

  /** Joining the fragments of a split restores the original string. */
  lemma {:induction false} JoinSplit(s: string, sep: char)
    ensures Join(Split(s, sep), sep) == s
    decreases |s|
  {
    if s != [] {
      JoinSplit(s[1..], sep);
      var rest := Split(s[1..], sep);
      if s[0] == sep {
        assert Split(s, sep) == [""] + rest;
        assert ([""] + rest)[1..] == rest;
        assert s == [sep] + s[1..];
      } else {
        var parts := Split(s, sep);
        assert parts[0] == [s[0]] + rest[0];
        if |rest| == 1 {
          assert Join(rest, sep) == rest[0];
        } else {
          assert parts[1..] == rest[1..];
          assert Join(rest, sep) == rest[0] + [sep] + Join(rest[1..], sep);
        }
      }
    }
  }

  /** Splitting a join of separator-free fragments gives the fragments back. */
  lemma {:induction false} SplitJoin(parts: seq<string>, sep: char)
    requires |parts| >= 1
    requires forall k :: 0 <= k < |parts| ==> sep !in parts[k]
    ensures Split(Join(parts, sep), sep) == parts
    decreases |parts|, |parts[0]|
  {
    if parts[0] == [] {
      if |parts| == 1 {
      } else {
        var tail := Join(parts[1..], sep);
        assert Join(parts, sep) == [sep] + tail;
        SplitJoin(parts[1..], sep);
        assert ([sep] + tail)[1..] == tail;
        assert parts == [""] + parts[1..];
      }
    } else {
      var c := parts[0][0];
      assert c != sep by { assert c in parts[0]; }
      var shorter := [parts[0][1..]] + parts[1..];
      assert forall k :: 0 <= k < |shorter| ==> sep !in shorter[k] by {
        forall k | 0 <= k < |shorter| ensures sep !in shorter[k] {
          if k == 0 {
            assert forall x :: x in parts[0][1..] ==> x in parts[0];
          } else {
            assert shorter[k] == parts[k];
          }
        }
      }
      SplitJoin(shorter, sep);
      assert shorter[1..] == parts[1..];
      var j := Join(parts, sep);
      assert j == [c] + Join(shorter, sep) by {
        if |parts| == 1 {
          assert parts[0] == [c] + parts[0][1..];
        } else {
          assert parts[0] == [c] + parts[0][1..];
          assert Join(shorter, sep) == parts[0][1..] + [sep] + Join(parts[1..], sep);
        }
      }
      assert j[1..] == Join(shorter, sep);
      var rest := Split(Join(shorter, sep), sep);
      assert Split(j, sep) == [[c] + rest[0]] + rest[1..];
      assert [c] + parts[0][1..] == parts[0];
    }
  }

  /** Join of a concatenation of two non-empty lists of fragments. */
  lemma {:induction false} JoinAppend(a: seq<string>, b: seq<string>, sep: char)
    requires |a| >= 1 && |b| >= 1
    ensures Join(a + b, sep) == Join(a, sep) + [sep] + Join(b, sep)
    decreases |a|
  {
    if |a| == 1 {
      assert (a + b)[1..] == b;
    } else {
      assert (a + b)[1..] == a[1..] + b;
      JoinAppend(a[1..], b, sep);
    }
  }

  // ---------------------------------------------------------------------------
  // Decimal formatting and parsing

  /** The largest and smallest values of Go's `int` on a 64-bit platform. */
  const MaxInt: int := 0x7fff_ffff_ffff_ffff
  const MinInt: int := -0x8000_0000_0000_0000

  predicate IsDigit(c: char) {
    '0' <= c <= '9'
  }

  predicate AllDigits(s: string) {
    forall k :: 0 <= k < |s| ==> IsDigit(s[k])
  }

  function DigitChar(d: nat): (c: char)
    requires d < 10
    ensures IsDigit(c)
  {
    (d + '0' as int) as char
  }

  function DigitOf(c: char): (d: nat)
    requires IsDigit(c)
    ensures d < 10
  {
    (c as int - '0' as int)
  }

  /** The value of a string of decimal digits, most significant first. */
  function DigitsValue(s: string): nat
    requires AllDigits(s)
    decreases |s|
  {
    if s == [] then 0 else DigitsValue(s[..|s| - 1]) * 10 + DigitOf(s[|s| - 1])
  }

  /** strconv.Itoa for a non-negative int: decimal digits, with a leading zero
      only for zero itself. */
  function Itoa(n: nat): (s: string)
    ensures |s| >= 1 && AllDigits(s)
    ensures s[0] == '0' <==> n == 0
    decreases n
  {
    if n < 10 then [DigitChar(n)] else Itoa(n / 10) + [DigitChar(n % 10)]
  }

  /** The largest value of a 64-bit unsigned integer, where strconv.ParseUint
      stops scanning with a range error. */
  const MaxUint64: int := 0xffff_ffff_ffff_ffff

  /** The longest prefix of `s` made of decimal digits. */
  function DigitPrefix(s: string): (d: string)
    ensures AllDigits(d) && d <= s
    ensures |d| < |s| ==> !IsDigit(s[|d|])
    decreases |s|
  {
    if s == [] || !IsDigit(s[0]) then [] else [s[0]] + DigitPrefix(s[1..])
  }

  /** strconv.Atoi with its error ignored, as in `timeout, _ = strconv.Atoi(…)`.
      After an optional sign, the digits are scanned left to right: once the value
      read exceeds the 64-bit unsigned range the scan stops with a range error and
      the result is the extreme value of the sign, whatever follows; otherwise a
      non-digit (or no digit at all) is a syntax error and gives 0, and a run of
      digits gives its value clamped to the 64-bit signed range. */
  function Atoi(s: string): (n: int)
    ensures MinInt <= n <= MaxInt
  {
    if s == [] then 0
    else
      var body := if s[0] == '-' || s[0] == '+' then s[1..] else s;
      var digits := DigitPrefix(body);
      var v: int := DigitsValue(digits);
      if body == [] then 0
      else if v > MaxUint64 then (if s[0] == '-' then MinInt else MaxInt)
      else if digits != body then 0
      else if s[0] == '-' then (if -v < MinInt then MinInt else -v)
      else (if v > MaxInt then MaxInt else v)
  }

  /** A run of digits is its own digit prefix. */
  lemma {:induction false} DigitPrefixAll(s: string)
    requires AllDigits(s)
    ensures DigitPrefix(s) == s
    decreases |s|
  {
    if s != [] {
      DigitPrefixAll(s[1..]);
    }
  }

  /** The digit prefix of digits followed by more text extends those digits. */
  lemma {:induction false} DigitPrefixAppend(d: string, rest: string)
    requires AllDigits(d)
    ensures DigitPrefix(d + rest) == d + DigitPrefix(rest)
    decreases |d|
  {
    if d != [] {
      assert (d + rest)[0] == d[0] && IsDigit(d[0]);
      assert (d + rest)[1..] == d[1..] + rest;
      DigitPrefixAppend(d[1..], rest);
      assert DigitPrefix(d + rest) == [d[0]] + DigitPrefix(d[1..] + rest);
      assert [d[0]] + (d[1..] + DigitPrefix(rest)) == d + DigitPrefix(rest);
    } else {
      assert d + rest == rest;
    }
  }

  /** Appending digits never decreases the value read so far. */
  lemma {:induction false} DigitsValueGrows(a: string, b: string)
    requires AllDigits(a) && AllDigits(b)
    ensures DigitsValue(a + b) >= DigitsValue(a)
    decreases |b|
  {
    if b == [] {
      assert a + b == a;
    } else {
      var b' := b[..|b| - 1];
      assert (a + b)[..|a + b| - 1] == a + b';
      DigitsValueGrows(a, b');
    }
  }

  /** Digits whose value exceeds the 64-bit unsigned range end the scan: the
      result is the signed extreme, whatever text follows them. */
  lemma AtoiOverflowFirst(d: string, rest: string)
    requires AllDigits(d) && DigitsValue(d) > MaxUint64
    ensures Atoi(d + rest) == MaxInt
    ensures Atoi(['+'] + (d + rest)) == MaxInt
    ensures Atoi(['-'] + (d + rest)) == MinInt
  {
    assert d != [];
    var body := d + rest;
    DigitPrefixAppend(d, rest);
    DigitsValueGrows(d, DigitPrefix(rest));
    assert DigitsValue(DigitPrefix(body)) > MaxUint64;
    assert body[0] == d[0] && IsDigit(d[0]);
    AtoiOverflowBody(body, body);
    AtoiOverflowBody(['+'] + body, body);
    AtoiOverflowBody(['-'] + body, body);
  }

  /** One step of AtoiOverflowFirst: an overflowing digit prefix after the sign. */
  lemma AtoiOverflowBody(s: string, body: string)
    requires s != [] && body == (if s[0] == '-' || s[0] == '+' then s[1..] else s)
    requires DigitsValue(DigitPrefix(body)) > MaxUint64
    ensures Atoi(s) == (if s[0] == '-' then MinInt else MaxInt)
  {
    assert body != [];
  }

  /** Itoa produces only digits, and their value is the number formatted. */
  lemma {:induction false} ItoaDigits(n: nat)
    ensures |Itoa(n)| >= 1 && AllDigits(Itoa(n)) && DigitsValue(Itoa(n)) == n
    decreases n
  {
    if n >= 10 {
      ItoaDigits(n / 10);
      var s := Itoa(n);
      assert s[..|s| - 1] == Itoa(n / 10);
      assert DigitOf(s[|s| - 1]) == n % 10;
    }
  }

  /** Parsing a formatted non-negative int gives it back. */
  lemma AtoiItoa(n: nat)
    requires n <= MaxInt
    ensures Atoi(Itoa(n)) == n
  {
    ItoaDigits(n);
    DigitPrefixAll(Itoa(n));
  }

  /** Distinct numbers format differently. */
  lemma ItoaInjective(m: nat, n: nat)
    requires Itoa(m) == Itoa(n)
    ensures m == n
  {
    ItoaDigits(m);
    ItoaDigits(n);
  }

  /** A string that is not a signed run of digits parses as 0, and the empty
      string does too. */
  lemma AtoiRejects(s: string)
    requires forall k :: 0 <= k < |s| ==> !IsDigit(s[k])
    ensures Atoi(s) == 0
  {
    if s != [] && (s[0] == '-' || s[0] == '+') && |s| > 1 {
      assert !IsDigit(s[1]);
      assert !AllDigits(s[1..]);
    }
    if s != [] && !(s[0] == '-' || s[0] == '+') {
      assert !IsDigit(s[0]);
    }
  }
}
