/** The parts of Go's `strings` and `fmt` packages that the core relies on:
    splitting on a one-character separator, joining, replacing a character,
    and formatting an integer with `%d`. */
module GoStrings {

  /** strings.Split(s, string(sep)): the maximal pieces of `s` between
      occurrences of `sep`; an empty `s` gives one empty piece. */
  function Split(s: string, sep: char): (pieces: seq<string>)
    ensures |pieces| >= 1
    ensures forall i :: 0 <= i < |pieces| ==> sep !in pieces[i]
  {
    if s == [] then [""]
    else if s[0] == sep then [""] + Split(s[1..], sep)
    else
      var rest := Split(s[1..], sep);
      [[s[0]] + rest[0]] + rest[1..]
  }

  /** strings.Join(pieces, string(sep)). */
  function Join(pieces: seq<string>, sep: string): string {
    if |pieces| == 0 then ""
    else if |pieces| == 1 then pieces[0]
    else pieces[0] + sep + Join(pieces[1..], sep)
  }

  /** Joining the pieces again gives back the split string. */
  lemma {:induction false} JoinSplit(s: string, sep: char)
    ensures Join(Split(s, sep), [sep]) == s
  {
    if s == [] {
    } else if s[0] == sep {
      JoinSplit(s[1..], sep);
      var rest := Split(s[1..], sep);
      assert Split(s, sep) == [""] + rest;
      assert Join([""] + rest, [sep]) == "" + [sep] + Join(rest, [sep]);
    } else {
      JoinSplit(s[1..], sep);
      var rest := Split(s[1..], sep);
      var pieces := [[s[0]] + rest[0]] + rest[1..];
      assert Split(s, sep) == pieces;
      if |rest| == 1 {
        assert Join(pieces, [sep]) == [s[0]] + rest[0];
      } else {
        assert pieces[1..] == rest[1..];
        assert Join(rest, [sep]) == rest[0] + [sep] + Join(rest[1..], [sep]);
        assert Join(pieces, [sep]) == ([s[0]] + rest[0]) + [sep] + Join(rest[1..], [sep]);
      }
    }
  }

  /** Splitting yields exactly one piece, the whole string, when the separator
      does not occur, and at least two pieces when it does. */
  lemma {:induction false} SplitCount(s: string, sep: char)
    ensures sep !in s <==> Split(s, sep) == [s]
    ensures sep in s <==> |Split(s, sep)| >= 2
  {
    if s != [] {
      SplitCount(s[1..], sep);
      if s[0] != sep {
        var rest := Split(s[1..], sep);
        assert sep in s <==> sep in s[1..];
        if sep !in s[1..] {
          assert [s[0]] + s[1..] == s;
        }
      }
    }
  }

  /** The first piece is the text before the first separator: the rest of the
      string is empty or starts with the separator. */
  lemma {:induction false} SplitFirst(s: string, sep: char)
    ensures Split(s, sep)[0] <= s
    ensures |Split(s, sep)[0]| < |s| ==> s[|Split(s, sep)[0]|] == sep
  {
    if s != [] && s[0] != sep {
      SplitFirst(s[1..], sep);
    }
  }

  /** The piece after the first separator is the text between the first and
      the second separator. */
  lemma {:induction false} SplitSecond(s: string, sep: char)
    requires |Split(s, sep)| >= 2
    ensures var p := Split(s, sep);
            var k := |p[0]|;
            k < |s| && s[k] == sep &&
            p[1] == Split(s[k + 1..], sep)[0]
  {
    if s[0] != sep {
      SplitSecond(s[1..], sep);
    }
  }

  /** The last piece is the text after the last separator. */
  lemma {:induction false} SplitLast(s: string, sep: char)
    ensures var p := Split(s, sep);
            var last := p[|p| - 1];
            |last| <= |s| && s[|s| - |last|..] == last &&
            (|last| < |s| ==> s[|s| - |last| - 1] == sep)
  {
    if s != [] {
      SplitLast(s[1..], sep);
      var rest := Split(s[1..], sep);
      if s[0] != sep && |rest| == 1 {
        SplitCount(s[1..], sep);
        assert Split(s, sep) == [[s[0]] + s[1..]];
        assert [s[0]] + s[1..] == s;
      } else if s[0] != sep {
        assert Split(s, sep)[|Split(s, sep)| - 1] == rest[|rest| - 1];
        SplitCount(s[1..], sep);
        var last := rest[|rest| - 1];
        assert sep !in last;
        assert |last| < |s| - 1;
      }
    }
  }

  /** A separator right after a separator-free prefix ends the first piece. */
  lemma {:induction false} SplitAfter(a: string, sep: char, b: string)
    requires sep !in a
    ensures Split(a + [sep] + b, sep) == [a] + Split(b, sep)
  {
    var s := a + [sep] + b;
    if a == [] {
      assert s == [sep] + b;
      assert s[1..] == b;
    } else {
      SplitAfter(a[1..], sep, b);
      assert s[1..] == a[1..] + [sep] + b;
      assert [a[0]] + a[1..] == a;
    }
  }

  /** Each item with `pad` put in front of it. */
  function Prefixed(pad: string, items: seq<string>): (r: seq<string>)
    ensures |r| == |items|
    ensures forall i :: 0 <= i < |items| ==> r[i] == pad + items[i]
  {
    seq(|items|, i requires 0 <= i < |items| => pad + items[i])
  }

  /** Splitting a join whose glue is the separator followed by `pad` gives the
      items back, each but the first with `pad` in front, provided no item
      and not `pad` contains the separator. */
  lemma {:induction false} SplitJoin(pre: string, items: seq<string>, sep: char, pad: string)
    requires |items| >= 1
    requires sep !in pre && sep !in pad
    requires forall i :: 0 <= i < |items| ==> sep !in items[i]
    ensures Split(pre + Join(items, [sep] + pad), sep) == [pre + items[0]] + Prefixed(pad, items[1..])
    decreases |items|
  {
    assert sep !in pre + items[0];
    if |items| == 1 {
      SplitCount(pre + items[0], sep);
    } else {
      var tail := Join(items[1..], [sep] + pad);
      assert pre + Join(items, [sep] + pad) == (pre + items[0]) + [sep] + (pad + tail);
      SplitAfter(pre + items[0], sep, pad + tail);
      SplitJoin(pad, items[1..], sep, pad);
      assert items[1..][1..] == items[2..];
      assert Prefixed(pad, items[1..]) == [pad + items[1]] + Prefixed(pad, items[2..]);
    }
  }

  /** strings.ReplaceAll(s, string(from), string(to)) for one-character strings. */
  function ReplaceAll(s: string, from: char, to: char): (r: string)
    ensures |r| == |s|
    ensures forall i :: 0 <= i < |s| ==> r[i] == (if s[i] == from then to else s[i])
  {
    if s == [] then [] else [if s[0] == from then to else s[0]] + ReplaceAll(s[1..], from, to)
  }

  /** Two strings agree after replacing `from` by `to` exactly when they
      have the same length and differ only where both hold `from` or `to`. */
  lemma ReplaceAllSame(a: string, b: string, from: char, to: char)
    ensures ReplaceAll(a, from, to) == ReplaceAll(b, from, to) <==>
              && |a| == |b|
              && forall i :: 0 <= i < |a| ==> a[i] == b[i] || ((a[i] == from || a[i] == to) && (b[i] == from || b[i] == to))
  {
    var ra, rb := ReplaceAll(a, from, to), ReplaceAll(b, from, to);
    if ra == rb {
      forall i | 0 <= i < |a| ensures a[i] == b[i] || ((a[i] == from || a[i] == to) && (b[i] == from || b[i] == to)) {
        assert ra[i] == rb[i];
      }
    } else if |a| == |b| {
      assert exists i :: 0 <= i < |ra| && ra[i] != rb[i];
      var i :| 0 <= i < |ra| && ra[i] != rb[i];
      assert !(a[i] == b[i] || ((a[i] == from || a[i] == to) && (b[i] == from || b[i] == to)));
    }
  }

  predicate IsDigit(c: char) { '0' <= c <= '9' }

  predicate AllDigits(s: string) { forall i :: 0 <= i < |s| ==> IsDigit(s[i]) }

  /** The longest run of decimal digits at the start of `s`. */
  function DigitRun(s: string): (r: string)
    ensures r <= s && AllDigits(r)
    ensures |r| < |s| ==> !IsDigit(s[|r|])
  {
    if s != [] && IsDigit(s[0]) then [s[0]] + DigitRun(s[1..]) else ""
  }

  /** The digit run of digits followed by a non-digit is those digits. */
  lemma {:induction false} DigitRunOf(digits: string, rest: string)
    requires AllDigits(digits)
    requires rest == [] || !IsDigit(rest[0])
    ensures DigitRun(digits + rest) == digits
  {
    if digits != [] {
      assert (digits + rest)[1..] == digits[1..] + rest;
      DigitRunOf(digits[1..], rest);
    }
  }

  /** `%d` for a natural number: its decimal digits, without leading zeros. */
  function Decimal(n: nat): (r: string)
    ensures |r| >= 1
    ensures AllDigits(r)
  {
    if n < 10 then [Digit(n)] else Decimal(n / 10) + [Digit(n % 10)]
  }

  function Digit(d: nat): char
    requires d < 10
  {
    "0123456789"[d]
  }

  /** `%d` for any integer. */
  function FormatInt(n: int): string {
    if n < 0 then "-" + Decimal(-n) else Decimal(n)
  }

  /** Reading a string of decimal digits as a number. */
  function DigitsValue(s: string): nat
    requires AllDigits(s)
  {
    if s == [] then 0 else DigitsValue(s[..|s| - 1]) * 10 + (s[|s| - 1] as int - '0' as int)
  }

  /** Reading back the digits that Decimal writes gives the number again, so
      distinct numbers are written differently. */
  lemma {:induction false} DecimalRoundTrip(n: nat)
    ensures DigitsValue(Decimal(n)) == n
  {
    if n >= 10 {
      DecimalRoundTrip(n / 10);
      var s := Decimal(n);
      assert s[..|s| - 1] == Decimal(n / 10);
    }
  }

  lemma DecimalInjective(m: nat, n: nat)
    requires Decimal(m) == Decimal(n)
    ensures m == n
  {
    DecimalRoundTrip(m);
    DecimalRoundTrip(n);
  }
}
