/**
 * Number formatting of `src/num.rs`: thousands separators for unsigned and signed
 * integers and for an already formatted decimal string, plus the `Seconds*` wrappers.
 */
module Num {
  import opened Base

  /** `NonZeroU64`. */
  type NonZeroU64 = x: u64 | x >= 1 witness 1

  /** `SecondsU64`: a whole number of seconds. */
  datatype SecondsU64 = SecondsU64(seconds: u64) {
    static function New(seconds: u64): (r: SecondsU64)
      ensures r.Get() == seconds
    {
      SecondsU64(seconds)
    }

    function Get(): u64 {
      seconds
    }
  }

  /** `SecondsNonZeroU64`: a positive whole number of seconds (a segment duration). */
  datatype SecondsNonZeroU64 = SecondsNonZeroU64(seconds: NonZeroU64) {
    static function New(seconds: NonZeroU64): (r: SecondsNonZeroU64)
      ensures r.Get() == seconds
    {
      SecondsNonZeroU64(seconds)
    }

    function Get(): (r: u64)
      ensures r >= 1
    {
      seconds
    }
  }

  // ---------------------------------------------------------------------------
  // Decimal digits

  predicate IsDigit(c: char) {
    '0' <= c <= '9'
  }

  predicate AllDigits(s: seq<char>) {
    forall i :: 0 <= i < |s| ==> IsDigit(s[i])
  }

  /** `char::from(b'0' + d)`. */
  function DigitChar(d: nat): (c: char)
    requires d < 10
    ensures IsDigit(c) && c as int - '0' as int == d
  {
    ('0' as int + d) as char
  }

  /** The significant decimal digits of `n`, most significant first; empty for 0. */
  function Digits(n: nat): seq<char>
  {
    if n == 0 then [] else Digits(n / 10) + [DigitChar(n % 10)]
  }

  /** `n.to_string()` for an unsigned integer. */
  function DecimalString(n: nat): seq<char>
  {
    if n == 0 then "0" else Digits(n)
  }

  /** The value of a string of decimal digits (the partner of `DecimalString`). */
  function DecimalValue(s: seq<char>): nat
    requires AllDigits(s)
  {
    if s == [] then 0 else DecimalValue(s[..|s| - 1]) * 10 + (s[|s| - 1] as int - '0' as int)
  }

  lemma DigitsFacts(n: nat)
    ensures AllDigits(Digits(n)) && ',' !in Digits(n) && '-' !in Digits(n)
    ensures DecimalValue(Digits(n)) == n
    ensures n > 0 ==> |Digits(n)| > 0 && Digits(n)[0] != '0'
  {
    DigitsAreDigits(n);
    DigitsHaveNoComma(Digits(n));
    DigitsValue(n);
    DigitsLeading(n);
  }

  lemma {:induction false} DigitsAreDigits(n: nat)
    ensures AllDigits(Digits(n))
    decreases n
  {
    if n > 0 {
      DigitsAreDigits(n / 10);
    }
  }

  lemma {:induction false} DigitsValue(n: nat)
    ensures AllDigits(Digits(n)) && DecimalValue(Digits(n)) == n
    decreases n
  {
    DigitsAreDigits(n);
    if n > 0 {
      DigitsValue(n / 10);
      var d := Digits(n);
      assert d[..|d| - 1] == Digits(n / 10);
      assert d[|d| - 1] as int - '0' as int == n % 10;
      assert DecimalValue(d) == (n / 10) * 10 + n % 10;
    }
  }

  lemma {:induction false} DigitsLeading(n: nat)
    ensures n > 0 ==> |Digits(n)| > 0 && Digits(n)[0] != '0'
    decreases n
  {
    if n > 0 {
      DigitsLeading(n / 10);
      if n / 10 == 0 {
        assert Digits(n) == [DigitChar(n % 10)];
      } else {
        assert Digits(n)[0] == Digits(n / 10)[0];
      }
    }
  }

  /**
   * The decimal representation of `n` has only digits, no leading zero (unless it is
   * "0"), and reads back as `n`.
   */
  lemma {:induction false} DecimalStringRoundTrip(n: nat)
    ensures AllDigits(DecimalString(n)) && |DecimalString(n)| > 0
    ensures DecimalValue(DecimalString(n)) == n
    ensures n == 0 <==> DecimalString(n) == "0"
    ensures DecimalString(n)[0] == '0' ==> n == 0
  {
    DigitsFacts(n);
    if n == 0 {
      assert DecimalValue("0") == DecimalValue("0"[..0]) * 10 + 0;
    }
  }

  // ---------------------------------------------------------------------------
  // Grouping with commas

  /**
   * Thousands grouping of an integer part, read from the left: a comma follows
   * character `t[j]` when the number of characters after it is a positive multiple
   * of 3, unless `t[j]` is '-'. This is what the reverse-push-reverse loops of
   * `fmt_u64` and `fmt_f64` produce.
   */
  function GroupIntegerPart(t: seq<char>): seq<char>
  {
    if t == [] then [] else [t[0]] + IntegerSeparator(t[0], |t| - 1) + GroupIntegerPart(t[1..])
  }

  /** The comma, if any, that follows character `c` when `after` characters follow it. */
  function IntegerSeparator(c: char, after: nat): seq<char>
  {
    if c != '-' && after > 0 && after % 3 == 0 then [','] else []
  }

  /** Grouping of fraction digits: a comma before every third digit counted from the left. */
  function GroupFraction(f: seq<char>): seq<char>
  {
    GroupFractionFrom(f, 0)
  }

  /** The grouping of the digits `f` when the first of them has index `i`. */
  function GroupFractionFrom(f: seq<char>, i: nat): seq<char>
    decreases |f|
  {
    if f == [] then [] else FractionSeparator(i) + [f[0]] + GroupFractionFrom(f[1..], i + 1)
  }

  /** The comma, if any, that precedes the fraction digit at index `i`. */
  function FractionSeparator(i: nat): seq<char>
  {
    if i > 0 && i % 3 == 0 then [','] else []
  }

  function RemoveCommas(s: seq<char>): seq<char>
  {
    if s == [] then [] else (if s[0] == ',' then [] else [s[0]]) + RemoveCommas(s[1..])
  }

  lemma {:induction false} RemoveCommasAppend(a: seq<char>, b: seq<char>)
    ensures RemoveCommas(a + b) == RemoveCommas(a) + RemoveCommas(b)
    decreases |a|
  {
    if a == [] {
      assert a + b == b;
    } else {
      assert (a + b)[1..] == a[1..] + b;
      RemoveCommasAppend(a[1..], b);
    }
  }

  lemma {:induction false} RemoveCommasCons(c: char, s: seq<char>)
    ensures RemoveCommas([c] + s) == (if c == ',' then [] else [c]) + RemoveCommas(s)
  {
    assert ([c] + s)[1..] == s;
  }

  /** Removing the commas from a grouped integer part gives back the integer part. */
  lemma {:induction false} UngroupIntegerPart(t: seq<char>)
    requires ',' !in t
    ensures RemoveCommas(GroupIntegerPart(t)) == t
  {
    if t != [] {
      var rest := GroupIntegerPart(t[1..]);
      var sep := IntegerSeparator(t[0], |t| - 1);
      UngroupIntegerPart(t[1..]);
      assert GroupIntegerPart(t) == [t[0]] + (sep + rest);
      RemoveCommasCons(t[0], sep + rest);
      RemoveCommasAppend(sep, rest);
      assert RemoveCommas(sep) == [] by {
        if sep != [] { RemoveCommasCons(',', []); }
      }
      assert [t[0]] + t[1..] == t;
    }
  }

  /** Removing the commas from grouped fraction digits gives back the digits. */
  lemma UngroupFraction(f: seq<char>)
    requires ',' !in f
    ensures RemoveCommas(GroupFraction(f)) == f
  {
    UngroupFractionFrom(f, 0);
  }

  lemma {:induction false} UngroupFractionFrom(f: seq<char>, i: nat)
    requires ',' !in f
    ensures RemoveCommas(GroupFractionFrom(f, i)) == f
    decreases |f|
  {
    if f != [] {
      var sep := FractionSeparator(i);
      assert ',' !in f[1..] by {
        assert forall c :: c in f[1..] ==> c in f;
      }
      UngroupFractionFrom(f[1..], i + 1);
      RemoveCommasAppend(sep + [f[0]], GroupFractionFrom(f[1..], i + 1));
      RemoveCommasAppend(sep, [f[0]]);
      RemoveCommasCons(f[0], []);
      assert RemoveCommas(sep) == [] by {
        if sep != [] { RemoveCommasCons(',', []); }
      }
      assert [f[0]] + f[1..] == f;
    }
  }

  predicate NoComma(s: seq<char>) {
    ',' !in s
  }

  /**
   * A grouped string read from the right: runs of exactly 3 non-comma characters
   * separated by single commas, with a first run of 1 to 3 characters; so there is
   * no leading or trailing comma.
   */
  predicate GroupedFromRight(s: seq<char>)
    decreases |s|
  {
    if |s| <= 3 then 1 <= |s| && NoComma(s)
    else s[|s| - 4] == ',' && NoComma(s[|s| - 3..]) && GroupedFromRight(s[..|s| - 4])
  }

  /** The mirror image: runs of exactly 3 from the left, a last run of 1 to 3. */
  predicate GroupedFromLeft(s: seq<char>)
    decreases |s|
  {
    if |s| <= 3 then 1 <= |s| && NoComma(s)
    else s[3] == ',' && NoComma(s[..3]) && GroupedFromLeft(s[4..])
  }

  lemma {:induction false} GroupIntegerPartShort(t: seq<char>)
    requires |t| <= 3
    ensures GroupIntegerPart(t) == t
  {
    if t != [] {
      GroupIntegerPartShort(t[1..]);
      assert IntegerSeparator(t[0], |t| - 1) == [];
      assert [t[0]] + t[1..] == t;
    }
  }

  /** Splitting off a final run whose length is a multiple of 3 puts exactly one comma there. */
  lemma {:induction false} GroupIntegerPartSplit(a: seq<char>, b: seq<char>)
    requires |a| > 0 && a[|a| - 1] != '-'
    requires |b| > 0 && |b| % 3 == 0
    ensures GroupIntegerPart(a + b) == GroupIntegerPart(a) + [','] + GroupIntegerPart(b)
    decreases |a|
  {
    var c, rest := a[0], a[1..];
    assert a == [c] + rest;
    assert a + b == [c] + (rest + b);
    GroupIntegerPartCons(c, rest + b);
    if rest == [] {
      assert rest + b == b;
      GroupIntegerPartCons(c, []);
    } else {
      GroupIntegerPartSplit(rest, b);
      GroupIntegerPartCons(c, rest);
      IntegerSeparatorShift(c, |rest|, |b|);
      Regroup([c] + IntegerSeparator(c, |rest|), GroupIntegerPart(rest), [','], GroupIntegerPart(b));
    }
  }

  lemma GroupIntegerPartCons(c: char, t: seq<char>)
    ensures GroupIntegerPart([c] + t) == [c] + IntegerSeparator(c, |t|) + GroupIntegerPart(t)
  {
    assert ([c] + t)[1..] == t;
  }

  lemma IntegerSeparatorShift(c: char, j: nat, k: nat)
    requires k % 3 == 0 && j > 0
    ensures IntegerSeparator(c, j + k) == IntegerSeparator(c, j)
  {
    assert (j + k) % 3 == j % 3;
  }

  lemma Regroup(x: seq<char>, y: seq<char>, z: seq<char>, w: seq<char>)
    ensures x + (y + z + w) == x + y + z + w
  {
  }

  /** Grouping a non-empty run of digits yields a well-formed grouped number. */
  lemma {:induction false} GroupedDigitsWellFormed(d: seq<char>)
    requires |d| >= 1 && AllDigits(d)
    ensures GroupedFromRight(GroupIntegerPart(d))
    decreases |d|
  {
    if |d| <= 3 {
      GroupIntegerPartShort(d);
      DigitsHaveNoComma(d);
    } else {
      var a, b := d[..|d| - 3], d[|d| - 3..];
      assert a + b == d;
      assert IsDigit(a[|a| - 1]);
      GroupIntegerPartSplit(a, b);
      GroupIntegerPartShort(b);
      GroupedDigitsWellFormed(a);
      assert AllDigits(b);
      DigitsHaveNoComma(b);
      GroupedFromRightExtend(GroupIntegerPart(a), b);
    }
  }

  lemma DigitsHaveNoComma(d: seq<char>)
    requires AllDigits(d)
    ensures NoComma(d) && '.' !in d && '-' !in d
  {
    assert forall i :: 0 <= i < |d| ==> IsDigit(d[i]);
  }

  /** A comma and a run of exactly 3 extend a string grouped from the right. */
  lemma GroupedFromRightExtend(g: seq<char>, b: seq<char>)
    requires GroupedFromRight(g) && |b| == 3 && NoComma(b)
    ensures GroupedFromRight(g + [','] + b)
  {
    var s := g + [','] + b;
    assert s[|s| - 4] == ',';
    assert s[|s| - 3..] == b;
    assert s[..|s| - 4] == g;
  }

  /** A '-' before the digits never gets a comma after it. */
  lemma {:induction false} NoCommaAfterSign(d: seq<char>)
    ensures GroupIntegerPart(['-'] + d) == ['-'] + GroupIntegerPart(d)
  {
    assert (['-'] + d)[1..] == d;
  }

  /** One digit of the fraction loop: the digit at index `i`, after its comma. */
  lemma GroupFractionFromStep(f: seq<char>, i: nat)
    requires i < |f|
    ensures GroupFractionFrom(f[i..], i) == FractionSeparator(i) + [f[i]] + GroupFractionFrom(f[i + 1..], i + 1)
  {
    assert f[i..][1..] == f[i + 1..];
  }

  /** No comma falls among the digits at indices 0 to 2. */
  lemma {:induction false} GroupFractionFromShort(f: seq<char>, i: nat)
    requires i + |f| <= 3
    ensures GroupFractionFrom(f, i) == f
    decreases |f|
  {
    if f != [] {
      GroupFractionFromShort(f[1..], i + 1);
      assert FractionSeparator(i) == [];
      assert [f[0]] + f[1..] == f;
    }
  }

  /** The comma pattern repeats every 3 digits after the first. */
  lemma {:induction false} GroupFractionFromPeriodic(f: seq<char>, i: nat)
    requires i > 0
    ensures GroupFractionFrom(f, i + 3) == GroupFractionFrom(f, i)
    decreases |f|
  {
    if f != [] {
      assert (i + 3) % 3 == i % 3;
      GroupFractionFromPeriodic(f[1..], i + 1);
    }
  }

  /** Digits starting at index 3 are the grouping from index 0 with a comma in front. */
  lemma GroupFractionRestart(t: seq<char>)
    requires t != []
    ensures GroupFractionFrom(t, 3) == [','] + GroupFraction(t)
  {
    GroupFractionFromPeriodic(t[1..], 1);
    assert GroupFractionFrom(t, 3) == [','] + [t[0]] + GroupFractionFrom(t[1..], 4);
    assert GroupFraction(t) == [t[0]] + GroupFractionFrom(t[1..], 1);
  }

  /** The first three digits carry no comma. */
  lemma GroupFractionFirstThree(f: seq<char>)
    requires |f| > 3
    ensures GroupFraction(f) == f[..3] + GroupFractionFrom(f[3..], 3)
  {
    assert f[1..][1..] == f[2..] && f[2..][1..] == f[3..];
    assert GroupFraction(f) == [f[0]] + GroupFractionFrom(f[1..], 1);
    assert GroupFractionFrom(f[1..], 1) == [f[1]] + GroupFractionFrom(f[2..], 2);
    assert GroupFractionFrom(f[2..], 2) == [f[2]] + GroupFractionFrom(f[3..], 3);
    assert f[..3] == [f[0]] + [f[1]] + [f[2]];
  }

  /** Grouping non-empty comma-free fraction digits yields runs of 3 from the left. */
  lemma {:induction false} GroupedFractionWellFormed(f: seq<char>)
    requires |f| >= 1 && NoComma(f)
    ensures GroupedFromLeft(GroupFraction(f))
    decreases |f|
  {
    if |f| <= 3 {
      GroupFractionFromShort(f, 0);
    } else {
      var a, b := f[..3], f[3..];
      GroupFractionFirstThree(f);
      GroupFractionRestart(b);
      assert NoComma(a) && NoComma(b) by {
        assert forall c :: c in a ==> c in f;
        assert forall c :: c in b ==> c in f;
      }
      GroupedFractionWellFormed(b);
      var s := a + [','] + GroupFraction(b);
      assert GroupFraction(f) == s;
      assert s[3] == ',';
      assert s[..3] == a;
      assert s[4..] == GroupFraction(b);
    }
  }

  // ---------------------------------------------------------------------------
  // fmt_u64, fmt_i64

  /** `fmt_u64` as the value it is specified to produce. */
  function FormattedU64(n: nat): seq<char>
  {
    GroupIntegerPart(DecimalString(n))
  }

  /**
   * `fmt_u64`: pushes digits least significant first, with a comma before every
   * digit whose index (from the right) is a positive multiple of 3, then reverses.
   */
  method FmtU64(n0: u64) returns (s: string)
    ensures s == FormattedU64(n0)
    ensures n0 == 0 ==> s == "0"
  {
    if n0 == 0 {
      return DecimalString(n0);
    }
    var n: u64 := n0;
    var rev: seq<char> := [];
    var i: nat := 0;
    ghost var done: seq<char> := [];
    while n > 0
      invariant Digits(n0) == Digits(n) + done
      invariant i == |done|
      invariant rev == Reverse(GroupIntegerPart(done))
      decreases n
    {
      var d := n % 10;
      var c := DigitChar(d);
      ghost var done' := [c] + done;
      DigitsStep(n as nat, done);
      GroupPrependStep(c, done);
      if i > 0 && i % 3 == 0 {
        rev := rev + [','];
      }
      rev := rev + [c];
      n := n / 10;
      i := i + 1;
      done := done';
    }
    assert done == Digits(n0);
    ReverseReverse(GroupIntegerPart(done));
    s := Reverse(rev);
  }

  /** Taking off the last digit of `n` puts it in front of the digits already taken. */
  lemma DigitsStep(n: nat, done: seq<char>)
    requires n > 0
    ensures Digits(n) + done == Digits(n / 10) + ([DigitChar(n % 10)] + done)
  {
  }

  /** `fmt_u64`: the commas are well placed and removing them gives `n`'s decimal digits. */
  lemma {:induction false} FormattedU64Shape(n: nat)
    ensures RemoveCommas(FormattedU64(n)) == DecimalString(n)
    ensures AllDigits(DecimalString(n)) && DecimalValue(DecimalString(n)) == n
    ensures GroupedFromRight(FormattedU64(n))
  {
    DecimalStringRoundTrip(n);
    DigitsFacts(n);
    assert ',' !in DecimalString(n) by {
      forall i | 0 <= i < |DecimalString(n)| ensures DecimalString(n)[i] != ',' {
        assert IsDigit(DecimalString(n)[i]);
      }
    }
    UngroupIntegerPart(DecimalString(n));
    GroupedDigitsWellFormed(DecimalString(n));
  }

  /** `i64::unsigned_abs`: exact also for `i64::MIN`. */
  function UnsignedAbs(n: i64): (r: u64)
    ensures r as int == if n < 0 then -(n as int) else n as int
  {
    if n < 0 then -(n as int) else n as int
  }

  /** `fmt_i64`: a '-' in front of the grouped magnitude for negative numbers. */
  method FmtI64(n: i64) returns (s: string)
    ensures n < 0 ==> s == "-" + FormattedU64(-(n as int))
    ensures n >= 0 ==> s == FormattedU64(n)
  {
    if n < 0 {
      var u := FmtU64(UnsignedAbs(n));
      s := "-" + u;
    } else {
      s := FmtU64(UnsignedAbs(n));
    }
  }

  // ---------------------------------------------------------------------------
  // fmt_f64 (grouping part)

  /** `s.splitn(2, sep)`: the text before the first `sep`, and the rest if there is one. */
  function SplitOnce(s: seq<char>, sep: char): (r: (seq<char>, Option<seq<char>>))
    ensures sep !in r.0
    ensures r.1.None? ==> r.0 == s
    ensures r.1.Some? ==> r.0 + [sep] + r.1.value == s
  {
    if s == [] then ([], None)
    else if s[0] == sep then ([], Some(s[1..]))
    else
      var rest := SplitOnce(s[1..], sep);
      assert [s[0]] + s[1..] == s;
      ([s[0]] + rest.0, rest.1)
  }

  /** The '.' and the grouped fraction digits, when there is a fraction. */
  function GroupedFractionPart(fraction: Option<seq<char>>): seq<char>
  {
    if fraction.Some? then ['.'] + GroupFraction(fraction.value) else []
  }

  /** What the grouping part of `fmt_f64` makes of the already formatted string `s`. */
  function GroupedFloatString(s: seq<char>): seq<char>
  {
    var split := SplitOnce(s, '.');
    GroupIntegerPart(split.0) + GroupedFractionPart(split.1)
  }

  /** Putting one more character in front adds it, after its comma, at the end of the reversal. */
  lemma {:induction false} GroupPrependStep(c: char, tail: seq<char>)
    ensures Reverse(GroupIntegerPart([c] + tail))
            == Reverse(GroupIntegerPart(tail)) + IntegerSeparator(c, |tail|) + [c]
  {
    var sep := IntegerSeparator(c, |tail|);
    assert ([c] + tail)[1..] == tail;
    assert GroupIntegerPart([c] + tail) == ([c] + sep) + GroupIntegerPart(tail);
    ReverseAppend([c] + sep, GroupIntegerPart(tail));
    ReverseAppend([c], sep);
    assert Reverse([c]) == [c];
    assert Reverse([',']) == [','];
  }

  /** One step of the reversed integer loop: the next character from the right, after its comma. */
  lemma {:induction false} GroupIntegerStep(integer: seq<char>, i: nat)
    requires i < |integer|
    ensures var c := integer[|integer| - 1 - i];
            Reverse(GroupIntegerPart(integer[|integer| - (i + 1)..]))
            == Reverse(GroupIntegerPart(integer[|integer| - i..]))
               + IntegerSeparator(c, i) + [c]
  {
    var c := integer[|integer| - 1 - i];
    var tail := integer[|integer| - i..];
    assert integer[|integer| - (i + 1)..] == [c] + tail;
    GroupPrependStep(c, tail);
  }

  /**
   * The grouping loops of `fmt_f64`, given the string `format!("{:.1$}", n, places)`
   * produced: the integer part grouped from the right (no comma after a '-'), then,
   * if there is a '.', the fraction grouped from the left.
   */
  method GroupFormattedFloat(s: string) returns (r: string)
    ensures r == GroupedFloatString(s)
  {
    var split := SplitOnce(s, '.');
    var integer, fraction := split.0, split.1;
    r := GroupIntegerChars(integer);
    if fraction.Some? {
      r := PushGroupedFraction(r, fraction.value);
    }
  }

  /** The integer loop of `fmt_f64`: characters from the right, then reversed. */
  method GroupIntegerChars(integer: string) returns (r: string)
    ensures r == GroupIntegerPart(integer)
  {
    var rev: seq<char> := [];
    for i := 0 to |integer|
      invariant rev == Reverse(GroupIntegerPart(integer[|integer| - i..]))
    {
      var c := integer[|integer| - 1 - i];
      GroupIntegerStep(integer, i);
      if c != '-' && i > 0 && i % 3 == 0 {
        rev := rev + [','];
      }
      rev := rev + [c];
    }
    assert integer[0..] == integer;
    ReverseReverse(GroupIntegerPart(integer));
    r := Reverse(rev);
  }

  /** The fraction loop of `fmt_f64`: a '.', then the digits from the left. */
  method PushGroupedFraction(head: string, f: string) returns (r: string)
    ensures r == head + ['.'] + GroupFraction(f)
  {
    r := head + ['.'];
    assert f[0..] == f;
    for i := 0 to |f|
      invariant r + GroupFractionFrom(f[i..], i) == head + ['.'] + GroupFraction(f)
    {
      GroupFractionFromStep(f, i);
      if i > 0 && i % 3 == 0 {
        r := r + [','];
      }
      r := r + [f[i]];
    }
  }

  /** Removing the commas from the grouped string gives back the formatted string. */
  lemma {:induction false} UngroupFloatString(s: seq<char>)
    requires NoComma(s)
    ensures RemoveCommas(GroupedFloatString(s)) == s
  {
    var split := SplitOnce(s, '.');
    var integer, fraction := split.0, split.1;
    if fraction.Some? {
      var f := fraction.value;
      assert s == integer + ['.'] + f;
      NoCommaParts(integer, f, s);
      UngroupWithFraction(integer, f);
    } else {
      assert integer == s;
      UngroupIntegerPart(integer);
      assert GroupIntegerPart(integer) + [] == GroupIntegerPart(integer);
    }
  }

  lemma NoCommaParts(a: seq<char>, b: seq<char>, s: seq<char>)
    requires s == a + ['.'] + b && NoComma(s)
    ensures NoComma(a) && NoComma(b)
  {
    assert forall i :: 0 <= i < |a| ==> a[i] == s[i];
    assert forall i :: 0 <= i < |b| ==> b[i] == s[|a| + 1 + i];
  }

  lemma UngroupWithFraction(integer: seq<char>, f: seq<char>)
    requires NoComma(integer) && NoComma(f)
    ensures RemoveCommas(GroupIntegerPart(integer) + (['.'] + GroupFraction(f))) == integer + ['.'] + f
  {
    UngroupIntegerPart(integer);
    UngroupFraction(f);
    RemoveCommasAppend(GroupIntegerPart(integer), ['.'] + GroupFraction(f));
    RemoveCommasCons('.', GroupFraction(f));
  }

  /**
   * For a formatted number `-`? digits `.` digits, the integer digits are grouped from
   * the right, the sign stays in front without a comma after it, and the fraction
   * digits are grouped from the left.
   */
  lemma {:induction false} GroupedFloatStringShape(sign: bool, integer: seq<char>, fraction: seq<char>)
    requires |integer| >= 1 && AllDigits(integer) && |fraction| >= 1 && AllDigits(fraction)
    ensures GroupedFloatString((if sign then "-" else "") + integer + "." + fraction)
            == (if sign then "-" else "") + GroupIntegerPart(integer) + "." + GroupFraction(fraction)
    ensures GroupedFromRight(GroupIntegerPart(integer))
    ensures GroupedFromLeft(GroupFraction(fraction))
  {
    var prefix: seq<char> := if sign then "-" else "";
    var whole := prefix + integer;
    DigitsHaveNoComma(integer);
    DigitsHaveNoComma(fraction);
    SignedGrouping(sign, integer);
    assert prefix + integer + "." + fraction == whole + ['.'] + fraction;
    SplitOnceAt(whole, fraction, '.');
    GroupedDigitsWellFormed(integer);
    GroupedFractionWellFormed(fraction);
  }

  /**
   * For a formatted number without a fraction, `-`? digits (zero decimals), the digits
   * are grouped from the right, the sign stays in front, and no `.` is added.
   */
  lemma GroupedIntegerStringShape(sign: bool, integer: seq<char>)
    requires |integer| >= 1 && AllDigits(integer)
    ensures GroupedFloatString((if sign then "-" else "") + integer)
            == (if sign then "-" else "") + GroupIntegerPart(integer)
    ensures '.' !in GroupedFloatString((if sign then "-" else "") + integer)
    ensures GroupedFromRight(GroupIntegerPart(integer))
  {
    var whole := (if sign then "-" else "") + integer;
    DigitsHaveNoComma(integer);
    SignedGrouping(sign, integer);
    assert GroupIntegerPart(whole) + [] == GroupIntegerPart(whole);
    GroupedDigitsWellFormed(integer);
    NoPointInGrouping(sign, integer);
  }

  /** Grouping an optional sign and digits adds only commas. */
  lemma NoPointInGrouping(sign: bool, integer: seq<char>)
    requires AllDigits(integer)
    ensures '.' !in (if sign then "-" else "") + GroupIntegerPart(integer)
  {
    DigitsHaveNoComma(integer);
    UngroupIntegerPart(integer);
    if '.' in GroupIntegerPart(integer) {
      RemoveCommasKeeps(GroupIntegerPart(integer), '.');
    }
  }

  /** Removing commas keeps every other character. */
  lemma {:induction false} RemoveCommasKeeps(s: seq<char>, c: char)
    requires c != ',' && c in s
    ensures c in RemoveCommas(s)
    decreases |s|
  {
    if s[0] != c {
      assert c in s[1..];
      RemoveCommasKeeps(s[1..], c);
    }
  }

  /** An optional '-' before digits: no '.' in the whole, and the sign stays in front. */
  lemma SignedGrouping(sign: bool, integer: seq<char>)
    requires '.' !in integer
    ensures '.' !in (if sign then "-" else "") + integer
    ensures GroupIntegerPart((if sign then "-" else "") + integer)
            == (if sign then "-" else "") + GroupIntegerPart(integer)
  {
    if sign {
      NoCommaAfterSign(integer);
    } else {
      assert "" + integer == integer;
    }
  }

  lemma {:induction false} SplitOnceAt(a: seq<char>, b: seq<char>, sep: char)
    requires sep !in a
    ensures SplitOnce(a + [sep] + b, sep) == (a, Some(b))
    decreases |a|
  {
    var s := a + [sep] + b;
    if a == [] {
      assert s[1..] == b;
    } else {
      assert s[1..] == a[1..] + [sep] + b;
      SplitOnceAt(a[1..], b, sep);
      assert [a[0]] + a[1..] == a;
    }
  }
}
