/** Times in a file list: seconds, and a fraction of as many digits as needed, and what is read back. */
module FileTimes {

  /** 10 to the power 9 - k, the weight of the digits still to come after `k` of them. */
  function Scale(k: nat): nat
    requires k <= 9
  {
    if k == 0 then 1_000_000_000 else if k == 1 then 100_000_000 else if k == 2 then 10_000_000
    else if k == 3 then 1_000_000 else if k == 4 then 100_000 else if k == 5 then 10_000
    else if k == 6 then 1_000 else if k == 7 then 100 else if k == 8 then 10 else 1
  }

  /** The number the digits stand for, the first being tenths; digits beyond the ninth count nothing. */
  function Value(digits: seq<nat>): nat
  {
    if digits == [] then 0
    else
      var n := |digits| - 1;
      Value(digits[..n]) + (if n < 9 then digits[n] * Scale(n + 1) else 0)
  }

  ghost predicate AreDigits(digits: seq<nat>) { forall i :: 0 <= i < |digits| ==> digits[i] < 10 }

  /** What is left to print after `k` digits: the remainder `r`, moved up by `k` places. */
  ghost predicate Left(v: nat, k: nat, r: nat)
  {
    k <= 9 && r < Scale(k) && v * Scale(k) == r * 1_000_000_000
  }

  /** One digit: it is the leading one of the remainder. */
  lemma NextDigit(v: nat, k: nat, r: nat) returns (r': nat)
    requires Left(v, k, r) && v != 0
    ensures k < 9 && v / 100_000_000 < 10 && Left(v % 100_000_000 * 10, k + 1, r')
    ensures r == r' + v / 100_000_000 * Scale(k + 1)
  {
    var d, e := v / 100_000_000, v % 100_000_000;
    r' := r - d * Scale(k + 1);
  }

  /** Prints the digits of `v` nanoseconds, none if `v` is zero; at most nine. */
  method PrintFraction(v0: nat) returns (digits: seq<nat>)
    requires v0 < 1_000_000_000
    ensures AreDigits(digits) && |digits| <= 9 && Value(digits) == v0
    ensures digits != [] ==> digits[|digits| - 1] != 0
  {
    var v := v0;
    digits := [];
    ghost var r := v0;
    while v != 0
      invariant AreDigits(digits) && |digits| <= 9 && Left(v, |digits|, r) && Value(digits) + r == v0
      invariant digits != [] && digits[|digits| - 1] == 0 ==> v != 0
      decreases 9 - |digits|
    {
      ghost var k := |digits|;
      var d := v / 100_000_000;
      r := NextDigit(v, k, r);
      assert (digits + [d])[..k] == digits;
      digits := digits + [d];
      v := v % 100_000_000 * 10;
    }
  }

  // ---- reading ----

  predicate IsDigit(c: int) { 48 <= c <= 57 }

  function LeadingDigits(p: seq<int>): (d: seq<nat>)
    ensures |d| <= |p|
  {
    if p == [] || !IsDigit(p[0]) then [] else [p[0] - 48] + LeadingDigits(p[1..])
  }

  /** The characters of digits. */
  function Characters(digits: seq<nat>): seq<int> { seq(|digits|, i requires 0 <= i < |digits| => 48 + digits[i]) }

  lemma {:induction false} ReadBack(digits: seq<nat>, rest: seq<int>)
    requires AreDigits(digits) && (rest == [] || !IsDigit(rest[0]))
    ensures LeadingDigits(Characters(digits) + rest) == digits
  {
    var p := Characters(digits) + rest;
    if digits == [] {
      assert p == rest;
    } else {
      ReadBack(digits[1..], rest);
      assert p[1..] == Characters(digits[1..]) + rest;
      assert digits == [digits[0]] + digits[1..];
    }
  }

  /** The weight after the point: a tenth of the last one, rounded down to zero in the end. */
  function Weight(n: nat): nat { if n <= 9 then Scale(n) else 0 }

  lemma NoDigits()
    ensures Weight(0) == 1_000_000_000 && Value([]) == 0
  {
  }

  lemma NextWeight(n: nat)
    ensures Weight(n) / 10 == Weight(n + 1)
  {
  }

  lemma {:induction false} ValueBound(digits: seq<nat>)
    requires AreDigits(digits)
    ensures Value(digits) + Weight(|digits|) <= 1_000_000_000 && Value(digits) < 1_000_000_000
  {
    if digits != [] {
      var n := |digits| - 1;
      ValueBound(digits[..n]);
      assert n < 9 ==> Scale(n) == 10 * Scale(n + 1);
    }
  }

  lemma ValueNext(digits: seq<nat>, d: nat)
    ensures Value(digits + [d]) == Value(digits) + d * Weight(|digits| + 1)
  {
    assert (digits + [d])[..|digits|] == digits;
  }

  /** Reads digits after the point: the value never leaves 32 bits, and is that of all the digits. */
  method ParseFraction(text: seq<int>) returns (v: nat, rest: seq<int>)
    ensures v == Value(LeadingDigits(text)) < 1_000_000_000
    ensures rest == text[|LeadingDigits(text)|..]
  {
    hide Value, Weight;
    var m := 1_000_000_000;
    NoDigits();
    v := 0;
    rest := text;
    ghost var done: seq<nat> := [];
    while rest != [] && IsDigit(rest[0])
      invariant m == Weight(|done|) && v == Value(done) && AreDigits(done) && |done| <= |text|
      invariant rest == text[|done|..] && LeadingDigits(text) == done + LeadingDigits(rest)
      decreases |rest|
    {
      var d: nat := rest[0] - 48;
      NextWeight(|done|);
      m := m / 10;
      v := v + d * m;
      ValueNext(done, d);
      assert done + ([d] + LeadingDigits(rest[1..])) == (done + [d]) + LeadingDigits(rest[1..]);
      done := done + [d];
      rest := rest[1..];
    }
    assert done + [] == done;
    ValueBound(done);
  }

  // ---- whole times ----

  function Decimals(n: nat): (d: seq<nat>)
    ensures AreDigits(d) && d != [] && (d[0] == 0 ==> |d| == 1)
  {
    if n < 10 then [n] else Decimals(n / 10) + [n % 10]
  }

  function Decimal(digits: seq<nat>): nat
  {
    if digits == [] then 0 else 10 * Decimal(digits[..|digits| - 1]) + digits[|digits| - 1]
  }

  lemma {:induction false} DecimalBack(n: nat)
    ensures Decimal(Decimals(n)) == n && (n > 0 ==> Decimals(n)[0] != 0)
  {
    if n >= 10 {
      DecimalBack(n / 10);
      var d := Decimals(n);
      assert d[..|d| - 1] == Decimals(n / 10);
    }
  }

  predicate IsLetter(c: int) { 65 <= c <= 90 || 97 <= c <= 122 }

  /** The part of C's strtoul used here, with base 0: decimal digits without a leading zero are read as they stand,
      up to something that is no digit or letter. The result is the value and the number of characters. */
  ghost predicate ReadsDecimals(strtoul: seq<int> -> (nat, nat))
  {
    forall n: nat, rest: seq<int> :: ReadsNumber(strtoul, n, rest)
  }

  ghost predicate ReadsNumber(strtoul: seq<int> -> (nat, nat), n: nat, rest: seq<int>)
  {
    n < 0x1_0000_0000 && (rest == [] || (!IsDigit(rest[0]) && !IsLetter(rest[0]))) ==>
      strtoul(Characters(Decimals(n)) + rest) == (n, |Decimals(n)|)
  }

  datatype Time = NoTime | Time(sec: nat, nsec: nat, rest: seq<int>)

  function SkipBlanks(p: seq<int>): seq<int>
  {
    if p != [] && (p[0] == 32 || p[0] == 9) then SkipBlanks(p[1..]) else p
  }

  /** The seconds as strtoul reads them, cut to 32 bits, and a fraction if there is a point. */
  function TimeOf(p: seq<int>, strtoul: seq<int> -> (nat, nat)): Time
    requires strtoul(p).1 <= |p|
  {
    var (sec, n) := strtoul(p);
    if n == 0 then NoTime else WithFraction(sec % 0x1_0000_0000, p[n..])
  }

  function WithFraction(sec: nat, p: seq<int>): Time
  {
    if p != [] && p[0] == 46 then
      var d := LeadingDigits(p[1..]);
      Time(sec, Value(d), p[1..][|d|..])
    else Time(sec, 0, p)
  }

  method ParseTime(text: seq<int>, strtoul: seq<int> -> (nat, nat)) returns (t: Time)
    requires forall p :: strtoul(p).1 <= |p|
    ensures t == TimeOf(SkipBlanks(text), strtoul)
  {
    var p := text;
    while p != [] && (p[0] == 32 || p[0] == 9)
      invariant SkipBlanks(p) == SkipBlanks(text)
      decreases |p|
    {
      p := p[1..];
    }
    var (sec, n) := strtoul(p);
    if n == 0 {
      return NoTime;
    }
    p := p[n..];
    if p != [] && p[0] == 46 {
      var v, rest := ParseFraction(p[1..]);
      return Time(sec % 0x1_0000_0000, v, rest);
    }
    return Time(sec % 0x1_0000_0000, 0, p);
  }

  /** Prints a time; the seconds are cut to 32 bits. */
  method PrintTime(sec: int, nsec: nat) returns (text: seq<int>)
    requires nsec < 1_000_000_000
    ensures exists d :: AreDigits(d) && Value(d) == nsec && (d == [] <==> nsec == 0) &&
              text == Characters(Decimals(sec % 0x1_0000_0000)) + (if d == [] then [] else [46] + Characters(d))
  {
    text := Characters(Decimals(sec % 0x1_0000_0000));
    var digits := PrintFraction(nsec);
    if nsec != 0 {
      text := text + [46] + Characters(digits);
    }
    assert Value([]) == 0;
    assert text == Characters(Decimals(sec % 0x1_0000_0000)) + (if digits == [] then [] else [46] + Characters(digits));
  }

  /** A printed time, followed by a blank as the file list has it, is read back: the nanoseconds always, the seconds
      if and only if they fit 32 bits. */
  method PrintThenParse(sec: int, nsec: nat, after: seq<int>, strtoul: seq<int> -> (nat, nat)) returns (t: Time)
    requires nsec < 1_000_000_000 && after != [] && after[0] == 32
    requires ReadsDecimals(strtoul) && forall p :: strtoul(p).1 <= |p|
    ensures t.Time? && t.nsec == nsec && t.rest == after
    ensures t.sec == sec <==> 0 <= sec < 0x1_0000_0000
  {
    hide Decimals, TimeOf, SkipBlanks, Value;
    var text := PrintTime(sec, nsec);
    ghost var d :| AreDigits(d) && Value(d) == nsec && (d == [] <==> nsec == 0) &&
                   text == Characters(Decimals(sec % 0x1_0000_0000)) + (if d == [] then [] else [46] + Characters(d));
    TimeBack(sec % 0x1_0000_0000, d, text, after, strtoul);
    t := ParseTime(text + after, strtoul);
  }

  lemma TimeBack(n: nat, d: seq<nat>, text: seq<int>, after: seq<int>, strtoul: seq<int> -> (nat, nat))
    requires n < 0x1_0000_0000 && AreDigits(d) && after != [] && after[0] == 32
    requires text == Characters(Decimals(n)) + (if d == [] then [] else [46] + Characters(d))
    requires ReadsDecimals(strtoul) && forall p :: strtoul(p).1 <= |p|
    ensures SkipBlanks(text + after) == text + after && TimeOf(text + after, strtoul) == Time(n, Value(d), after)
  {
    hide Characters, Value, WithFraction, SkipBlanks;
    var head, tail := Characters(Decimals(n)), (if d == [] then [] else [46] + Characters(d)) + after;
    FirstDigit(n);
    hide Decimals;
    assert text + after == head + tail;
    NoBlanks(head + tail);
    FractionBack(n, d, tail, after);
    assert tail[0] == 32 || tail[0] == 46;
    assert ReadsNumber(strtoul, n, tail);
    assert (head + tail)[|head|..] == tail;
  }

  lemma FirstDigit(n: nat)
    ensures |Characters(Decimals(n))| == |Decimals(n)| > 0 && IsDigit(Characters(Decimals(n))[0])
  {
  }

  lemma NoBlanks(p: seq<int>)
    requires p != [] && IsDigit(p[0])
    ensures SkipBlanks(p) == p
  {
  }

  lemma FractionBack(n: nat, d: seq<nat>, tail: seq<int>, after: seq<int>)
    requires AreDigits(d) && after != [] && after[0] == 32 &&
             tail == (if d == [] then [] else [46] + Characters(d)) + after
    ensures WithFraction(n, tail) == Time(n, Value(d), after)
  {
    if d == [] {
      assert tail == after;
      NoDigits();
    } else {
      assert tail[1..] == Characters(d) + after;
      ReadBack(d, after);
      assert (Characters(d) + after)[|d|..] == after;
    }
  }
}
