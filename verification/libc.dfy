/**
 * The two C library parsers the service compiler relies on, as OpenBSD's
 * libc defines them: `strtonum` for the port and `inet_pton(AF_INET, ...)`
 * for the address, with decimal and dotted-quad rendering as their partners.
 * A character stands for one byte of the C string.
 */
module Libc {
  import opened Wrappers

  predicate IsDigit(c: char) {
    '0' <= c <= '9'
  }

  function DigitValue(c: char): (d: nat)
    requires IsDigit(c)
    ensures d < 10
  {
    (c as int) - ('0' as int)
  }

  function DigitChar(d: nat): (c: char)
    requires d < 10
    ensures IsDigit(c) && DigitValue(c) == d
  {
    (('0' as int) + d) as char
  }

  predicate AllDigits(s: string) {
    forall i | 0 <= i < |s| :: IsDigit(s[i])
  }

  /** The C locale's isspace: space, tab, newline, vertical tab, form feed, carriage return. */
  predicate IsSpace(c: char) {
    c == ' ' || c == '\t' || c == '\n' || c as int == 11 || c as int == 12 || c == '\r'
  }

  /** The value of a string of decimal digits, most significant first. */
  function DecimalValue(ds: string): nat
    requires AllDigits(ds)
  {
    if ds == [] then 0 else DecimalValue(ds[..|ds| - 1]) * 10 + DigitValue(ds[|ds| - 1])
  }

  /** The shortest decimal rendering of n, as printf's %d writes it. */
  function Decimal(n: nat): (s: string)
    ensures |s| > 0 && AllDigits(s) && DecimalValue(s) == n
    ensures n < 10 ==> |s| == 1
  {
    if n < 10 then [DigitChar(n)]
    else
      var front := Decimal(n / 10);
      var s := front + [DigitChar(n % 10)];
      assert s[..|s| - 1] == front;
      s
  }

  function SkipSpace(s: string): (t: string)
    ensures |t| <= |s| && t == s[|s| - |t|..]
    ensures t != [] ==> !IsSpace(t[0])
  {
    if s != [] && IsSpace(s[0]) then SkipSpace(s[1..]) else s
  }

  /** The error strings strtonum reports: "invalid", "too small", "too large". */
  datatype NumError = Invalid | TooSmall | TooLarge

  /** strtonum's range check on the value strtoll read. */
  function InRange(v: int, lo: int, hi: int): Result<int, NumError> {
    if v < lo then Failure(TooSmall)
    else if v > hi then Failure(TooLarge)
    else Success(v)
  }

  /**
   * strtonum(s, lo, hi): strtoll in base 10 (leading white space, an optional
   * sign, at least one digit, nothing after the digits), then the range check.
   * With unbounded integers a value beyond long long is simply out of range,
   * which is the verdict strtoll's saturation gives as well.
   */
  function StrToNum(s: string, lo: int, hi: int): (r: Result<int, NumError>)
    ensures r.Success? ==> lo <= r.value <= hi
  {
    if lo > hi then Failure(Invalid)
    else
      var t := SkipSpace(s);
      var signed := |t| > 0 && (t[0] == '-' || t[0] == '+');
      var digits := if signed then t[1..] else t;
      if digits == [] || !AllDigits(digits) then Failure(Invalid)
      else
        var v: int := if signed && t[0] == '-' then -(DecimalValue(digits) as int) else DecimalValue(digits);
        InRange(v, lo, hi)
  }

  /** A plain run of digits is read as its decimal value, then range-checked. */
  lemma StrToNumOfDigits(ds: string, lo: int, hi: int)
    requires lo <= hi && ds != [] && AllDigits(ds)
    ensures StrToNum(ds, lo, hi) == InRange(DecimalValue(ds), lo, hi)
  {
    assert IsDigit(ds[0]) && !IsSpace(ds[0]);
    assert SkipSpace(ds) == ds;
  }

  /** strtonum reads back every decimal rendering: in range it yields the number, above the range "too large". */
  lemma StrToNumOfDecimal(n: nat, lo: int, hi: int)
    requires lo <= hi && lo <= n
    ensures n <= hi ==> StrToNum(Decimal(n), lo, hi) == Success(n)
    ensures n > hi ==> StrToNum(Decimal(n), lo, hi) == Failure(TooLarge)
  {
    StrToNumOfDigits(Decimal(n), lo, hi);
  }

  /** strtonum accepts only [white space][sign]digits, with nothing after the digits. */
  lemma StrToNumShape(s: string, lo: int, hi: int)
    requires StrToNum(s, lo, hi).Success?
    ensures exists k :: 0 <= k < |s| && AllDigits(s[k..]) && |s[k..]| > 0
  {
    var t := SkipSpace(s);
    var signed := |t| > 0 && (t[0] == '-' || t[0] == '+');
    var k := if signed then |s| - |t| + 1 else |s| - |t|;
    assert s[k..] == (if signed then t[1..] else t);
  }

  type Octet = x: int | 0 <= x < 256

  datatype Ipv4 = Ipv4(a: Octet, b: Octet, c: Octet, d: Octet)

  /**
   * The state of OpenBSD's inet_pton4 scanner: the octets finished before the
   * current slot, the value accumulated in the current slot, whether the slot
   * has seen a digit, and how many slots have begun.
   */
  datatype PtonState =
    | Scanning(done: seq<Octet>, cur: Octet, sawDigit: bool, octets: nat)
    | Rejected

  /** The scanner's bookkeeping: a slot without digits is empty, and at most four slots begin. */
  predicate PtonInv(st: PtonState) {
    st.Scanning? ==>
      st.octets <= 4 &&
      if st.sawDigit then |st.done| + 1 == st.octets
      else |st.done| == st.octets && st.octets < 4 && st.cur == 0
  }

  /** One character of inet_pton4's loop. */
  function PtonStep(st: PtonState, ch: char): (r: PtonState)
    requires PtonInv(st)
    ensures PtonInv(r)
  {
    match st
    case Rejected => Rejected
    case Scanning(done, cur, saw, octets) =>
      if IsDigit(ch) then
        var next := cur * 10 + DigitValue(ch);
        if next > 255 then Rejected
        else if !saw && octets + 1 > 4 then Rejected
        else Scanning(done, next, true, if saw then octets else octets + 1)
      else if ch == '.' && saw then
        if octets == 4 then Rejected else Scanning(done + [cur], 0, false, octets)
      else Rejected
  }

  function PtonScan(st: PtonState, s: string): (r: PtonState)
    requires PtonInv(st)
    ensures PtonInv(r)
    decreases |s|
  {
    if s == [] then st else PtonScan(PtonStep(st, s[0]), s[1..])
  }

  const PtonStart := Scanning([], 0, false, 0)

  /** inet_pton(AF_INET, s, &addr) == 1, with the address it stores. */
  function InetPton4(s: string): Option<Ipv4> {
    var st := PtonScan(PtonStart, s);
    if st.Rejected? || st.octets < 4 then None
    else Some(Ipv4(st.done[0], st.done[1], st.done[2], st.cur))
  }

  /** inet_ntop's dotted-quad rendering of an address. */
  function FormatIpv4(a: Ipv4): string {
    Decimal(a.a) + "." + Decimal(a.b) + "." + Decimal(a.c) + "." + Decimal(a.d)
  }

  lemma {:induction false} PtonScanAppend(st: PtonState, s: string, t: string)
    requires PtonInv(st)
    ensures PtonScan(st, s + t) == PtonScan(PtonScan(st, s), t)
    decreases |s|
  {
    if s != [] {
      assert (s + t)[0] == s[0] && (s + t)[1..] == s[1..] + t;
      PtonScanAppend(PtonStep(st, s[0]), s[1..], t);
    } else {
      assert s + t == t;
    }
  }

  /** Scanning the rendering of an octet into an empty slot fills that slot with it. */
  lemma {:induction false} PtonScanDecimal(done: seq<Octet>, n: Octet)
    requires |done| < 4
    ensures PtonScan(Scanning(done, 0, false, |done|), Decimal(n)) == Scanning(done, n, true, |done| + 1)
  {
    var st := Scanning(done, 0, false, |done|);
    if n < 10 {
      assert Decimal(n) == [DigitChar(n)];
    } else {
      var front := Decimal(n / 10);
      assert Decimal(n) == front + [DigitChar(n % 10)];
      PtonScanDecimal(done, n / 10);
      PtonScanAppend(st, front, [DigitChar(n % 10)]);
    }
  }

  lemma PtonScanDot(done: seq<Octet>, n: Octet)
    requires |done| < 3
    ensures PtonScan(Scanning(done, n, true, |done| + 1), ".") == Scanning(done + [n], 0, false, |done| + 1)
  {
  }

  /** inet_pton reads back inet_ntop's rendering of every address. */
  lemma PtonOfFormat(a: Ipv4)
    ensures InetPton4(FormatIpv4(a)) == Some(a)
  {
    var s0 := PtonStart;
    var s1 := Scanning([], a.a, true, 1);
    var s2 := Scanning([a.a], 0, false, 1);
    var s3 := Scanning([a.a], a.b, true, 2);
    var s4 := Scanning([a.a, a.b], 0, false, 2);
    var s5 := Scanning([a.a, a.b], a.c, true, 3);
    var s6 := Scanning([a.a, a.b, a.c], 0, false, 3);
    var s7 := Scanning([a.a, a.b, a.c], a.d, true, 4);
    var p1 := Decimal(a.a);
    var p2 := p1 + ".";
    var p3 := p2 + Decimal(a.b);
    var p4 := p3 + ".";
    var p5 := p4 + Decimal(a.c);
    var p6 := p5 + ".";
    var p7 := p6 + Decimal(a.d);
    assert p7 == FormatIpv4(a);
    assert PtonScan(s0, p1) == s1 by { PtonScanDecimal([], a.a); }
    assert PtonScan(s0, p2) == s2 by { PtonScanAppend(s0, p1, "."); PtonScanDot([], a.a); }
    assert PtonScan(s0, p3) == s3 by { PtonScanAppend(s0, p2, Decimal(a.b)); PtonScanDecimal([a.a], a.b); }
    assert PtonScan(s0, p4) == s4 by { PtonScanAppend(s0, p3, "."); PtonScanDot([a.a], a.b); }
    assert PtonScan(s0, p5) == s5 by { PtonScanAppend(s0, p4, Decimal(a.c)); PtonScanDecimal([a.a, a.b], a.c); }
    assert PtonScan(s0, p6) == s6 by { PtonScanAppend(s0, p5, "."); PtonScanDot([a.a, a.b], a.c); }
    assert PtonScan(s0, p7) == s7 by { PtonScanAppend(s0, p6, Decimal(a.d)); PtonScanDecimal([a.a, a.b, a.c], a.d); }
  }
}
