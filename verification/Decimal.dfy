/** std::to_string on integers, and the "ip:port" keys built from it. */
module Decimal {

  const DIGITS: string := "0123456789"

  function Digits(n: nat): (s: string)
    ensures |s| >= 1
  {
    if n < 10 then [DIGITS[n]] else Digits(n / 10) + [DIGITS[n % 10]]
  }

  function ToString(n: int): (s: string)
  {
    if n < 0 then "-" + Digits(-n) else Digits(n)
  }

  /** "ip:port" */
  function Destination(ip: string, port: int): string {
    ip + ":" + ToString(port)
  }

  function DigitValue(c: char): nat {
    if '0' <= c <= '9' then (c - '0') as nat else 0
  }

  function Value(s: string): nat
  {
    if s == "" then 0 else 10 * Value(s[..|s| - 1]) + DigitValue(s[|s| - 1])
  }

  lemma DigitsOf(d: nat)
    requires d < 10
    ensures DigitValue(DIGITS[d]) == d && DIGITS[d] != '-' && DIGITS[d] != ':'
  {
  }

  lemma {:induction false} DigitsRoundTrip(n: nat)
    ensures Value(Digits(n)) == n
    ensures forall c :: c in Digits(n) ==> '0' <= c <= '9'
    ensures |Digits(n)| == 1 || Digits(n)[0] != '0'
    ensures n > 0 ==> Digits(n)[0] != '0'
    ensures '-' !in Digits(n) && ':' !in Digits(n)
  {
    if n < 10 {
      DigitsOf(n);
      assert Digits(n)[..0] == "";
    } else {
      DigitsOf(n % 10);
      DigitsRoundTrip(n / 10);
      assert Digits(n)[..|Digits(n)| - 1] == Digits(n / 10);
    }
  }

  lemma SignAndDigits(n: int)
    ensures var s := ToString(n);
            && s != "" && (s[0] == '-' <==> n < 0)
            && Value(if n < 0 then s[1..] else s) == if n < 0 then -n else n
  {
    var m := if n < 0 then -n else n;
    DigitsRoundTrip(m);
    assert Digits(m)[0] in Digits(m);
    assert ("-" + Digits(m))[1..] == Digits(m);
  }

  lemma ToStringInjective(m: int, n: int)
    requires ToString(m) == ToString(n)
    ensures m == n
  {
    SignAndDigits(m);
    SignAndDigits(n);
  }

  lemma NoColon(n: int)
    ensures ':' !in ToString(n)
  {
    DigitsRoundTrip(if n < 0 then -n else n);
  }

  lemma LastColon(a: string, s: string)
    requires ':' !in s
    ensures var x := a + ":" + s;
            x[|a|] == ':' && forall k :: |a| < k < |x| ==> x[k] != ':'
  {
    var x := a + ":" + s;
    assert forall k :: |a| < k < |x| ==> x[k] == s[k - |a| - 1];
  }

  lemma SuffixDetermined(a: string, b: string, s: string, t: string)
    requires a + ":" + s == b + ":" + t && ':' !in s && ':' !in t
    ensures a == b && s == t
  {
    var x, y := a + ":" + s, b + ":" + t;
    LastColon(a, s);
    LastColon(b, t);
    assert a == x[..|a|] && b == y[..|b|] && s == x[|a| + 1..] && t == y[|b| + 1..];
  }

  /**
   The decimal notation of an integer: a minus sign for a negative one, then digits without a leading
   zero whose value is the absolute value; the key is the IP, a colon and this notation.
   */
  lemma DestinationIsDecimal(ip: string, port: int)
    ensures
      var s := ToString(port);
      var digits := if port < 0 then s[1..] else s;
      && (port < 0 ==> s[0] == '-')
      && digits != "" && (forall c :: c in digits ==> '0' <= c <= '9')
      && (digits == "0" || digits[0] != '0')
      && Value(digits) == (if port < 0 then -port else port)
      && Destination(ip, port) == ip + ":" + s
  {
    var m := if port < 0 then -port else port;
    DigitsRoundTrip(m);
    assert ("-" + Digits(m))[1..] == Digits(m);
  }

  lemma ExampleDestination()
    ensures Destination("10.0.0.1", 8080) == "10.0.0.1:8080" && Destination("", -7) == ":-7"
  {
    assert Digits(8) == "8" && Digits(80) == "80" && Digits(808) == "808";
  }

  /** The key determines the IP and the port, for every IP string, colons or not. */
  lemma DestinationInjective(ip: string, port: int, ip': string, port': int)
    requires Destination(ip, port) == Destination(ip', port')
    ensures ip == ip' && port == port'
  {
    NoColon(port);
    NoColon(port');
    SuffixDetermined(ip, ip', ToString(port), ToString(port'));
    ToStringInjective(port, port');
  }
}
