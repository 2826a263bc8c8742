/** The name of the compiled schedule the Jerasure bridge loads
    (deploy/tvm_jerasure.cc): `"/P_" + m + "_n_" + packetsize + "_D_" + k + ".so"`,
    each number written in decimal by `std::to_string`. The parser is the name's
    inverse: it shows that distinct shapes never share a schedule file. */
module ScheduleName {

  datatype Option<T> = None | Some(value: T)

  /** The three numbers a schedule is tuned for. */
  datatype ScheduleKey = ScheduleKey(m: nat, packetsize: nat, k: nat)

  predicate IsDigit(c: char) {
    '0' <= c <= '9'
  }

  predicate AllDigits(s: string) {
    forall i :: 0 <= i < |s| ==> IsDigit(s[i])
  }

  /** A decimal numeral as `std::to_string` writes a non-negative number: at least one
      digit, and no leading zero unless the numeral is `0` itself. */
  predicate Canonical(s: string) {
    |s| > 0 && AllDigits(s) && (|s| > 1 ==> s[0] != '0')
  }

  function DigitChar(d: nat): (c: char)
    requires d < 10
    ensures IsDigit(c)
    ensures c as int - '0' as int == d
  {
    ('0' as int + d) as char
  }

  function DigitValue(c: char): (d: nat)
    requires IsDigit(c)
    ensures d < 10
  {
    c as int - '0' as int
  }

  /** `std::to_string` of a non-negative number. */
  function NatToString(n: nat): (s: string)
    ensures Canonical(s)
    ensures n < 10 <==> |s| == 1
  {
    if n < 10 then [DigitChar(n)] else NatToString(n / 10) + [DigitChar(n % 10)]
  }

  /** The number a string of decimal digits denotes. */
  function DigitsValue(s: string): nat
    requires AllDigits(s)
  {
    if |s| == 0 then 0 else DigitsValue(s[..|s| - 1]) * 10 + DigitValue(s[|s| - 1])
  }

  lemma {:induction false} NatToStringValue(n: nat)
    ensures DigitsValue(NatToString(n)) == n
  {
    if n >= 10 {
      var s := NatToString(n);
      NatToStringValue(n / 10);
      assert s[..|s| - 1] == NatToString(n / 10);
    }
  }

  /** A numeral with a nonzero leading digit denotes a positive number. */
  lemma {:induction false} LeadingDigitPositive(s: string)
    requires |s| > 0 && AllDigits(s) && s[0] != '0'
    ensures DigitsValue(s) > 0
  {
    if |s| > 1 {
      LeadingDigitPositive(s[..|s| - 1]);
    }
  }

  /** A canonical numeral is exactly how its value is written. */
  lemma {:induction false} ValueToString(s: string)
    requires Canonical(s)
    ensures NatToString(DigitsValue(s)) == s
  {
    if |s| > 1 {
      var front, d := s[..|s| - 1], DigitValue(s[|s| - 1]);
      LeadingDigitPositive(front);
      ValueToString(front);
      var n := DigitsValue(s);
      assert n == DigitsValue(front) * 10 + d;
      assert n / 10 == DigitsValue(front) && n % 10 == d;
      assert s == front + [DigitChar(d)];
    }
  }

  /** The length of the run of digits at the start of `s`. */
  function DigitRun(s: string): (n: nat)
    ensures n <= |s|
    ensures AllDigits(s[..n])
    ensures n < |s| ==> !IsDigit(s[n])
  {
    if |s| == 0 || !IsDigit(s[0]) then 0
    else
      var tail := DigitRun(s[1..]);
      assert s[..1 + tail] == [s[0]] + s[1..][..tail];
      1 + tail
  }

  /** A run of digits followed by a non-digit (or nothing) is exactly that run. */
  lemma {:induction false} DigitRunOf(digits: string, rest: string)
    requires AllDigits(digits)
    requires |rest| > 0 ==> !IsDigit(rest[0])
    ensures DigitRun(digits + rest) == |digits|
  {
    if |digits| > 0 {
      DigitRunOf(digits[1..], rest);
      assert (digits + rest)[1..] == digits[1..] + rest;
    }
  }

  /** Reads one canonical numeral off the front of `s`, returning its value and the rest. */
  function ParseNumber(s: string): (r: Option<(nat, string)>)
    ensures r.Some? ==> |r.value.1| < |s|
  {
    var n := DigitRun(s);
    if n == 0 || (n > 1 && s[0] == '0') then None else Some((DigitsValue(s[..n]), s[n..]))
  }

  lemma ParseNumberOf(n: nat, rest: string)
    requires |rest| > 0 ==> !IsDigit(rest[0])
    ensures ParseNumber(NatToString(n) + rest) == Some((n, rest))
  {
    var digits := NatToString(n);
    DigitRunOf(digits, rest);
    assert (digits + rest)[..|digits|] == digits;
    assert (digits + rest)[|digits|..] == rest;
    NatToStringValue(n);
  }

  lemma ParseNumberSplits(s: string)
    requires ParseNumber(s).Some?
    ensures s == NatToString(ParseNumber(s).value.0) + ParseNumber(s).value.1
  {
    var n := DigitRun(s);
    ValueToString(s[..n]);
    assert s == s[..n] + s[n..];
  }

  /** `literal` stands at the start of `s`. */
  predicate StartsWith(s: string, literal: string) {
    |literal| <= |s| && s[..|literal|] == literal
  }

  /** The file name the bridge appends to the schedule directory. */
  function FileName(key: ScheduleKey): (name: string)
    ensures StartsWith(name, "/P_")
    ensures |name| >= 3 && name[|name| - 3..] == ".so"
  {
    "/P_" + NatToString(key.m) + "_n_" + NatToString(key.packetsize) + "_D_" + NatToString(key.k) + ".so"
  }

  /** Reads `literal` followed by one canonical numeral off the front of `s`. */
  function ParseField(s: string, literal: string): (r: Option<(nat, string)>)
  {
    if !StartsWith(s, literal) then None else ParseNumber(s[|literal|..])
  }

  lemma ParseFieldOf(literal: string, n: nat, rest: string)
    requires |rest| > 0 ==> !IsDigit(rest[0])
    ensures ParseField(literal + NatToString(n) + rest, literal) == Some((n, rest))
  {
    var s := literal + NatToString(n) + rest;
    assert s[..|literal|] == literal;
    assert s[|literal|..] == NatToString(n) + rest;
    ParseNumberOf(n, rest);
  }

  lemma ParseFieldSplits(s: string, literal: string)
    requires ParseField(s, literal).Some?
    ensures s == literal + NatToString(ParseField(s, literal).value.0) + ParseField(s, literal).value.1
  {
    var after := s[|literal|..];
    ParseNumberSplits(after);
    assert s == literal + after;
  }

  /** Recovers the three numbers from a schedule file name, or `None` when `name` is not
      one the bridge would build. */
  function ParseFileName(name: string): (r: Option<ScheduleKey>)
  {
    match ParseField(name, "/P_")
    case None => None
    case Some((m, afterM)) =>
      match ParseField(afterM, "_n_")
      case None => None
      case Some((packetsize, afterN)) =>
        match ParseField(afterN, "_D_")
        case None => None
        case Some((k, afterK)) =>
          if afterK == ".so" then Some(ScheduleKey(m, packetsize, k)) else None
  }

  /** The file name read as three fields, each a literal and a numeral, then `.so`. */
  lemma FileNameFields(key: ScheduleKey)
    ensures FileName(key)
         == "/P_" + NatToString(key.m) + ("_n_" + NatToString(key.packetsize) + ("_D_" + NatToString(key.k) + ".so"))
  {
    var a, b, c := NatToString(key.m), NatToString(key.packetsize), NatToString(key.k);
    var afterN := "_D_" + c + ".so";
    assert "/P_" + a + "_n_" + b + "_D_" + c + ".so" == "/P_" + a + "_n_" + b + afterN;
    assert "/P_" + a + "_n_" + b + afterN == "/P_" + a + ("_n_" + b + afterN);
  }

  /** Every schedule name parses back to the numbers it was built from. */
  lemma ParseFileNameRoundTrip(key: ScheduleKey)
    ensures ParseFileName(FileName(key)) == Some(key)
  {
    var afterK := ".so";
    var afterN := "_D_" + NatToString(key.k) + afterK;
    var afterM := "_n_" + NatToString(key.packetsize) + afterN;
    FileNameFields(key);
    ParseFieldOf("/P_", key.m, afterM);
    ParseFieldOf("_n_", key.packetsize, afterN);
    ParseFieldOf("_D_", key.k, afterK);
  }

  /** Every name the parser accepts is the name built from the numbers it returns. */
  lemma ParsedNameIsFileName(name: string)
    requires ParseFileName(name).Some?
    ensures FileName(ParseFileName(name).value) == name
  {
    var (m, afterM) := ParseField(name, "/P_").value;
    var (packetsize, afterN) := ParseField(afterM, "_n_").value;
    var (k, afterK) := ParseField(afterN, "_D_").value;
    ParseFieldSplits(name, "/P_");
    ParseFieldSplits(afterM, "_n_");
    ParseFieldSplits(afterN, "_D_");
    FileNameFields(ScheduleKey(m, packetsize, k));
  }

  /** Distinct shapes load distinct schedule files. */
  lemma FileNameInjective(key: ScheduleKey, key': ScheduleKey)
    ensures FileName(key) == FileName(key') <==> key == key'
  {
    ParseFileNameRoundTrip(key);
    ParseFileNameRoundTrip(key');
  }
}
