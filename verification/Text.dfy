/** The string functions of Rust's standard library that the proxy relies on. */
module Text {
  import opened Net

  /** Unicode `White_Space`, as used by `str::trim` and `str::split_whitespace`. */
  predicate IsWhitespace(c: char) {
    var x := c as int;
    || 0x09 <= x <= 0x0D || x == 0x20 || x == 0x85 || x == 0xA0 || x == 0x1680
    || 0x2000 <= x <= 0x200A || x == 0x2028 || x == 0x2029 || x == 0x202F || x == 0x205F || x == 0x3000
  }

  /** In ASCII these are tab, line feed, vertical tab, form feed, carriage return and space. */
  lemma AsciiWhitespace(c: char)
    requires c as int < 0x80
    ensures IsWhitespace(c) <==> c as int in {9, 10, 11, 12, 13, 32}
  {
  }

  predicate NoWhitespace(s: string) {
    forall c <- s :: !IsWhitespace(c)
  }

  predicate IsWord(s: string) {
    s != [] && NoWhitespace(s)
  }

  function TrimStart(s: string): string {
    if s != [] && IsWhitespace(s[0]) then TrimStart(s[1..]) else s
  }

  function TrimEnd(s: string): string {
    if s != [] && IsWhitespace(s[|s| - 1]) then TrimEnd(s[..|s| - 1]) else s
  }

  function Trim(s: string): string {
    TrimEnd(TrimStart(s))
  }

  predicate IsTrimmed(s: string) {
    s != [] ==> !IsWhitespace(s[0]) && !IsWhitespace(s[|s| - 1])
  }

  /** Trimming is the identity exactly on trimmed strings, and always yields one. */
  lemma {:induction false} TrimMeaning(s: string)
    ensures IsTrimmed(Trim(s))
    ensures Trim(s) == s <==> IsTrimmed(s)
    ensures Trim(s) <= TrimStart(s) && |TrimStart(s)| <= |s|
  {
    TrimStartMeaning(s);
    TrimEndMeaning(TrimStart(s));
  }

  lemma {:induction false} TrimStartMeaning(s: string)
    ensures |TrimStart(s)| <= |s| && s[|s| - |TrimStart(s)|..] == TrimStart(s)
    ensures TrimStart(s) != [] ==> !IsWhitespace(TrimStart(s)[0])
  {
    if s != [] && IsWhitespace(s[0]) {
      TrimStartMeaning(s[1..]);
    }
  }

  lemma {:induction false} TrimEndMeaning(s: string)
    ensures TrimEnd(s) <= s
    ensures TrimEnd(s) != [] ==> !IsWhitespace(TrimEnd(s)[|TrimEnd(s)| - 1])
    ensures s != [] && !IsWhitespace(s[|s| - 1]) ==> TrimEnd(s) == s
  {
    if s != [] && IsWhitespace(s[|s| - 1]) {
      TrimEndMeaning(s[..|s| - 1]);
    }
  }

  predicate Blank(s: string) {
    forall c <- s :: IsWhitespace(c)
  }

  /** What trimming takes away is white space at both ends. */
  lemma TrimIsMiddle(s: string) returns (lead: string, trail: string)
    ensures s == lead + Trim(s) + trail && Blank(lead) && Blank(trail)
  {
    lead := StartIsRest(s);
    trail := EndIsRest(TrimStart(s));
  }

  lemma {:induction false} StartIsRest(s: string) returns (lead: string)
    ensures s == lead + TrimStart(s) && Blank(lead)
  {
    lead := [];
    if s != [] && IsWhitespace(s[0]) {
      var rest := StartIsRest(s[1..]);
      lead := [s[0]] + rest;
    }
  }

  lemma {:induction false} EndIsRest(s: string) returns (trail: string)
    ensures s == TrimEnd(s) + trail && Blank(trail)
  {
    trail := [];
    if s != [] && IsWhitespace(s[|s| - 1]) {
      var rest := EndIsRest(s[..|s| - 1]);
      trail := rest + [s[|s| - 1]];
    }
  }

  // ---- Splitting ----

  /** One more character in front of the pieces `r`. */
  function Prepend(c: char, sep: char, r: seq<string>): seq<string>
    requires r != []
  {
    if c == sep then [[]] + r else [[c] + r[0]] + r[1..]
  }

  /** `str::split`: never empty, empty pieces kept. */
  function Split(s: string, sep: char): (r: seq<string>)
    ensures r != []
  {
    if s == [] then [[]] else Prepend(s[0], sep, Split(s[1..], sep))
  }

  lemma PrependConcat(c: char, sep: char, r: seq<string>, q: seq<string>)
    requires r != []
    ensures Prepend(c, sep, r + q) == Prepend(c, sep, r) + q
  {
  }

  lemma {:induction false} SplitConcat(x: string, y: string, sep: char)
    ensures Split(x + [sep] + y, sep) == Split(x, sep) + Split(y, sep)
  {
    var s := x + [sep] + y;
    if x == [] {
      assert s[1..] == y;
    } else {
      assert s[1..] == x[1..] + [sep] + y;
      SplitConcat(x[1..], y, sep);
      PrependConcat(x[0], sep, Split(x[1..], sep), Split(y, sep));
    }
  }

  lemma {:induction false} SplitWhole(x: string, sep: char)
    requires sep !in x
    ensures Split(x, sep) == [x]
  {
    if x != [] {
      SplitWhole(x[1..], sep);
      assert [x[0]] + x[1..] == x;
    }
  }

  /** The pieces with the separator between them. */
  function Join(ps: seq<string>, sep: char): string
    requires ps != []
  {
    if |ps| == 1 then ps[0] else ps[0] + [sep] + Join(ps[1..], sep)
  }

  /** Joining undoes splitting, and no piece holds the separator. */
  lemma {:induction false} JoinOfSplit(s: string, sep: char)
    ensures Join(Split(s, sep), sep) == s
    ensures forall i :: 0 <= i < |Split(s, sep)| ==> sep !in Split(s, sep)[i]
  {
    if s != [] {
      var r := Split(s[1..], sep);
      JoinOfSplit(s[1..], sep);
      assert s == [s[0]] + s[1..];
      JoinPrepend(s[0], sep, r);
    }
  }

  /** Splitting undoes joining. */
  lemma {:induction false} SplitOfJoin(ps: seq<string>, sep: char)
    requires ps != [] && forall i :: 0 <= i < |ps| ==> sep !in ps[i]
    ensures Split(Join(ps, sep), sep) == ps
  {
    assert sep !in ps[0];
    SplitWhole(ps[0], sep);
    if |ps| > 1 {
      SplitOfJoin(ps[1..], sep);
      SplitConcat(ps[0], Join(ps[1..], sep), sep);
    }
  }

  lemma JoinPrepend(c: char, sep: char, r: seq<string>)
    requires r != []
    ensures Join(Prepend(c, sep, r), sep) == [c] + Join(r, sep)
  {
    if c == sep {
      assert ([[]] + r)[1..] == r;
    } else {
      assert ([[c] + r[0]] + r[1..])[1..] == r[1..];
    }
  }

  /** The text before the first separator. */
  function UpTo(s: string, sep: char): (r: string)
    ensures sep !in r && r <= s
    ensures |r| < |s| ==> s[|r|] == sep
  {
    if s == [] || s[0] == sep then [] else [s[0]] + UpTo(s[1..], sep)
  }

  /** `str::split_once`. */
  function SplitOnce(s: string, sep: char): Option<(string, string)> {
    var k := UpTo(s, sep);
    if |k| < |s| then Some((k, s[|k| + 1..])) else None
  }

  lemma {:induction false} UpToConcat(x: string, y: string, sep: char)
    requires sep !in x
    ensures UpTo(x + [sep] + y, sep) == x
    ensures SplitOnce(x + [sep] + y, sep) == Some((x, y))
  {
    var s := x + [sep] + y;
    if x != [] {
      assert s[1..] == x[1..] + [sep] + y;
      UpToConcat(x[1..], y, sep);
    }
  }

  lemma {:induction false} UpToWhole(s: string, sep: char)
    requires sep !in s
    ensures UpTo(s, sep) == s
  {
    if s != [] {
      UpToWhole(s[1..], sep);
    }
  }

  function WordLength(s: string): (n: nat)
    ensures n <= |s| && NoWhitespace(s[..n])
  {
    if s == [] || IsWhitespace(s[0]) then 0 else
    var n := 1 + WordLength(s[1..]);
    assert s[..n] == [s[0]] + s[1..][..n - 1];
    n
  }

  /** `str::split_whitespace`. */
  function Words(s: string): seq<string>
    decreases |s|
  {
    if s == [] then []
    else if IsWhitespace(s[0]) then Words(s[1..])
    else [s[..WordLength(s)]] + Words(s[WordLength(s)..])
  }

  lemma {:induction false} WordLengthConcat(w: string, rest: string)
    requires NoWhitespace(w) && (rest == [] || IsWhitespace(rest[0]))
    ensures WordLength(w + rest) == |w|
  {
    if w == [] {
      assert w + rest == rest;
    } else {
      assert (w + rest)[1..] == w[1..] + rest;
      WordLengthConcat(w[1..], rest);
    }
  }

  lemma WordsCons(w: string, rest: string)
    requires IsWord(w)
    ensures Words(w + " " + rest) == [w] + Words(rest)
    ensures Words(w) == [w]
  {
    WordLengthConcat(w, " " + rest);
    assert w + " " + rest == w + (" " + rest);
    assert (w + " " + rest)[|w|..] == " " + rest;
    assert (" " + rest)[1..] == rest;
    WordLengthConcat(w, []);
    assert w + [] == w;
  }

  /** Any white space separates words, however much of it. */
  lemma WordsGap(w: string, gap: string, rest: string)
    requires IsWord(w) && gap != [] && Blank(gap)
    ensures Words(w + gap + rest) == [w] + Words(rest)
    ensures Words(gap + rest) == Words(rest)
  {
    LeadingGap(gap, rest);
    WordLengthConcat(w, gap + rest);
    assert w + gap + rest == w + (gap + rest);
    assert (w + gap + rest)[|w|..] == gap + rest;
  }

  lemma {:induction false} LeadingGap(gap: string, rest: string)
    requires Blank(gap)
    ensures Words(gap + rest) == Words(rest)
  {
    if gap == [] {
      assert gap + rest == rest;
    } else {
      assert (gap + rest)[1..] == gap[1..] + rest;
      LeadingGap(gap[1..], rest);
    }
  }

  /** Words separated by single spaces. */
  function JoinWords(ws: seq<string>): string
    requires ws != []
  {
    if |ws| == 1 then ws[0] else ws[0] + " " + JoinWords(ws[1..])
  }

  lemma {:induction false} WordsOfJoin(ws: seq<string>)
    requires ws != [] && forall i :: 0 <= i < |ws| ==> IsWord(ws[i])
    ensures Words(JoinWords(ws)) == ws
  {
    assert IsWord(ws[0]);
    WordsCons(ws[0], "");
    if |ws| > 1 {
      WordsOfJoin(ws[1..]);
      WordsCons(ws[0], JoinWords(ws[1..]));
      assert ws == [ws[0]] + ws[1..];
    }
  }

  // ---- Decimal numbers ----

  predicate IsDigit(c: char) { '0' <= c <= '9' }

  function DigitValue(c: char): nat
    requires IsDigit(c)
  {
    c as int - '0' as int
  }

  function DigitChar(d: nat): (c: char)
    requires d < 10
    ensures IsDigit(c) && DigitValue(c) == d
  {
    (d + '0' as int) as char
  }

  predicate AllDigits(s: string) {
    forall c <- s :: IsDigit(c)
  }

  function Value(s: string): nat
    requires AllDigits(s)
  {
    if s == [] then 0 else Value(s[..|s| - 1]) * 10 + DigitValue(s[|s| - 1])
  }

  /** Unsigned `from_str`: an optional plus sign, at least one digit, no overflow. */
  function ParseUint(s: string, bound: nat): (r: Option<nat>)
    ensures r.Some? ==> r.value < bound
  {
    var t := if s != [] && s[0] == '+' then s[1..] else s;
    if t != [] && AllDigits(t) && Value(t) < bound then Some(Value(t)) else None
  }

  /** The canonical decimal text of `n`. */
  function Decimal(n: nat): (s: string)
    ensures s != [] && AllDigits(s) && Value(s) == n
    ensures n > 0 ==> s[0] != '0'
    ensures n < 10 ==> |s| == 1
  {
    if n < 10 then
      [DigitChar(n)]
    else
      var s := Decimal(n / 10) + [DigitChar(n % 10)];
      assert s[..|s| - 1] == Decimal(n / 10);
      s
  }

  lemma DecimalLength(n: nat)
    ensures n < 0x100 ==> |Decimal(n)| <= 3
    ensures n < 0x1_0000 ==> |Decimal(n)| <= 5
  {
    if n < 0x1_0000 {
      assert n / 10 / 10 / 10 / 10 < 10;
      assert |Decimal(n / 10 / 10 / 10)| <= 2;
      assert |Decimal(n / 10 / 10)| <= 3;
      assert |Decimal(n / 10)| <= 4;
    }
  }

  /** Digits in range are read as their value, with or without a plus sign; all else is refused. */
  lemma ParseUintIff(t: string, bound: nat, n: nat)
    requires t == [] || t[0] != '+'
    ensures ParseUint(t, bound) == ParseUint("+" + t, bound)
    ensures ParseUint(t, bound) == Some(n) <==> t != [] && AllDigits(t) && Value(t) == n && n < bound
  {
    assert ("+" + t)[1..] == t;
  }

  lemma ParseDecimal(n: nat, bound: nat)
    requires n < bound
    ensures ParseUint(Decimal(n), bound) == Some(n)
  {
    var s := Decimal(n);
    assert s[0] in s;
  }

  /** The first digit weighs most. */
  lemma {:induction false} ValueCons(c: char, s: string)
    requires IsDigit(c) && AllDigits(s)
    ensures AllDigits([c] + s) && Value([c] + s) == DigitValue(c) * Pow10(|s|) + Value(s)
  {
    assert AllDigits([c] + s);
    if s == [] {
      assert [c] + s == [c];
    } else {
      var n := |s| - 1;
      ValueCons(c, s[..n]);
      assert ([c] + s)[..n + 1] == [c] + s[..n];
      assert DigitValue(c) * Pow10(n + 1) == DigitValue(c) * Pow10(n) * 10;
    }
  }

  function Pow10(k: nat): nat {
    if k == 0 then 1 else 10 * Pow10(k - 1)
  }

  lemma ValueLast(t: string, c: char)
    requires AllDigits(t) && IsDigit(c)
    ensures AllDigits(t + [c]) && Value(t + [c]) == Value(t) * 10 + DigitValue(c)
  {
    assert (t + [c])[..|t|] == t;
  }

  /** A number without superfluous zeros is the decimal text of its value. */
  lemma {:induction false} DecimalUnique(s: string)
    requires s != [] && AllDigits(s) && (s[0] == '0' ==> |s| == 1)
    ensures s == Decimal(Value(s)) && (s[0] != '0' ==> Value(s) > 0)
  {
    if |s| == 1 {
      OneDigit(s);
    } else {
      var t, c := s[..|s| - 1], s[|s| - 1];
      DigitsOf(s);
      DecimalUnique(t);
      DecimalMore(t, c);
      assert s == t + [c];
    }
  }

  lemma DigitsOf(s: string)
    requires s != [] && AllDigits(s)
    ensures AllDigits(s[..|s| - 1]) && IsDigit(s[|s| - 1])
  {
    assert s[|s| - 1] in s;
  }

  lemma DecimalMore(t: string, c: char)
    requires AllDigits(t) && IsDigit(c) && t == Decimal(Value(t)) && Value(t) > 0
    ensures AllDigits(t + [c]) && t + [c] == Decimal(Value(t + [c])) && Value(t + [c]) > 0
  {
    ValueLast(t, c);
    DecimalStep(Value(t), c);
  }

  lemma OneDigit(s: string)
    requires |s| == 1 && AllDigits(s)
    ensures s == Decimal(Value(s)) && (s[0] != '0' ==> Value(s) > 0)
  {
    assert s[0] in s && s[..0] == [];
    assert Value(s) == DigitValue(s[0]);
    SameDigit(s[0]);
  }

  lemma SameDigit(c: char)
    requires IsDigit(c)
    ensures DigitChar(DigitValue(c)) == c
  {
  }

  lemma DecimalStep(v: nat, c: char)
    requires v > 0 && IsDigit(c)
    ensures Decimal(v * 10 + DigitValue(c)) == Decimal(v) + [c]
  {
    var d := DigitValue(c);
    assert (v * 10 + d) / 10 == v && (v * 10 + d) % 10 == d;
    SameDigit(c);
  }

  // ---- Dotted-quad addresses ----

  /** One octet: one to three digits, no superfluous leading zero. */
  function ParseOctet(s: string): Option<byte> {
    if 1 <= |s| <= 3 && AllDigits(s) && (s[0] == '0' ==> |s| == 1) && Value(s) < 0x100
    then Some(Value(s) as byte) else None
  }

  function ParseIpv4(s: string): Option<IpAddr> {
    var p := Split(s, '.');
    if |p| != 4 then None else
    match (ParseOctet(p[0]), ParseOctet(p[1]), ParseOctet(p[2]), ParseOctet(p[3]))
    case (Some(a), Some(b), Some(c), Some(d)) => Some(V4([a, b, c, d]))
    case _ => None
  }

  function PrintIpv4(ip: IpAddr): string
    requires ip.V4?
  {
    Decimal(ip.octets[0] as nat) + "." + (Decimal(ip.octets[1] as nat) + "."
    + (Decimal(ip.octets[2] as nat) + "." + Decimal(ip.octets[3] as nat)))
  }

  lemma ParseOctetDecimal(b: byte)
    ensures ParseOctet(Decimal(b as nat)) == Some(b)
    ensures '.' !in Decimal(b as nat)
  {
  }

  lemma Ipv4RoundTrip(ip: IpAddr)
    requires ip.V4?
    ensures ParseIpv4(PrintIpv4(ip)) == Some(ip)
  {
    var o := ip.octets;
    var a, b, c, d := Decimal(o[0] as nat), Decimal(o[1] as nat), Decimal(o[2] as nat), Decimal(o[3] as nat);
    forall i | 0 <= i < 4 ensures ParseOctet(Decimal(o[i] as nat)) == Some(o[i]) && '.' !in Decimal(o[i] as nat) {
      ParseOctetDecimal(o[i]);
    }
    SplitFour(a, b, c, d, '.');
    assert o == [o[0], o[1], o[2], o[3]];
  }

  /** Conversely, every text that is read as an IPv4 address is the canonical one. */
  lemma Ipv4Inverse(s: string)
    requires ParseIpv4(s).Some?
    ensures ParseIpv4(s).value.V4? && s == PrintIpv4(ParseIpv4(s).value)
  {
    var p := Split(s, '.');
    JoinOfSplit(s, '.');
    forall i | 0 <= i < 4 ensures p[i] == Decimal(ParseOctet(p[i]).value as nat) {
      DecimalUnique(p[i]);
    }
    JoinFour(p, '.');
  }

  lemma JoinFour(p: seq<string>, sep: char)
    requires |p| == 4
    ensures Join(p, sep) == p[0] + [sep] + (p[1] + [sep] + (p[2] + [sep] + p[3]))
  {
    var q, r := p[1..], p[2..];
    assert q[1..] == r && r[1..] == [p[3]];
    assert Join(r, sep) == p[2] + [sep] + p[3];
    assert Join(q, sep) == p[1] + [sep] + Join(r, sep);
  }

  lemma SplitFour(a: string, b: string, c: string, d: string, sep: char)
    requires sep !in a && sep !in b && sep !in c && sep !in d
    ensures Split(a + [sep] + (b + [sep] + (c + [sep] + d)), sep) == [a, b, c, d]
  {
    SplitWhole(a, sep);
    SplitWhole(b, sep);
    SplitWhole(c, sep);
    SplitWhole(d, sep);
    SplitConcat(c, d, sep);
    SplitConcat(b, c + [sep] + d, sep);
    SplitConcat(a, b + [sep] + (c + [sep] + d), sep);
  }

  /** The text of an IPv6 address is parsed by a function the caller supplies. */
  type Ipv6Parser = string -> Option<seq<byte>>

  /** `IpAddr::from_str`: IPv4 first, then IPv6. */
  function ParseIp(s: string, p6: Ipv6Parser): Option<IpAddr> {
    if ParseIpv4(s).Some? then ParseIpv4(s)
    else match p6(s)
      case Some(o) => if |o| == 16 then Some(V6(o)) else None
      case None => None
  }

  /** What is not an IPv4 address is an IPv6 address of sixteen bytes or none. */
  lemma ParseIpIff(s: string, p6: Ipv6Parser, ip: IpAddr)
    ensures ParseIp(s, p6) == Some(ip)
       <==> if ip.V4? then s == PrintIpv4(ip) else ParseIpv4(s).None? && p6(s) == Some(ip.octets)
  {
    if ParseIpv4(s).Some? {
      Ipv4Inverse(s);
    }
    if ip.V4? {
      Ipv4RoundTrip(ip);
    }
  }

  // ---- UTF-8 ----

  predicate IsContinuation(b: byte) { 0x80 <= b < 0xC0 }

  predicate IsScalar(x: int) { 0 <= x < 0xD800 || 0xE000 <= x < 0x11_0000 }

  /** Length and value of the well-formed sequence at the front, by the table of RFC 3629. */
  function FirstScalar(b: seq<byte>): (r: Option<(nat, int)>)
    requires b != []
    ensures r.Some? ==> 1 <= r.value.0 <= |b| && IsScalar(r.value.1)
  {
    var c: nat -> int := i => if 0 < i < |b| && IsContinuation(b[i]) then b[i] as int - 0x80 else -1;
    var b0 := b[0] as int;
    if b0 < 0x80 then Some((1, b0))
    else if 0xC2 <= b0 <= 0xDF && c(1) >= 0 then Some((2, (b0 - 0xC0) * 0x40 + c(1)))
    else if 0xE0 <= b0 <= 0xEF && c(1) >= 0 && c(2) >= 0
            && (b0 == 0xE0 ==> c(1) >= 0x20) && (b0 == 0xED ==> c(1) < 0x20)
    then Some((3, (b0 - 0xE0) * 0x1000 + c(1) * 0x40 + c(2)))
    else if 0xF0 <= b0 <= 0xF4 && c(1) >= 0 && c(2) >= 0 && c(3) >= 0
            && (b0 == 0xF0 ==> c(1) >= 0x10) && (b0 == 0xF4 ==> c(1) < 0x10)
    then Some((4, (b0 - 0xF0) * 0x4_0000 + c(1) * 0x1000 + c(2) * 0x40 + c(3)))
    else None
  }

  /** `str::from_utf8`. */
  function DecodeUtf8(b: seq<byte>): Option<string>
    decreases |b|
  {
    if b == [] then Some([])
    else match FirstScalar(b)
      case None => None
      case Some((n, x)) =>
        match DecodeUtf8(b[n..])
        case None => None
        case Some(s) => Some([x as char] + s)
  }

  /** The UTF-8 form of a scalar value: section 3 of RFC 3629. */
  function EncodeScalar(x: int): (b: seq<byte>)
    requires IsScalar(x)
    ensures 1 <= |b| <= 4
  {
    if x < 0x80 then [x as byte]
    else if x < 0x800 then [(0xC0 + x / 0x40) as byte, Continuation(x)]
    else if x < 0x1_0000 then [(0xE0 + x / 0x40 / 0x40) as byte, Continuation(x / 0x40), Continuation(x)]
    else
      [(0xF0 + x / 0x40 / 0x40 / 0x40) as byte, Continuation(x / 0x40 / 0x40), Continuation(x / 0x40), Continuation(x)]
  }

  /** The six lowest bits. */
  function Continuation(x: nat): (b: byte)
    ensures IsContinuation(b) && b as int - 0x80 == x % 0x40
  {
    (0x80 + x % 0x40) as byte
  }

  function EncodeUtf8(s: string): seq<byte> {
    if s == [] then [] else EncodeScalar(s[0] as int) + EncodeUtf8(s[1..])
  }

  lemma FirstScalarOf(x: int, tail: seq<byte>)
    requires IsScalar(x)
    ensures FirstScalar(EncodeScalar(x) + tail) == Some((|EncodeScalar(x)|, x))
  {
    var e := EncodeScalar(x);
    var b := e + tail;
    assert b[0] == e[0];
    if x >= 0x80 {
      assert b[1] == e[1];
      if x >= 0x800 {
        assert b[2] == e[2];
        if x >= 0x1_0000 {
          assert b[3] == e[3];
          FourBytes(b, x);
        } else {
          ThreeBytes(b, x);
        }
      }
    }
  }

  lemma ThreeBytes(b: seq<byte>, x: int)
    requires 0x800 <= x < 0x1_0000 && IsScalar(x) && |b| >= 3
    requires b[0] as int == 0xE0 + x / 0x40 / 0x40 && b[1] == Continuation(x / 0x40) && b[2] == Continuation(x)
    ensures FirstScalar(b) == Some((3, x))
  {
    Ranges(x);
  }

  lemma FourBytes(b: seq<byte>, x: int)
    requires 0x1_0000 <= x < 0x11_0000 && |b| >= 4
    requires b[0] as int == 0xF0 + x / 0x40 / 0x40 / 0x40 && b[1] == Continuation(x / 0x40 / 0x40)
    requires b[2] == Continuation(x / 0x40) && b[3] == Continuation(x)
    ensures FirstScalar(b) == Some((4, x))
  {
    Ranges(x);
  }

  /** A number from its base-64 digits, and what its size says about them. */
  lemma Ranges(x: nat)
    ensures var y := x / 0x40; var z := y / 0x40; var w := z / 0x40;
            && x == y * 0x40 + x % 0x40 && y == z * 0x40 + y % 0x40 && z == w * 0x40 + z % 0x40
            && (x >= 0x800 <==> z > 0 || y % 0x40 >= 0x20)
            && (x < 0x1_0000 <==> z < 0x10)
            && (0xD800 <= x < 0xE000 <==> z == 0xD && y % 0x40 >= 0x20)
            && (x >= 0x1_0000 <==> w > 0 || z % 0x40 >= 0x10)
            && (x < 0x11_0000 <==> w < 4 || (w == 4 && z % 0x40 < 0x10))
  {
  }

  lemma FirstScalarInverse(b: seq<byte>)
    requires b != [] && FirstScalar(b).Some?
    ensures b[..FirstScalar(b).value.0] == EncodeScalar(FirstScalar(b).value.1)
  {
    var (n, x) := FirstScalar(b).value;
    if n == 1 {
      assert b[..1] == [b[0]];
    } else if n == 2 {
      assert b[..2] == [b[0], b[1]];
      TwoBack(b[0], b[1]);
    } else if n == 3 {
      assert b[..3] == [b[0], b[1], b[2]];
      ThreeBack(b[0], b[1], b[2]);
    } else {
      assert b[..4] == [b[0], b[1], b[2], b[3]];
      FourBack(b[0], b[1], b[2], b[3]);
    }
  }

  lemma Digits(x: nat, hi: nat, lo: nat)
    requires x == hi * 0x40 + lo && lo < 0x40
    ensures x / 0x40 == hi && x % 0x40 == lo
  {
  }

  lemma TwoBack(p: byte, q: byte)
    requires 0xC2 <= p <= 0xDF && IsContinuation(q)
    ensures var x := (p as int - 0xC0) * 0x40 + (q as int - 0x80); IsScalar(x) && EncodeScalar(x) == [p, q]
  {
    Digits((p as int - 0xC0) * 0x40 + (q as int - 0x80), p as int - 0xC0, q as int - 0x80);
  }

  lemma ThreeBack(p: byte, q: byte, r: byte)
    requires 0xE0 <= p <= 0xEF && IsContinuation(q) && IsContinuation(r)
    requires (p == 0xE0 ==> q >= 0xA0) && (p == 0xED ==> q < 0xA0)
    ensures var x := (p as int - 0xE0) * 0x1000 + (q as int - 0x80) * 0x40 + (r as int - 0x80);
            IsScalar(x) && EncodeScalar(x) == [p, q, r]
  {
    var y := (p as int - 0xE0) * 0x40 + (q as int - 0x80);
    Digits(y, p as int - 0xE0, q as int - 0x80);
    Digits(y * 0x40 + (r as int - 0x80), y, r as int - 0x80);
  }

  lemma FourBack(p: byte, q: byte, r: byte, t: byte)
    requires 0xF0 <= p <= 0xF4 && IsContinuation(q) && IsContinuation(r) && IsContinuation(t)
    requires (p == 0xF0 ==> q >= 0x90) && (p == 0xF4 ==> q < 0x90)
    ensures var x := (p as int - 0xF0) * 0x4_0000 + (q as int - 0x80) * 0x1000
                     + (r as int - 0x80) * 0x40 + (t as int - 0x80);
            IsScalar(x) && EncodeScalar(x) == [p, q, r, t]
  {
    var z := (p as int - 0xF0) * 0x40 + (q as int - 0x80);
    var y := z * 0x40 + (r as int - 0x80);
    Digits(z, p as int - 0xF0, q as int - 0x80);
    Digits(y, z, r as int - 0x80);
    Digits(y * 0x40 + (t as int - 0x80), y, t as int - 0x80);
  }

  /** Every text is the decoding of its UTF-8 form. */
  lemma {:induction false} Utf8RoundTrip(s: string)
    ensures DecodeUtf8(EncodeUtf8(s)) == Some(s)
  {
    if s != [] {
      var e, rest := EncodeScalar(s[0] as int), EncodeUtf8(s[1..]);
      Utf8RoundTrip(s[1..]);
      FirstScalarOf(s[0] as int, rest);
      assert (e + rest)[|e|..] == rest;
      assert s == [s[0]] + s[1..];
    }
  }

  /** Bytes that decode are the UTF-8 form of the result. */
  lemma {:induction false} Utf8Inverse(b: seq<byte>)
    requires DecodeUtf8(b).Some?
    ensures b == EncodeUtf8(DecodeUtf8(b).value)
    decreases |b|
  {
    if b != [] {
      var n := FirstScalar(b).value.0;
      FirstScalarInverse(b);
      Utf8Inverse(b[n..]);
      var t := DecodeUtf8(b[n..]).value;
      assert DecodeUtf8(b).value[1..] == t;
      assert b == b[..n] + b[n..];
    }
  }

  predicate IsAscii(s: string) {
    forall c <- s :: c as int < 0x80
  }

  function Ascii(s: string): (b: seq<byte>)
    requires IsAscii(s)
    ensures |b| == |s| && forall i :: 0 <= i < |s| ==> b[i] as int == s[i] as int
  {
    seq(|s|, i requires 0 <= i < |s| => assert s[i] in s; (s[i] as int) as byte)
  }

  lemma {:induction false} AsciiIsUtf8(s: string)
    requires IsAscii(s)
    ensures DecodeUtf8(Ascii(s)) == Some(s)
  {
    if s != [] {
      assert forall c <- s[1..] :: c in s;
      AsciiIsUtf8(s[1..]);
      assert s[0] in s;
      assert Ascii(s)[1..] == Ascii(s[1..]);
      DecodeAsciiFirst(Ascii(s));
      assert s == [s[0]] + s[1..];
    }
  }

  lemma DecodeAsciiFirst(b: seq<byte>)
    requires b != [] && b[0] < 0x80
    ensures DecodeUtf8(b[1..]).Some? ==> DecodeUtf8(b) == Some([b[0] as int as char] + DecodeUtf8(b[1..]).value)
  {
    AsciiFirst(b);
  }

  lemma AsciiFirst(b: seq<byte>)
    requires b != [] && b[0] < 0x80
    ensures FirstScalar(b) == Some((1, b[0] as int))
  {
  }
}
