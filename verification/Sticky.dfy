/** Cookie affinity: the Set-Cookie value and `extract_cookie` of src/proxy/handler.rs. */
module Sticky {
  import opened Net
  import opened Text
  import opened LoadBalancer
  import opened Retry

  /** Characters a header value may hold as text. */
  predicate Visible(s: string) {
    forall c <- s :: 0x20 <= c as int < 0x7F || c == '\t'
  }

  // ---- Printer and parser ----

  function CookieText(name: string, address: string, maxAge: nat): string {
    name + "=" + address + "; Path=/; Max-Age=" + Decimal(maxAge) + "; HttpOnly; SameSite=Lax"
  }

  /** No cookie is set when the text is not a valid header value. */
  function SetCookie(name: string, address: string, maxAge: nat): Option<string> {
    var t := CookieText(name, address, maxAge);
    if Visible(t) then Some(t) else None
  }

  /** The value of one `name=value` part, if the name is the wanted one. */
  function PartValue(part: string, name: string): Option<string> {
    match SplitOnce(Trim(part), '=')
    case Some((k, v)) => if Trim(k) == name then Some(Trim(v)) else None
    case None => None
  }

  function FirstValue(parts: seq<string>, name: string): Option<string> {
    if parts == [] then None
    else if PartValue(parts[0], name).Some? then PartValue(parts[0], name)
    else FirstValue(parts[1..], name)
  }

  /** Only the first Cookie header of a request is read. */
  function ExtractCookie(headers: seq<string>, name: string): Option<string> {
    if headers == [] || !Visible(headers[0]) then None else FirstValue(Split(headers[0], ';'), name)
  }

  // ---- The user agent ----

  /** Section 5.2 of RFC 6265: the pair is the text before the first semicolon. */
  function StoredPair(setCookie: string): string {
    UpTo(setCookie, ';')
  }

  /** Section 5.4 of RFC 6265: the pairs are joined by a semicolon and a space. */
  function CookieHeader(pairs: seq<string>): string
    requires pairs != []
  {
    if |pairs| == 1 then pairs[0] else pairs[0] + ";" + (" " + CookieHeader(pairs[1..]))
  }

  // ---- Trimming facts ----

  /** Trailing white space is immaterial to `Trim`. */
  lemma TrimTrailing(s: string, c: char)
    requires IsWhitespace(c)
    ensures Trim(s + [c]) == Trim(s)
  {
    TrimStartAppend(s, c);
    assert (TrimStart(s) + [c])[..|TrimStart(s)|] == TrimStart(s);
  }

  lemma {:induction false} TrimStartAppend(s: string, c: char)
    requires IsWhitespace(c)
    ensures TrimStart(s + [c]) == if TrimStart(s) == [] then [] else TrimStart(s) + [c]
  {
    if s == [] {
      assert (s + [c])[1..] == [];
    } else if IsWhitespace(s[0]) {
      assert (s + [c])[1..] == s[1..] + [c];
      TrimStartAppend(s[1..], c);
    }
  }

  lemma {:induction false} TrimOfTrimEnd(s: string)
    ensures Trim(TrimEnd(s)) == Trim(s)
  {
    if s != [] && IsWhitespace(s[|s| - 1]) {
      var n := |s| - 1;
      TrimOfTrimEnd(s[..n]);
      TrimTrailing(s[..n], s[n]);
      assert s[..n] + [s[n]] == s;
    }
  }

  lemma {:induction false} TrimEndAppend(x: string, y: string)
    requires x != [] && !IsWhitespace(x[|x| - 1])
    ensures TrimEnd(x + y) == x + TrimEnd(y)
  {
    if y == [] {
      assert x + y == x;
    } else if IsWhitespace(y[|y| - 1]) {
      TrimEndAppend(x, y[..|y| - 1]);
      assert (x + y)[..|x + y| - 1] == x + y[..|y| - 1];
    }
  }

  // ---- Round trip ----

  /** A name that the parser can find: trimmed, without `=` and `;`. */
  predicate GoodName(name: string) {
    IsTrimmed(name) && '=' !in name && ';' !in name
  }

  /** The part has no `=`, or another name before it. */
  predicate OtherPart(part: string, name: string) {
    '=' !in part || Trim(UpTo(part, '=')) != name
  }

  /** What a part yields: nothing without `=` or with another name, else the trimmed text after
      the first `=`. */
  lemma PartMeaning(part: string, name: string)
    ensures PartValue(part, name)
         == if OtherPart(part, name) then None else Some(Trim(part[|UpTo(part, '=')| + 1..]))
  {
    if '=' in part {
      var k := UpTo(part, '=');
      SplitsAt(part, '=');
      var v := part[|k| + 1..];
      assert part == k + "=" + v;
      TrimPart(k, v);
      StartKeeps(k, '=');
      UpToConcat(TrimStart(k), TrimEnd(v), '=');
      TrimTwice(k);
      TrimOfTrimEnd(v);
    } else {
      TrimLength(part);
      UpToWhole(Trim(part), '=');
    }
  }

  lemma {:induction false} SplitsAt(s: string, sep: char)
    requires sep in s
    ensures |UpTo(s, sep)| < |s| && s[|UpTo(s, sep)|] == sep
  {
    if s[0] != sep {
      assert s == [s[0]] + s[1..];
      SplitsAt(s[1..], sep);
    }
  }

  /** Trimming a part trims the name at its start and the value at its end. */
  lemma TrimPart(k: string, v: string)
    ensures Trim(k + "=" + v) == TrimStart(k) + "=" + TrimEnd(v)
  {
    StartStops(k, v);
    TrimEndAppend(TrimStart(k) + "=", v);
  }

  lemma {:induction false} StartStops(k: string, v: string)
    ensures TrimStart(k + "=" + v) == TrimStart(k) + "=" + v
  {
    if k != [] && IsWhitespace(k[0]) {
      assert (k + "=" + v)[1..] == k[1..] + "=" + v;
      StartStops(k[1..], v);
    } else {
      assert (k + "=" + v)[0] == if k == [] then '=' else k[0];
    }
  }

  lemma {:induction false} StartKeeps(s: string, c: char)
    ensures c !in s ==> c !in TrimStart(s)
  {
    if s != [] && IsWhitespace(s[0]) {
      StartKeeps(s[1..], c);
    }
  }

  lemma TrimTwice(s: string)
    ensures Trim(TrimStart(s)) == Trim(s)
  {
    TrimStartMeaning(s);
  }

  /** The part `name=value` yields the trimmed value, for every value. */
  lemma PartRoundTrip(name: string, value: string)
    requires GoodName(name)
    ensures PartValue(name + "=" + value, name) == Some(Trim(value))
  {
    PartMeaning(name + "=" + value, name);
    UpToConcat(name, value, '=');
    TrimMeaning(name);
    assert (name + "=" + value)[|name| + 1..] == value;
  }

  /** What comes back of an emitted cookie: the address up to a semicolon, trimmed. */
  lemma PairRoundTrip(name: string, address: string, maxAge: nat)
    requires GoodName(name)
    ensures PartValue(StoredPair(CookieText(name, address, maxAge)), name) == Some(Trim(UpTo(address, ';')))
  {
    var rest := " Path=/; Max-Age=" + Decimal(maxAge) + "; HttpOnly; SameSite=Lax";
    var t := CookieText(name, address, maxAge);
    assert t == name + "=" + (address + ";" + rest) by {
      assert "; Path=/; Max-Age=" == ";" + " Path=/; Max-Age=";
    }
    var x := name + "=";
    UpToAppend(x, address + ";" + rest, ';');
    UpToBefore(address, rest, ';');
    assert StoredPair(t) == name + "=" + UpTo(address, ';');
    PartRoundTrip(name, UpTo(address, ';'));
  }

  /** The attributes of the cookie, as the user agent sees them. */
  lemma CookieAttributes(name: string, address: string, maxAge: nat)
    requires ';' !in name && ';' !in address
    ensures Split(CookieText(name, address, maxAge), ';')
         == [name + "=" + address, " Path=/", " Max-Age=" + Decimal(maxAge), " HttpOnly", " SameSite=Lax"]
  {
    var ps := [name + "=" + address, " Path=/", " Max-Age=" + Decimal(maxAge), " HttpOnly", " SameSite=Lax"];
    forall i | 0 <= i < |ps| ensures ';' !in ps[i] {
      assert ';' !in Decimal(maxAge);
    }
    JoinedText(name, address, Decimal(maxAge));
    SplitOfJoin(ps, ';');
  }

  /** A cookie is set exactly when name and address are printable ASCII or tabs. */
  lemma CookieIsSetIff(name: string, address: string, maxAge: nat)
    ensures SetCookie(name, address, maxAge).Some?
       <==> (forall c <- name :: c == '\t' || ' ' <= c <= '~') && (forall c <- address :: c == '\t' || ' ' <= c <= '~')
  {
    var x, y, z := "; Path=/; Max-Age=", Decimal(maxAge), "; HttpOnly; SameSite=Lax";
    assert Visible("=") && Visible(x) && Visible(z) && Visible(y);
    VisibleConcat(name + "=" + address + x + y, z);
    VisibleConcat(name + "=" + address + x, y);
    VisibleConcat(name + "=" + address, x);
    VisibleConcat(name + "=", address);
    VisibleConcat(name, "=");
  }

  lemma VisibleConcat(x: string, y: string)
    ensures Visible(x + y) <==> Visible(x) && Visible(y)
  {
    assert forall c <- x :: c in x + y;
    assert forall c <- y :: c in x + y;
  }

  lemma JoinedText(name: string, address: string, age: string)
    ensures Join([name + "=" + address, " Path=/", " Max-Age=" + age, " HttpOnly", " SameSite=Lax"], ';')
         == name + "=" + address + "; Path=/; Max-Age=" + age + "; HttpOnly; SameSite=Lax"
  {
    var p0, p1, p2, p3, p4 := name + "=" + address, " Path=/", " Max-Age=" + age, " HttpOnly", " SameSite=Lax";
    assert [p0, p1, p2, p3, p4][1..] == [p1, p2, p3, p4] && [p1, p2, p3, p4][1..] == [p2, p3, p4];
    JoinedEnd(p2);
    Regroup(p0, ";", " Path=/", ";", " Max-Age=", age, "; HttpOnly; SameSite=Lax");
    assert ";" + " Path=/" + ";" + " Max-Age=" == "; Path=/; Max-Age=";
  }

  lemma Regroup(x: string, a: string, b: string, c: string, d: string, y: string, z: string)
    ensures x + a + (b + c + (d + y + z)) == x + (a + b + c + d) + y + z
  {
  }

  lemma JoinedEnd(p: string)
    ensures Join([p, " HttpOnly", " SameSite=Lax"], ';') == p + "; HttpOnly; SameSite=Lax"
  {
    var q, r := " HttpOnly", " SameSite=Lax";
    assert [p, q, r][1..] == [q, r] && [q, r][1..] == [r];
    assert Join([q, r], ';') == " HttpOnly; SameSite=Lax";
  }

  lemma {:induction false} UpToAppend(x: string, y: string, sep: char)
    requires sep !in x
    ensures UpTo(x + y, sep) == x + UpTo(y, sep)
  {
    if x == [] {
      assert x + y == y;
    } else {
      assert (x + y)[1..] == x[1..] + y;
      UpToAppend(x[1..], y, sep);
    }
  }

  lemma {:induction false} UpToBefore(x: string, y: string, sep: char)
    ensures UpTo(x + [sep] + y, sep) == UpTo(x, sep)
  {
    if x != [] && x[0] != sep {
      assert (x + [sep] + y)[1..] == x[1..] + [sep] + y;
      UpToBefore(x[1..], y, sep);
    }
  }

  /** The cookie brings the address back exactly when it is trimmed and has no semicolon. */
  lemma RoundTripIff(name: string, address: string, maxAge: nat)
    requires GoodName(name)
    ensures PartValue(StoredPair(CookieText(name, address, maxAge)), name) == Some(address)
       <==> IsTrimmed(address) && ';' !in address
  {
    PairRoundTrip(name, address, maxAge);
    var u := UpTo(address, ';');
    TrimMeaning(u);
    TrimMeaning(address);
    TrimLength(u);
    if ';' !in address {
      UpToWhole(address, ';');
    }
  }

  lemma TrimLength(s: string)
    ensures |Trim(s)| <= |s| && forall c <- Trim(s) :: c in s
  {
    TrimStartMeaning(s);
    TrimEndMeaning(TrimStart(s));
    var t := TrimStart(s);
    assert forall c <- t :: c in s[|s| - |t|..];
  }

  // ---- Among other cookies ----

  lemma {:induction false} FirstValueSkips(a: seq<string>, b: seq<string>, name: string)
    requires forall p <- a :: OtherPart(p, name)
    ensures FirstValue(a + b, name) == FirstValue(b, name)
  {
    if a == [] {
      assert a + b == b;
    } else {
      assert a[0] in a;
      PartMeaning(a[0], name);
      assert (a + b)[1..] == a[1..] + b;
      FirstValueSkips(a[1..], b, name);
    }
  }

  /** A leading space does not change what a header text holds. */
  lemma LeadingSpace(s: string, name: string)
    ensures FirstValue(Split(" " + s, ';'), name) == FirstValue(Split(s, ';'), name)
  {
  }

  /** No part of the text carries the wanted name. */
  predicate Foreign(pair: string, name: string) {
    forall p <- Split(pair, ';') :: OtherPart(p, name)
  }

  lemma {:induction false} ValueAmong(before: seq<string>, pair: string, after: seq<string>, name: string)
    requires forall p <- before :: Foreign(p, name)
    requires ';' !in pair && PartValue(pair, name).Some?
    ensures FirstValue(Split(CookieHeader(before + [pair] + after), ';'), name) == PartValue(pair, name)
    decreases |before|
  {
    var all := before + [pair] + after;
    if before == [] {
      SplitWhole(pair, ';');
      if after != [] {
        assert all[1..] == after;
        SplitConcat(pair, " " + CookieHeader(after), ';');
      }
    } else {
      assert before[0] in before;
      var tail := before[1..] + [pair] + after;
      assert all[1..] == tail && all[0] == before[0];
      ValueAmong(before[1..], pair, after, name);
      SplitConcat(before[0], " " + CookieHeader(tail), ';');
      FirstValueSkips(Split(before[0], ';'), Split(" " + CookieHeader(tail), ';'), name);
      LeadingSpace(CookieHeader(tail), name);
    }
  }

  /** The header of the next request: the stored pair among other cookies. */
  function NextHeader(before: seq<string>, setCookie: string, after: seq<string>): string {
    CookieHeader(before + [StoredPair(setCookie)] + after)
  }

  /** The emitted cookie, sent back among cookies of other names, yields the address. */
  lemma CookieRoundTrip(name: string, address: string, maxAge: nat, cookie: string,
                        before: seq<string>, after: seq<string>, more: seq<string>)
    requires SetCookie(name, address, maxAge) == Some(cookie)
    requires GoodName(name) && IsTrimmed(address) && ';' !in address
    requires forall p <- before :: Foreign(p, name)
    requires Visible(NextHeader(before, cookie, after))
    ensures ExtractCookie([NextHeader(before, cookie, after)] + more, name) == Some(address)
  {
    RoundTripIff(name, address, maxAge);
    ValueAmong(before, StoredPair(cookie), after, name);
  }

  datatype StickyConfig = StickyConfig(name: string, maxAge: nat)

  /** The first Cookie header holds the cookie set for `address`, among cookies of other names. */
  ghost predicate CarriesBack(headers: seq<string>, cfg: StickyConfig, address: string) {
    exists cookie, before, after, more ::
      && SetCookie(cfg.name, address, cfg.maxAge) == Some(cookie)
      && (forall p <- before :: Foreign(p, cfg.name))
      && headers == [NextHeader(before, cookie, after)] + more
  }

  /** What the round trip needs: a readable first header, a name the parser can find, and an
      address that is trimmed and has no semicolon. */
  predicate Readable(headers: seq<string>, cfg: StickyConfig, address: string) {
    headers != [] && Visible(headers[0]) && GoodName(cfg.name) && IsTrimmed(address) && ';' !in address
  }

  function StickyValue(cfg: Option<StickyConfig>, headers: seq<string>): Option<string> {
    if cfg.Some? then ExtractCookie(headers, cfg.value.name) else None
  }

  /** Headers that carry the cookie back name the address. */
  lemma CarriedValue(headers: seq<string>, cfg: StickyConfig, address: string)
    requires CarriesBack(headers, cfg, address) && Readable(headers, cfg, address)
    ensures StickyValue(Some(cfg), headers) == Some(address)
  {
    var cookie, before, after, more :|
      && SetCookie(cfg.name, address, cfg.maxAge) == Some(cookie)
      && (forall p <- before :: Foreign(p, cfg.name))
      && headers == [NextHeader(before, cookie, after)] + more;
    CookieRoundTrip(cfg.name, address, cfg.maxAge, cookie, before, after, more);
  }

  /** A first header with any other character is not read at all. */
  lemma UnreadableHeader(headers: seq<string>, cfg: Option<StickyConfig>, i: nat)
    requires headers != [] && i < |headers[0]|
    requires !(headers[0][i] == '\t' || ' ' <= headers[0][i] <= '~')
    ensures StickyValue(cfg, headers) == None
  {
    assert headers[0][i] in headers[0];
  }

  /** A cookie in a later header is not found: without it in the first one there is no affinity. */
  lemma LaterHeadersIgnored(headers: seq<string>, cfg: StickyConfig)
    requires headers == [] || Foreign(headers[0], cfg.name)
    ensures StickyValue(Some(cfg), headers) == None
  {
    if headers != [] {
      NoValue(Split(headers[0], ';'), cfg.name);
    }
  }

  lemma {:induction false} NoValue(parts: seq<string>, name: string)
    requires forall p <- parts :: OtherPart(p, name)
    ensures FirstValue(parts, name) == None
  {
    if parts != [] {
      PartMeaning(parts[0], name);
      NoValue(parts[1..], name);
    }
  }

  /** Affinity: the next request of that user agent goes first to the upstream that answered,
      as long as it is healthy, whatever the algorithm, the counter and the loads. */
  lemma Affinity(headers: seq<string>, cfg: StickyConfig, address: string, x: Setting, max: nat, net: Network, run: Run)
    requires CarriesBack(headers, cfg, address) && Readable(headers, cfg, address)
    requires x.sticky == StickyValue(Some(cfg), headers) && address in Healthy(x.first.ups)
    requires IsExecution(x, max, net, run) && max > 0
    ensures run.tried != [] && run.tried[0] == address
  {
    CarriedValue(headers, cfg, address);
    StickyGoesFirst(x, max, net, run);
  }

  /** A request with its Cookie headers: the cookie it sets names the upstream that answered,
      and a cookie set earlier leads back to its upstream while that is healthy. */
  method HandleRequest(lb: Balancer, headers: seq<string>, cfg: Option<StickyConfig>, p: Policy,
                       net: Network, env: Environment)
    returns (outcome: Outcome, tried: seq<string>, setCookie: Option<string>)
    requires lb.Valid()
    modifies lb`rrCounter, lb.upstreams
    ensures IsExecution(Setting(lb.algorithm, old(Now(lb)), env, StickyValue(cfg, headers)),
                        Limit(p), net, Run(tried, outcome))
    ensures setCookie
         == if outcome.Response? && cfg.Some? then SetCookie(cfg.value.name, outcome.address, cfg.value.maxAge)
            else None
    ensures forall address | cfg.Some? && CarriesBack(headers, cfg.value, address) ::
              Readable(headers, cfg.value, address) && address in Healthy(old(lb.View())) ==>
                tried != [] && tried[0] == address
  {
    ghost var x := Setting(lb.algorithm, Now(lb), env, StickyValue(cfg, headers));
    outcome, tried := ProxyRequest(lb, StickyValue(cfg, headers), p, net, env);
    setCookie := None;
    if outcome.Response? && cfg.Some? {
      setCookie := SetCookie(cfg.value.name, outcome.address, cfg.value.maxAge);
    }
    forall address | cfg.Some? && CarriesBack(headers, cfg.value, address)
      && Readable(headers, cfg.value, address) && address in Healthy(x.first.ups)
      ensures tried != [] && tried[0] == address
    {
      Affinity(headers, cfg.value, address, x, Limit(p), net, Run(tried, outcome));
    }
  }
}
