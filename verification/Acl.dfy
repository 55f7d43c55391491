/** CIDR blocks and the access-control list of src/security.rs, with the checks that
    src/config/validator.rs applies to them.

    Bitwise operations are defined on natural numbers, for every width. */
module Acl {
  import opened Net
  import opened Arith
  import opened Text

  // ---- Bits ----

  function Pow2(k: nat): (p: nat)
    ensures p > 0
  {
    if k == 0 then 1 else 2 * Pow2(k - 1)
  }

  /** Bitwise conjunction. */
  function And(x: nat, y: nat): nat {
    if x == 0 || y == 0 then 0
    else 2 * And(x / 2, y / 2) + (if x % 2 == 1 && y % 2 == 1 then 1 else 0)
  }

  /** Bitwise complement of a number of `w` bits. */
  function Not(w: nat, x: nat): nat
    requires x < Pow2(w)
  {
    Pow2(w) - 1 - x
  }

  lemma {:induction false} Pow2Monotone(j: nat, k: nat)
    requires j <= k
    ensures Pow2(j) <= Pow2(k)
  {
    if j < k {
      Pow2Monotone(j, k - 1);
    }
  }

  /** The mask for a prefix length, as the source computes it for 32 and 128 bits. */
  function Mask(w: nat, prefix: nat): nat {
    if prefix >= w then Pow2(w) - 1
    else if prefix == 0 then 0
    else
      Pow2Monotone(w - prefix, w);
      Not(w, Pow2(w - prefix) - 1)
  }

  /** The address as a big-endian number. */
  function Bits(octets: seq<byte>): (x: nat)
    ensures x < Pow2(8 * |octets|)
  {
    if octets == [] then 0 else
    var n := |octets| - 1;
    assert Pow2(8 * |octets|) == 0x100 * Pow2(8 * n) by { Pow2Eight(8 * n); }
    Bits(octets[..n]) * 0x100 + octets[n] as nat
  }

  lemma Pow2Eight(k: nat)
    ensures Pow2(k + 8) == 0x100 * Pow2(k)
  {
    assert Pow2(k + 2) == 4 * Pow2(k);
    assert Pow2(k + 4) == 4 * Pow2(k + 2);
    assert Pow2(k + 6) == 4 * Pow2(k + 4);
  }

  // ---- Blocks and lists ----

  datatype IpNet = IpNet(addr: IpAddr, prefix: nat)

  function Width(ip: IpAddr): nat { 8 * |ip.octets| }

  predicate SameFamily(a: IpAddr, b: IpAddr) { a.V4? == b.V4? }

  predicate Contains(n: IpNet, ip: IpAddr) {
    SameFamily(n.addr, ip)
    && var mask := Mask(Width(ip), n.prefix);
       And(Bits(n.addr.octets), mask) == And(Bits(ip.octets), mask)
  }

  datatype Acl = Acl(allow: seq<IpNet>, deny: seq<IpNet>)

  predicate AnyContains(ns: seq<IpNet>, ip: IpAddr) {
    exists i :: 0 <= i < |ns| && Contains(ns[i], ip)
  }

  predicate IsAllowed(acl: Acl, ip: IpAddr) {
    if AnyContains(acl.deny, ip) then false
    else if acl.allow == [] then true
    else AnyContains(acl.allow, ip)
  }

  // ---- Masking is comparing the top bits ----

  /** The number without its `k` lowest bits. */
  function Shift(x: nat, k: nat): nat
    decreases k
  {
    if k == 0 then x else Shift(x / 2, k - 1)
  }

  lemma {:induction false} ShiftIsDiv(x: nat, k: nat)
    ensures Shift(x, k) == x / Pow2(k)
    decreases k
  {
    if k > 0 {
      ShiftIsDiv(x / 2, k - 1);
      DivHalf(x, Pow2(k - 1));
    }
  }

  /** The number with its `k` lowest bits set to zero. */
  function Clear(x: nat, k: nat): nat
    decreases k
  {
    if k == 0 then x else 2 * Clear(x / 2, k - 1)
  }

  lemma {:induction false} ClearIffShift(x: nat, y: nat, k: nat)
    ensures Clear(x, k) == Clear(y, k) <==> Shift(x, k) == Shift(y, k)
    decreases k
  {
    if k > 0 {
      ClearIffShift(x / 2, y / 2, k - 1);
    }
  }

  /** Masking with `w - k` leading ones clears the `k` lowest bits. */
  lemma {:induction false} AndMask(x: nat, w: nat, k: nat)
    requires x < Pow2(w) && k <= w
    ensures Pow2(k) <= Pow2(w)
    ensures And(x, Pow2(w) - Pow2(k)) == Clear(x, k)
    decreases w
  {
    Pow2Monotone(k, w);
    if w > 0 {
      var y := Pow2(w) - Pow2(k);
      AndHalf(x, y);
      if k == 0 {
        AndMask(x / 2, w - 1, 0);
        assert y / 2 == Pow2(w - 1) - 1 && y % 2 == 1;
      } else {
        AndMask(x / 2, w - 1, k - 1);
        assert y / 2 == Pow2(w - 1) - Pow2(k - 1) && y % 2 == 0;
      }
    } else {
      assert x == 0;
    }
  }

  /** The recursion of `And` also holds when an operand is zero. */
  lemma AndHalf(x: nat, y: nat)
    ensures And(x, y) == 2 * And(x / 2, y / 2) + (if x % 2 == 1 && y % 2 == 1 then 1 else 0)
  {
  }

  lemma MaskForm(w: nat, prefix: nat)
    ensures Pow2(w - Min(prefix, w)) <= Pow2(w)
    ensures Mask(w, prefix) == Pow2(w) - Pow2(w - Min(prefix, w))
  {
    Pow2Monotone(w - Min(prefix, w), w);
  }

  /** How many low bits a block leaves open. */
  function OpenBits(n: IpNet): nat {
    Width(n.addr) - Min(n.prefix, Width(n.addr))
  }

  /** A block contains exactly the addresses of its family that agree with it on the top
      `min(prefix, width)` bits, that is, have the same quotient by the power of two. */
  lemma ContainsIffTopBits(n: IpNet, ip: IpAddr)
    ensures Contains(n, ip)
       <==> SameFamily(n.addr, ip) && Bits(n.addr.octets) / Pow2(OpenBits(n)) == Bits(ip.octets) / Pow2(OpenBits(n))
  {
    if SameFamily(n.addr, ip) {
      TopBits(n, ip);
      ShiftIsDiv(Bits(n.addr.octets), OpenBits(n));
      ShiftIsDiv(Bits(ip.octets), OpenBits(n));
    }
  }

  lemma TopBits(n: IpNet, ip: IpAddr)
    requires SameFamily(n.addr, ip)
    ensures Contains(n, ip) <==> Shift(Bits(n.addr.octets), OpenBits(n)) == Shift(Bits(ip.octets), OpenBits(n))
  {
    var w, k := Width(ip), OpenBits(n);
    MaskForm(w, n.prefix);
    var a, b := Bits(n.addr.octets), Bits(ip.octets);
    AndMask(a, w, k);
    AndMask(b, w, k);
    ClearIffShift(a, b, k);
  }

  // ---- In terms of octets ----

  lemma {:induction false} ShiftTwice(x: nat, j: nat, k: nat)
    ensures Shift(x, j + k) == Shift(Shift(x, j), k)
    decreases j
  {
    if j > 0 {
      ShiftTwice(x / 2, j - 1, k);
    }
  }

  /** Dropping low bits of a number in two parts. */
  lemma {:induction false} ShiftLow(hi: nat, x: nat, w: nat, r: nat)
    requires x < Pow2(w) && r <= w
    ensures Shift(hi * Pow2(w) + x, r) == hi * Pow2(w - r) + Shift(x, r)
    ensures Shift(x, r) < Pow2(w - r)
    decreases r
  {
    if r > 0 {
      var h := hi * Pow2(w - 1);
      assert hi * Pow2(w) == 2 * h;
      ShiftLow(hi, x / 2, w - 1, r - 1);
    }
  }

  lemma OctetShift(hi: nat, x: nat, r: nat)
    requires x < 0x100 && r <= 8
    ensures Shift(hi * 0x100 + x, r) == hi * Pow2(8 - r) + Shift(x, r)
    ensures Shift(x, r) < Pow2(8 - r)
  {
    Pow2Eight(0);
    assert Pow2(8) == 0x100;
    ShiftLow(hi, x, 8, r);
  }

  lemma DropLast(o: seq<byte>)
    requires o != []
    ensures Shift(Bits(o), 8) == Bits(o[..|o| - 1])
  {
    OctetShift(Bits(o[..|o| - 1]), o[|o| - 1] as nat, 8);
    assert Pow2(0) == 1;
  }

  lemma {:induction false} BitsPrefix(o: seq<byte>, m: nat)
    requires m <= |o|
    ensures Shift(Bits(o), 8 * m) == Bits(o[..|o| - m])
  {
    if m == 0 {
      assert o[..|o|] == o;
    } else {
      var n := |o| - 1;
      DropLast(o);
      ShiftTwice(Bits(o), 8, 8 * (m - 1));
      BitsPrefix(o[..n], m - 1);
      assert o[..n][..n - (m - 1)] == o[..|o| - m];
    }
  }

  lemma {:induction false} BitsInjective(a: seq<byte>, b: seq<byte>)
    requires |a| == |b|
    ensures Bits(a) == Bits(b) <==> a == b
  {
    if a != [] {
      var n := |a| - 1;
      BitsInjective(a[..n], b[..n]);
      assert a == a[..n] + [a[n]] && b == b[..n] + [b[n]];
    }
  }

  /** Two numbers in two parts agree after dropping low bits when their parts do. */
  lemma SameParts(h: nat, x: nat, i: nat, y: nat, r: nat)
    requires x < 0x100 && y < 0x100 && r <= 8
    ensures Shift(h * 0x100 + x, r) == Shift(i * 0x100 + y, r) <==> h == i && x / Pow2(r) == y / Pow2(r)
  {
    OctetShift(h, x, r);
    OctetShift(i, y, r);
    PairUnique(h, Shift(x, r), i, Shift(y, r), Pow2(8 - r));
    ShiftIsDiv(x, r);
    ShiftIsDiv(y, r);
  }

  /** How many bits of the family a block fixes. */
  function FixedBits(n: IpNet): nat {
    Min(n.prefix, Width(n.addr))
  }

  /** A block of `p` fixed bits contains exactly the addresses of its family with the same first
      `p / 8` octets and, for the rest, the same top `p % 8` bits in the octet after them. */
  lemma ContainsIffOctets(n: IpNet, ip: IpAddr)
    ensures Contains(n, ip)
       <==> SameFamily(n.addr, ip)
            && var a, b, p := n.addr.octets, ip.octets, FixedBits(n);
               && a[..p / 8] == b[..p / 8]
               && (p % 8 > 0 ==> a[p / 8] as nat / Pow2(8 - p % 8) == b[p / 8] as nat / Pow2(8 - p % 8))
  {
    if SameFamily(n.addr, ip) {
      TopBits(n, ip);
      SameOctets(n.addr.octets, ip.octets, FixedBits(n));
    }
  }

  lemma SameOctets(a: seq<byte>, b: seq<byte>, p: nat)
    requires |a| == |b| && p <= 8 * |a|
    ensures Shift(Bits(a), 8 * |a| - p) == Shift(Bits(b), 8 * |b| - p)
       <==> a[..p / 8] == b[..p / 8]
            && (p % 8 > 0 ==> a[p / 8] as nat / Pow2(8 - p % 8) == b[p / 8] as nat / Pow2(8 - p % 8))
  {
    if p % 8 == 0 {
      BitsPrefix(a, |a| - p / 8);
      BitsPrefix(b, |b| - p / 8);
      BitsInjective(a[..p / 8], b[..p / 8]);
    } else {
      SamePartial(a, b, p / 8, p % 8);
    }
  }

  lemma SamePartial(a: seq<byte>, b: seq<byte>, q: nat, r: nat)
    requires |a| == |b| && q < |a| && 0 < r < 8
    ensures Shift(Bits(a), 8 * |a| - (8 * q + r)) == Shift(Bits(b), 8 * |b| - (8 * q + r))
       <==> a[..q] == b[..q] && a[q] as nat / Pow2(8 - r) == b[q] as nat / Pow2(8 - r)
  {
    DropOctets(a, q, r);
    DropOctets(b, q, r);
    SameParts(Bits(a[..q]), a[q] as nat, Bits(b[..q]), b[q] as nat, 8 - r);
    BitsInjective(a[..q], b[..q]);
  }

  lemma DropOctets(o: seq<byte>, q: nat, r: nat)
    requires q < |o| && 0 < r < 8
    ensures Shift(Bits(o), 8 * |o| - (8 * q + r)) == Shift(Bits(o[..q]) * 0x100 + o[q] as nat, 8 - r)
  {
    var m := |o| - q - 1;
    ShiftTwice(Bits(o), 8 * m, 8 - r);
    BitsPrefix(o, m);
    assert o[..q + 1][..q] == o[..q];
  }

  // ---- Nested blocks ----

  lemma {:induction false} ShiftCoarser(a: nat, b: nat, j: nat, k: nat)
    requires j <= k && Shift(a, j) == Shift(b, j)
    ensures Shift(a, k) == Shift(b, k)
    decreases k
  {
    if j < k {
      if j == 0 {
      } else {
        ShiftCoarser(a / 2, b / 2, j - 1, k - 1);
      }
    }
  }

  /** Block `n` covers block `m`: it is at least as coarse and contains its address. */
  predicate Covers(n: IpNet, m: IpNet) {
    SameFamily(n.addr, m.addr) && OpenBits(m) <= OpenBits(n) && Contains(n, m.addr)
  }

  lemma CoversMeaning(n: IpNet, m: IpNet, ip: IpAddr)
    requires Covers(n, m) && Contains(m, ip)
    ensures Contains(n, ip)
  {
    TopBits(m, ip);
    TopBits(n, m.addr);
    TopBits(n, ip);
    ShiftCoarser(Bits(m.addr.octets), Bits(ip.octets), OpenBits(m), OpenBits(n));
  }

  /** Any two blocks are nested or disjoint: an address in both makes one cover the other. */
  lemma NestedOrDisjoint(m: IpNet, n: IpNet, ip: IpAddr)
    requires Contains(m, ip) && Contains(n, ip)
    ensures Covers(m, n) || Covers(n, m)
  {
    TopBits(m, ip);
    TopBits(n, ip);
    var a, b, x := Bits(m.addr.octets), Bits(n.addr.octets), Bits(ip.octets);
    if OpenBits(n) <= OpenBits(m) {
      ShiftCoarser(b, x, OpenBits(n), OpenBits(m));
      TopBits(m, n.addr);
    } else {
      ShiftCoarser(a, x, OpenBits(m), OpenBits(n));
      TopBits(n, m.addr);
    }
  }

  function Remove<T>(s: seq<T>, i: nat): seq<T>
    requires i < |s|
  {
    s[..i] + s[i + 1..]
  }

  lemma RemoveCovered(ns: seq<IpNet>, i: nat, j: nat, ip: IpAddr)
    requires i < |ns| && j < |ns| && i != j && Covers(ns[j], ns[i])
    ensures AnyContains(ns, ip) == AnyContains(Remove(ns, i), ip)
  {
    var rest := Remove(ns, i);
    assert forall k :: 0 <= k < |rest| ==> rest[k] == ns[if k < i then k else k + 1];
    if AnyContains(ns, ip) {
      var k :| 0 <= k < |ns| && Contains(ns[k], ip);
      if k == i {
        CoversMeaning(ns[j], ns[i], ip);
        assert rest[if j < i then j else j - 1] == ns[j];
      } else {
        assert rest[if k < i then k else k - 1] == ns[k];
      }
    }
  }

  /** Deleting an entry covered by another entry of the same list changes no decision. */
  lemma RedundantEntries(acl: Acl, i: nat, j: nat, ip: IpAddr)
    ensures i < |acl.allow| && j < |acl.allow| && i != j && Covers(acl.allow[j], acl.allow[i]) ==>
              IsAllowed(acl.(allow := Remove(acl.allow, i)), ip) == IsAllowed(acl, ip)
    ensures i < |acl.deny| && j < |acl.deny| && i != j && Covers(acl.deny[j], acl.deny[i]) ==>
              IsAllowed(acl.(deny := Remove(acl.deny, i)), ip) == IsAllowed(acl, ip)
  {
    if i < |acl.allow| && j < |acl.allow| && i != j && Covers(acl.allow[j], acl.allow[i]) {
      RemoveCovered(acl.allow, i, j, ip);
    }
    if i < |acl.deny| && j < |acl.deny| && i != j && Covers(acl.deny[j], acl.deny[i]) {
      RemoveCovered(acl.deny, i, j, ip);
    }
  }

  // ---- Configuration ----

  function ParseCidr(s: string, p6: Ipv6Parser): Option<IpNet> {
    match SplitOnce(s, '/')
    case Some((ip, pfx)) =>
      (match (ParseIp(ip, p6), ParseUint(pfx, 0x100))
       case (Some(a), Some(p)) => Some(IpNet(a, p))
       case _ => None)
    case None =>
      match ParseIp(s, p6)
      case Some(a) => Some(IpNet(a, if a.V4? then 32 else 128))
      case None => None
  }

  /** A bare address is a block that contains exactly itself. */
  lemma BareAddress(s: string, p6: Ipv6Parser)
    requires '/' !in s
    ensures ParseCidr(s, p6).Some? <==> ParseIp(s, p6).Some?
    ensures ParseCidr(s, p6).Some? ==>
              forall ip :: Contains(ParseCidr(s, p6).value, ip) <==> Some(ip) == ParseIp(s, p6)
  {
    UpToWhole(s, '/');
    if ParseIp(s, p6).Some? {
      var n := ParseCidr(s, p6).value;
      forall ip ensures Contains(n, ip) <==> ip == n.addr {
        ContainsIffOctets(n, ip);
        assert n.addr.octets[..|n.addr.octets|] == n.addr.octets && ip.octets[..|ip.octets|] == ip.octets;
      }
    }
  }

  /** An address and a prefix length make the block of that address and that length. */
  lemma AddressWithPrefix(a: string, p: string, p6: Ipv6Parser, n: IpNet)
    requires '/' !in a
    ensures ParseCidr(a + "/" + p, p6) == Some(n)
       <==> ParseIp(a, p6) == Some(n.addr) && ParseUint(p, 0x100) == Some(n.prefix)
  {
    UpToConcat(a, p, '/');
  }

  /** `validate_cidr`: the prefix may be up to 128 for either family. */
  predicate ValidCidr(s: string, p6: Ipv6Parser) {
    match SplitOnce(s, '/')
    case Some((ip, pfx)) =>
      ParseIp(ip, p6).Some? && ParseUint(pfx, 0x100).Some? && ParseUint(pfx, 0x100).value <= 128
    case None => ParseIp(s, p6).Some?
  }

  function ParseAll(ss: seq<string>, p6: Ipv6Parser): Option<seq<IpNet>> {
    if ss == [] then Some([])
    else match (ParseCidr(ss[0], p6), ParseAll(ss[1..], p6))
      case (Some(n), Some(ns)) => Some([n] + ns)
      case _ => None
  }

  function FromConfig(allow: seq<string>, deny: seq<string>, p6: Ipv6Parser): Option<Acl> {
    match (ParseAll(allow, p6), ParseAll(deny, p6))
    case (Some(a), Some(d)) => Some(Acl(a, d))
    case _ => None
  }

  /** The connection handler ignores a list that does not parse. */
  predicate Admits(allow: seq<string>, deny: seq<string>, ip: IpAddr, p6: Ipv6Parser) {
    match FromConfig(allow, deny, p6)
    case Some(acl) => IsAllowed(acl, ip)
    case None => true
  }

  /** Entry `s` of a configuration matches the address. */
  predicate EntryMatches(s: string, ip: IpAddr, p6: Ipv6Parser) {
    ParseCidr(s, p6).Some? && Contains(ParseCidr(s, p6).value, ip)
  }

  predicate AnyEntry(ss: seq<string>, ip: IpAddr, p6: Ipv6Parser) {
    exists i :: 0 <= i < |ss| && EntryMatches(ss[i], ip, p6)
  }

  predicate AllParse(ss: seq<string>, p6: Ipv6Parser) {
    forall i :: 0 <= i < |ss| ==> ParseCidr(ss[i], p6).Some?
  }

  lemma {:induction false} ParseAllMeaning(ss: seq<string>, p6: Ipv6Parser)
    ensures ParseAll(ss, p6).Some? <==> AllParse(ss, p6)
    ensures ParseAll(ss, p6).Some? ==>
              var ns := ParseAll(ss, p6).value;
              |ns| == |ss| && forall i :: 0 <= i < |ss| ==> Some(ns[i]) == ParseCidr(ss[i], p6)
  {
    if ss != [] {
      ParseAllMeaning(ss[1..], p6);
      assert forall i :: 1 <= i < |ss| ==> ss[i] == ss[1..][i - 1];
      assert AllParse(ss, p6) <==> ParseCidr(ss[0], p6).Some? && AllParse(ss[1..], p6) by {
        assert forall i :: 0 <= i < |ss[1..]| ==> ss[1..][i] == ss[i + 1];
      }
    }
  }

  lemma MatchesEntries(ss: seq<string>, ip: IpAddr, p6: Ipv6Parser)
    requires AllParse(ss, p6)
    ensures ParseAll(ss, p6).Some? && (ParseAll(ss, p6).value == [] <==> ss == [])
    ensures AnyContains(ParseAll(ss, p6).value, ip) <==> AnyEntry(ss, ip, p6)
  {
    ParseAllMeaning(ss, p6);
    var ns := ParseAll(ss, p6).value;
    assert forall i :: 0 <= i < |ss| ==> (Contains(ns[i], ip) <==> EntryMatches(ss[i], ip, p6));
  }

  /** Validation accepts exactly the entries that parse with a prefix of at most 128. */
  lemma ValidCidrIff(s: string, p6: Ipv6Parser)
    ensures ValidCidr(s, p6) <==> ParseCidr(s, p6).Some? && ParseCidr(s, p6).value.prefix <= 128
  {
  }

  /** A configuration whose entries all parse is enforced: deny wins, and a non-empty allow
      list must match. One malformed entry would admit everybody. */
  lemma EnforcedIffParses(allow: seq<string>, deny: seq<string>, ip: IpAddr, p6: Ipv6Parser)
    ensures Admits(allow, deny, ip, p6)
       <==> !(AllParse(allow, p6) && AllParse(deny, p6))
            || (!AnyEntry(deny, ip, p6) && (allow == [] || AnyEntry(allow, ip, p6)))
  {
    ParseAllMeaning(allow, p6);
    ParseAllMeaning(deny, p6);
    if AllParse(allow, p6) && AllParse(deny, p6) {
      MatchesEntries(allow, ip, p6);
      MatchesEntries(deny, ip, p6);
    }
  }

  /** So a validated configuration is enforced. */
  lemma ValidatedIsEnforced(allow: seq<string>, deny: seq<string>, ip: IpAddr, p6: Ipv6Parser)
    requires forall i :: 0 <= i < |allow| ==> ValidCidr(allow[i], p6)
    requires forall i :: 0 <= i < |deny| ==> ValidCidr(deny[i], p6)
    ensures Admits(allow, deny, ip, p6) <==> !AnyEntry(deny, ip, p6) && (allow == [] || AnyEntry(allow, ip, p6))
  {
    forall i | 0 <= i < |allow| ensures ParseCidr(allow[i], p6).Some? {
      ValidCidrIff(allow[i], p6);
    }
    forall i | 0 <= i < |deny| ensures ParseCidr(deny[i], p6).Some? {
      ValidCidrIff(deny[i], p6);
    }
    EnforcedIffParses(allow, deny, ip, p6);
  }
}
