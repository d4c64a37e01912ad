/**
  The dial policy of connector-lib/dialpolicy/dialpolicy.go: which addresses are
  forbidden, directly or inside an IPv6 form that carries an IPv4 address, and
  that only checked addresses are dialed and one connection kept.
*/
module DialPolicy {
  import opened Wrappers

  type Byte = x: nat | x < 256

  /** An address by its bytes, 4 or 16 of them; zones are dropped before any check. */
  type Addr = seq<Byte>

  predicate Valid(a: Addr) { |a| == 4 || |a| == 16 }

  datatype Prefix = Prefix(addr: Addr, bits: nat)

  /** x with its last k bits shifted out. */
  function Shifted(x: nat, k: nat): nat {
    if k == 0 then x else Shifted(x / 2, k - 1)
  }

  /** The first n bits of two bytes agree. */
  predicate SameBits(x: Byte, y: Byte, n: nat)
    requires n <= 8
  {
    Shifted(x, 8 - n) == Shifted(y, 8 - n)
  }

  /** netip.Prefix.Contains: the same family, and the prefix's bits in common. */
  predicate Contains(p: Prefix, a: Addr) {
    && |p.addr| == |a| && p.bits <= 8 * |a|
    && (forall i :: 0 <= i < p.bits / 8 ==> p.addr[i] == a[i])
    && (p.bits % 8 == 0 || SameBits(p.addr[p.bits / 8], a[p.bits / 8], p.bits % 8))
  }

  const MAPPED: Addr := [0, 0, 0, 0, 0, 0, 0, 0, 0, 0, 255, 255]

  function Unmap(a: Addr): Addr {
    if |a| == 16 && a[..12] == MAPPED then a[12..] else a
  }

  // ---------- IPv4 inside IPv6 ----------

  datatype Form = Nat64 | Nat64Local | SixToFour | Teredo

  const FORMS := [Nat64, Nat64Local, SixToFour, Teredo]

  function FormPrefix(f: Form): Prefix {
    match f
    case Nat64 => Prefix([0, 0x64, 0xff, 0x9b, 0, 0, 0, 0, 0, 0, 0, 0, 0, 0, 0, 0], 96)
    case Nat64Local => Prefix([0, 0x64, 0xff, 0x9b, 0, 1, 0, 0, 0, 0, 0, 0, 0, 0, 0, 0], 48)
    case SixToFour => Prefix([0x20, 0x02, 0, 0, 0, 0, 0, 0, 0, 0, 0, 0, 0, 0, 0, 0], 16)
    case Teredo => Prefix([0x20, 0x01, 0, 0, 0, 0, 0, 0, 0, 0, 0, 0, 0, 0, 0, 0], 32)
  }

  function Invert(b: Byte): Byte { 255 - b }

  /** Where each form keeps its IPv4 address. */
  function Extract(f: Form, b: Addr): (r: Addr)
    requires |b| == 16
    ensures |r| == 4
  {
    match f
    case Nat64 => b[12..]
    case Nat64Local => [b[6], b[7], b[9], b[10]]
    case SixToFour => b[2..6]
    case Teredo => [Invert(b[12]), Invert(b[13]), Invert(b[14]), Invert(b[15])]
  }

  /** The form carrying a, its free bytes taken from filler: the u octet and what the form leaves open. */
  function Embed(f: Form, a: Addr, filler: Addr): (r: Addr)
    requires |a| == 4 && |filler| == 16
    ensures |r| == 16
  {
    match f
    case Nat64 => FormPrefix(f).addr[..12] + a
    case Nat64Local => FormPrefix(f).addr[..6] + [a[0], a[1], filler[8], a[2], a[3]] + filler[11..]
    case SixToFour => FormPrefix(f).addr[..2] + a + filler[6..]
    case Teredo =>
      FormPrefix(f).addr[..4] + filler[4..12] + [Invert(a[0]), Invert(a[1]), Invert(a[2]), Invert(a[3])]
  }

  /** Extraction undoes embedding, whatever the free bytes, and every embedded address is recognised as one. */
  lemma ExtractUndoesEmbed(f: Form, a: Addr, filler: Addr)
    requires |a| == 4 && |filler| == 16
    ensures Extract(f, Embed(f, a, filler)) == a
    ensures Contains(FormPrefix(f), Embed(f, a, filler))
    ensures Unmap(Embed(f, a, filler)) == Embed(f, a, filler)
  {
    var e := Embed(f, a, filler);
    assert e[..12] != MAPPED by {
      assert e[..12][1] == e[1] && e[..12][0] == e[0];
    }
  }

  /** The other way: every address under a form's prefix is the embedding of what is extracted from it. */
  lemma EmbedUndoesExtract(f: Form, b: Addr)
    requires |b| == 16 && Contains(FormPrefix(f), b)
    ensures Embed(f, Extract(f, b), b) == b
  {
    match f
    case Nat64 => HeadIs(f, b, 12); assert b == b[..12] + b[12..];
    case Nat64Local => Nat64LocalIsWhole(b);
    case SixToFour => HeadIs(f, b, 2); assert b == b[..2] + b[2..6] + b[6..];
    case Teredo => TeredoIsWhole(b);
  }

  lemma Nat64LocalIsWhole(b: Addr)
    requires |b| == 16 && Contains(FormPrefix(Nat64Local), b)
    ensures Embed(Nat64Local, Extract(Nat64Local, b), b) == b
  {
    HeadIs(Nat64Local, b, 6);
    assert b == b[..6] + [b[6], b[7], b[8], b[9], b[10]] + b[11..];
  }

  lemma TeredoIsWhole(b: Addr)
    requires |b| == 16 && Contains(FormPrefix(Teredo), b)
    ensures Embed(Teredo, Extract(Teredo, b), b) == b
  {
    HeadIs(Teredo, b, 4);
    assert b == b[..4] + b[4..12] + [b[12], b[13], b[14], b[15]];
  }

  /** The form prefixes are whole bytes, so containing an address is sharing its first bytes. */
  lemma HeadIs(f: Form, b: Addr, n: nat)
    requires |b| == 16 && n == FormPrefix(f).bits / 8 && Contains(FormPrefix(f), b)
    ensures n <= 16 && b[..n] == FormPrefix(f).addr[..n]
  {
  }

  // ---------- The deny list ----------

  predicate Denied(deny: seq<Prefix>, a: Addr) {
    exists i :: 0 <= i < |deny| && Contains(deny[i], a)
  }

  const ZEROS: Addr := [0, 0, 0, 0, 0, 0, 0, 0, 0, 0, 0, 0, 0, 0, 0, 0]

  /** What every policy denies; a configuration adds to it and cannot take from it. */
  const FLOOR: seq<Prefix> := [
    Prefix([0, 0, 0, 0], 8),
    Prefix([127, 0, 0, 0], 8),
    Prefix([169, 254, 0, 0], 16),
    Prefix([224, 0, 0, 0], 3),
    Prefix([100, 100, 100, 200], 32),
    Prefix([168, 63, 129, 16], 32),
    Prefix(ZEROS, 96),
    Prefix([0xfe, 0x80, 0, 0, 0, 0, 0, 0, 0, 0, 0, 0, 0, 0, 0, 0], 10),
    Prefix([0xff, 0, 0, 0, 0, 0, 0, 0, 0, 0, 0, 0, 0, 0, 0, 0], 8),
    Prefix([0xfd, 0, 0x0e, 0xc2, 0, 0, 0, 0, 0, 0, 0, 0, 0, 0, 0, 0], 32),
    Prefix([0xfd, 0x20, 0, 0xce, 0, 0, 0, 0, 0, 0, 0, 0, 0, 0, 0x02, 0x54], 128)
  ]

  /** netip.Prefix.IsValid, and not an IPv4-mapped prefix, which no unmapped address would match. */
  predicate Usable(p: Prefix) {
    Valid(p.addr) && p.bits <= 8 * |p.addr| && !(|p.addr| == 16 && p.addr[..12] == MAPPED)
  }

  /** x with its last k bits cleared, which leaves the others as they were. */
  function Cleared(x: nat, k: nat): (r: nat)
    ensures r <= x && Shifted(r, k) == Shifted(x, k)
  {
    if k == 0 then x else 2 * Cleared(x / 2, k - 1)
  }

  /** netip.Prefix.Masked: every bit past the prefix cleared. */
  function Masked(p: Prefix): (q: Prefix)
    requires Valid(p.addr) && p.bits <= 8 * |p.addr|
    ensures q.bits == p.bits && |q.addr| == |p.addr|
  {
    var n := p.bits / 8;
    if n == |p.addr| then p
    else Prefix(p.addr[..n] + [Cleared(p.addr[n], 8 - p.bits % 8)] + ZEROS[..|p.addr| - n - 1], p.bits)
  }

  /** Masking a prefix does not change which addresses it holds. */
  lemma MaskedHoldsTheSame(p: Prefix, a: Addr)
    requires Valid(p.addr) && p.bits <= 8 * |p.addr|
    ensures Contains(Masked(p), a) <==> Contains(p, a)
  {
    var n := p.bits / 8;
    if n < |p.addr| {
      var q := Masked(p);
      assert q.addr[..n] == p.addr[..n] && q.addr[n] == Cleared(p.addr[n], 8 - p.bits % 8);
      assert forall i :: 0 <= i < n ==> q.addr[i] == q.addr[..n][i] && p.addr[i] == p.addr[..n][i];
    }
  }

  /** The prefix as long as an address holds that address alone. */
  lemma WholeAddressPrefix(p: Addr, a: Addr)
    ensures Contains(Prefix(p, 8 * |p|), a) <==> a == p
  {
  }

  /** What New denies: the floor, what the configuration adds, and the host's own addresses. */
  ghost predicate DeniedBy(extra: seq<Prefix>, own: seq<Addr>, a: Addr) {
    || Denied(FLOOR, a)
    || Denied(extra, a)
    || exists i :: 0 <= i < |own| && a == Unmap(own[i])
  }

  lemma DeniedWithOne(deny: seq<Prefix>, p: Prefix, a: Addr)
    ensures Denied(deny + [p], a) <==> Denied(deny, a) || Contains(p, a)
  {
    var all := deny + [p];
    assert all[|deny|] == p;
    assert forall i :: 0 <= i < |deny| ==> all[i] == deny[i];
  }

  /**
    New's deny list, from the configured prefixes and the host's own addresses,
    none if they could not be listed.
  */
  method New(extra: seq<Prefix>, own: Option<seq<Addr>>) returns (deny: Option<seq<Prefix>>)
    ensures deny.Some? <==> own.Some? && forall i :: 0 <= i < |extra| ==> Usable(extra[i])
    ensures deny.Some? ==> forall a :: Denied(deny.value, a) <==> DeniedBy(extra, own.value, a)
  {
    var list := FLOOR;
    for i := 0 to |extra|
      invariant forall j :: 0 <= j < i ==> Usable(extra[j])
      invariant forall a :: Denied(list, a) <==> Denied(FLOOR, a) || Denied(extra[..i], a)
    {
      if !Usable(extra[i]) {
        return None;
      }
      forall a ensures Denied(list + [Masked(extra[i])], a) <==> Denied(FLOOR, a) || Denied(extra[..i + 1], a) {
        DeniedWithOne(list, Masked(extra[i]), a);
        MaskedHoldsTheSame(extra[i], a);
        DeniedWithOne(extra[..i], extra[i], a);
        assert extra[..i + 1] == extra[..i] + [extra[i]];
      }
      list := list + [Masked(extra[i])];
    }
    assert extra[..|extra|] == extra;
    if own.None? {
      return None;
    }
    for i := 0 to |own.value|
      invariant forall a :: Denied(list, a) <==> DeniedBy(extra, own.value[..i], a)
    {
      var u := Unmap(own.value[i]);
      forall a ensures Denied(list + [Prefix(u, 8 * |u|)], a) <==> DeniedBy(extra, own.value[..i + 1], a) {
        DeniedWithOne(list, Prefix(u, 8 * |u|), a);
        WholeAddressPrefix(u, a);
        OneMoreOwn(extra, own.value, i, a);
      }
      list := list + [Prefix(u, 8 * |u|)];
    }
    assert own.value[..|own.value|] == own.value;
    return Some(list);
  }

  lemma OneMoreOwn(extra: seq<Prefix>, own: seq<Addr>, i: nat, a: Addr)
    requires i < |own|
    ensures DeniedBy(extra, own[..i + 1], a) <==> DeniedBy(extra, own[..i], a) || a == Unmap(own[i])
  {
    assert own[..i + 1][i] == own[i];
    assert forall j :: 0 <= j < i ==> own[..i + 1][j] == own[..i][j];
  }

  // ---------- Prefixes by their bits ----------

  /** Bit k of a byte, the first being the highest. */
  function Bit(x: Byte, k: nat): nat
    requires k < 8
  {
    Shifted(x, 7 - k) % 2
  }

  lemma {:induction false} ShiftedOnce(x: nat, k: nat)
    ensures Shifted(x, k + 1) == Shifted(x, k) / 2
    decreases k
  {
    if k > 0 {
      ShiftedOnce(x / 2, k - 1);
    }
  }

  lemma {:induction false} ByteIsSmall(x: Byte, k: nat)
    requires k <= 8
    ensures k == 8 ==> Shifted(x, k) == 0
  {
    assert Shifted(x, 8) == x / 2 / 2 / 2 / 2 / 2 / 2 / 2 / 2 by {
      assert Shifted(x, 8) == Shifted(x / 2, 7) == Shifted(x / 2 / 2, 6) == Shifted(x / 2 / 2 / 2, 5);
      var y := x / 2 / 2 / 2;
      assert Shifted(y, 5) == Shifted(y / 2, 4) == Shifted(y / 2 / 2, 3) == Shifted(y / 2 / 2 / 2, 2);
    }
  }

  /** Bytes have the same first bits exactly when each of those bits is the same. */
  lemma {:induction false} SameBitsExactly(x: Byte, y: Byte, n: nat)
    requires n <= 8
    ensures SameBits(x, y, n) <==> forall k :: 0 <= k < n ==> Bit(x, k) == Bit(y, k)
    decreases n
  {
    if n == 0 {
      ByteIsSmall(x, 8);
      ByteIsSmall(y, 8);
    } else {
      SameBitsExactly(x, y, n - 1);
      ShiftedOnce(x, 8 - n);
      ShiftedOnce(y, 8 - n);
      assert Bit(x, n - 1) == Shifted(x, 8 - n) % 2 && Bit(y, n - 1) == Shifted(y, 8 - n) % 2;
    }
  }

  /** A prefix holds the addresses of its family that have its first bits, and no other. */
  lemma ContainsExactly(p: Prefix, a: Addr)
    requires |p.addr| == |a| && p.bits <= 8 * |a|
    ensures Contains(p, a) <==> forall k :: 0 <= k < p.bits ==> Bit(p.addr[k / 8], k % 8) == Bit(a[k / 8], k % 8)
  {
    var n, r := p.bits / 8, p.bits % 8;
    if Contains(p, a) {
      forall k | 0 <= k < p.bits ensures Bit(p.addr[k / 8], k % 8) == Bit(a[k / 8], k % 8) {
        if k / 8 < n {
          assert p.addr[k / 8] == a[k / 8];
        } else {
          SameBitsExactly(p.addr[n], a[n], r);
        }
      }
    }
    if forall k :: 0 <= k < p.bits ==> Bit(p.addr[k / 8], k % 8) == Bit(a[k / 8], k % 8) {
      forall i | 0 <= i < n ensures p.addr[i] == a[i] {
        forall k | 0 <= k < 8 ensures Bit(p.addr[i], k) == Bit(a[i], k) {
          assert (8 * i + k) / 8 == i && (8 * i + k) % 8 == k;
          assert Bit(p.addr[(8 * i + k) / 8], (8 * i + k) % 8) == Bit(a[(8 * i + k) / 8], (8 * i + k) % 8);
        }
        SameBitsExactly(p.addr[i], a[i], 8);
      }
      if r > 0 {
        forall k | 0 <= k < r ensures Bit(p.addr[n], k) == Bit(a[n], k) {
          assert (8 * n + k) / 8 == n && (8 * n + k) % 8 == k;
          assert Bit(p.addr[(8 * n + k) / 8], (8 * n + k) % 8) == Bit(a[(8 * n + k) / 8], (8 * n + k) % 8);
        }
        SameBitsExactly(p.addr[n], a[n], r);
      }
    }
  }

  // ---------- The floor by its ranges ----------

  /** 0/8, 127/8, 169.254/16, 224/3 and the two metadata services' addresses. */
  predicate FloorV4(a: Addr)
    requires |a| == 4
  {
    || a[0] == 0
    || a[0] == 127
    || (a[0] == 169 && a[1] == 254)
    || a[0] >= 224
    || a == [100, 100, 100, 200]
    || a == [168, 63, 129, 16]
  }

  /** ::/96, fe80::/10, ff00::/8, fd00:ec2::/32 and fd20:ce::254. */
  predicate FloorV6(a: Addr)
    requires |a| == 16
  {
    || a[..12] == [0, 0, 0, 0, 0, 0, 0, 0, 0, 0, 0, 0]
    || (a[0] == 0xfe && 0x80 <= a[1] <= 0xbf)
    || a[0] == 0xff
    || (a[0] == 0xfd && a[1] == 0 && a[2] == 0x0e && a[3] == 0xc2)
    || a == [0xfd, 0x20, 0, 0xce, 0, 0, 0, 0, 0, 0, 0, 0, 0, 0, 0x02, 0x54]
  }

  lemma TopBits(x: Byte)
    ensures SameBits(224, x, 3) <==> x >= 224
    ensures SameBits(0x80, x, 2) <==> 0x80 <= x <= 0xbf
  {
    assert Shifted(x, 5) == Shifted(x / 2 / 2, 3) == Shifted(x / 2 / 2 / 2 / 2, 1) == x / 2 / 2 / 2 / 2 / 2;
    assert Shifted(224, 5) == Shifted(56, 3) == Shifted(14, 1) == 7;
    assert Shifted(x, 6) == Shifted(x / 2 / 2, 4) == Shifted(x / 2 / 2 / 2 / 2, 2) == x / 2 / 2 / 2 / 2 / 2 / 2;
    assert Shifted(0x80, 6) == Shifted(32, 4) == Shifted(8, 2) == 2;
  }

  /** What every policy denies, exactly. */
  lemma FloorExactly(a: Addr)
    requires Valid(a)
    ensures Denied(FLOOR, a) <==> if |a| == 4 then FloorV4(a) else FloorV6(a)
  {
    if |a| == 4 {
      FloorExactlyV4(a);
    } else {
      FloorExactlyV6(a);
    }
  }

  lemma FloorExactlyV4(a: Addr)
    requires |a| == 4
    ensures Denied(FLOOR, a) <==> FloorV4(a)
  {
    TopBits(a[0]);
    assert Contains(FLOOR[0], a) <==> a[0] == 0;
    assert Contains(FLOOR[1], a) <==> a[0] == 127;
    assert Contains(FLOOR[2], a) <==> a[0] == 169 && a[1] == 254;
    assert Contains(FLOOR[3], a) <==> a[0] >= 224;
    WholeAddressPrefix(FLOOR[4].addr, a);
    WholeAddressPrefix(FLOOR[5].addr, a);
    assert forall i :: 6 <= i < |FLOOR| ==> |FLOOR[i].addr| == 16;
  }

  lemma Unspecified(a: Addr)
    requires |a| == 16
    ensures Contains(FLOOR[6], a) <==> a[..12] == [0, 0, 0, 0, 0, 0, 0, 0, 0, 0, 0, 0]
  {
  }

  lemma LinkLocal(a: Addr)
    requires |a| == 16
    ensures Contains(FLOOR[7], a) <==> a[0] == 0xfe && 0x80 <= a[1] <= 0xbf
  {
    TopBits(a[1]);
  }

  lemma MulticastAndMetadata(a: Addr)
    requires |a| == 16
    ensures Contains(FLOOR[8], a) <==> a[0] == 0xff
    ensures Contains(FLOOR[9], a) <==> a[0] == 0xfd && a[1] == 0 && a[2] == 0x0e && a[3] == 0xc2
    ensures Contains(FLOOR[10], a) <==> a == [0xfd, 0x20, 0, 0xce, 0, 0, 0, 0, 0, 0, 0, 0, 0, 0, 0x02, 0x54]
  {
    WholeAddressPrefix(FLOOR[10].addr, a);
  }

  lemma FloorExactlyV6(a: Addr)
    requires |a| == 16
    ensures Denied(FLOOR, a) <==> FloorV6(a)
  {
    Unspecified(a);
    LinkLocal(a);
    MulticastAndMetadata(a);
    assert forall i :: 0 <= i < 6 ==> |FLOOR[i].addr| == 4;
  }

  // ---------- The check ----------

  predicate Carries(f: Form, a: Addr) { |a| == 16 && Contains(FormPrefix(f), a) }

  /** An IPv4 address that a carries is under a denied prefix. */
  ghost predicate CarriesDenied(deny: seq<Prefix>, a: Addr) {
    exists f: Form :: Carries(f, a) && Denied(deny, Extract(f, a))
  }

  /** a, or an IPv4 address it carries, is under a denied prefix. */
  ghost predicate Forbidden(deny: seq<Prefix>, a: Addr) {
    Denied(deny, Unmap(a)) || CarriesDenied(deny, Unmap(a))
  }

  /** What is checked for a: itself, and what it carries in the first e forms. */
  ghost function Checked(a: Addr, e: nat): seq<Addr>
    requires e <= |FORMS|
  {
    if e == 0 then [a]
    else Checked(a, e - 1) + if Carries(FORMS[e - 1], a) then [Extract(FORMS[e - 1], a)] else []
  }

  lemma {:induction false} CheckedMeans(a: Addr, e: nat, c: Addr)
    requires e <= |FORMS|
    ensures c in Checked(a, e) <==> c == a || exists j :: 0 <= j < e && Carries(FORMS[j], a) && c == Extract(FORMS[j], a)
  {
    if e > 0 {
      CheckedMeans(a, e - 1, c);
    }
  }

  lemma FormIsListed(f: Form) returns (j: nat)
    ensures j < |FORMS| && FORMS[j] == f
  {
    j := match f case Nat64 => 0 case Nat64Local => 1 case SixToFour => 2 case Teredo => 3;
  }

  lemma CheckedIsForbidden(deny: seq<Prefix>, a: Addr)
    ensures (exists c :: c in Checked(Unmap(a), |FORMS|) && Denied(deny, c)) <==> Forbidden(deny, a)
  {
    var u := Unmap(a);
    if c :| c in Checked(u, |FORMS|) && Denied(deny, c) {
      CheckedMeans(u, |FORMS|, c);
    }
    if Denied(deny, u) {
      CheckedMeans(u, |FORMS|, u);
    } else if CarriesDenied(deny, u) {
      var f: Form :| Carries(f, u) && Denied(deny, Extract(f, u));
      var j := FormIsListed(f);
      CheckedMeans(u, |FORMS|, Extract(f, u));
    }
  }

  method CheckDenied(deny: seq<Prefix>, a: Addr) returns (yes: bool)
    ensures yes <==> Denied(deny, a)
  {
    for d := 0 to |deny|
      invariant forall k :: 0 <= k < d ==> !Contains(deny[k], a)
    {
      if Contains(deny[d], a) {
        return true;
      }
    }
    return false;
  }

  method CheckForbidden(deny: seq<Prefix>, a: Addr) returns (yes: bool)
    ensures yes <==> Forbidden(deny, a)
  {
    var unmapped := Unmap(a);
    var check := [unmapped];
    for e := 0 to |FORMS|
      invariant check == Checked(unmapped, e)
    {
      if Carries(FORMS[e], unmapped) {
        check := check + [Extract(FORMS[e], unmapped)];
      }
    }
    CheckedIsForbidden(deny, a);
    for i := 0 to |check|
      invariant forall j :: 0 <= j < i ==> !Denied(deny, check[j])
    {
      var bad := CheckDenied(deny, check[i]);
      if bad {
        return true;
      }
    }
    return false;
  }

  /** An address is carried in a form exactly when it begins with the form's bytes. */
  lemma CarriesExactly(a: Addr)
    requires |a| == 16
    ensures Carries(Nat64, a) <==> a[..12] == [0, 0x64, 0xff, 0x9b, 0, 0, 0, 0, 0, 0, 0, 0]
    ensures Carries(Nat64Local, a) <==> a[..6] == [0, 0x64, 0xff, 0x9b, 0, 1]
    ensures Carries(SixToFour, a) <==> a[..2] == [0x20, 0x02]
    ensures Carries(Teredo, a) <==> a[..4] == [0x20, 0x01, 0, 0]
  {
  }

  /** The address begins with the bytes of a form, and a denied IPv4 address stands where the form keeps it; Teredo inverts it. */
  ghost predicate FormCarriesDenied(deny: seq<Prefix>, a: Addr, f: Form)
    requires |a| == 16
  {
    match f
    case Nat64 => a[..12] == [0, 0x64, 0xff, 0x9b, 0, 0, 0, 0, 0, 0, 0, 0] && Denied(deny, a[12..])
    case Nat64Local => a[..6] == [0, 0x64, 0xff, 0x9b, 0, 1] && Denied(deny, [a[6], a[7], a[9], a[10]])
    case SixToFour => a[..2] == [0x20, 0x02] && Denied(deny, a[2..6])
    case Teredo =>
      a[..4] == [0x20, 0x01, 0, 0] && Denied(deny, [255 - a[12], 255 - a[13], 255 - a[14], 255 - a[15]])
  }

  lemma BytesCarry(deny: seq<Prefix>, a: Addr, f: Form)
    requires |a| == 16
    ensures Carries(f, a) && Denied(deny, Extract(f, a)) <==> FormCarriesDenied(deny, a, f)
  {
    CarriesExactly(a);
    var e := Extract(f, a);
    match f
    case Nat64 => assert e == a[12..];
    case Nat64Local => assert e == [a[6], a[7], a[9], a[10]];
    case SixToFour => assert e == a[2..6];
    case Teredo => assert e == [255 - a[12], 255 - a[13], 255 - a[14], 255 - a[15]];
  }

  /** What is forbidden: a denied address, an IPv4-mapped one denied unmapped, and one whose bytes carry a denied one. */
  lemma ForbiddenExactly(deny: seq<Prefix>, a: Addr)
    requires Valid(a)
    ensures Forbidden(deny, a) <==>
      if |a| == 4 then Denied(deny, a)
      else if a[..12] == [0, 0, 0, 0, 0, 0, 0, 0, 0, 0, 0xff, 0xff] then Denied(deny, a[12..])
      else Denied(deny, a) || exists f: Form :: FormCarriesDenied(deny, a, f)
  {
    if |a| == 16 {
      forall f: Form ensures Carries(f, a) && Denied(deny, Extract(f, a)) <==> FormCarriesDenied(deny, a, f) {
        BytesCarry(deny, a, f);
      }
    }
  }

  /** An IPv4 address that is denied is forbidden in every IPv6 form that carries it, IPv4-mapped included. */
  lemma DeniedInEveryForm(deny: seq<Prefix>, a: Addr, f: Form, filler: Addr)
    requires |a| == 4 && |filler| == 16 && Denied(deny, a)
    ensures Forbidden(deny, a)
    ensures Forbidden(deny, Embed(f, a, filler))
    ensures Forbidden(deny, MAPPED + a)
  {
    ExtractUndoesEmbed(f, a, filler);
    assert (MAPPED + a)[..12] == MAPPED && (MAPPED + a)[12..] == a;
  }

  /** 127.0.0.1 in each form, the free bits zero: 64:ff9b::7f00:1, 64:ff9b:1:7f00:0:100::, 2002:7f00:1::, 2001::80ff:fffe. */
  lemma LoopbackInEachForm(deny: seq<Prefix>)
    requires forall a :: Denied(FLOOR, a) ==> Denied(deny, a)
    ensures Forbidden(deny, [0, 0x64, 0xff, 0x9b, 0, 0, 0, 0, 0, 0, 0, 0, 127, 0, 0, 1])
    ensures Forbidden(deny, [0, 0x64, 0xff, 0x9b, 0, 1, 127, 0, 0, 0, 1, 0, 0, 0, 0, 0])
    ensures Forbidden(deny, [0x20, 0x02, 127, 0, 0, 1, 0, 0, 0, 0, 0, 0, 0, 0, 0, 0])
    ensures Forbidden(deny, [0x20, 0x01, 0, 0, 0, 0, 0, 0, 0, 0, 0, 0, 128, 255, 255, 254])
  {
    var a: Addr := [127, 0, 0, 1];
    FloorExactly(a);
    forall f: Form ensures Forbidden(deny, Embed(f, a, ZEROS)) {
      DeniedInEveryForm(deny, a, f, ZEROS);
    }
    LoopbackInNat64();
    LoopbackInNat64Local();
    LoopbackInSixToFour();
    LoopbackInTeredo();
  }

  lemma LoopbackInNat64()
    ensures Embed(Nat64, [127, 0, 0, 1], ZEROS) == [0, 0x64, 0xff, 0x9b, 0, 0, 0, 0, 0, 0, 0, 0, 127, 0, 0, 1]
  {
  }

  lemma LoopbackInNat64Local()
    ensures Embed(Nat64Local, [127, 0, 0, 1], ZEROS) == [0, 0x64, 0xff, 0x9b, 0, 1, 127, 0, 0, 0, 1, 0, 0, 0, 0, 0]
  {
  }

  lemma LoopbackInSixToFour()
    ensures Embed(SixToFour, [127, 0, 0, 1], ZEROS) == [0x20, 0x02, 127, 0, 0, 1, 0, 0, 0, 0, 0, 0, 0, 0, 0, 0]
  {
  }

  lemma LoopbackInTeredo()
    ensures Embed(Teredo, [127, 0, 0, 1], ZEROS) == [0x20, 0x01, 0, 0, 0, 0, 0, 0, 0, 0, 0, 0, 128, 255, 255, 254]
  {
  }

  // ---------- Dialing ----------

  datatype Refusal = ForbiddenAddress | DnsFailed | DialFailed

  /** What one address's dial came to: a connection, by number, or none. */
  type Dialed = Option<nat>

  /** The connections made, in the order their results came. */
  function Connections(results: seq<Dialed>): seq<nat> {
    if results == [] then []
    else
      var last := results[|results| - 1];
      Connections(results[..|results| - 1]) + (if last.None? then [] else [last.value])
  }

  /** Where dials go: what dialing a list of addresses at once comes to, in the order the answers arrive, and what has been dialed and closed. */
  class Network {
    const answers: seq<Addr> -> seq<Dialed>
    var dialed: seq<Addr>
    var closed: seq<nat>

    constructor (answers: seq<Addr> -> seq<Dialed>)
      ensures this.answers == answers && dialed == [] && closed == []
    {
      this.answers := answers;
      dialed, closed := [], [];
    }

    method DialAll(addrs: seq<Addr>) returns (results: seq<Dialed>)
      modifies this`dialed
      ensures dialed == old(dialed) + addrs && results == answers(addrs)
    {
      dialed := dialed + addrs;
      results := answers(addrs);
    }

    method Close(c: nat)
      modifies this`closed
      ensures closed == old(closed) + [c]
    {
      closed := closed + [c];
    }
  }

  /** race: every address is dialed, the first to connect wins, and every later connection is closed. */
  method Race(network: Network, addrs: seq<Addr>) returns (winner: Option<nat>)
    modifies network
    ensures network.dialed == old(network.dialed) + addrs
    ensures
      var made := Connections(network.answers(addrs));
      if made == [] then winner == None && network.closed == old(network.closed)
      else winner == Some(made[0]) && network.closed == old(network.closed) + made[1..]
  {
    winner := None;
    var results := network.DialAll(addrs);
    for i := 0 to |results|
      invariant network.dialed == old(network.dialed) + addrs
      invariant
        var made := Connections(results[..i]);
        if made == [] then winner == None && network.closed == old(network.closed)
        else winner == Some(made[0]) && network.closed == old(network.closed) + made[1..]
    {
      assert results[..i + 1][..i] == results[..i];
      var r := results[i];
      if r.None? {
      } else if winner.None? {
        winner := r;
      } else {
        network.Close(r.value);
      }
    }
    assert results[..|results|] == results;
  }

  predicate HasSuffix(s: string, suffix: string) { |s| >= |suffix| && s[|s| - |suffix|..] == suffix }

  predicate ForbiddenName(host: string) {
    || host in {"localhost", "metadata.google.internal", "metadata.goog", "instance-data.ec2.internal"}
    || HasSuffix(host, ".localhost")
  }

  const MAX_ADDRS := 8

  /** The addresses a destination is dialed at: itself, or the first eight its name resolves to. */
  function Candidates(literal: Option<Addr>, resolved: Option<seq<Addr>>): seq<Addr> {
    match literal
    case Some(a) => [a]
    case None =>
      if resolved.None? then []
      else if |resolved.value| <= MAX_ADDRS then resolved.value
      else resolved.value[..MAX_ADDRS]
  }

  /** Which names are never resolved, and which addresses a name is dialed at. */
  lemma NamesAndCandidates(host: string, resolved: Option<seq<Addr>>)
    ensures ForbiddenName(host) <==>
      || host == "localhost" || host == "metadata.google.internal" || host == "metadata.goog"
      || host == "instance-data.ec2.internal"
      || exists name :: host == name + ".localhost"
    ensures
      var addrs := Candidates(None, resolved);
      && |addrs| <= 8
      && (resolved.None? ==> addrs == [])
      && (resolved.Some? ==> addrs <= resolved.value && (addrs == resolved.value || |addrs| == 8))
  {
    if HasSuffix(host, ".localhost") {
      assert host == host[..|host| - 10] + ".localhost";
    }
  }

  /** Neither the name nor any of the addresses is forbidden. */
  ghost predicate Allowed(deny: seq<Prefix>, host: string, literal: Option<Addr>, resolved: Option<seq<Addr>>) {
    && !ForbiddenName(host)
    && forall a :: a in Candidates(literal, resolved) ==> !Forbidden(deny, a)
  }

  method CheckAll(deny: seq<Prefix>, addrs: seq<Addr>) returns (bad: bool)
    ensures bad <==> exists a :: a in addrs && Forbidden(deny, a)
  {
    for i := 0 to |addrs|
      invariant forall j :: 0 <= j < i ==> !Forbidden(deny, addrs[j])
    {
      bad := CheckForbidden(deny, addrs[i]);
      if bad {
        return true;
      }
    }
    return false;
  }

  /**
    A direct dial: every candidate is dialed if there are any and all of them, checked
    first, are allowed; else none is.
  */
  method Dial(network: Network, deny: seq<Prefix>, host: string, literal: Option<Addr>, resolved: Option<seq<Addr>>)
    returns (r: Result<nat, Refusal>)
    modifies network
    ensures
      var addrs := Candidates(literal, resolved);
      var made := Connections(network.answers(addrs));
      if !Allowed(deny, host, literal, resolved) then
        r == Err(ForbiddenAddress) && network.dialed == old(network.dialed) && network.closed == old(network.closed)
      else if addrs == [] then
        r == Err(DnsFailed) && network.dialed == old(network.dialed) && network.closed == old(network.closed)
      else
        && network.dialed == old(network.dialed) + addrs
        && if made == [] then r == Err(DialFailed) && network.closed == old(network.closed)
           else r == Ok(made[0]) && network.closed == old(network.closed) + made[1..]
  {
    if literal.Some? {
      var forbidden := CheckForbidden(deny, literal.value);
      if forbidden {
        assert literal.value in Candidates(literal, resolved);
        return Err(ForbiddenAddress);
      }
    }
    if ForbiddenName(host) {
      return Err(ForbiddenAddress);
    }
    var addrs: seq<Addr>;
    if literal.Some? {
      addrs := [literal.value];
    } else {
      if resolved.None? || |resolved.value| == 0 {
        return Err(DnsFailed);
      }
      addrs := resolved.value;
      if |addrs| > MAX_ADDRS {
        addrs := addrs[..MAX_ADDRS];
      }
    }
    var bad := CheckAll(deny, addrs);
    if bad {
      return Err(ForbiddenAddress);
    }
    var conn := Race(network, addrs);
    return if conn.None? then Err(DialFailed) else Ok(conn.value);
  }
}
