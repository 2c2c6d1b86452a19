/** Addresses as big-endian byte strings, the way Go's net.IP holds them: 4 bytes for
    IPv4, 16 bytes for IPv6.  The executable operations below work byte by byte; the
    lemmas give their meaning on the number the bytes denote (section 3.1 of RFC 4632,
    section 2.3 of RFC 4291). */
module IpBytes {

  type Byte = b: nat | b < 256
  type Bytes = seq<Byte>

  /** A parsed network: masked address and prefix length, as net.ParseCIDR returns it. */
  datatype Net = Net(ip: Bytes, ones: nat) {
    predicate Valid() {
      && (|ip| == 4 || |ip| == 16)
      && ones <= 8 * |ip|
      && Masked(ip, ones) == ip
    }

    ghost function HostBits(): nat
      requires ones <= 8 * |ip|
    {
      8 * |ip| - ones
    }

    ghost function First(): nat {
      Num(ip)
    }

    ghost function Last(): nat
      requires ones <= 8 * |ip|
    {
      Num(ip) + Pow2(HostBits()) - 1
    }
  }

  type Network = n: Net | n.Valid() witness Net([0, 0, 0, 0], 32)

  // ----- numbers

  function Pow2(n: nat): (p: nat)
    ensures p > 0
  {
    if n == 0 then 1 else 2 * Pow2(n - 1)
  }

  function Num(s: Bytes): nat {
    if s == [] then 0 else 256 * Num(s[..|s| - 1]) + s[|s| - 1]
  }

  lemma {:induction false} NumAppend(s: Bytes, b: Byte)
    ensures Num(s + [b]) == 256 * Num(s) + b
  {
  }

  lemma {:induction false} NumBound(s: Bytes)
    ensures Num(s) < Pow2(8 * |s|)
  {
    if s != [] {
      NumBound(s[..|s| - 1]);
      Pow2Byte(8 * |s| - 8);
    }
  }

  lemma {:induction false} Pow2Byte(n: nat)
    ensures Pow2(n + 8) == 256 * Pow2(n)
  {
    assert Pow2(n + 8) == 2 * Pow2(n + 7) == 4 * Pow2(n + 6) == 8 * Pow2(n + 5) == 16 * Pow2(n + 4);
    assert Pow2(n + 4) == 2 * Pow2(n + 3) == 4 * Pow2(n + 2) == 8 * Pow2(n + 1) == 16 * Pow2(n);
  }

  /** Two addresses of one family are the same address exactly when they denote the same number. */
  lemma {:induction false} NumInjective(a: Bytes, b: Bytes)
    requires |a| == |b| && Num(a) == Num(b)
    ensures a == b
  {
    if a != [] {
      var n := |a| - 1;
      var x, y := a[n], b[n];
      assert Num(a[..n]) == Num(b[..n]) && x == y;
      NumInjective(a[..n], b[..n]);
      assert a == a[..n] + [a[n]] && b == b[..n] + [b[n]];
    }
  }

  // ----- increment

  function Incremented(s: Bytes): (r: Bytes)
    ensures |r| == |s|
  {
    if s == [] then []
    else if s[|s| - 1] == 255 then Incremented(s[..|s| - 1]) + [0]
    else s[..|s| - 1] + [s[|s| - 1] + 1]
  }

  /** The number the next address denotes: one more, wrapping to zero after the last. */
  function Successor(x: nat, n: nat): nat {
    if x + 1 == Pow2(8 * n) then 0 else x + 1
  }

  lemma {:induction false} IncrementedIsSuccessor(s: Bytes)
    ensures Num(Incremented(s)) == Successor(Num(s), |s|)
  {
    if s != [] {
      var n := |s| - 1;
      var r := Incremented(s);
      NumBound(s[..n]);
      Pow2Byte(8 * n);
      if s[n] == 255 {
        IncrementedIsSuccessor(s[..n]);
        assert r[..n] == Incremented(s[..n]);
      } else {
        assert r[..n] == s[..n];
      }
    }
  }

  /** Adds one in place, carrying leftwards; all-ones wraps to zero (IncrementedIsSuccessor). */
  method Inc(ip: array<Byte>)
    modifies ip
    ensures ip[..] == Incremented(old(ip[..]))
  {
    ghost var was := ip[..];
    var j := ip.Length - 1;
    while j >= 0
      invariant -1 <= j < ip.Length
      invariant forall k :: 0 <= k <= j ==> ip[k] == was[k]
      invariant forall k :: j < k < ip.Length ==> was[k] == 255 && ip[k] == 0
    {
      ip[j] := if ip[j] == 255 then 0 else ip[j] + 1;  // one byte: 255 + 1 wraps to 0
      if ip[j] > 0 {
        break;
      }
      j := j - 1;
    }
    CarryChain(was, j, ip[..]);
  }

  /** The carry stops at position j (or runs off the left end, j == -1). */
  lemma {:induction false} CarryChain(s: Bytes, j: int, r: Bytes)
    requires -1 <= j < |s| == |r|
    requires forall k :: 0 <= k < j ==> r[k] == s[k]
    requires 0 <= j ==> s[j] != 255 && r[j] == s[j] + 1
    requires forall k :: j < k < |s| ==> s[k] == 255 && r[k] == 0
    ensures r == Incremented(s)
  {
    if s != [] {
      var n := |s| - 1;
      if j == n {
        assert r == s[..n] + [s[n] + 1];
      } else {
        CarryChain(s[..n], j, r[..n]);
        assert r == r[..n] + [0];
      }
    }
  }

  // ----- masks

  /** Bitwise conjunction and disjunction of binary numerals, bit by bit from the right. */
  function BitAnd(a: nat, b: nat): (r: nat)
    ensures r <= a
  {
    if a == 0 || b == 0 then 0
    else (if a % 2 == 1 && b % 2 == 1 then 1 else 0) + 2 * BitAnd(a / 2, b / 2)
  }

  function BitOr(a: nat, b: nat): nat {
    if a == 0 then b else if b == 0 then a
    else (if a % 2 == 1 || b % 2 == 1 then 1 else 0) + 2 * BitOr(a / 2, b / 2)
  }

  lemma {:induction false} BitOrBound(a: nat, b: nat, w: nat)
    requires a < Pow2(w) && b < Pow2(w)
    ensures BitOr(a, b) < Pow2(w)
  {
    if w > 0 {
      BitOrBound(a / 2, b / 2, w - 1);
    }
  }

  function And8(a: Byte, b: Byte): Byte {
    BitAnd(a, b)
  }

  function Or8(a: Byte, b: Byte): Byte {
    SmallPowers();
    BitOrBound(a, b, 8);
    BitOr(a, b)
  }

  function Not8(a: Byte): Byte {
    255 - a
  }

  /** A mask byte with k one-bits from the left. */
  function MaskByte(k: nat): (m: Byte) {
    match k
    case 0 => 0
    case 1 => 0x80
    case 2 => 0xC0
    case 3 => 0xE0
    case 4 => 0xF0
    case 5 => 0xF8
    case 6 => 0xFC
    case 7 => 0xFE
    case _ => 0xFF
  }

  /** net.CIDRMask: `ones` one-bits from the left, over n bytes. */
  function CidrMask(ones: nat, n: nat): (m: Bytes)
    ensures |m| == n
  {
    seq(n, i requires 0 <= i < n => if 8 * i <= ones then MaskByte(ones - 8 * i) else 0)
  }

  function Masked(s: Bytes, ones: nat): (r: Bytes)
    ensures |r| == |s|
  {
    var m := CidrMask(ones, |s|);
    seq(|s|, i requires 0 <= i < |s| => And8(s[i], m[i]))
  }

  function Filled(s: Bytes, ones: nat): (r: Bytes)
    ensures |r| == |s|
  {
    var m := CidrMask(ones, |s|);
    seq(|s|, i requires 0 <= i < |s| => Or8(s[i], Not8(m[i])))
  }

  /** x with its h lowest bits cleared. */
  function RoundDown(x: nat, h: nat): nat {
    if h == 0 then x else 2 * RoundDown(x / 2, h - 1)
  }

  lemma {:induction false} RoundDownSpan(x: nat, h: nat)
    ensures RoundDown(x, h) <= x <= RoundDown(x, h) + Pow2(h) - 1
    ensures RoundDown(RoundDown(x, h), h) == RoundDown(x, h)
  {
    if h > 0 {
      RoundDownSpan(x / 2, h - 1);
    }
  }

  lemma {:induction false} RoundDownMultiple(x: nat, h: nat) returns (q: nat)
    ensures RoundDown(x, h) == q * Pow2(h)
  {
    if h == 0 {
      q := x;
    } else {
      q := RoundDownMultiple(x / 2, h - 1);
      assert 2 * (q * Pow2(h - 1)) == q * (2 * Pow2(h - 1));
    }
  }

  /** Rounding splits the numbers into aligned blocks of size Pow2(h). */
  lemma {:induction false} RoundDownBlock(x: nat, f: nat, h: nat)
    requires RoundDown(f, h) == f
    ensures RoundDown(x, h) == f <==> f <= x <= f + Pow2(h) - 1
  {
    if h > 0 {
      RoundDownBlock(x / 2, f / 2, h - 1);
    }
  }

  lemma {:induction false} RoundDownNested(x: nat, h: nat, k: nat)
    requires h <= k
    ensures RoundDown(RoundDown(x, h), k) == RoundDown(x, k)
  {
    if h > 0 {
      RoundDownNested(x / 2, h - 1, k - 1);
    }
  }

  lemma {:induction false} RoundDownHighBytes(n: nat, b: nat, h: nat)
    requires b < 256
    ensures RoundDown(256 * n + b, h + 8) == 256 * RoundDown(n, h)
  {
    var x := 256 * n + b;
    assert x / 2 / 2 / 2 / 2 == 16 * n + b / 16;
    assert (16 * n + b / 16) / 2 / 2 / 2 / 2 == n;
    assert RoundDown(x, h + 8) == 16 * RoundDown(16 * n + b / 16, h + 4) by { RoundDown4(x, h + 4); }
    assert RoundDown(16 * n + b / 16, h + 4) == 16 * RoundDown(n, h) by { RoundDown4(16 * n + b / 16, h); }
  }

  lemma {:induction false} RoundDown4(x: nat, h: nat)
    ensures RoundDown(x, h + 4) == 16 * RoundDown(x / 16, h)
  {
    assert x / 2 / 2 / 2 / 2 == x / 16;
    assert RoundDown(x, h + 4) == 2 * RoundDown(x / 2, h + 3);
    assert RoundDown(x / 2, h + 3) == 2 * RoundDown(x / 2 / 2, h + 2);
    assert RoundDown(x / 2 / 2, h + 2) == 2 * RoundDown(x / 2 / 2 / 2, h + 1);
    assert RoundDown(x / 2 / 2 / 2, h + 1) == 2 * RoundDown(x / 2 / 2 / 2 / 2, h);
  }

  lemma {:induction false} RoundDownOffset(y: nat, b: nat, h: nat)
    requires RoundDown(y, h) == y
    ensures RoundDown(y + b, h) == y + RoundDown(b, h)
  {
    if h > 0 {
      RoundDownOffset(y / 2, b / 2, h - 1);
    }
  }

  lemma {:induction false} RoundDownLowByte(n: nat, b: nat, h: nat)
    requires h <= 8
    ensures RoundDown(256 * n + b, h) == 256 * n + RoundDown(b, h)
  {
    RoundDownHighBytes(n, 0, 0);
    RoundDownNested(256 * n, h, 8);
    RoundDownSpan(256 * n, h);
    RoundDownSpan(RoundDown(256 * n, h), 8);
    RoundDownOffset(256 * n, b, h);
  }

  lemma {:induction false} AndDouble(b: nat, m: nat, bit: nat)
    requires bit < 2
    ensures BitAnd(b, 2 * m + bit) == 2 * BitAnd(b / 2, m) + (if bit == 1 then b % 2 else 0)
  {
  }

  /** And-ing with a left mask of a w-bit numeral rounds it down; or-ing with the complement fills its block. */
  lemma {:induction false} AndBlock(b: nat, w: nat, z: nat)
    requires z <= w && b < Pow2(w)
    ensures Pow2(z) <= Pow2(w) && BitAnd(b, Pow2(w) - Pow2(z)) == RoundDown(b, z)
  {
    hide BitAnd;
    if z > 0 {
      AndBlock(b / 2, w - 1, z - 1);
      AndDouble(b, Pow2(w - 1) - Pow2(z - 1), 0);
    } else if w > 0 {
      AndBlock(b / 2, w - 1, 0);
      AndDouble(b, Pow2(w - 1) - 1, 1);
    } else {
      AndDouble(0, 0, 0);
    }
  }

  lemma {:induction false} OrBlock(b: nat, z: nat)
    ensures BitOr(b, Pow2(z) - 1) == RoundDown(b, z) + Pow2(z) - 1
  {
    if z > 0 {
      OrBlock(b / 2, z - 1);
      var c := Pow2(z) - 1;
      assert c == 2 * (Pow2(z - 1) - 1) + 1;
      assert c % 2 == 1 && c / 2 == Pow2(z - 1) - 1;
      if b == 0 {
        RoundDownSpan(0, z);
      }
    }
  }

  /** One byte of a mask, with k one-bits: the byte is rounded down, or filled up, within its block. */
  lemma {:induction false} MaskedByte(b: Byte, k: nat)
    requires k <= 8
    ensures And8(b, MaskByte(k)) == RoundDown(b, 8 - k)
    ensures Or8(b, Not8(MaskByte(k))) == RoundDown(b, 8 - k) + Pow2(8 - k) - 1
  {
    SmallPowers();
    assert MaskByte(k) == Pow2(8) - Pow2(8 - k);
    AndBlock(b, 8, 8 - k);
    OrBlock(b, 8 - k);
  }

  lemma {:induction false} SmallPowers()
    ensures Pow2(0) == 1 && Pow2(1) == 2 && Pow2(2) == 4 && Pow2(3) == 8 && Pow2(4) == 16
    ensures Pow2(5) == 32 && Pow2(6) == 64 && Pow2(7) == 128 && Pow2(8) == 256
  {
  }

  /** Masking clears the host bits: the network number is the address rounded down to a
      multiple of the network size, and filling the host bits gives the end of that block. */
  lemma {:induction false} MaskedIsRoundedDown(s: Bytes, ones: nat)
    requires ones <= 8 * |s|
    ensures Num(Masked(s, ones)) == RoundDown(Num(s), 8 * |s| - ones)
    ensures Num(Filled(s, ones)) == RoundDown(Num(s), 8 * |s| - ones) + Pow2(8 * |s| - ones) - 1
  {
    if s != [] {
      if ones <= 8 * |s| - 8 {
        MaskedIsRoundedDown(s[..|s| - 1], ones);
        MaskedMoreBytes(s, ones);
      } else {
        MaskedInLastByte(s, ones);
      }
    }
  }

  lemma {:induction false} MaskedMoreBytes(s: Bytes, ones: nat)
    requires s != [] && ones <= 8 * |s| - 8
    requires var n := |s| - 1;
             && Num(Masked(s[..n], ones)) == RoundDown(Num(s[..n]), 8 * n - ones)
             && Num(Filled(s[..n], ones)) == RoundDown(Num(s[..n]), 8 * n - ones) + Pow2(8 * n - ones) - 1
    ensures Num(Masked(s, ones)) == RoundDown(Num(s), 8 * |s| - ones)
    ensures Num(Filled(s, ones)) == RoundDown(Num(s), 8 * |s| - ones) + Pow2(8 * |s| - ones) - 1
  {
    hide Masked, Filled, RoundDown, Pow2;
    var n := |s| - 1;
    MaskedBeforeLastByte(s, ones);
    NumAppend(Masked(s[..n], ones), 0);
    NumAppend(Filled(s[..n], ones), 255);
    Pow2Byte(8 * n - ones);
    RoundDownHighBytes(Num(s[..n]), s[n], 8 * n - ones);
  }

  lemma {:induction false} MaskedBeforeLastByte(s: Bytes, ones: nat)
    requires s != [] && ones <= 8 * |s| - 8
    ensures var n := |s| - 1; Masked(s, ones) == Masked(s[..n], ones) + [0] && Filled(s, ones) == Filled(s[..n], ones) + [255]
  {
    var n := |s| - 1;
    MaskedByte(s[n], 0);
    RoundDownBlock(s[n], 0, 8);
    RoundDownSpan(0, 8);
    SmallPowers();
    assert Masked(s, ones)[..n] == Masked(s[..n], ones);
    assert Filled(s, ones)[..n] == Filled(s[..n], ones);
  }

  lemma {:induction false} MaskedInLastByte(s: Bytes, ones: nat)
    requires s != [] && 8 * |s| - 8 < ones <= 8 * |s|
    ensures Num(Masked(s, ones)) == RoundDown(Num(s), 8 * |s| - ones)
    ensures Num(Filled(s, ones)) == RoundDown(Num(s), 8 * |s| - ones) + Pow2(8 * |s| - ones) - 1
  {
    var n := |s| - 1;
    LeadingBytesKept(s, ones);
    MaskedByte(s[n], ones - 8 * n);
    RoundDownLowByte(Num(s[..n]), s[n], 8 * |s| - ones);
  }

  lemma {:induction false} LeadingBytesKept(s: Bytes, ones: nat)
    requires s != [] && 8 * |s| - 8 < ones <= 8 * |s|
    ensures Masked(s, ones)[..|s| - 1] == s[..|s| - 1] == Filled(s, ones)[..|s| - 1]
  {
    forall i | 0 <= i < |s| - 1 ensures Masked(s, ones)[i] == s[i] == Filled(s, ones)[i] {
      MaskedByte(s[i], 8);
    }
  }

  // ----- networks

  /** net.IPNet.Contains on plain 4- and 16-byte addresses. */
  predicate Contains(n: Net, ip: Bytes) {
    && |ip| == |n.ip|
    && var m := CidrMask(n.ones, |n.ip|);
       forall i :: 0 <= i < |ip| ==> And8(n.ip[i], m[i]) == And8(ip[i], m[i])
  }

  lemma {:induction false} ContainsIffRoundsToFirst(n: Net, ip: Bytes)
    requires n.Valid() && |ip| == |n.ip|
    ensures Contains(n, ip) <==> RoundDown(Num(ip), n.HostBits()) == n.First()
    ensures RoundDown(n.First(), n.HostBits()) == n.First()
  {
    var x, y := Masked(ip, n.ones), Masked(n.ip, n.ones);
    MaskedIsRoundedDown(ip, n.ones);
    MaskedIsRoundedDown(n.ip, n.ones);
    SameNetworkBytes(n, ip);
    if Num(x) == Num(y) {
      NumInjective(x, y);
    }
  }

  /** Byte-wise membership is an interval of numbers of the network's own family. */
  lemma {:induction false} ContainsIffInRange(n: Net, ip: Bytes)
    requires n.Valid()
    ensures Contains(n, ip) <==> |ip| == |n.ip| && n.First() <= Num(ip) <= n.Last()
  {
    if |ip| == |n.ip| {
      ContainsIffRoundsToFirst(n, ip);
      RoundDownBlock(Num(ip), n.First(), n.HostBits());
    }
  }

  lemma {:induction false} SameNetworkBytes(n: Net, ip: Bytes)
    requires |ip| == |n.ip|
    ensures Contains(n, ip) <==> Masked(ip, n.ones) == Masked(n.ip, n.ones)
  {
    var x, y := Masked(ip, n.ones), Masked(n.ip, n.ones);
    if Contains(n, ip) {
      assert forall i :: 0 <= i < |ip| ==> x[i] == y[i];
    }
    if x == y {
      forall i | 0 <= i < |ip| ensures And8(n.ip[i], CidrMask(n.ones, |ip|)[i]) == And8(ip[i], CidrMask(n.ones, |ip|)[i]) {
        assert x[i] == y[i];
      }
    }
  }

  lemma {:induction false} FilledIsLast(n: Net)
    requires n.Valid()
    ensures Contains(n, Filled(n.ip, n.ones)) && Num(Filled(n.ip, n.ones)) == n.Last()
  {
    MaskedIsRoundedDown(n.ip, n.ones);
    ContainsIffInRange(n, Filled(n.ip, n.ones));
  }

  lemma {:induction false} LastFits(n: Net)
    requires n.Valid()
    ensures n.Last() < Pow2(8 * |n.ip|)
  {
    FilledIsLast(n);
    NumBound(Filled(n.ip, n.ones));
  }

  /** util.GetBroadcastIP: the greatest address of the network. */
  method GetBroadcastIP(n: Net) returns (broadcast: Bytes)
    requires n.Valid()
    ensures Contains(n, broadcast)
    ensures forall x :: Contains(n, x) ==> Num(x) <= Num(broadcast)
    ensures broadcast == Filled(n.ip, n.ones)
  {
    broadcast := FillHostBits(n.ip, CidrMask(n.ones, |n.ip|));
    assert broadcast == Filled(n.ip, n.ones);
    FilledIsLast(n);
    forall x | Contains(n, x) ensures Num(x) <= Num(broadcast) {
      ContainsIffInRange(n, x);
    }
  }

  method FillHostBits(ip: Bytes, mask: Bytes) returns (r: Bytes)
    requires |mask| == |ip|
    ensures |r| == |ip| && forall k :: 0 <= k < |ip| ==> r[k] == Or8(ip[k], Not8(mask[k]))
  {
    var a := new Byte[|ip|](_ => 0);
    for i := 0 to |ip|
      invariant forall k :: 0 <= k < i ==> a[k] == Or8(ip[k], Not8(mask[k]))
    {
      a[i] := Or8(ip[i], Not8(mask[i]));
    }
    r := a[..];
  }

  /** util.ContainsCIDR. */
  predicate ContainsCIDR(outer: Net, inner: Net) {
    outer.ones <= inner.ones && Contains(outer, inner.ip)
  }

  /** The test compares prefix lengths and one address, yet it decides inclusion of the
      two address sets (and is never true across families). */
  lemma {:induction false} ContainsCIDRIffSubset(outer: Net, inner: Net)
    requires outer.Valid() && inner.Valid()
    ensures ContainsCIDR(outer, inner)
       <==> (|outer.ip| == |inner.ip| && forall x :: Contains(inner, x) ==> Contains(outer, x))
  {
    ContainsIffInRange(inner, inner.ip);
    if ContainsCIDR(outer, inner) {
      forall x | Contains(inner, x) ensures Contains(outer, x) {
        NestedMember(outer, inner, x);
      }
    } else if |outer.ip| == |inner.ip| && outer.ones > inner.ones {
      var top := Filled(inner.ip, inner.ones);
      FilledIsLast(inner);
      ContainsIffInRange(outer, top);
      ContainsIffInRange(outer, inner.ip);
      Pow2Monotone(outer.HostBits() + 1, inner.HostBits());
    }
  }

  lemma {:induction false} NestedMember(outer: Net, inner: Net, x: Bytes)
    requires outer.Valid() && inner.Valid()
    requires ContainsCIDR(outer, inner) && Contains(inner, x)
    ensures Contains(outer, x)
  {
    ContainsIffRoundsToFirst(inner, x);
    ContainsIffRoundsToFirst(outer, inner.ip);
    ContainsIffRoundsToFirst(outer, x);
    RoundDownNested(Num(x), inner.HostBits(), outer.HostBits());
  }

  lemma {:induction false} Pow2Monotone(k: nat, n: nat)
    requires k <= n
    ensures Pow2(k) <= Pow2(n)
  {
    if k < n {
      Pow2Monotone(k, n - 1);
    }
  }
}
