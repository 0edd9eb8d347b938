/**
 * The three address formats the gateway builds by formatting a slot index
 * with `%d` between fixed segments: the metadata address of a key, the
 * actuation control address a dispatcher subscribes to, and the signal
 * address it republishes state on.
 */
module Addresses {

  predicate IsDigit(c: char)
  {
    '0' <= c <= '9'
  }

  function DigitChar(d: nat): (c: char)
    requires d < 10
    ensures IsDigit(c) && DigitValue(c) == d
  {
    ('0' as int + d) as char
  }

  /** The value of a decimal digit character. */
  function DigitValue(c: char): nat
    requires IsDigit(c)
  {
    c as int - '0' as int
  }

  /** The number a string of decimal digits denotes, most significant digit first. */
  function Value(s: string): nat
    requires forall k :: 0 <= k < |s| ==> IsDigit(s[k])
  {
    if s == [] then 0 else Value(s[..|s| - 1]) * 10 + DigitValue(s[|s| - 1])
  }

  /** Decimal rendering of a non-negative integer, as `%d` writes it. */
  function Decimal(n: nat): (s: string)
    ensures |s| > 0
    ensures forall k :: 0 <= k < |s| ==> IsDigit(s[k])
    ensures (n < 10) <==> (|s| == 1)
  {
    if n < 10 then [DigitChar(n)] else Decimal(n / 10) + [DigitChar(n % 10)]
  }

  /** Reading a rendering back gives the number rendered. */
  lemma {:induction false} DecimalValue(n: nat)
    ensures Value(Decimal(n)) == n
  {
    if n >= 10 {
      var s := Decimal(n);
      assert s[..|s| - 1] == Decimal(n / 10);
      DecimalValue(n / 10);
    }
  }

  lemma DigitCharInjective(a: nat, b: nat)
    requires a < 10 && b < 10 && DigitChar(a) == DigitChar(b)
    ensures a == b
  {
  }

  /** Different indices render differently. */
  lemma {:induction false} DecimalInjective(a: nat, b: nat)
    requires Decimal(a) == Decimal(b)
    ensures a == b
  {
    var s := Decimal(a);
    if a < 10 {
      DigitCharInjective(a, b);
    } else {
      assert b >= 10;
      assert Decimal(a / 10) == s[..|s| - 1] == Decimal(b / 10);
      DecimalInjective(a / 10, b / 10);
      DigitCharInjective(a % 10, b % 10);
    }
  }

  /** A shorter rendering followed by '/' never equals a longer one followed by '/'. */
  lemma ShorterThenSlash(di: string, dj: string, x: string, y: string)
    requires |di| < |dj| && forall k :: 0 <= k < |dj| ==> IsDigit(dj[k])
    requires |x| > 0 && x[0] == '/'
    ensures di + x != dj + y
  {
    assert (di + x)[|di|] == '/';
    assert IsDigit((dj + y)[|di|]);
  }

  /**
   * A decimal rendering followed by a '/' can be read back unambiguously:
   * the index and the rest of the address are both recovered.
   */
  lemma DecimalThenSlash(i: nat, j: nat, x: string, y: string)
    requires |x| > 0 && x[0] == '/' && |y| > 0 && y[0] == '/'
    requires Decimal(i) + x == Decimal(j) + y
    ensures i == j && x == y
  {
    var di, dj := Decimal(i), Decimal(j);
    if |di| < |dj| {
      ShorterThenSlash(di, dj, x, y);
    } else if |dj| < |di| {
      ShorterThenSlash(dj, di, y, x);
    } else {
      assert di == (di + x)[..|di|] == (dj + y)[..|dj|] == dj;
      DecimalInjective(i, j);
      assert x == (di + x)[|di|..] == (dj + y)[|dj|..] == y;
    }
  }

  const ServiceSegment: string := "/s.powerup.v0/"
  const MetaSegment: string := "/!meta/"
  const SlotSuffix: string := "/i.binact/slot/state"
  const SignalSuffix: string := "/i.binact/signal/state"

  /** The part common to every address of slot `idx`. */
  function SlotPrefix(base: string, idx: nat): string
  {
    base + ServiceSegment + Decimal(idx)
  }

  /** `<base>/s.powerup.v0/<idx>/!meta/<key>` */
  function MetaAddress(base: string, idx: nat, key: string): string
  {
    SlotPrefix(base, idx) + MetaSegment + key
  }

  /** `<base>/s.powerup.v0/<idx>/i.binact/slot/state`: the control address a dispatcher subscribes to. */
  function SlotAddress(base: string, idx: nat): string
  {
    SlotPrefix(base, idx) + SlotSuffix
  }

  /** `<base>/s.powerup.v0/<idx>/i.binact/signal/state`: where a dispatcher republishes state. */
  function SignalAddress(base: string, idx: nat): string
  {
    SlotPrefix(base, idx) + SignalSuffix
  }

  /** Two addresses of the same base with '/'-led tails agree only for the same slot and tail. */
  lemma SlotPrefixSplit(base: string, i: nat, j: nat, x: string, y: string)
    requires |x| > 0 && x[0] == '/' && |y| > 0 && y[0] == '/'
    requires SlotPrefix(base, i) + x == SlotPrefix(base, j) + y
    ensures i == j && x == y
  {
    var p := base + ServiceSegment;
    assert SlotPrefix(base, i) + x == p + (Decimal(i) + x);
    assert SlotPrefix(base, j) + y == p + (Decimal(j) + y);
    assert Decimal(i) + x == (p + (Decimal(i) + x))[|p|..];
    assert Decimal(j) + y == (p + (Decimal(j) + y))[|p|..];
    DecimalThenSlash(i, j, x, y);
  }

  /** Distinct (slot, key) pairs have distinct metadata addresses. */
  lemma MetaAddressInjective(base: string, i: nat, k1: string, j: nat, k2: string)
    requires MetaAddress(base, i, k1) == MetaAddress(base, j, k2)
    ensures i == j && k1 == k2
  {
    assert MetaAddress(base, i, k1) == SlotPrefix(base, i) + (MetaSegment + k1);
    assert MetaAddress(base, j, k2) == SlotPrefix(base, j) + (MetaSegment + k2);
    SlotPrefixSplit(base, i, j, MetaSegment + k1, MetaSegment + k2);
    assert k1 == (MetaSegment + k1)[|MetaSegment|..] == (MetaSegment + k2)[|MetaSegment|..] == k2;
  }

  /**
   * No metadata address and no signal address is ever a control address, so
   * neither a metadata publish nor a state republish reaches a dispatcher;
   * and control and signal addresses of different slots never meet.
   */
  lemma AddressKindsDisjoint(base: string, i: nat, j: nat, key: string)
    ensures MetaAddress(base, i, key) != SlotAddress(base, j)
    ensures MetaAddress(base, i, key) != SignalAddress(base, j)
    ensures SignalAddress(base, i) != SlotAddress(base, j)
    ensures SlotAddress(base, i) == SlotAddress(base, j) ==> i == j
    ensures SignalAddress(base, i) == SignalAddress(base, j) ==> i == j
  {
    var mt := MetaSegment + key;
    assert mt[1] != SlotSuffix[1] && mt[1] != SignalSuffix[1];
    assert SignalSuffix[11] != SlotSuffix[11];
    assert MetaAddress(base, i, key) == SlotPrefix(base, i) + mt;
    if MetaAddress(base, i, key) == SlotAddress(base, j) {
      SlotPrefixSplit(base, i, j, mt, SlotSuffix);
      assert false;
    }
    if MetaAddress(base, i, key) == SignalAddress(base, j) {
      SlotPrefixSplit(base, i, j, mt, SignalSuffix);
      assert false;
    }
    if SignalAddress(base, i) == SlotAddress(base, j) {
      SlotPrefixSplit(base, i, j, SignalSuffix, SlotSuffix);
      assert false;
    }
    if SlotAddress(base, i) == SlotAddress(base, j) {
      SlotPrefixSplit(base, i, j, SlotSuffix, SlotSuffix);
    }
    if SignalAddress(base, i) == SignalAddress(base, j) {
      SlotPrefixSplit(base, i, j, SignalSuffix, SignalSuffix);
    }
  }
}
