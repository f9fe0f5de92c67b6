// The WAL device filter: st_dev is split into major:minor by the extension,
// printed, parsed by the loader and packed into the kernel's dev_t.
module DeviceNumber {
  import opened Machine
  import opened Text
  import opened Words
  import Inflight

  // ---- Splitting and packing ---------------------------------------------

  // Major and minor of a 64-bit st_dev, with the shifts and masks as
  // divisions and remainders; MajorIsShifts and MinorIsShifts relate the two.
  function Major(dev: U64): nat {
    dev / 0x100 % 0x1000 + dev / 0x1000_0000_0000 * 0x1000
  }

  function Minor(dev: U64): nat {
    dev % 0x100 + dev / 0x10_0000 * 0x100
  }

  // The kernel's packing of a 12-bit major and a 20-bit minor.
  function Pack(major: nat, minor: nat): nat {
    major * 0x10_0000 + minor
  }

  // A word of the given width with its low n bits set: 0xff, 0xfff and the like.
  function Mask(n: nat, width: nat): (x: Word)
    ensures |x| == width
  {
    seq(width, i => i < n)
  }

  // The extension's shifts and masks compute Major and Minor on every st_dev.
  lemma {:induction false} MajorIsShifts(dev: U64)
    ensures var d, mask := Bits(dev, 64), Mask(12, 64);
            Value(Or(And(Shr(d, 8), mask), And(Shr(d, 32), Not(mask)))) == Major(dev)
  {
    var d, mask := Bits(dev, 64), Mask(12, 64);
    var m := Or(And(Shr(d, 8), mask), And(Shr(d, 32), Not(mask)));
    Powers();
    ValueOfBits(dev, 64);
    assert m[..12] == d[8..][..12];
    assert m[12..] == d[44..] + Zeros(32);
    Cut(m, 12, 0x1000);
    ZerosOnTop(d[44..], 32);
    Cut(d, 8, 0x100);
    Cut(d[8..], 12, 0x1000);
    Cut(d, 44, 0x1000_0000_0000);
  }

  lemma {:induction false} MinorIsShifts(dev: U64)
    ensures var d, mask := Bits(dev, 64), Mask(8, 64);
            Value(Or(And(d, mask), And(Shr(d, 12), Not(mask)))) == Minor(dev)
  {
    var d, mask := Bits(dev, 64), Mask(8, 64);
    var m := Or(And(d, mask), And(Shr(d, 12), Not(mask)));
    Powers();
    ValueOfBits(dev, 64);
    assert m[..8] == d[..8];
    assert m[8..] == d[20..] + Zeros(12);
    Cut(m, 8, 0x100);
    ZerosOnTop(d[20..], 12);
    Cut(d, 8, 0x100);
    Cut(d, 20, 0x10_0000);
  }

  // The deployment check splits with shorter masks.
  function ShellMajor(dev: U64): nat {
    Value(And(Shr(Bits(dev, 64), 8), Mask(12, 64)))
  }

  function ShellMinor(dev: U64): nat {
    var d, low := Bits(dev, 64), Mask(8, 64);
    Value(Or(And(d, low), And(Shr(d, 12), And(Mask(20, 64), Not(low)))))
  }

  // It gets the extension's parts exactly for devices that fit in 32 bits.
  lemma {:induction false} ShellSplitAgreesIff(dev: U64)
    ensures ShellMajor(dev) == Major(dev) && ShellMinor(dev) == Minor(dev) <==> dev < 0x1_0000_0000
  {
    SplitInRange(dev);
    ShellInRange(dev);
    if dev < 0x1_0000_0000 { ShellSplitAgrees(dev); }
  }

  lemma {:induction false} ShellInRange(dev: U64)
    ensures ShellMajor(dev) < 0x1000 && ShellMinor(dev) < 0x10_0000
  {
    var d, low := Bits(dev, 64), Mask(8, 64);
    Powers();
    ShortWord(And(Shr(d, 8), Mask(12, 64)), 12);
    ShortWord(Or(And(d, low), And(Shr(d, 12), And(Mask(20, 64), Not(low)))), 20);
  }

  lemma {:induction false} ShellSplitAgrees(dev: U64)
    requires dev < 0x1_0000_0000
    ensures ShellMajor(dev) == Major(dev) && ShellMinor(dev) == Minor(dev)
  {
    var d, low, mask := Bits(dev, 64), Mask(8, 64), Mask(12, 64);
    Powers();
    ValueOfBits(dev, 64);
    LowBits(d, 32, 0x1_0000_0000);
    MajorIsShifts(dev);
    MinorIsShifts(dev);
    assert And(Shr(d, 8), mask) == Or(And(Shr(d, 8), mask), And(Shr(d, 32), Not(mask)));
    assert And(Shr(d, 12), And(Mask(20, 64), Not(low))) == And(Shr(d, 12), Not(low));
  }

  // The loader's 32-bit shift-or of parts in range computes Pack: nothing is
  // shifted out and nothing overlaps.
  lemma {:induction false} PackIsShifts(major: nat, minor: nat)
    requires major < 0x1000 && minor < 0x10_0000
    ensures Value(Or(Shl(Bits(major, 32), 20), Bits(minor, 32))) == Pack(major, minor)
  {
    var a, b := Bits(major, 32), Bits(minor, 32);
    var p := Or(Shl(a, 20), b);
    Powers();
    ValueOfBits(major, 32);
    ValueOfBits(minor, 32);
    ShiftedOr(a, b);
    Cut(p, 20, 0x10_0000);
  }

  lemma {:induction false} ShiftedOr(a: Word, b: Word)
    requires |a| == 32 && Value(a) < 0x1000
    requires |b| == 32 && Value(b) < 0x10_0000
    ensures Value(Or(Shl(a, 20), b)[..20]) == Value(b)
    ensures Value(Or(Shl(a, 20), b)[20..]) == Value(a)
  {
    var p := Or(Shl(a, 20), b);
    Powers();
    LowBits(a, 12, 0x1000);
    LowBits(b, 20, 0x10_0000);
    assert p[..20] == b[..20];
    assert p[20..] == a[..12];
  }

  // A device number has parts in range exactly when it fits in 32 bits, and
  // then it can be put together again from them.
  lemma {:induction false} SplitInRange(dev: U64)
    ensures Major(dev) < 0x1000 && Minor(dev) < 0x10_0000 <==> dev < 0x1_0000_0000
    ensures dev < 0x1_0000_0000 ==>
              dev == Minor(dev) / 0x100 * 0x10_0000 + Major(dev) * 0x100 + Minor(dev) % 0x100
  {
    var low, mid, high := dev % 0x100, dev / 0x100 % 0x1000, dev / 0x10_0000;
    assert dev / 0x100 == high * 0x1000 + mid;
    assert dev == high * 0x10_0000 + mid * 0x100 + low;
    assert dev < 0x1_0000_0000 <==> high < 0x1000;
    assert Minor(dev) == high * 0x100 + low && (Minor(dev) < 0x10_0000 <==> high < 0x1000);
    assert high < 0x1000 ==> Major(dev) == mid;
  }

  // ---- Text --------------------------------------------------------------

  function Trim(s: string): string {
    TrimEnd(s[SpaceLength(s)..])
  }

  function TrimEnd(s: string): string {
    if s != "" && IsWhitespace(s[|s| - 1]) then TrimEnd(s[..|s| - 1]) else s
  }

  // Number of characters before the first colon.
  function ColonAt(s: string): (n: nat)
    ensures n <= |s| && (n < |s| ==> s[n] == ':')
    ensures forall k :: 0 <= k < n ==> s[k] != ':'
  {
    if s == "" || s[0] == ':' then 0 else 1 + ColonAt(s[1..])
  }

  function Part(s: string): Option<nat> {
    ParseUnsigned(Trim(s), U32_MAX)
  }

  lemma {:induction false} TrimEndOf(t: string, b: string)
    requires AllSpace(b) && t != "" && !IsWhitespace(t[|t| - 1])
    ensures TrimEnd(t + b) == t
  {
    if b == "" {
      assert t + b == t;
    } else {
      assert (t + b)[..|t + b| - 1] == t + b[..|b| - 1];
      TrimEndOf(t, b[..|b| - 1]);
    }
  }

  lemma {:induction false} TrimEndCuts(s: string)
    ensures TrimEnd(s) <= s && AllSpace(s[|TrimEnd(s)|..])
  {
    if s != "" && IsWhitespace(s[|s| - 1]) {
      TrimEndCuts(s[..|s| - 1]);
    }
  }

  lemma {:induction false} SpaceLengthCuts(s: string)
    ensures AllSpace(s[..SpaceLength(s)])
  {
    if s != "" && IsWhitespace(s[0]) {
      SpaceLengthCuts(s[1..]);
      assert s[..SpaceLength(s)] == [s[0]] + s[1..][..SpaceLength(s[1..])];
    }
  }

  lemma {:induction false} TrimOf(a: string, t: string, b: string)
    requires AllSpace(a) && AllSpace(b)
    requires t != "" && !IsWhitespace(t[0]) && !IsWhitespace(t[|t| - 1])
    ensures Trim(a + t + b) == t
  {
    assert a + t + b == a + (t + b) && (a + (t + b))[|a|..] == t + b;
    SpaceLengthOf(a, t + b);
    TrimEndOf(t, b);
  }

  // A part is a 32-bit number with any white space around it.
  lemma {:induction false} PartIff(s: string, v: nat)
    ensures Part(s) == Some(v) <==>
            exists a, t, b :: s == a + t + b && AllSpace(a) && AllSpace(b) && ParseUnsigned(t, 0xffff_ffff) == Some(v)
  {
    var n := SpaceLength(s);
    var t := Trim(s);
    SpaceLengthCuts(s);
    TrimEndCuts(s[n..]);
    assert s == s[..n] + t + s[n..][|t|..];
    if a, t', b :| s == a + t' + b && AllSpace(a) && AllSpace(b) && ParseUnsigned(t', 0xffff_ffff) == Some(v) {
      TrimOf(a, t', b);
    }
  }

  function PackParts(major: Option<nat>, minor: Option<nat>): Option<U32> {
    if major.None? || minor.None? || 0x1000 <= major.value || 0x10_0000 <= minor.value then None
    else Some(Pack(major.value, minor.value))
  }

  function ParseKernelDevT(s: string): Option<U32> {
    var n := ColonAt(s);
    if n == |s| then None else PackParts(Part(s[..n]), Part(s[n + 1..]))
  }

  lemma {:induction false} TrimKeepsColon(s: string)
    requires ':' in s
    ensures ':' in TrimEnd(s)
  {
    if s != "" && IsWhitespace(s[|s| - 1]) {
      assert s == s[..|s| - 1] + [s[|s| - 1]];
      TrimKeepsColon(s[..|s| - 1]);
    }
  }

  lemma {:induction false} SpacesHaveNoColon(s: string)
    ensures ':' !in s[..SpaceLength(s)]
  {
    if s != "" && IsWhitespace(s[0]) {
      SpacesHaveNoColon(s[1..]);
      assert s[..SpaceLength(s)] == [s[0]] + s[1..][..SpaceLength(s[1..])];
    }
  }

  lemma {:induction false} ColonIsNotANumber(t: string, max: nat)
    requires ':' in t
    ensures ParseUnsigned(t, max).None?
  {
    var i :| 0 <= i < |t| && t[i] == ':';
    var d := if t[0] == '+' then t[1..] else t;
    var k := if t[0] == '+' then i - 1 else i;
    assert d[k] == ':' && !IsDigit(d[k]);
  }

  lemma {:induction false} NumberHasNoColon(s: string)
    requires Part(s).Some?
    ensures ':' !in s
  {
    if ':' in s {
      var n := SpaceLength(s);
      assert s == s[..n] + s[n..];
      SpacesHaveNoColon(s);
      TrimKeepsColon(s[n..]);
      ColonIsNotANumber(Trim(s), U32_MAX);
    }
  }

  lemma {:induction false} ColonAfter(a: string, b: string)
    requires ':' !in a
    ensures ColonAt(a + ":" + b) == |a|
  {
    var s := a + ":" + b;
    var n := ColonAt(s);
    assert s[|a|] == ':';
    forall k | 0 <= k < |a|
      ensures s[k] != ':'
    {
      assert s[k] == a[k] && a[k] in a;
    }
  }

  // The text s is two numbers around its only colon, with space around them,
  // and they are the parts of r.
  ghost predicate Describes(s: string, a: string, b: string, r: U32) {
    && s == a + ":" + b
    && ':' !in a && ':' !in b
    && Part(a) == Some(r / 0x10_0000)
    && Part(b) == Some(r % 0x10_0000)
  }

  lemma {:induction false} PackPartsIff(x: Option<nat>, y: Option<nat>, r: U32)
    ensures PackParts(x, y) == Some(r) <==> x == Some(r / 0x10_0000) && y == Some(r % 0x10_0000)
  {
    if x.Some? && y.Some? && y.value < 0x10_0000 { UnpackOfPack(x.value, y.value); }
  }

  lemma {:induction false} UnpackOfPack(major: nat, minor: nat)
    requires minor < 0x10_0000
    ensures Pack(major, minor) / 0x10_0000 == major && Pack(major, minor) % 0x10_0000 == minor
  {
  }

  lemma {:induction false} ParseAt(s: string, a: string, b: string, r: U32)
    requires s == a + ":" + b && ':' !in a
    ensures ParseKernelDevT(s) == Some(r) <==> Describes(s, a, b, r)
  {
    ColonAfter(a, b);
    assert s[..|a|] == a && s[|a| + 1..] == b;
    if Part(b).Some? { NumberHasNoColon(b); }
    PackPartsIff(Part(a), Part(b), r);
  }

  // What is accepted, over all strings, and with which result. A second colon
  // is always rejected.
  lemma {:induction false} ParseIff(s: string, r: U32)
    ensures ParseKernelDevT(s) == Some(r) <==> exists a, b :: Describes(s, a, b, r)
  {
    if ParseKernelDevT(s) == Some(r) {
      AcceptedParts(s, r);
    }
    if a, b :| Describes(s, a, b, r) {
      ParseAt(s, a, b, r);
    }
  }

  lemma {:induction false} AcceptedParts(s: string, r: U32)
    requires ParseKernelDevT(s) == Some(r)
    ensures exists a, b :: Describes(s, a, b, r)
  {
    var n := ColonAt(s);
    SplitAround(s, n);
    NotBefore(s, n);
    ParseAt(s, s[..n], s[n + 1..], r);
  }

  lemma {:induction false} NotBefore(s: string, n: nat)
    requires n <= |s| && forall k :: 0 <= k < n ==> s[k] != ':'
    ensures ':' !in s[..n]
  {
  }

  lemma {:induction false} SplitAround(s: string, n: nat)
    requires n < |s| && s[n] == ':'
    ensures s == s[..n] + ":" + s[n + 1..]
  {
  }

  // ---- The whole chain ---------------------------------------------------

  // The text pgsleuth_wal_device() returns.
  function WalDevice(dev: U64): string {
    Decimal(Major(dev)) + ":" + Decimal(Minor(dev))
  }

  lemma {:induction false} TrimWord(w: string)
    requires IsWord(w)
    ensures Trim(w) == w
  {
    assert w[0..] == w;
  }

  lemma {:induction false} ParseOfLarge(n: nat, max: nat)
    ensures ParseUnsigned(Trim(Decimal(n)), max) == if n <= max then Some(n) else None
  {
    DecimalIsWord(n);
    DecimalDigits(n);
    TrimWord(Decimal(n));
    assert IsDigit(Decimal(n)[0]);
  }

  // The loader recovers the kernel's number for the device exactly when st_dev
  // fits in 32 bits; for a wider one it reports that it could not parse.
  lemma {:induction false} ChainIsExact(dev: U64)
    ensures ParseKernelDevT(WalDevice(dev)) ==
            if dev < 0x1_0000_0000 then Some(Pack(Major(dev), Minor(dev))) else None
  {
    var a, b := Decimal(Major(dev)), Decimal(Minor(dev));
    DecimalIsWord(Major(dev));
    ColonAfter(a, b);
    var s := WalDevice(dev);
    assert s[..|a|] == a && s[|a| + 1..] == b;
    ParseOfLarge(Major(dev), U32_MAX);
    ParseOfLarge(Minor(dev), U32_MAX);
    SplitInRange(dev);
  }

  // Different devices keep different filters.
  lemma {:induction false} ChainIsInjective(d: U64, e: U64)
    requires ParseKernelDevT(WalDevice(d)).Some?
    requires ParseKernelDevT(WalDevice(d)) == ParseKernelDevT(WalDevice(e))
    ensures d == e
  {
    ChainIsExact(d);
    ChainIsExact(e);
    SplitInRange(d);
    SplitInRange(e);
    UnpackOfPack(Major(d), Minor(d));
    UnpackOfPack(Major(e), Minor(e));
  }

  // The filter the kernel gets: an explicit number first, then the discovered
  // device, 0 when there is neither or it does not parse.
  function EffectiveDevT(explicitDevT: Option<U32>, walDevice: Option<string>): U32 {
    match explicitDevT
    case Some(d) => d
    case None =>
      match walDevice
      case None => 0
      case Some(s) => if ParseKernelDevT(s).Some? then ParseKernelDevT(s).value else 0
  }

  // An explicit number wins whatever was discovered, and is taken as it is;
  // without either, or when the text does not parse, the filter is off.
  lemma {:induction false} EffectiveDevTIs(explicitDevT: Option<U32>, walDevice: Option<string>)
    ensures var f := EffectiveDevT(explicitDevT, walDevice);
            && (explicitDevT.Some? ==> f == explicitDevT.value)
            && (explicitDevT.None? && walDevice.Some? && ParseKernelDevT(walDevice.value).Some? ==>
                  Some(f) == ParseKernelDevT(walDevice.value))
            && (explicitDevT.None? && (walDevice.None? || ParseKernelDevT(walDevice.value).None?) ==>
                  f == 0 && forall d: U32 :: Inflight.PassesFilter(f, d))
  {
  }

  // With discovery only, the filter lets every device through exactly when
  // st_dev is 0 or does not fit in 32 bits; otherwise exactly the WAL device's.
  lemma {:induction false} FilterOffIff(dev: U64)
    ensures var f := EffectiveDevT(None, Some(WalDevice(dev)));
            if dev == 0 || 0x1_0000_0000 <= dev then forall d: U32 :: Inflight.PassesFilter(f, d)
            else forall d: U32 :: Inflight.PassesFilter(f, d) <==> d == Pack(Major(dev), Minor(dev))
  {
    ChainIsExact(dev);
    SplitInRange(dev);
  }
}
