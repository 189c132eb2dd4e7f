/** The hash that the converter computes with shifts and masks is the gABI's. */
module SymbolHash {
  import opened Bytes
  import opened Bits
  import opened Names
  import opened HashTable
  import opened ElfLoader
  import opened Build

  const TOP: nat := 0x1000_0000

  lemma Halves(a: nat)
    ensures a / 2 / 2 == a / 4 && a / 4 / 2 == a / 8 && (a < 16 ==> a / 8 < 2)
  {
  }

  /** One bit of an exclusive or. */
  lemma XorBit(a: nat, b: nat)
    ensures Xor(a, b) == 2 * Xor(a / 2, b / 2) + if Bit(a, 1) != Bit(b, 1) then 1 else 0
  {
    hide Xor;
    XorBits(a, b);
    Parity(a, b);
    assert a / 1 == a && b / 1 == b;
  }

  lemma Parity(a: nat, b: nat)
    ensures (a + b) % 2 == if a % 2 == b % 2 then 0 else 1
  {
    var x, y := a % 2, b % 2;
    assert a + b == 2 * (a / 2 + b / 2) + (x + y);
  }

  lemma XorNibbles(a: nat, b: nat)
    requires a < 16 && b < 16
    ensures Xor(a, b) == XorNibble(a, b) < 16
  {
    assert Xor(0, 0) == 0;
    hide Xor;
    Halves(a);
    Halves(b);
    BitsOf(a);
    BitsOf(b);
    XorBit(a, b);
    XorBit(a / 2, b / 2);
    XorBit(a / 4, b / 4);
    XorBit(a / 8, b / 8);
    hide Bit;
  }

  lemma BitsOf(a: nat)
    ensures Bit(a / 2, 1) == Bit(a, 2) && Bit(a / 4, 1) == Bit(a, 4) && Bit(a / 8, 1) == Bit(a, 8)
    ensures a < 16 ==> a / 8 / 2 == 0
  {
  }

  /** The mask 0xf0000000 picks the top four of 32 bits. */
  lemma TopBits(t: nat)
    requires t < U32
    ensures And(t, 0xf000_0000) == t / TOP * TOP
  {
    Pow2Widths();
    AndSplit(t / TOP, t % TOP, 15, 0, 28);
    AndOnes(t / TOP, 4);
    assert And(t % TOP, 0) == 0;
  }

  /** Exclusive or with n shifted up by four changes bits 4 to 7 alone. */
  lemma Folded(t: nat, n: nat)
    requires n < 16
    ensures Xor(t, n * 16) == t / 256 * 256 + XorNibble(t / 16 % 16, n) * 16 + t % 16
  {
    hide Xor, XorNibble;
    Pow2Widths();
    var q := t / 16;
    assert t / 256 == q / 16 && t == q * 16 + t % 16 && q == q / 16 * 16 + q % 16;
    XorSplit(q, t % 16, n, 0, 4);
    XorSplit(q / 16, q % 16, 0, n, 4);
    XorZero(t % 16);
    XorZero(q / 16);
    XorNibbles(q % 16, n);
  }

  /** And with the complement of the top bits clears them. */
  lemma Cleared(top: nat, low: nat)
    requires top < 16 && low < TOP
    ensures And(top * TOP + low, U32 - 1 - top * TOP) == low
  {
    Pow2Widths();
    AndSplit(top, low, 15 - top, TOP - 1, 28);
    AndComplement(top, 4);
    AndOnes(low, 28);
  }

  lemma FoldSmall(low: nat, n: nat)
    requires low < TOP && n < 16
    ensures low / 256 * 256 + XorNibble(low / 16 % 16, n) * 16 + low % 16 < TOP
  {
    hide XorNibble;
    var x := XorNibble(low / 16 % 16, n);
    XorNibbles(low / 16 % 16, n);
    assert low / 256 <= 0xf_ffff && low % 16 <= 15 && x * 16 <= 240;
  }

  lemma NoFold(low: nat)
    ensures low / 256 * 256 + XorNibble(low / 16 % 16, 0) * 16 + low % 16 == low
  {
    var d := low / 16 % 16;
    XorNibbles(d, 0);
    XorZero(d);
    hide XorNibble, Xor;
    assert low / 256 == low / 16 / 16;
  }

  /** The digits of a number past its top part are those of its low part. */
  lemma LowDigits(top: nat, low: nat)
    requires low < TOP
    ensures var t := top * TOP + low;
      t / 256 * 256 == top * TOP + low / 256 * 256 && t / 16 % 16 == low / 16 % 16 && t % 16 == low % 16
  {
    var m := top * 0x10_0000;
    assert top * TOP == m * 256;
    DigitsOf(m, low);
  }

  lemma DigitsOf(m: nat, low: nat)
    ensures var t := m * 256 + low;
      t / 256 * 256 == m * 256 + low / 256 * 256 && t / 16 % 16 == low / 16 % 16 && t % 16 == low % 16
  {
    var n := m * 16;
    assert m * 256 + low == n * 16 + low;
    Shifted256(m, low);
    Shifted16(n, low);
    Shifted16(m, low / 16);
  }

  lemma Shifted256(m: nat, x: nat)
    ensures (m * 256 + x) / 256 == m + x / 256
  {
  }

  lemma Shifted16(n: nat, x: nat)
    ensures (n * 16 + x) / 16 == n + x / 16 && (n * 16 + x) % 16 == x % 16
  {
  }

  lemma StepAgrees(h: nat, c: byte)
    requires h < TOP
    ensures HashStep(h, c) == GabiStep(h, c) < TOP
  {
    hide And, Xor, XorNibble;
    var t := (16 * h + c) % U32;
    assert h * 16 % U32 == 16 * h;
    var top, low := t / TOP, t % TOP;
    TopBits(t);
    LowDigits(top, low);
    Folded(t, top);
    FoldSmall(low, top);
    NoFold(low);
    var g := And(t, 0xf000_0000);
    assert g / 0x100_0000 == top * 16;
    Cleared(top, low / 256 * 256 + XorNibble(low / 16 % 16, top) * 16 + low % 16);
  }

  /** Both hashes are the same 28-bit number, for every name. */
  lemma {:induction false} HashAgrees(name: Name)
    ensures SysvHash(name) == GabiHash(name) < TOP
  {
    hide HashStep, GabiStep;
    if name != [] {
      HashAgrees(name[..|name| - 1]);
      StepAgrees(GabiHash(name[..|name| - 1]), name[|name| - 1]);
    }
  }

  /** The characters as the digits of a number, in base 16 with carries. */
  function Digits(name: Name): nat {
    if name == [] then 0 else 16 * Digits(name[..|name| - 1]) + name[|name| - 1]
  }

  /** As long as that number has 28 bits it is the hash. */
  lemma {:induction false} ShortHash(name: Name)
    requires Digits(name) < TOP
    ensures SysvHash(name) == Digits(name)
  {
    hide HashStep, GabiStep;
    if name != [] {
      var init, c := name[..|name| - 1], name[|name| - 1];
      ShortHash(init);
      StepAgrees(Digits(init), c);
      ShortStep(Digits(init), c);
    }
  }

  lemma ShortStep(h: nat, c: byte)
    requires 16 * h + c < TOP
    ensures GabiStep(h, c) == 16 * h + c
  {
    hide XorNibble;
    var t := 16 * h + c;
    NoFold(t);
    assert t % 0x1_0000_0000 == t && t / 0x1000_0000 == 0 && t % 0x1000_0000 == t;
  }

  /** Which it has for up to six characters below 240, every ASCII name among them. */
  lemma {:induction false} SixFit(name: Name)
    requires |name| <= 6 && forall i :: 0 <= i < |name| ==> name[i] < 240
    ensures Digits(name) <= 16 * (Power16(|name|) - 1) && Digits(name) < TOP
  {
    if name != [] {
      var init := name[..|name| - 1];
      assert forall i :: 0 <= i < |init| ==> init[i] == name[i];
      SixFit(init);
    }
    assert Power16(6) == 16 * Power16(5) == 256 * Power16(4) == 4096 * Power16(3) == 0x1_0000 * Power16(2);
    Power16Grows(|name|, 6);
  }

  function Power16(n: nat): nat { if n == 0 then 1 else 16 * Power16(n - 1) }

  lemma {:induction false} Power16Grows(a: nat, b: nat)
    requires a <= b
    ensures 1 <= Power16(a) <= Power16(b)
  {
    if a > 0 { Power16Grows(a - 1, b - 1); } else if b > 0 { Power16Grows(0, b - 1); }
  }

  /** For one, `_entrypoint` hashes to 0xa649be4. */
  lemma EntrypointHash()
    ensures SysvHash(ENTRYPOINT) == 0xa649be4
  {
    HashAgrees(ENTRYPOINT);
    EntrypointSteps();
    hide GabiStep, SysvHash, GabiHash;
    EmptyHash();
    HashedTo(ENTRYPOINT, 0, 0x0, 0x5f);
    HashedTo(ENTRYPOINT, 1, 0x5f, 0x655);
    HashedTo(ENTRYPOINT, 2, 0x655, 0x65be);
    HashedTo(ENTRYPOINT, 3, 0x65be, 0x65c54);
    HashedTo(ENTRYPOINT, 4, 0x65c54, 0x65c5b2);
    HashedTo(ENTRYPOINT, 5, 0x65c5b2, 0x65c5b99);
    HashedTo(ENTRYPOINT, 6, 0x65c5b99, 0x5c5ba60);
    HashedTo(ENTRYPOINT, 7, 0x5c5ba60, 0xc5ba63f);
    HashedTo(ENTRYPOINT, 8, 0xc5ba63f, 0x5ba6499);
    HashedTo(ENTRYPOINT, 9, 0x5ba6499, 0xba649ae);
    HashedTo(ENTRYPOINT, 10, 0xba649ae, 0xa649be4);
    assert ENTRYPOINT[..11] == ENTRYPOINT;
  }

  lemma EmptyHash()
    ensures GabiHash(ENTRYPOINT[..0]) == 0
  {
  }

  lemma EntrypointSteps()
    ensures GabiStep(0x0, 0x5f) == 0x5f && GabiStep(0x5f, 0x65) == 0x655
    ensures GabiStep(0x655, 0x6e) == 0x65be && GabiStep(0x65be, 0x74) == 0x65c54
    ensures GabiStep(0x65c54, 0x72) == 0x65c5b2 && GabiStep(0x65c5b2, 0x79) == 0x65c5b99
    ensures GabiStep(0x65c5b99, 0x70) == 0x5c5ba60 && GabiStep(0x5c5ba60, 0x6f) == 0xc5ba63f
    ensures GabiStep(0xc5ba63f, 0x69) == 0x5ba6499 && GabiStep(0x5ba6499, 0x6e) == 0xba649ae
    ensures GabiStep(0xba649ae, 0x74) == 0xa649be4
  {
    NibblesFolded();
    hide GabiStep, XorNibble;
    ShortStep(0x0, 0x5f);
    ShortStep(0x5f, 0x65);
    ShortStep(0x655, 0x6e);
    ShortStep(0x65be, 0x74);
    ShortStep(0x65c54, 0x72);
    ShortStep(0x65c5b2, 0x79);
    LongStep(0x65c5b99, 0x70, 6, 0x5c5ba, 0, 0);
    LongStep(0x5c5ba60, 0x6f, 5, 0xc5ba6, 6, 15);
    LongStep(0xc5ba63f, 0x69, 12, 0x5ba64, 5, 9);
    LongStep(0x5ba6499, 0x6e, 5, 0xba649, 15, 14);
    LongStep(0xba649ae, 0x74, 11, 0xa649b, 5, 4);
  }

  lemma NibblesFolded()
    ensures XorNibble(0, 6) == 6 && XorNibble(6, 5) == 3 && XorNibble(5, 12) == 9 && XorNibble(15, 5) == 10
    ensures XorNibble(5, 11) == 14
  {
  }

  lemma LongStep(h: nat, c: byte, top: nat, high: nat, d: nat, e: nat)
    requires 16 * h + c == top * TOP + high * 256 + d * 16 + e && top < 16 && high < 0x10_0000 && d < 16 && e < 16
    ensures GabiStep(h, c) == high * 256 + XorNibble(d, top) * 16 + e
  {
    hide XorNibble;
    var low := high * 256 + d * 16 + e;
    assert (16 * h + c) % 0x1_0000_0000 == top * TOP + low;
    assert low / 256 == high && low % 16 == e && low / 16 % 16 == d;
  }

  lemma HashedTo(name: Name, k: nat, h: nat, h': nat)
    requires k < |name| && GabiHash(name[..k]) == h && GabiStep(h, name[k]) == h'
    ensures GabiHash(name[..k + 1]) == h'
  {
    assert name[..k + 1][..k] == name[..k];
  }
}
