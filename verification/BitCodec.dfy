/**
 CAST ... FORMAT 'BASE2', 'BASE8' and 'BASE16' between BYTES and STRING: a big-endian bit stream
 written in groups of 1, 3 or 4 bits, the last group padded with zeros.
 */
module BitCodec {
  import opened Sequences
  import opened Arithmetic
  import opened Ascii

  type Byte = x: int | 0 <= x < 256

  predicate Width(w: nat) {
    w == 1 || w == 3 || w == 4
  }

  // ----- digits -----

  function Pow2(n: nat): (p: nat)
    ensures p > 0
  {
    if n == 0 then 1 else 2 * Pow2(n - 1)
  }

  const RADIX_DIGITS: string := "0123456789abcdef"

  function DigitChar(d: nat): char
    requires d < 16
  {
    RADIX_DIGITS[d]
  }

  /** The position of a character among the digits, ignoring case. */
  function DigitOf(c: char): Option<nat> {
    var l := LowerChar(c);
    if '0' <= l <= '9' then Some(l as int - '0' as int)
    else if 'a' <= l <= 'f' then Some(10 + l as int - 'a' as int)
    else None
  }

  lemma DigitCharOf(d: nat)
    requires d < 16
    ensures DigitOf(DigitChar(d)) == Some(d)
  {}

  lemma DigitOfChar(c: char)
    requires DigitOf(c).Some?
    ensures DigitOf(c).value < 16 && DigitChar(DigitOf(c).value) == LowerChar(c)
  {}

  function Chars(ds: seq<nat>): string
    requires forall i :: 0 <= i < |ds| ==> ds[i] < 16
  {
    seq(|ds|, i requires 0 <= i < |ds| => DigitChar(ds[i]))
  }

  predicate IsDigits(s: string, w: nat) {
    forall i :: 0 <= i < |s| ==> DigitOf(s[i]).Some? && DigitOf(s[i]).value < Pow2(w)
  }

  function Digits(s: string, w: nat): seq<nat>
    requires IsDigits(s, w)
  {
    seq(|s|, i requires 0 <= i < |s| => DigitOf(s[i]).value)
  }

  // ----- the number a stream of groups stands for -----

  function ToNat(ds: seq<nat>, base: nat): nat {
    if ds == [] then 0 else ToNat(ds[..|ds| - 1], base) * base + ds[|ds| - 1]
  }

  predicate Below(ds: seq<nat>, base: nat) {
    forall i :: 0 <= i < |ds| ==> ds[i] < base
  }

  lemma ToNatSnoc(ds: seq<nat>, d: nat, base: nat)
    ensures ToNat(ds + [d], base) == ToNat(ds, base) * base + d
  {
    assert (ds + [d])[..|ds|] == ds;
  }

  /** A number has one representation of each length. */
  lemma {:induction false} ToNatUnique(a: seq<nat>, b: seq<nat>, base: nat)
    requires |a| == |b| && Below(a, base) && Below(b, base) && ToNat(a, base) == ToNat(b, base)
    ensures a == b
    decreases |a|
  {
    if a != [] {
      var n := |a| - 1;
      SameQuotient(ToNat(a[..n], base), a[n], ToNat(b[..n], base), b[n], base);
      ToNatUnique(a[..n], b[..n], base);
      assert a == a[..n] + [a[n]] && b == b[..n] + [b[n]];
    }
  }

  // ----- arithmetic -----

  lemma {:induction false} Pow2Add(a: nat, b: nat)
    ensures Pow2(a + b) == Pow2(a) * Pow2(b)
    decreases a
  {
    if a > 0 { Pow2Add(a - 1, b); }
  }

  lemma Small(x: nat, m: nat)
    requires x < m
    ensures x % m == x
  {
    ModUnique(x, m, 0, x);
  }

  /** Appending a group of q values to t*p + acc. */
  lemma ShiftIn(t: nat, p: nat, acc: nat, q: nat, d: nat)
    requires acc < p && d < q
    ensures (t * p + acc) * q + d == t * (p * q) + (acc * q + d)
    ensures acc * q + d < p * q
  {
    Distribute(t * p, acc, q);
    Associate(t, p, q);
    MulLe(acc + 1, p, q);
    Distribute(acc, 1, q);
  }

  /** Moving a group of p values out of the pending part. */
  lemma ShiftOut(t: nat, q: nat, d: nat, p: nat, r: nat)
    ensures (t * q + d) * p + r == t * (p * q) + (d * p + r)
  {
    Distribute(t * q, d, p);
    Associate(t, q, p);
    assert q * p == p * q;
  }

  /** The low bits of x below p*q are a group of q above the bits below p. */
  lemma ModSplit(x: nat, p: nat, q: nat)
    requires p > 0 && q > 0
    ensures p * q > 0 && x % (p * q) == ((x / p) % q) * p + x % p
  {
    var d, r := x / p, x % p;
    Divide(x, p);
    var e, f := d / q, d % q;
    Divide(d, q);
    ShiftOut(e, q, f, p, r);
    MulLe(f + 1, q, p);
    Distribute(f, 1, p);
    assert p * q == q * p;
    ModUnique(x, p * q, e, f * p + r);
  }

  // ----- shifts and masks -----

  /** x << n, x >> n and x & (1 << n - 1) on unsigned integers. */
  function ShiftLeft(x: nat, n: nat): nat { x * Pow2(n) }

  function ShiftRight(x: nat, n: nat): nat { Div(x, Pow2(n)) }

  function Mask(x: nat, n: nat): (r: nat)
    ensures r < Pow2(n)
  {
    x % Pow2(n)
  }

  // ----- encoding -----

  /** The bits in k groups. */
  function Bits(w: nat, k: nat): nat { w * k }

  /** The groups written so far and n pending bits hold the bytes read so far. */
  ghost predicate Encoding(read: nat, ds: seq<nat>, acc: nat, n: nat, w: nat) {
    read == ToNat(ds, Pow2(w)) * Pow2(n) + Mask(acc, n)
  }

  lemma ReadByte(read: nat, ds: seq<nat>, acc: nat, n: nat, w: nat, c: Byte)
    requires Encoding(read, ds, acc, n, w) && acc < Pow2(n)
    ensures Encoding(read * 256 + c, ds, acc * 256 + c, n + 8, w)
  {
    Pow2Add(n, 8);
    assert Pow2(8) == 256;
    hide Pow2, ToNat;
    var t, p := ToNat(ds, Pow2(w)), Pow2(n);
    Small(acc, p);
    ShiftIn(t, p, acc, 256, c);
    Small(acc * 256 + c, p * 256);
  }

  lemma WriteGroup(read: nat, ds: seq<nat>, acc: nat, n: nat, w: nat)
    requires Encoding(read, ds, acc, n + w, w)
    ensures Encoding(read, ds + [Mask(ShiftRight(acc, n), w)], acc, n, w)
  {
    hide Pow2, ToNat;
    var t, p, q := ToNat(ds, Pow2(w)), Pow2(n), Pow2(w);
    var d := (acc / p) % q;
    Pow2Add(n, w);
    ModSplit(acc, p, q);
    ToNatSnoc(ds, d, q);
    ShiftOut(t, q, d, p, acc % p);
  }

  /** The groups of a text: their number times the padding is the number of the bytes. */
  ghost predicate Represents(b: seq<Byte>, ds: seq<nat>, w: nat) {
    && Below(ds, Pow2(w))
    && 8 * |b| <= Bits(w, |ds|) < 8 * |b| + w
    && ToNat(ds, Pow2(w)) == ToNat(b, 256) * Pow2(Bits(w, |ds|) - 8 * |b|)
  }

  lemma WidthPow(w: nat)
    requires Width(w)
    ensures Pow2(w) <= 16 && Pow2(8) == 256
  {
    assert Pow2(1) == 2 && Pow2(3) == 8 && Pow2(4) == 16;
  }

  /** Writing groups while there are enough pending bits. */
  method WriteGroups(ghost read: nat, written: seq<nat>, acc: nat, pending: nat, w: nat) returns (ds: seq<nat>, n: nat)
    requires w > 0 && Below(written, Pow2(w)) && Encoding(read, written, acc, pending, w)
    ensures n < w && Bits(w, |ds|) + n == Bits(w, |written|) + pending
    ensures Below(ds, Pow2(w)) && Encoding(read, ds, acc, n, w)
  {
    ds, n := written, pending;
    while n >= w
      invariant Bits(w, |ds|) + n == Bits(w, |written|) + pending
      invariant Below(ds, Pow2(w)) && Encoding(read, ds, acc, n, w)
    {
      hide Pow2, Encoding, Mask, ShiftRight;
      n := n - w;
      WriteGroup(read, ds, acc, n, w);
      Distribute(|ds|, 1, w);
      ds := ds + [Mask(ShiftRight(acc, n), w)];
    }
  }

  /** The first i bytes are in the groups and the n pending bits of acc. */
  ghost predicate Read(b: seq<Byte>, i: nat, ds: seq<nat>, acc: nat, n: nat, w: nat)
    requires i <= |b|
  {
    && n < w && 8 * i == Bits(w, |ds|) + n
    && acc < Pow2(n) && Below(ds, Pow2(w))
    && Encoding(ToNat(b[..i], 256), ds, acc, n, w)
  }

  lemma ReadNext(b: seq<Byte>, i: nat, ds: seq<nat>, acc: nat, n: nat, w: nat)
    requires i < |b| && Read(b, i, ds, acc, n, w)
    ensures Below(ds, Pow2(w)) && 8 * (i + 1) == Bits(w, |ds|) + n + 8
    ensures Encoding(ToNat(b[..i + 1], 256), ds, acc * 256 + b[i], n + 8, w)
  {
    hide Pow2, Encoding, ToNat;
    assert b[..i + 1] == b[..i] + [b[i]];
    ToNatSnoc(b[..i], b[i], 256);
    ReadByte(ToNat(b[..i], 256), ds, acc, n, w, b[i]);
  }

  lemma ReadDone(b: seq<Byte>, i: nat, ds: seq<nat>, acc: nat, n: nat, w: nat)
    requires i <= |b| && n < w && 8 * i == Bits(w, |ds|) + n && Below(ds, Pow2(w))
    requires Encoding(ToNat(b[..i], 256), ds, acc, n, w)
    ensures Read(b, i, ds, Mask(acc, n), n, w)
  {
    hide Pow2, Encoding, ToNat;
    Masked(ToNat(b[..i], 256), ds, acc, n, w);
  }

  lemma PaddedRepresents(b: seq<Byte>, ds: seq<nat>, acc: nat, n: nat, w: nat)
    requires Read(b, |b|, ds, acc, n, w) && n > 0
    ensures Represents(b, ds + [Mask(ShiftLeft(acc, w - n), w)], w)
  {
    hide Pow2, Encoding, ToNat, Mask, ShiftLeft;
    assert b[..|b|] == b;
    LastGroup(ToNat(b, 256), ds, acc, n, w);
    var d := Mask(ShiftLeft(acc, w - n), w);
    Distribute(|ds|, 1, w);
    assert Bits(w, |ds + [d]|) == Bits(w, |ds|) + w;
  }

  lemma FullRepresents(b: seq<Byte>, ds: seq<nat>, acc: nat, w: nat)
    requires Read(b, |b|, ds, acc, 0, w)
    ensures Represents(b, ds, w)
  {
    hide Pow2, Encoding, ToNat;
    assert b[..|b|] == b;
    NoLastGroup(ToNat(b, 256), ds, acc, w);
  }

  lemma ReadNothing(b: seq<Byte>, w: nat)
    requires w > 0
    ensures Read(b, 0, [], 0, 0, w)
  {
    assert b[..0] == [];
    NoDigits(Pow2(w));
    assert Pow2(0) == 1;
  }

  lemma NoDigits(base: nat)
    ensures ToNat([], base) == 0
  {}

  method EncodeGroups(b: seq<Byte>, w: nat) returns (ds: seq<nat>)
    requires w > 0
    ensures Represents(b, ds, w)
  {
    hide *;
    ds := [];
    var acc: nat, n: nat, i: nat := 0, 0, 0;
    ReadNothing(b, w);
    while i < |b|
      invariant i <= |b| && Read(b, i, ds, acc, n, w)
    {
      ReadNext(b, i, ds, acc, n, w);
      acc := acc * 256 + b[i];
      ds, n := WriteGroups(ToNat(b[..i + 1], 256), ds, acc, n + 8, w);
      i := i + 1;
      ReadDone(b, i, ds, acc, n, w);
      acc := Mask(acc, n);
    }
    ReadBounds(b, ds, acc, n, w);
    if n > 0 {
      PaddedRepresents(b, ds, acc, n, w);
      ds := ds + [Mask(ShiftLeft(acc, w - n), w)];
    } else {
      FullRepresents(b, ds, acc, w);
    }
  }

  method EncodeBits(b: seq<Byte>, w: nat) returns (s: string)
    requires Width(w)
    ensures IsDigits(s, w) && Represents(b, Digits(s, w), w)
    ensures Lower(s) == s
  {
    WidthPow(w);
    var ds := EncodeGroups(b, w);
    hide *;
    RepresentsBelow(b, ds, w);
    CharsDigits(ds, w);
    s := Chars(ds);
    assert Digits(s, w) == ds;
  }

  lemma ReadBounds(b: seq<Byte>, ds: seq<nat>, acc: nat, n: nat, w: nat)
    requires Read(b, |b|, ds, acc, n, w)
    ensures n < w
  {}

  lemma RepresentsBelow(b: seq<Byte>, ds: seq<nat>, w: nat)
    requires Represents(b, ds, w) && Pow2(w) <= 16
    ensures Below(ds, Pow2(w)) && forall i :: 0 <= i < |ds| ==> ds[i] < 16
  {}

  lemma Masked(read: nat, ds: seq<nat>, acc: nat, n: nat, w: nat)
    requires Encoding(read, ds, acc, n, w)
    ensures Encoding(read, ds, Mask(acc, n), n, w)
  {
    Small(Mask(acc, n), Pow2(n));
  }

  lemma LastGroup(read: nat, ds: seq<nat>, acc: nat, n: nat, w: nat)
    requires Encoding(read, ds, acc, n, w) && acc < Pow2(n) && 0 < n < w
    ensures ToNat(ds + [Mask(ShiftLeft(acc, w - n), w)], Pow2(w)) == read * Pow2(w - n)
  {
    hide Pow2, ToNat;
    var t, p, r := ToNat(ds, Pow2(w)), Pow2(n), Pow2(w - n);
    Pow2Add(n, w - n);
    Small(acc, p);
    ShiftIn(t, p, acc, r, 0);
    Small(acc * r, p * r);
    ToNatSnoc(ds, acc * r, Pow2(w));
  }

  lemma NoLastGroup(read: nat, ds: seq<nat>, acc: nat, w: nat)
    requires Encoding(read, ds, acc, 0, w)
    ensures ToNat(ds, Pow2(w)) == read * Pow2(0)
  {
    assert Pow2(0) == 1 && acc % 1 == 0;
  }

  lemma CharsDigits(ds: seq<nat>, w: nat)
    requires Below(ds, Pow2(w)) && Pow2(w) <= 16
    ensures IsDigits(Chars(ds), w) && Digits(Chars(ds), w) == ds && Lower(Chars(ds)) == Chars(ds)
  {
    forall i | 0 <= i < |ds| ensures DigitOf(Chars(ds)[i]) == Some(ds[i]) {
      DigitCharOf(ds[i]);
    }
  }

  // ----- decoding -----

  /** The bytes written so far and n pending bits hold the groups read so far. */
  ghost predicate Decoding(read: nat, out: seq<Byte>, acc: nat, n: nat) {
    read == ToNat(out, 256) * Pow2(n) + acc && acc < Pow2(n)
  }

  lemma ReadDigit(read: nat, out: seq<Byte>, acc: nat, n: nat, w: nat, d: nat)
    requires Decoding(read, out, acc, n) && d < Pow2(w)
    ensures Decoding(read * Pow2(w) + d, out, ShiftLeft(acc, w) + d, n + w)
  {
    hide Pow2, ToNat;
    Pow2Add(n, w);
    ShiftIn(ToNat(out, 256), Pow2(n), acc, Pow2(w), d);
  }

  lemma WriteByte(read: nat, out: seq<Byte>, acc: nat, n: nat)
    requires Decoding(read, out, acc, n + 8)
    ensures ShiftRight(acc, n) < 256
    ensures Decoding(read, out + [ShiftRight(acc, n)], Mask(acc, n), n)
  {
    Pow2Add(n, 8);
    assert Pow2(8) == 256;
    hide Pow2, ToNat;
    TopByte(acc, Pow2(n));
    var t, d := ToNat(out, 256), ShiftRight(acc, n);
    ToNatSnoc(out, d, 256);
    ShiftOut(t, 256, d, Pow2(n), Mask(acc, n));
  }

  lemma TopByte(acc: nat, p: nat)
    requires 0 < p && acc < p * 256
    ensures acc / p < 256 && acc == (acc / p) * p + acc % p && acc % p < p
  {
    Divide(acc, p);
    var d := acc / p;
    if d >= 256 { MulLe(256, d, p); }
  }

  /** The first i characters are digits, held by the bytes and the n pending bits of acc. */
  ghost predicate Scanned(s: string, i: nat, out: seq<Byte>, acc: nat, n: nat, w: nat)
    requires i <= |s|
  {
    && n < 8 && Bits(w, i) == 8 * |out| + n
    && IsDigits(s[..i], w)
    && Decoding(ToNat(Digits(s[..i], w), Pow2(w)), out, acc, n)
  }

  lemma ScannedNothing(s: string, w: nat)
    ensures Scanned(s, 0, [], 0, 0, w)
  {
    assert s[..0] == [];
    assert Digits([], w) == [];
    NoDigits(Pow2(w));
    assert Pow2(0) == 1;
  }

  lemma BitsNext(w: nat, k: nat)
    ensures Bits(w, k + 1) == Bits(w, k) + w
  {
    Distribute(k, 1, w);
  }

  /** A digit read into the pending bits. */
  lemma ScanDigit(s: string, i: nat, out: seq<Byte>, acc: nat, n: nat, w: nat, d: nat)
    requires i < |s| && Scanned(s, i, out, acc, n, w) && DigitOf(s[i]) == Some(d) && d < Pow2(w)
    ensures n < 8 && IsDigits(s[..i + 1], w) && Bits(w, i + 1) == 8 * |out| + n + w
    ensures Decoding(ToNat(Digits(s[..i + 1], w), Pow2(w)), out, ShiftLeft(acc, w) + d, n + w)
  {
    DigitsSnoc(s, i, w);
    BitsNext(w, i);
    hide Pow2, ToNat, Decoding, Digits, DigitOf, IsDigits, Bits, ShiftLeft;
    ToNatSnoc(Digits(s[..i], w), d, Pow2(w));
    ReadDigit(ToNat(Digits(s[..i], w), Pow2(w)), out, acc, n, w, d);
  }

  /** Reads one character; false when it is not a digit of the base. */
  method DecodeDigit(s: string, i: nat, written: seq<Byte>, pending: nat, bits: nat, w: nat)
    returns (ok: bool, out: seq<Byte>, acc: nat, n: nat)
    requires i < |s| && w <= 8 && Scanned(s, i, written, pending, bits, w)
    ensures ok ==> Scanned(s, i + 1, out, acc, n, w)
    ensures !ok ==> !IsDigits(s, w)
  {
    hide *;
    out, acc, n := written, pending, bits;
    var d := DigitOf(s[i]);
    ok := d.Some? && d.value < Pow2(w);
    if !ok {
      NotDigits(s, i, w);
      return;
    }
    ScanDigit(s, i, out, acc, n, w, d.value);
    acc := ShiftLeft(acc, w) + d.value;
    n := n + w;
    if n >= 8 {
      n := n - 8;
      ScanByte(s, i + 1, out, acc, n, w);
      out := out + [ShiftRight(acc, n)];
      acc := Mask(acc, n);
    } else {
      ScanNoByte(s, i + 1, out, acc, n, w);
    }
  }

  method DecodeDigits(s: string, w: nat) returns (ok: bool, out: seq<Byte>, acc: nat, n: nat)
    requires w <= 8
    ensures ok ==> Scanned(s, |s|, out, acc, n, w)
    ensures !ok ==> !IsDigits(s, w)
  {
    hide *;
    ok, out, acc, n := true, [], 0, 0;
    var i: nat := 0;
    ScannedNothing(s, w);
    while i < |s|
      invariant i <= |s| && Scanned(s, i, out, acc, n, w)
    {
      ok, out, acc, n := DecodeDigit(s, i, out, acc, n, w);
      if !ok { return; }
      i := i + 1;
    }
    ok := true;
  }

  /** None when some character is not a digit of the base; trailing bits that fill no byte are dropped. */
  method DecodeBits(s: string, w: nat) returns (r: Option<seq<Byte>>)
    requires Width(w)
    ensures r.Some? <==> IsDigits(s, w)
    ensures r.Some? ==> Decodes(s, w, r.value)
  {
    var ok, out, acc, n := DecodeDigits(s, w);
    hide *;
    if !ok { return None; }
    ScannedAll(s, out, acc, n, w);
    return Some(out);
  }

  lemma NotDigits(s: string, i: nat, w: nat)
    requires i < |s| && (DigitOf(s[i]).None? || DigitOf(s[i]).value >= Pow2(w))
    ensures !IsDigits(s, w)
  {
    hide Pow2, DigitOf;
  }

  lemma ScanNoByte(s: string, i: nat, out: seq<Byte>, acc: nat, n: nat, w: nat)
    requires i <= |s| && IsDigits(s[..i], w) && Bits(w, i) == 8 * |out| + n && n < 8
    requires Decoding(ToNat(Digits(s[..i], w), Pow2(w)), out, acc, n)
    ensures Scanned(s, i, out, acc, n, w)
  {}

  lemma ScanByte(s: string, i: nat, out: seq<Byte>, acc: nat, n: nat, w: nat)
    requires i <= |s| && IsDigits(s[..i], w) && Bits(w, i) == 8 * |out| + n + 8 && n < 8
    requires Decoding(ToNat(Digits(s[..i], w), Pow2(w)), out, acc, n + 8)
    ensures ShiftRight(acc, n) < 256 && Scanned(s, i, out + [ShiftRight(acc, n)], Mask(acc, n), n, w)
  {
    hide Pow2, ToNat, Decoding, Digits, DigitOf, IsDigits, Bits, ShiftRight, Mask;
    WriteByte(ToNat(Digits(s[..i], w), Pow2(w)), out, acc, n);
  }

  lemma ScannedAll(s: string, out: seq<Byte>, acc: nat, n: nat, w: nat)
    requires Scanned(s, |s|, out, acc, n, w)
    ensures Decodes(s, w, out) && IsDigits(s, w)
  {
    hide Pow2, ToNat, Digits;
    assert s[..|s|] == s;
    Quotient(ToNat(out, 256), acc, Pow2(n));
  }

  lemma DigitsSnoc(s: string, i: nat, w: nat)
    requires i < |s| && IsDigits(s[..i], w) && DigitOf(s[i]).Some? && DigitOf(s[i]).value < Pow2(w)
    ensures IsDigits(s[..i + 1], w) && Digits(s[..i + 1], w) == Digits(s[..i], w) + [DigitOf(s[i]).value]
  {
    assert s[..i + 1] == s[..i] + [s[i]];
  }

  // ----- round trips -----

  /** The bytes a text decodes to: its number without the trailing bits that fill no byte. */
  ghost predicate Decodes(s: string, w: nat, b: seq<Byte>) {
    && IsDigits(s, w)
    && 0 <= w * |s| - 8 * |b| < 8
    && ToNat(Digits(s, w), Pow2(w)) / Pow2(w * |s| - 8 * |b|) == ToNat(b, 256)
  }

  /** Decoding what was encoded gives the bytes back, and nothing else. */
  lemma DecodeEncode(b: seq<Byte>, s: string, w: nat, b': seq<Byte>)
    requires Width(w) && IsDigits(s, w) && Represents(b, Digits(s, w), w)
    ensures Decodes(s, w, b') <==> b' == b
    ensures |s| == (8 * |b| + w - 1) / w
  {
    var pad := w * |s| - 8 * |b|;
    Quotient(ToNat(b, 256), 0, Pow2(pad));
    if Decodes(s, w, b') {
      assert |b'| == |b|;
      ToNatUnique(b, b', 256);
    }
  }

  /** Texts with the same digits, the second in lower case. */
  lemma SameDigits(s: string, s': string, w: nat)
    requires IsDigits(s, w) && IsDigits(s', w) && Digits(s, w) == Digits(s', w) && Lower(s') == s'
    ensures s' == Lower(s)
  {
    hide Pow2;
    assert |s| == |Digits(s, w)| == |Digits(s', w)| == |s'|;
    forall i | 0 <= i < |s| ensures s'[i] == LowerChar(s[i]) {
      assert DigitOf(s[i]) == Some(Digits(s, w)[i]) && DigitOf(s'[i]) == Some(Digits(s', w)[i]);
      DigitOfChar(s[i]);
      DigitOfChar(s'[i]);
      assert Lower(s')[i] == s'[i];
    }
  }

  /** Groups that fill whole bytes leave no padding. */
  lemma NoPadding(b: seq<Byte>, k: nat, k': nat, w: nat)
    requires Width(w) && 0 <= w * k - 8 * |b| < 8 && (w * k) % 8 == 0
    requires 8 * |b| <= Bits(w, k') < 8 * |b| + w
    ensures w * k == 8 * |b| == Bits(w, k') && k' == k
  {}

  /** Encoding what was decoded gives the text back in lower case, when it fills whole bytes. */
  lemma EncodeDecode(s: string, w: nat, b: seq<Byte>, s': string)
    requires Width(w) && Decodes(s, w, b) && (w * |s|) % 8 == 0
    requires IsDigits(s', w) && Represents(b, Digits(s', w), w) && Lower(s') == s'
    ensures s' == Lower(s)
  {
    NoPadding(b, |s|, |s'|, w);
    assert Pow2(0) == 1;
    hide Pow2, ToNat, DigitOf, Lower, Width;
    assert ToNat(Digits(s, w), Pow2(w)) == ToNat(Digits(s', w), Pow2(w));
    ToNatUnique(Digits(s, w), Digits(s', w), Pow2(w));
    SameDigits(s, s', w);
  }

  /** Encoding then decoding, as the two casts do. */
  method RoundTrip(b: seq<Byte>, w: nat) returns (s: string, r: Option<seq<Byte>>)
    requires Width(w)
    ensures r == Some(b)
    ensures |s| == (8 * |b| + w - 1) / w
  {
    s := EncodeBits(b, w);
    r := DecodeBits(s, w);
    DecodeEncode(b, s, w, r.value);
  }
}
