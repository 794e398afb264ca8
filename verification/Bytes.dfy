/** Byte strings as the Python tools see them: little-endian fields, NUL search and UTF-8 validity. */
module Bytes {
  datatype Option<+T> = None | Some(value: T)

  type byte = x: int | 0 <= x < 0x100
  type Text = seq<byte>

  const TWO_32 := 0x1_0000_0000

  /** Little-endian value of a byte string. */
  function Uint(s: seq<byte>): nat {
    if s == [] then 0 else var low: int := s[0]; low + 0x100 * Uint(s[1..])
  }

  /** The `<I` field at `at`. */
  function U32(data: seq<byte>, at: nat): nat
    requires at + 4 <= |data|
  {
    Uint(data[at..at + 4])
  }

  function Le(n: nat, width: nat): (s: seq<byte>)
    ensures |s| == width
  {
    if width == 0 then [] else [n % 0x100] + Le(n / 0x100, width - 1)
  }

  /** `struct.pack('<I', n)`. */
  function Le32(n: nat): (s: seq<byte>)
    ensures |s| == 4
  {
    Le(n, 4)
  }

  function Radix(width: nat): nat {
    if width == 0 then 1 else 0x100 * Radix(width - 1)
  }

  /** A field of `width` bytes gives back every number that fits it. */
  lemma {:induction false} LeUint(n: nat, width: nat)
    requires n < Radix(width)
    ensures Uint(Le(n, width)) == n
  {
    if width > 0 {
      LeUint(n / 0x100, width - 1);
      assert Le(n, width)[1..] == Le(n / 0x100, width - 1);
    }
  }

  lemma ReadBack(pre: seq<byte>, n: nat, post: seq<byte>)
    requires n < TWO_32
    ensures U32(pre + Le32(n) + post, |pre|) == n
  {
    assert (pre + Le32(n) + post)[|pre|..|pre| + 4] == Le32(n);
    assert Radix(2) == 0x1_0000 && Radix(4) == TWO_32;
    LeUint(n, 4);
  }

  /** A field of a slice is a field of the whole. */
  lemma SubField(data: seq<byte>, lo: nat, hi: nat, at: nat)
    requires lo <= hi <= |data| && at + 4 <= hi - lo
    ensures U32(data[lo..hi], at) == U32(data, lo + at)
  {
    var part, whole := data[lo..hi][at..at + 4], data[lo + at..lo + at + 4];
    assert forall k :: 0 <= k < 4 ==> part[k] == whole[k];
    assert part == whole;
  }

  function Zeros(n: nat): (s: seq<byte>)
    ensures |s| == n
  {
    seq(n, _ => 0)
  }

  /** Index of the first `b`, or -1: Python's `find`. */
  function Find(s: seq<byte>, b: byte): (k: int)
    ensures -1 <= k < |s|
    ensures k == -1 <==> b !in s
    ensures k >= 0 ==> s[k] == b && b !in s[..k]
  {
    if s == [] then -1
    else if s[0] == b then 0
    else
      var k := Find(s[1..], b);
      assert s == [s[0]] + s[1..];
      if k < 0 then -1 else (assert s[..k + 1] == [s[0]] + s[1..][..k]; k + 1)
  }

  /** The bytes before the first NUL, if there is one. */
  function CString(raw: seq<byte>): (v: Option<Text>)
    ensures v.Some? <==> 0 in raw
    ensures v.Some? ==> 0 !in v.value && v.value + [0] <= raw
  {
    var k := Find(raw, 0);
    if k < 0 then None else Some(raw[..k])
  }

  lemma CStringUnique(raw: seq<byte>, v: Text)
    requires 0 !in v && v + [0] <= raw
    ensures CString(raw) == Some(v)
  {
    var k := Find(raw, 0);
    assert raw[..|v|] == v && raw[|v|] == (v + [0])[|v|];
    assert forall j :: 0 <= j < k ==> raw[..k][j] == raw[j];
    assert forall j :: 0 <= j < |v| ==> v[j] == raw[j];
    assert k == |v|;
  }

  predicate Trail(b: byte) { 0x80 <= b <= 0xBF }

  /** Length of the encoded character `s` starts with (Table 3-7 of the Unicode Standard), or 0. */
  function CharLength(s: Text): (n: nat)
    requires s != []
    ensures n <= |s| && (s[0] < 0x80 ==> n == 1)
  {
    var b := s[0];
    if b < 0x80 then 1
    else if |s| >= 2 && 0xC2 <= b <= 0xDF && Trail(s[1]) then 2
    else if |s| >= 3 && 0xE0 <= b <= 0xEF && Trail(s[1]) && Trail(s[2])
            && (b == 0xE0 ==> s[1] >= 0xA0) && (b == 0xED ==> s[1] <= 0x9F) then 3
    else if |s| >= 4 && 0xF0 <= b <= 0xF4 && Trail(s[1]) && Trail(s[2]) && Trail(s[3])
            && (b == 0xF0 ==> s[1] >= 0x90) && (b == 0xF4 ==> s[1] <= 0x8F) then 4
    else 0
  }

  /** Well-formed UTF-8: what Python's strict decoder accepts. */
  predicate ValidUtf8(s: Text) {
    s == [] || (CharLength(s) > 0 && ValidUtf8(s[CharLength(s)..]))
  }

  lemma {:induction false} AsciiPrefixUtf8(pre: Text, s: Text)
    requires forall b :: b in pre ==> b < 0x80
    ensures ValidUtf8(pre + s) <==> ValidUtf8(s)
  {
    if pre == [] {
      assert pre + s == s;
    } else {
      assert (pre + s)[1..] == pre[1..] + s;
      assert pre[0] in pre && forall b :: b in pre[1..] ==> b in pre;
      AsciiPrefixUtf8(pre[1..], s);
    }
  }

  // ---- What the decoder accepts is what an encoder writes --------------------------------

  predicate Scalar(cp: nat) { cp < 0xD800 || 0xE000 <= cp < 0x110000 }

  /** A trailing byte: the low six bits of `n`. */
  function Tail6(n: nat): byte { 0x80 + n % 0x40 }

  /** The encoding of one character (Table 3-6 of the Unicode Standard). */
  function Utf8(cp: nat): (s: Text)
    requires Scalar(cp)
    ensures s != []
  {
    if cp < 0x80 then [cp]
    else if cp < 0x800 then [0xC0 + cp / 0x40, Tail6(cp)]
    else if cp < 0x10000 then [0xE0 + cp / 0x1000, Tail6(cp / 0x40), Tail6(cp)]
    else [0xF0 + cp / 0x40000, Tail6(cp / 0x1000), Tail6(cp / 0x40), Tail6(cp)]
  }

  function Utf8All(cps: seq<nat>): Text
    requires forall i :: 0 <= i < |cps| ==> Scalar(cps[i])
  {
    if cps == [] then [] else Utf8(cps[0]) + Utf8All(cps[1..])
  }

  lemma EncodedLength(cp: nat, rest: Text)
    requires Scalar(cp)
    ensures CharLength(Utf8(cp) + rest) == |Utf8(cp)|
  {
  }

  lemma Joined(high: nat, low: byte)
    requires Trail(low)
    ensures Tail6(high * 0x40 + (low - 0x80)) == low && (high * 0x40 + (low - 0x80)) / 0x40 == high
  {
  }

  /** The character a well-formed prefix encodes. */
  function CodePoint(s: Text): (cp: nat)
    requires s != [] && CharLength(s) > 0
  {
    var n, head: nat := CharLength(s), s[0];
    if n == 1 then head
    else if n == 2 then (head - 0xC0) * 0x40 + (s[1] - 0x80)
    else if n == 3 then ((head - 0xE0) * 0x40 + (s[1] - 0x80)) * 0x40 + (s[2] - 0x80)
    else (((head - 0xF0) * 0x40 + (s[1] - 0x80)) * 0x40 + (s[2] - 0x80)) * 0x40 + (s[3] - 0x80)
  }

  lemma CodePointEncodes4(s: Text)
    requires s != [] && CharLength(s) == 4
    ensures Scalar(CodePoint(s)) && Utf8(CodePoint(s)) == s[..4]
  {
    hide Tail6;
    var head: nat := s[0];
    var two := (head - 0xF0) * 0x40 + (s[1] - 0x80);
    var three := two * 0x40 + (s[2] - 0x80);
    Joined(head - 0xF0, s[1]);
    Joined(two, s[2]);
    Joined(three, s[3]);
    assert CodePoint(s) / 0x1000 == CodePoint(s) / 0x40 / 0x40;
    assert CodePoint(s) / 0x40000 == CodePoint(s) / 0x1000 / 0x40;
  }

  lemma CodePointEncodes(s: Text)
    requires s != [] && CharLength(s) > 0
    ensures Scalar(CodePoint(s)) && Utf8(CodePoint(s)) == s[..CharLength(s)]
  {
    hide Tail6;
    var n, head: nat := CharLength(s), s[0];
    if n == 2 {
      Joined(head - 0xC0, s[1]);
    } else if n == 3 {
      Joined(head - 0xE0, s[1]);
      Joined((head - 0xE0) * 0x40 + (s[1] - 0x80), s[2]);
      assert CodePoint(s) / 0x1000 == CodePoint(s) / 0x40 / 0x40;
    } else if n == 4 {
      CodePointEncodes4(s);
    }
  }

  ghost predicate Encodes(cps: seq<nat>, s: Text) {
    (forall i :: 0 <= i < |cps| ==> Scalar(cps[i])) && Utf8All(cps) == s
  }

  lemma {:induction false} EncodedIsValid(cps: seq<nat>, s: Text)
    requires Encodes(cps, s)
    ensures ValidUtf8(s)
  {
    hide CharLength, Utf8;
    if cps != [] {
      EncodedIsValid(cps[1..], Utf8All(cps[1..]));
      EncodedLength(cps[0], Utf8All(cps[1..]));
      assert s[|Utf8(cps[0])|..] == Utf8All(cps[1..]);
    }
  }

  lemma {:induction false} ValidIsEncoded(s: Text) returns (cps: seq<nat>)
    requires ValidUtf8(s)
    ensures Encodes(cps, s)
  {
    hide CharLength, Utf8, CodePoint;
    if s == [] {
      cps := [];
    } else {
      var n := CharLength(s);
      CodePointEncodes(s);
      var rest := ValidIsEncoded(s[n..]);
      cps := [CodePoint(s)] + rest;
      assert cps[1..] == rest && s == s[..n] + s[n..];
    }
  }

  /** A text is accepted exactly if it is the encoding of some characters. */
  lemma ValidUtf8Iff(s: Text)
    ensures ValidUtf8(s) <==> exists cps :: Encodes(cps, s)
  {
    hide ValidUtf8, Encodes;
    if ValidUtf8(s) { var cps := ValidIsEncoded(s); }
    forall cps | Encodes(cps, s) ensures ValidUtf8(s) { EncodedIsValid(cps, s); }
  }

  /** Fields are written with their low byte first. */
  lemma LittleEndian()
    ensures Le(0x0201, 2) == [1, 2]
  {
    assert Le(2, 1) == [2] + Le(0, 0);
  }

  /** The bytes of an ASCII literal. */
  function Ascii(s: string): (t: Text)
    requires forall i :: 0 <= i < |s| ==> s[i] < 128 as char
    ensures |t| == |s|
    ensures forall i :: 0 <= i < |s| ==> t[i] == s[i] as int < 0x80
  {
    seq(|s|, i requires 0 <= i < |s| => s[i] as int)
  }

  function Flatten(parts: seq<seq<byte>>): seq<byte> {
    if parts == [] then [] else parts[0] + Flatten(parts[1..])
  }

  lemma {:induction false} FlattenAppend(a: seq<seq<byte>>, b: seq<seq<byte>>)
    ensures Flatten(a + b) == Flatten(a) + Flatten(b)
  {
    if a == [] {
      assert a + b == b;
    } else {
      assert (a + b)[1..] == a[1..] + b;
      FlattenAppend(a[1..], b);
    }
  }
}
