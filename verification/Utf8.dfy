/** UTF-8 (section 3 of RFC 3629) and UTF-16 as the locker's input buffer uses them
    (locker/secureprompt.cpp:216-238, 265-294, 326-349). Bytes and code units are integers; shifts and masks are
    written as division and remainder by powers of two. */
module Utf8 {

  /** What the buffer may hold: any Unicode scalar value but zero. */
  predicate IsScalar(c: int) {
    0 < c <= 0x10FFFF && !(0xD800 <= c <= 0xDFFF)
  }

  ghost predicate AllScalars(s: seq<int>) {
    forall i :: 0 <= i < |s| ==> IsScalar(s[i])
  }

  function Size(c: int): nat {
    if c <= 0x7F then 1 else if c <= 0x7FF then 2 else if c <= 0xFFFF then 3 else 4
  }

  function Encode(c: int): (b: seq<int>)
    ensures |b| == Size(c)
  {
    if c <= 0x7F then [c]
    else if c <= 0x7FF then [0xC0 + c / 0x40, 0x80 + c % 0x40]
    else if c <= 0xFFFF then [0xE0 + c / 0x1000, 0x80 + c / 0x40 % 0x40, 0x80 + c % 0x40]
    else [0xF0 + c / 0x4_0000, 0x80 + c / 0x1000 % 0x40, 0x80 + c / 0x40 % 0x40, 0x80 + c % 0x40]
  }

  predicate IsContinuation(b: int) {
    0x80 <= b < 0xC0
  }

  /** How many bytes the character that starts with this byte has. */
  function SizeFromLead(lead: int): nat {
    if lead < 0x80 then 1 else if lead < 0xE0 then 2 else if lead < 0xF0 then 3 else 4
  }

  /** The lead byte tells the size, and only the bytes behind it are continuation bytes. */
  lemma EncodeShape(c: int)
    requires IsScalar(c)
    ensures var b := Encode(c);
      && SizeFromLead(b[0]) == |b| && !IsContinuation(b[0])
      && (forall i :: 0 < i < |b| ==> IsContinuation(b[i]))
      && (forall i :: 0 <= i < |b| ==> 0 < b[i] < 0x100)
  {
  }

  /** The four shapes of section 3 of RFC 3629: six bits in each byte but the first, and the rest in that. */
  lemma EncodeBits(c: int)
    requires IsScalar(c)
    ensures var b := Encode(c);
      && (c < 0x80 ==> b == [c])
      && (0x80 <= c < 0x800 ==> |b| == 2 && 0xC2 <= b[0] <= 0xDF && c == (b[0] - 0xC0) * 64 + b[1] - 0x80)
      && (0x800 <= c < 0x1_0000 ==>
          |b| == 3 && 0xE0 <= b[0] <= 0xEF && c == (b[0] - 0xE0) * 4096 + (b[1] - 0x80) * 64 + b[2] - 0x80)
      && (c >= 0x1_0000 ==>
          && |b| == 4 && 0xF0 <= b[0] <= 0xF4
          && c == (b[0] - 0xF0) * 262144 + (b[1] - 0x80) * 4096 + (b[2] - 0x80) * 64 + b[3] - 0x80)
      && forall i :: 0 < i < |b| ==> 0x80 <= b[i] <= 0xBF
  {
    EncodeShape(c);
    DecodeOneInverts(c, []);
    assert Encode(c) + [] == Encode(c);
  }

  /** A letter, one with an accent, the euro sign and a smiley. */
  lemma EncodedExamples()
    ensures Encode(0x61) == [0x61] && Encode(0xE9) == [0xC3, 0xA9] && Encode(0x20AC) == [0xE2, 0x82, 0xAC]
    ensures Encode(0x1F600) == [0xF0, 0x9F, 0x98, 0x80]
  {
  }

  /** Reads one character back. */
  function DecodeOne(b: seq<int>): int
    requires b != [] && |b| >= SizeFromLead(b[0])
  {
    if b[0] < 0x80 then b[0]
    else if b[0] < 0xE0 then (b[0] - 0xC0) * 0x40 + (b[1] - 0x80)
    else if b[0] < 0xF0 then (b[0] - 0xE0) * 0x1000 + (b[1] - 0x80) * 0x40 + (b[2] - 0x80)
    else (b[0] - 0xF0) * 0x4_0000 + (b[1] - 0x80) * 0x1000 + (b[2] - 0x80) * 0x40 + (b[3] - 0x80)
  }

  lemma DecodeOneInverts(c: int, rest: seq<int>)
    requires IsScalar(c)
    ensures var b := Encode(c) + rest;
      |b| >= SizeFromLead(b[0]) && DecodeOne(b) == c
  {
    EncodeShape(c);
    assert c / 0x40 / 0x40 == c / 0x1000 && c / 0x1000 / 0x40 == c / 0x4_0000;
  }

  function EncodeAll(s: seq<int>): seq<int> {
    if s == [] then [] else Encode(s[0]) + EncodeAll(s[1..])
  }

  /** Reads a whole byte string back. */
  function DecodeAll(b: seq<int>): seq<int>
    decreases |b|
  {
    if b == [] || |b| < SizeFromLead(b[0]) then []
    else [DecodeOne(b)] + DecodeAll(b[SizeFromLead(b[0])..])
  }

  /** The encoding loses nothing. */
  lemma {:induction false} DecodeInverts(s: seq<int>)
    requires AllScalars(s)
    ensures DecodeAll(EncodeAll(s)) == s
  {
    hide Encode, DecodeAll;
    if s != [] {
      DecodeInverts(s[1..]);
      DecodeStep(s[0], EncodeAll(s[1..]));
    } else {
      DecodeNothing();
    }
  }

  lemma DecodeNothing()
    ensures DecodeAll([]) == []
  {
  }

  /** One character further. */
  lemma DecodeStep(c: int, rest: seq<int>)
    requires IsScalar(c)
    ensures DecodeAll(Encode(c) + rest) == [c] + DecodeAll(rest)
  {
    hide Encode, DecodeOne;
    EncodeShape(c);
    DecodeOneInverts(c, rest);
    assert (Encode(c) + rest)[|Encode(c)|..] == rest;
  }

  lemma {:induction false} EncodeAllAppend(a: seq<int>, b: seq<int>)
    ensures EncodeAll(a + b) == EncodeAll(a) + EncodeAll(b)
  {
    if a == [] {
      assert a + b == b;
    } else {
      assert (a + b)[1..] == a[1..] + b;
      EncodeAllAppend(a[1..], b);
    }
  }

  lemma UnitsSingle(c: int)
    ensures UnitsAll([c]) == Units(c)
  {
  }

  lemma EncodeSingle(c: int)
    ensures EncodeAll([c]) == Encode(c)
  {
  }

  // --- UTF-16 ---

  function Units(c: int): nat {
    if c > 0xFFFF then 2 else 1
  }

  function UnitsAll(s: seq<int>): nat {
    if s == [] then 0 else Units(s[0]) + UnitsAll(s[1..])
  }

  lemma {:induction false} UnitsAllAppend(a: seq<int>, b: seq<int>)
    ensures UnitsAll(a + b) == UnitsAll(a) + UnitsAll(b)
  {
    if a == [] {
      assert a + b == b;
    } else {
      assert (a + b)[1..] == a[1..] + b;
      UnitsAllAppend(a[1..], b);
    }
  }

  predicate IsHigh(u: int) {
    0xD800 <= u < 0xDC00
  }

  predicate IsLow(u: int) {
    0xDC00 <= u < 0xE000
  }

  function FromSurrogates(high: int, low: int): int {
    (high - 0xD800) * 0x400 + (low - 0xDC00) + 0x1_0000
  }

  /** A UTF-16 code unit. */
  predicate IsUnit(u: int) {
    0 <= u < 0x1_0000
  }

  ghost predicate AllUnits(text: seq<int>) {
    forall i :: 0 <= i < |text| ==> IsUnit(text[i])
  }

  /** The scalars of a UTF-16 text; unpaired surrogates and zeros are skipped. */
  function Scalars(text: seq<int>): seq<int> {
    if text == [] then []
    else if IsHigh(text[0]) then
      if |text| > 1 && IsLow(text[1]) then [FromSurrogates(text[0], text[1])] + Scalars(text[2..])
      else Scalars(text[1..])
    else if IsLow(text[0]) || text[0] == 0 then Scalars(text[1..])
    else [text[0]] + Scalars(text[1..])
  }

  /** A pair of surrogates is one character; stray surrogates and zeros are skipped, and everything else is itself. */
  lemma ScalarsOneByOne(u: int, text: seq<int>)
    requires IsUnit(u)
    ensures var (high, low) := (0xD800 <= u <= 0xDBFF, 0xDC00 <= u <= 0xDFFF);
      Scalars([u] + text) ==
        if high && text != [] && 0xDC00 <= text[0] <= 0xDFFF
        then [0x1_0000 + (u - 0xD800) * 1024 + (text[0] - 0xDC00)] + Scalars(text[1..])
        else if high || low || u == 0 then Scalars(text) else [u] + Scalars(text)
  {
    hide Scalars;
    var t := [u] + text;
    ScalarsStep(t);
    assert t[1..] == text && (text != [] ==> t[2..] == text[1..]);
  }

  lemma ScalarsStep(t: seq<int>)
    requires t != []
    ensures Scalars(t) ==
      if IsHigh(t[0]) && |t| > 1 && IsLow(t[1]) then [FromSurrogates(t[0], t[1])] + Scalars(t[2..])
      else if IsHigh(t[0]) || IsLow(t[0]) || t[0] == 0 then Scalars(t[1..]) else [t[0]] + Scalars(t[1..])
  {
  }

  /** How many code units a character has in UTF-16. */
  lemma UnitsAre(c: int)
    requires IsScalar(c)
    ensures UnitsAll([c]) == if c >= 0x1_0000 then 2 else 1
  {
  }

  lemma {:induction false} ScalarsAreScalars(text: seq<int>)
    requires AllUnits(text)
    ensures AllScalars(Scalars(text))
    decreases |text|
  {
    if text != [] {
      ScalarsAreScalars(text[1..]);
      if IsHigh(text[0]) && |text| > 1 && IsLow(text[1]) {
        ScalarsAreScalars(text[2..]);
      }
    }
  }

  /** UTF-16 text of a sequence of scalars. */
  function ToUtf16(s: seq<int>): seq<int> {
    if s == [] then []
    else (if s[0] > 0xFFFF then [0xD800 + (s[0] - 0x1_0000) / 0x400, 0xDC00 + (s[0] - 0x1_0000) % 0x400] else [s[0]])
         + ToUtf16(s[1..])
  }

  /** Well-formed text comes through complete. */
  lemma {:induction false} ScalarsInvert(s: seq<int>)
    requires AllScalars(s)
    ensures Scalars(ToUtf16(s)) == s && |ToUtf16(s)| == UnitsAll(s)
  {
    if s != [] {
      ScalarsInvert(s[1..]);
      var t := ToUtf16(s);
      assert IsScalar(s[0]);
      assert t[|t| - |ToUtf16(s[1..])|..] == ToUtf16(s[1..]);
    }
  }

  /** The index that splits off the first `units` code units, if there is one. */
  function Locate(s: seq<int>, units: int): (r: int)
    ensures -1 <= r <= |s|
  {
    if units == 0 then 0
    else if s == [] || Units(s[0]) > units then -1
    else
      var r := Locate(s[1..], units - Units(s[0]));
      if r < 0 then -1 else r + 1
  }

  /** `Locate` finds a split exactly where one exists. */
  lemma {:induction false} LocateIsSplit(s: seq<int>, units: int, i: nat)
    requires i <= |s|
    ensures UnitsAll(s[..i]) == units <==> Locate(s, units) == i
  {
    if i == 0 {
      assert s[..0] == [];
    } else {
      assert s[..i][1..] == s[1..][..i - 1];
      LocateIsSplit(s[1..], units - Units(s[0]), i - 1);
    }
  }
}
