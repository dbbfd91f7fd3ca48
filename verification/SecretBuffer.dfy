/** The locked input buffer: a fixed byte array edited in place (locker/secureprompt.cpp:242-392). */
module SecretBuffer {
  import opened Utf8

  const CAPACITY: nat := 4096

  /** The longest prefix of `s` that fits into `room` bytes. */
  function FitPrefix(s: seq<int>, room: int): (r: seq<int>)
    ensures |r| <= |s| && r == s[..|r|]
  {
    if s == [] || Size(s[0]) > room then []
    else
      var rest := FitPrefix(s[1..], room - Size(s[0]));
      assert s == [s[0]] + s[1..];
      [s[0]] + rest
  }

  /** It fits, and with the next character it would not. */
  lemma {:induction false} FitPrefixIsLongest(s: seq<int>, room: int)
    requires room >= 0
    ensures var r := FitPrefix(s, room);
      && |EncodeAll(r)| <= room
      && (|r| < |s| ==> |EncodeAll(r)| + Size(s[|r|]) > room)
  {
    if s != [] && Size(s[0]) <= room {
      FitPrefixIsLongest(s[1..], room - Size(s[0]));
      var r := FitPrefix(s, room);
      assert r[1..] == FitPrefix(s[1..], room - Size(s[0]));
    }
  }

  /** `a` with the bytes `x` written at `at`. */
  function Written(a: seq<int>, at: nat, x: seq<int>): (r: seq<int>)
    requires at + |x| <= |a|
    ensures |r| == |a|
  {
    a[..at] + x + a[at + |x|..]
  }

  function Zeros(n: nat): (z: seq<int>)
    ensures |z| == n && forall i :: 0 <= i < n ==> z[i] == 0
  {
    seq(n, _ => 0)
  }

  /** Moves `n` bytes within an array; the ranges may overlap. */
  method MemMove(a: array<int>, dst: nat, src: nat, n: nat)
    requires dst + n <= a.Length && src + n <= a.Length
    modifies a
    ensures a[..] == Written(old(a[..]), dst, old(a[src..src + n]))
  {
    forall i | 0 <= i < n {
      a[dst + i] := a[src + i];
    }
  }

  /** Copies the first `n` bytes of another array. */
  method MemCopy(a: array<int>, dst: nat, source: array<int>, n: nat)
    requires a != source && dst + n <= a.Length && n <= source.Length
    modifies a
    ensures a[..] == Written(old(a[..]), dst, source[..n])
  {
    forall i | 0 <= i < n {
      a[dst + i] := source[i];
    }
  }

  /** Overwrites `n` bytes with zeros. */
  method Zeroize(a: array<int>, from: nat, n: nat)
    requires from + n <= a.Length
    modifies a
    ensures a[..] == Written(old(a[..]), from, Zeros(n))
  {
    forall i | 0 <= i < n {
      a[from + i] := 0;
    }
  }

  /** Writes the encoding of one character. */
  method EncodeUtf8(target: array<int>, c: int) returns (count: nat)
    requires target.Length == 4 && IsScalar(c)
    modifies target
    ensures count == Size(c) && target[..count] == Encode(c)
  {
    if c <= 0x7F {
      target[0] := c;
      return 1;
    }
    if c <= 0x7FF {
      target[0], target[1] := 0xC0 + c / 0x40, 0x80 + c % 0x40;
      return 2;
    }
    if c <= 0xFFFF {
      target[0], target[1], target[2] := 0xE0 + c / 0x1000, 0x80 + c / 0x40 % 0x40, 0x80 + c % 0x40;
      return 3;
    }
    target[0], target[1] := 0xF0 + c / 0x4_0000, 0x80 + c / 0x1000 % 0x40;
    target[2], target[3] := 0x80 + c / 0x40 % 0x40, 0x80 + c % 0x40;
    return 4;
  }

  /** An array that starts with `bytes` and is zero from there on. */
  ghost predicate Holds(a: seq<int>, bytes: seq<int>) {
    |bytes| <= |a| && a == bytes + Zeros(|a| - |bytes|)
  }

  /** Moving the bytes behind `before` up and filling the gap inserts the new bytes there. */
  lemma SpliceHolds(a: seq<int>, before: seq<int>, x: seq<int>, after: seq<int>)
    requires Holds(a, before + after) && |before + x + after| <= |a|
    ensures var moved := Written(a, |before + x|, a[|before|..|before + after|]);
      Holds(Written(moved, |before|, x), before + x + after)
  {
    var moved := Written(a, |before + x|, a[|before|..|before + after|]);
    assert a[|before|..|before + after|] == after;
    var done := Written(moved, |before|, x);
    assert done[..|before + x + after|] == before + x + after;
    assert done[|before + x + after|..] == Zeros(|a| - |before + x + after|);
  }

  /** Closing a gap of bytes and zeroing what it leaves removes them. */
  lemma CutHolds(a: seq<int>, before: seq<int>, cut: seq<int>, after: seq<int>)
    requires Holds(a, before + cut + after)
    ensures var moved := Written(a, |before|, a[|before + cut|..|before + cut + after|]);
      Holds(Written(moved, |before + after|, Zeros(|cut|)), before + after)
  {
    var moved := Written(a, |before|, a[|before + cut|..|before + cut + after|]);
    assert a[|before + cut|..|before + cut + after|] == after;
    var done := Written(moved, |before + after|, Zeros(|cut|));
    var n := |before + after|;
    assert done[..n] == before + after;
    forall i | 0 <= i < |a| - n ensures done[n..][i] == 0 {
      assert i < |cut| ==> done[n + i] == Zeros(|cut|)[i];
      assert i >= |cut| ==> done[n + i] == a[n + i] == Zeros(|a| - n - |cut|)[i - |cut|];
    }
    assert done[n..] == Zeros(|a| - n);
  }

  /** `s` with `x` inserted at index `k`. */
  function Spliced(s: seq<int>, k: nat, x: seq<int>): (r: seq<int>)
    requires k <= |s|
    ensures |r| == |s| + |x|
  {
    s[..k] + x + s[k..]
  }

  /** The bytes in use are the encoding of `content`, the rest is zero, and the counters are its lengths. */
  ghost predicate Represents(a: seq<int>, size: int, codePoints: int, utf16Units: int, content: seq<int>) {
    && AllScalars(content) && size == |EncodeAll(content)| <= |a| && Holds(a, EncodeAll(content))
    && codePoints == |content| && utf16Units == UnitsAll(content)
  }

  class LockedSecretBuffer {
    const bytes: array<int>
    var size: nat
    var codePoints: int
    var utf16Units: int
    /** The characters the bytes stand for. */
    ghost var content: seq<int>

    ghost predicate Valid()
      reads this, bytes
    {
      bytes.Length == CAPACITY && Represents(bytes[..], size, codePoints, utf16Units, content)
    }

    constructor ()
      ensures Valid() && content == [] && fresh(bytes)
    {
      bytes := new int[CAPACITY](_ => 0);
      size, codePoints, utf16Units, content := 0, 0, 0, [];
    }

    /** Puts one encoded character into the bytes at `at` and moves the rest up. */
    method Splice(at: nat, encoded: array<int>, count: nat, ghost before: seq<int>, ghost after: seq<int>)
      requires bytes.Length == CAPACITY && encoded != bytes && count <= encoded.Length && at == |before|
      requires size == |before + after| && size + count <= CAPACITY && Holds(bytes[..], before + after)
      modifies this`size, bytes
      ensures size == old(size) + count && Holds(bytes[..], before + encoded[..count] + after)
    {
      hide Holds, Written;
      ghost var a := bytes[..];
      SpliceHolds(a, before, encoded[..count], after);
      MemMove(bytes, at + count, at, size - at);
      MemCopy(bytes, at, encoded, count);
      size := size + count;
    }

    /** One character at the byte offset where the characters from index `k` on begin. */
    method InsertCharacter(byteOffset: nat, c: int, encoded: array<int>, ghost k: nat) returns (ok: bool, next: nat)
      requires Valid() && IsScalar(c) && encoded.Length == 4 && encoded != bytes
      requires k <= |content| && byteOffset == |EncodeAll(content[..k])|
      modifies this, bytes, encoded
      ensures Valid() && ok == (old(size) + Size(c) <= CAPACITY)
      ensures ok ==> content == Spliced(old(content), k, [c]) && next == |EncodeAll(content[..k + 1])|
      ensures ok ==> size == old(size) + Size(c)
      ensures !ok ==> content == old(content) && bytes[..] == old(bytes[..]) && size == old(size)
    {
      hide Holds, EncodeAll, Encode, UnitsAll, IsScalar;
      next := byteOffset;
      var count := EncodeUtf8(encoded, c);
      if size + count > CAPACITY {
        return false, next;
      }
      ghost var pre, post := content[..k], content[k..];
      InsertedEncoding(pre, c, post);
      assert pre + post == content;
      Splice(byteOffset, encoded, count, EncodeAll(pre), EncodeAll(post));
      next := byteOffset + count;
      codePoints := codePoints + 1;
      utf16Units := utf16Units + Units(c);
      content := pre + [c] + post;
      assert content[..k + 1] == pre + [c];
      assert forall i :: 0 <= i < |content| ==> content[i] == c || content[i] in old(content);
      ok := true;
    }

    /** Inserts the characters of a UTF-16 text until one does not fit. */
    method InsertAt(byteOffset: nat, text: seq<int>, ghost k: nat)
      requires Valid() && AllUnits(text) && k <= |content| && byteOffset == |EncodeAll(content[..k])|
      modifies this, bytes
      ensures Valid()
      ensures content == Spliced(old(content), k, FitPrefix(Scalars(text), CAPACITY - old(size)))
    {
      hide Represents, Spliced, EncodeAll, IsScalar, FitPrefix, Scalars, Size;
      var encoded := new int[4](_ => 0);
      var it, offset := 0, byteOffset;
      ghost var goal := FitPrefix(Scalars(text), CAPACITY - size);
      ghost var done: seq<int>, initial := [], content;
      assert text[0..] == text;
      InsertedAt(content, k, [], 0);
      while it < |text|
        invariant 0 <= it <= |text| && Valid() && fresh(encoded)
        invariant k + |done| <= |content| && content == Spliced(initial, k, done)
        invariant offset == |EncodeAll(content[..k + |done|])|
        invariant goal == done + FitPrefix(Scalars(text[it..]), CAPACITY - size)
        decreases |text| - it
      {
        var c, next := NextScalar(text, it);
        if c == 0 {
          it := next;
          continue;
        }
        ghost var rest := Scalars(text[next..]);
        FitStep(c, rest, CAPACITY - size);
        var ok;
        ok, offset := InsertCharacter(offset, c, encoded, k + |done|);
        if !ok {
          assert goal == done;
          break;
        }
        assert done + ([c] + FitPrefix(rest, CAPACITY - size)) == (done + [c]) + FitPrefix(rest, CAPACITY - size);
        InsertedAt(initial, k, done, c);
        done := done + [c];
        it := next;
      }
      if it == |text| {
        assert text[it..] == [];
        EmptyFits(CAPACITY - size);
        assert goal == done;
      }
      Zeroize(encoded, 0, 4);
    }

    method Append(text: seq<int>)
      requires Valid() && AllUnits(text)
      modifies this, bytes
      ensures Valid() && content == old(content) + FitPrefix(Scalars(text), CAPACITY - old(size))
    {
      assert content[..|content|] == content && content[|content|..] == [];
      InsertAt(size, text, |content|);
    }

    /** Steps back over continuation bytes to the last lead byte and drops that character. */
    method RemoveLast()
      requires Valid()
      modifies this, bytes
      ensures Valid() && content == if old(content) == [] then [] else old(content)[..|old(content)| - 1]
    {
      hide Holds, EncodeAll, UnitsAll, Encode, IsContinuation;
      if size == 0 {
        NoBytesNoText(content);
        return;
      }
      TextBehindBytes(content);
      ghost var pre, c := content[..|content| - 1], content[|content| - 1];
      assert content == pre + [c];
      LastCharacter(pre, c, bytes[..]);
      var first := size - 1;
      while first > 0 && IsContinuation(bytes[first])
        invariant |EncodeAll(pre)| <= first < size
      {
        first := first - 1;
      }
      var removedBytes := size - first;
      TruncateHolds(bytes[..], EncodeAll(pre), Encode(c));
      Zeroize(bytes, first, removedBytes);
      size := first;
      codePoints := codePoints - 1;
      utf16Units := utf16Units - if removedBytes == 4 then 2 else 1;
      content := pre;
    }

    /** The byte and character offset a UTF-16 offset falls on, unless it splits a surrogate pair. */
    method LocateUtf16(target: nat) returns (found: bool, byteOffset: nat, codePointOffset: nat)
      requires Valid()
      ensures found == (Locate(content, target) >= 0)
      ensures found ==> codePointOffset == Locate(content, target) && UnitsAll(content[..codePointOffset]) == target
      ensures found ==> byteOffset == |EncodeAll(content[..codePointOffset])|
    {
      hide Holds, EncodeAll, UnitsAll, SizeFromLead, Locate;
      var current := 0;
      codePointOffset, byteOffset := 0, 0;
      NothingBefore(content, target);
      while byteOffset < size && current < target
        invariant codePointOffset <= |content| && byteOffset == |EncodeAll(content[..codePointOffset])|
        invariant current == UnitsAll(content[..codePointOffset]) && current <= target
        invariant Locate(content, target)
          == Shifted(Locate(content[codePointOffset..], target - current), codePointOffset)
        decreases |content| - codePointOffset
      {
        CharacterAt(content, codePointOffset, bytes[..]);
        LocateStep(content, codePointOffset, target - current);
        var byteCount := SizeFromLead(bytes[byteOffset]);
        var characterUtf16 := if byteCount == 4 then 2 else 1;
        if current + characterUtf16 > target {
          return false, 0, 0;
        }
        byteOffset := byteOffset + byteCount;
        current := current + characterUtf16;
        codePointOffset := codePointOffset + 1;
      }
      LocateEnds(content, codePointOffset, target - current);
      found := current == target;
    }

    /** Cuts a range of UTF-16 units, given back from the end of the text, and inserts what fits of a text there. */
    method Replace(replacementStart: int, replacementLength: int, text: seq<int>) returns (ok: bool)
      requires Valid() && AllUnits(text)
      modifies this, bytes
      ensures Valid() && ok == CanReplace(old(content), replacementStart, replacementLength)
      ensures ok ==> content == Replaced(old(content), replacementStart, replacementLength, text)
      ensures !ok ==> content == old(content) && bytes[..] == old(bytes[..]) && size == old(size)
    {
      hide Holds, EncodeAll, UnitsAll, Encode, Locate, FitPrefix, Scalars, Written;
      if replacementStart > 0 || replacementLength < 0 {
        return false;
      }
      var firstUtf16 := utf16Units + replacementStart;
      var lastUtf16 := firstUtf16 + replacementLength;
      if firstUtf16 < 0 || lastUtf16 < firstUtf16 || lastUtf16 > utf16Units {
        return false;
      }
      var found, firstByte, firstCodePoint := LocateUtf16(firstUtf16);
      if !found {
        return false;
      }
      var lastByte, lastCodePoint;
      found, lastByte, lastCodePoint := LocateUtf16(lastUtf16);
      if !found {
        return false;
      }
      CutText(content, firstCodePoint, lastCodePoint, firstUtf16, lastUtf16);
      ghost var pre, cut, post := content[..firstCodePoint], content[firstCodePoint..lastCodePoint],
        content[lastCodePoint..];
      CutHolds(bytes[..], EncodeAll(pre), EncodeAll(cut), EncodeAll(post));
      var removedBytes := lastByte - firstByte;
      MemMove(bytes, firstByte, lastByte, size - lastByte);
      size := size - removedBytes;
      Zeroize(bytes, size, removedBytes);
      codePoints := codePoints - (lastCodePoint - firstCodePoint);
      utf16Units := utf16Units - replacementLength;
      content := pre + post;
      assert content[..firstCodePoint] == pre && content[firstCodePoint..] == post;
      assert forall i :: 0 <= i < |content| ==> content[i] in old(content);
      InsertAt(firstByte, text, firstCodePoint);
      return true;
    }

    method Clear()
      requires bytes.Length == CAPACITY
      modifies this, bytes
      ensures Valid() && content == [] && bytes[..] == Zeros(CAPACITY)
    {
      Zeroize(bytes, 0, CAPACITY);
      size, codePoints, utf16Units, content := 0, 0, 0, [];
    }
  }

  function Shifted(r: int, k: nat): int {
    if r < 0 then -1 else r + k
  }

  /** Both ends of the range, counted back from the end of the text, fall between characters. */
  ghost predicate CanReplace(content: seq<int>, start: int, length: int) {
    && start <= 0 && length >= 0
    && 0 <= UnitsAll(content) + start && start + length <= 0
    && Locate(content, UnitsAll(content) + start) >= 0
    && Locate(content, UnitsAll(content) + start + length) >= 0
  }

  /** The text with the range replaced by the longest prefix that fits. */
  ghost function Replaced(content: seq<int>, start: int, length: int, text: seq<int>): seq<int>
    requires CanReplace(content, start, length)
  {
    var i, j := Locate(content, UnitsAll(content) + start), Locate(content, UnitsAll(content) + start + length);
    content[..i] + FitPrefix(Scalars(text), CAPACITY - |EncodeAll(content[..i] + content[j..])|) + content[j..]
  }

  /** The text splits into what is before a range, its `length` units, and as many units behind it as `start` counts
      back further. */
  ghost predicate SplitsAt(content: seq<int>, start: int, length: int, i: int, j: int) {
    0 <= i <= j <= |content| && UnitsAll(content[i..j]) == length && UnitsAll(content[j..]) == -start - length
  }

  /** A range can be replaced exactly if the text splits like that. */
  lemma CanReplaceIff(content: seq<int>, start: int, length: int)
    ensures CanReplace(content, start, length) <==>
      start <= 0 && exists i, j :: SplitsAt(content, start, length, i, j)
  {
    hide SplitsAt, UnitsAll, EncodeAll, Locate;
    if CanReplace(content, start, length) {
      RangeSplits(content, start, length);
    } else if i, j :| SplitsAt(content, start, length, i, j) {
      SplitIsRange(content, start, length, i, j);
    }
  }

  lemma RangeSplits(content: seq<int>, start: int, length: int)
    requires CanReplace(content, start, length)
    ensures exists i, j :: SplitsAt(content, start, length, i, j)
  {
    hide UnitsAll, EncodeAll, Locate;
    var i, j := Locate(content, UnitsAll(content) + start), Locate(content, UnitsAll(content) + start + length);
    LocateIsSplit(content, UnitsAll(content) + start, i);
    LocateIsSplit(content, UnitsAll(content) + start + length, j);
    CutText(content, i, j, UnitsAll(content) + start, UnitsAll(content) + start + length);
    assert content == content[..i] + content[i..j] + content[j..];
    UnitsInParts(content[..i], content[i..j], content[j..]);
    assert content[..j] == content[..i] + content[i..j];
    UnitsAllAppend(content[..i], content[i..j]);
    assert SplitsAt(content, start, length, i, j);
  }

  lemma SplitIsRange(content: seq<int>, start: int, length: int, i: int, j: int)
    requires SplitsAt(content, start, length, i, j)
    ensures CanReplace(content, start, length)
  {
    hide UnitsAll, EncodeAll, Locate, CanReplace;
    assert content == content[..i] + content[i..j] + content[j..];
    RangeIsReplaced(content[..i], content[i..j], content[j..], []);
  }

  lemma UnitsInParts(pre: seq<int>, cut: seq<int>, post: seq<int>)
    ensures UnitsAll(pre + cut + post) == UnitsAll(pre) + UnitsAll(cut) + UnitsAll(post)
  {
    UnitsAllAppend(pre, cut);
    UnitsAllAppend(pre + cut, post);
  }

  /** And then the range goes, and the longest prefix of the new text that fits into 4096 bytes comes in its place. */
  lemma RangeIsReplaced(pre: seq<int>, cut: seq<int>, post: seq<int>, text: seq<int>)
    ensures var (content, start, length) := (pre + cut + post, -(UnitsAll(cut) + UnitsAll(post)), UnitsAll(cut));
      && CanReplace(content, start, length)
      && Replaced(content, start, length, text)
         == pre + FitPrefix(Scalars(text), 4096 - |EncodeAll(pre + post)|) + post
  {
    hide EncodeAll, UnitsAll, Locate, Scalars, FitPrefix;
    var content := pre + cut + post;
    UnitsInParts(pre, cut, post);
    assert content[..|pre|] == pre && content[..|pre + cut|] == pre + cut && content[|pre + cut|..] == post;
    UnitsAllAppend(pre, cut);
    LocateIsSplit(content, UnitsAll(pre), |pre|);
    LocateIsSplit(content, UnitsAll(pre + cut), |pre + cut|);
  }

  lemma NoBytesNoText(s: seq<int>)
    requires |EncodeAll(s)| == 0
    ensures s == []
  {
  }

  lemma TextBehindBytes(s: seq<int>)
    requires |EncodeAll(s)| > 0
    ensures s != []
  {
  }

  /** The last character starts where the bytes of the others end, and only continuation bytes follow it. */
  lemma LastCharacter(pre: seq<int>, c: int, a: seq<int>)
    requires IsScalar(c) && Holds(a, EncodeAll(pre + [c]))
    ensures var n := |EncodeAll(pre)|;
      && EncodeAll(pre + [c]) == EncodeAll(pre) + Encode(c) && UnitsAll(pre + [c]) == UnitsAll(pre) + Units(c)
      && !IsContinuation(a[n]) && forall i :: n < i < n + |Encode(c)| ==> IsContinuation(a[i])
  {
    EncodeAllAppend(pre, [c]);
    UnitsAllAppend(pre, [c]);
    EncodeSingle(c);
    EncodeShape(c);
  }

  lemma TruncateHolds(a: seq<int>, before: seq<int>, cut: seq<int>)
    requires Holds(a, before + cut)
    ensures Holds(Written(a, |before|, Zeros(|cut|)), before)
  {
  }

  lemma NothingBefore(s: seq<int>, units: int)
    ensures EncodeAll(s[..0]) == [] && UnitsAll(s[..0]) == 0 && Locate(s, units) == Shifted(Locate(s[0..], units), 0)
  {
  }

  /** The bytes at a character's offset start with it. */
  lemma CharacterAt(s: seq<int>, k: nat, a: seq<int>)
    requires k <= |s| && AllScalars(s) && Holds(a, EncodeAll(s)) && |EncodeAll(s[..k])| < |EncodeAll(s)|
    ensures var n := |EncodeAll(s[..k])|;
      && k < |s| && n < |a| && SizeFromLead(a[n]) == Size(s[k]) && |EncodeAll(s[..k + 1])| == n + Size(s[k])
  {
    hide Encode, SizeFromLead, IsContinuation;
    assert s[..|s|] == s;
    assert s == s[..k + 1] + s[k + 1..] && s[..k + 1] == s[..k] + [s[k]];
    EncodeAllAppend(s[..k + 1], s[k + 1..]);
    EncodeAllAppend(s[..k], [s[k]]);
    EncodeSingle(s[k]);
    EncodeShape(s[k]);
    assert a[..|EncodeAll(s)|] == EncodeAll(s) && EncodeAll(s)[|EncodeAll(s[..k])|] == Encode(s[k])[0];
  }

  lemma LocateStep(s: seq<int>, k: nat, units: int)
    requires k < |s| && units > 0
    ensures UnitsAll(s[..k + 1]) == UnitsAll(s[..k]) + Units(s[k])
    ensures Locate(s[k..], units)
         == if Units(s[k]) > units then -1 else Shifted(Locate(s[k + 1..], units - Units(s[k])), 1)
  {
    assert s[..k + 1] == s[..k] + [s[k]] && s[k..][1..] == s[k + 1..];
    UnitsAllAppend(s[..k], [s[k]]);
  }

  lemma LocateEnds(s: seq<int>, k: nat, units: int)
    requires k <= |s| && units >= 0 && (units == 0 || |EncodeAll(s[..k])| >= |EncodeAll(s)|)
    ensures Locate(s[k..], units) == if units == 0 then 0 else -1
  {
    if units != 0 {
      assert s == s[..k] + s[k..];
      EncodeAllAppend(s[..k], s[k..]);
      NoBytesNoText(s[k..]);
    }
  }

  lemma UnitsGrow(s: seq<int>, j: nat, i: nat)
    requires j < i <= |s|
    ensures UnitsAll(s[..j]) < UnitsAll(s[..i])
  {
    assert s[..i] == s[..j] + s[j..i];
    UnitsAllAppend(s[..j], s[j..i]);
  }

  /** Encoding and lengths of a text with a range cut out. */
  lemma CutText(s: seq<int>, i: nat, j: nat, first: int, last: int)
    requires i <= |s| && j <= |s| && UnitsAll(s[..i]) == first && UnitsAll(s[..j]) == last && first <= last
    ensures var pre, post := s[..i], s[j..];
      && i <= j && EncodeAll(s) == EncodeAll(pre) + EncodeAll(s[i..j]) + EncodeAll(post)
      && EncodeAll(pre + post) == EncodeAll(pre) + EncodeAll(post)
      && |EncodeAll(s[..j])| == |EncodeAll(pre)| + |EncodeAll(s[i..j])| == |EncodeAll(s)| - |EncodeAll(post)|
      && UnitsAll(pre + post) == UnitsAll(s) - (last - first)
  {
    if j < i {
      UnitsGrow(s, j, i);
    } else {
      assert s[..j] == s[..i] + s[i..j] && s == s[..j] + s[j..];
      EncodeAllAppend(s[..i], s[i..j]);
      EncodeAllAppend(s[..j], s[j..]);
      EncodeAllAppend(s[..i], s[j..]);
      UnitsAllAppend(s[..j], s[j..]);
      UnitsAllAppend(s[..i], s[j..]);
    }
  }

  /** Encoding and lengths of a text with one character inserted. */
  lemma InsertedEncoding(pre: seq<int>, c: int, post: seq<int>)
    ensures EncodeAll(pre + post) == EncodeAll(pre) + EncodeAll(post)
    ensures EncodeAll(pre + [c] + post) == EncodeAll(pre) + Encode(c) + EncodeAll(post)
    ensures EncodeAll(pre + [c]) == EncodeAll(pre) + Encode(c)
    ensures UnitsAll(pre + [c] + post) == UnitsAll(pre + post) + Units(c)
  {
    hide Encode, EncodeAll, Units, UnitsAll;
    EncodeSingle(c);
    UnitsSingle(c);
    EncodeAllAppend(pre, post);
    EncodeAllAppend(pre + [c], post);
    EncodeAllAppend(pre, [c]);
    UnitsAllAppend(pre, post);
    UnitsAllAppend(pre + [c], post);
    UnitsAllAppend(pre, [c]);
  }

  /** Where the next character goes, in terms of the text before the insertion. */
  lemma InsertedAt(s: seq<int>, k: nat, done: seq<int>, c: int)
    requires k <= |s|
    ensures Spliced(Spliced(s, k, done), k + |done|, [c]) == Spliced(s, k, done + [c]) && Spliced(s, k, []) == s
  {
  }

  lemma EmptyFits(room: int)
    ensures FitPrefix(Scalars([]), room) == []
  {
  }

  lemma FitStep(c: int, rest: seq<int>, room: int)
    ensures FitPrefix([c] + rest, room) == if Size(c) <= room then [c] + FitPrefix(rest, room - Size(c)) else []
  {
  }

  /** The next character of a UTF-16 text, or zero for a stray surrogate or a zero, which are skipped. */
  method NextScalar(text: seq<int>, at: nat) returns (c: int, next: nat)
    requires at < |text| && AllUnits(text)
    ensures at < next <= |text|
    ensures if c == 0 then Scalars(text[at..]) == Scalars(text[next..])
            else IsScalar(c) && Scalars(text[at..]) == [c] + Scalars(text[next..])
  {
    assert IsUnit(text[at]);
    assert text[at..][1..] == text[at + 1..];
    c, next := text[at], at + 1;
    if IsHigh(text[at]) {
      if next == |text| || !IsLow(text[next]) {
        return 0, next;
      }
      assert text[at..][2..] == text[at + 2..];
      return FromSurrogates(text[at], text[next]), next + 1;
    }
    if IsLow(c) {
      c := 0;
    }
  }
}
