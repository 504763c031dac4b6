/**
 Properties of the text codec: `decode` reads back what `encode` writes,
 characters outside the alphabet are skipped where a group would start but
 not inside a group, decoding fails exactly on non-ASCII text, and the output
 is at most three bytes for every four input bytes.
 */
module Base64Properties {
  import opened JavaLang
  import opened JavaStrings
  import opened Base64

  // ------------------------------------------------------------ the tables

  /** `decode`'s table maps every character of `encode`'s alphabet back to
      its 6-bit value. */
  lemma AlphabetMatchesTable(v: int)
    requires 0 <= v < 64
    ensures IsValid(AlphabetChar(v) as int)
    ensures TableEntry(AlphabetChar(v) as int) == v
  {
  }

  /** Every table index with a value is the code of the alphabet character
      for that value; so the table holds exactly 64 valid entries. */
  lemma TableMatchesAlphabet(b: int)
    requires IsValid(b)
    ensures AlphabetChar(TableEntry(b)) as int == b
  {
  }

  // --------------------------------------------------------- arithmetic

  lemma DivMod64(x: int, q: int, r: int)
    requires 0 <= r < 64 && x == q * 64 + r
    ensures x / 64 == q && x % 64 == r
  {
  }

  lemma DivTop(x: int, q: int, r: int)
    requires 0 <= r < 0x40000 && x == q * 0x40000 + r
    ensures x / 0x40000 == q
  {
  }

  /** The four 6-bit values `encode` reads from a 24-bit accumulator, put
      back where `decode` puts them, give the accumulator again. */
  lemma Reassemble(b: int)
    requires 0 <= b < 0x1000000
    ensures ((b / 0x40000) % 64) * 0x40000 + ((b * 64 / 0x40000) % 64) * 0x1000
          + ((b * 64 * 64 / 0x40000) % 64) * 0x40 + (b * 64 * 64 * 64 / 0x40000) % 64 == b
  {
    var c1, d3 := b / 64, b % 64;
    var c2, d2 := c1 / 64, c1 % 64;
    var d0, d1 := c2 / 64, c2 % 64;
    assert b == d0 * 0x40000 + d1 * 0x1000 + d2 * 64 + d3;
    DivTop(b, d0, d1 * 0x1000 + d2 * 64 + d3);
    DivMod64(d0, 0, d0);
    DivTop(b * 64, d0 * 64 + d1, d2 * 0x1000 + d3 * 64);
    DivMod64(d0 * 64 + d1, d0, d1);
    DivTop(b * 64 * 64, d0 * 0x1000 + d1 * 64 + d2, d3 * 0x1000);
    DivMod64(d0 * 0x1000 + d1 * 64 + d2, d0 * 64 + d1, d2);
    DivTop(b * 64 * 64 * 64, b, 0);
    DivMod64(b, d0 * 0x1000 + d1 * 64 + d2, d3);
  }

  lemma Div65536(x: int, q: int, r: int)
    requires 0 <= r < 0x10000 && x == q * 0x10000 + r
    ensures x / 0x10000 == q
  {
  }

  lemma Mod256(x: int, q: int, r: int)
    requires 0 <= r < 256 && x == q * 256 + r
    ensures x % 256 == r
  {
  }

  /** The three bytes of a 24-bit accumulator, as `decode` reads them. */
  lemma ByteDigits(u0: int, u1: int, u2: int)
    requires 0 <= u0 < 256 && 0 <= u1 < 256 && 0 <= u2 < 256
    ensures var b := u0 * 0x10000 + u1 * 0x100 + u2;
      && (b / 0x10000) % 256 == u0
      && (b * 256 / 0x10000) % 256 == u1
      && (b * 256 * 256 / 0x10000) % 256 == u2
  {
    var b := u0 * 0x10000 + u1 * 0x100 + u2;
    Div65536(b, u0, u1 * 0x100 + u2);
    Mod256(u0, 0, u0);
    Div65536(b * 256, u0 * 256 + u1, u2 * 256);
    Mod256(u0 * 256 + u1, u0, u1);
    Div65536(b * 256 * 256, b, 0);
    Mod256(b, u0 * 256 + u1, u2);
  }

  /** The bytes `decode` emits from an accumulator built by `encode` are the
      bytes `encode` put in. */
  lemma EmitBytes(d0: SByte, d1: SByte, d2: SByte)
    ensures var b := Unsigned(d0) * 0x10000 + Unsigned(d1) * 0x100 + Unsigned(d2);
      Emit(b, 3) == [d0, d1, d2]
  {
    var u0, u1, u2 := Unsigned(d0), Unsigned(d1), Unsigned(d2);
    var b := u0 * 0x10000 + u1 * 0x100 + u2;
    ByteDigits(u0, u1, u2);
    ToSByteUnsigned(d0);
    ToSByteUnsigned(d1);
    ToSByteUnsigned(d2);
    var e0, e1, e2 := (b / 0x10000) % 256, (b * 256 / 0x10000) % 256, (b * 256 * 256 / 0x10000) % 256;
    assert ToSByte(e0) == d0 && ToSByte(e1) == d1 && ToSByte(e2) == d2;
    assert Emit(b * 256 * 256, 1) == [ToSByte(e2)] + Emit(b * 256 * 256 * 256, 0);
    assert Emit(b * 256, 2) == [ToSByte(e1)] + Emit(b * 256 * 256, 1);
    assert Emit(b, 3) == [ToSByte(e0)] + Emit(b * 256, 2);
  }

  // ------------------------------------------------------- one group

  /** The characters of a group, one by one. */
  lemma GroupCharsUnfold(b: int)
    ensures GroupChars(b, 4) == [AlphabetChar((b / 0x40000) % 64), AlphabetChar((b * 64 / 0x40000) % 64),
                                 AlphabetChar((b * 64 * 64 / 0x40000) % 64), AlphabetChar((b * 64 * 64 * 64 / 0x40000) % 64)]
    ensures GroupChars(b, 3) == GroupChars(b, 4)[..3]
    ensures GroupChars(b, 2) == GroupChars(b, 4)[..2]
  {
    assert GroupChars(b * 64 * 64 * 64, 1) == [AlphabetChar((b * 64 * 64 * 64 / 0x40000) % 64)] + GroupChars(b * 64 * 64 * 64 * 64, 0);
    assert GroupChars(b * 64 * 64, 2) == [AlphabetChar((b * 64 * 64 / 0x40000) % 64)] + GroupChars(b * 64 * 64 * 64, 1);
    assert GroupChars(b * 64 * 64, 1) == [AlphabetChar((b * 64 * 64 / 0x40000) % 64)] + GroupChars(b * 64 * 64 * 64, 0);
    assert GroupChars(b * 64, 3) == [AlphabetChar((b * 64 / 0x40000) % 64)] + GroupChars(b * 64 * 64, 2);
    assert GroupChars(b * 64, 2) == [AlphabetChar((b * 64 / 0x40000) % 64)] + GroupChars(b * 64 * 64, 1);
    assert GroupChars(b * 64, 1) == [AlphabetChar((b * 64 / 0x40000) % 64)] + GroupChars(b * 64 * 64, 0);
  }

  /** Decoding text that starts with four ASCII characters, the first in the
      alphabet, decodes those four as one group and then the rest. */
  lemma DecodeLeadingGroup(c: string, tail: seq<int>)
    requires |c| == 4 && forall k :: 0 <= k < 4 ==> IsAscii(c[k])
    requires TableEntry(c[0] as int) != -1
    ensures Group(GetBytes(c), TableEntry(c[0] as int)).Ok?
    ensures DecodeBytes(GetBytes(c) + tail)
         == Then(Group(GetBytes(c), TableEntry(c[0] as int)).value, DecodeBytes(tail))
  {
    GetBytesAscii(c);
    var g := GetBytes(c);
    var x := g + tail;
    var t0 := TableEntry(c[0] as int);
    assert forall k :: 0 <= k < 4 ==> x[k] == g[k] == c[k] as int;
    assert Lookup(x[0]) == Ok(t0);
    assert Slot(x, 1) == Slot(g, 1) && Slot(x, 2) == Slot(g, 2) && Slot(x, 3) == Slot(g, 3);
    assert Group(x, t0) == Group(g, t0);
    GroupCount(g, t0);
    assert (if |x| <= 4 then [] else x[4..]) == tail;
  }

  /** Value `k` (0 to 3, most significant first) of the four 6-bit values
      in a 24-bit accumulator, as `encode` reads it after `k` shifts. */
  function Sextet(b: int, k: nat): int
    requires k < 4
  {
    if k == 0 then (b / 0x40000) % 64
    else if k == 1 then (b * 64 / 0x40000) % 64
    else if k == 2 then (b * 64 * 64 / 0x40000) % 64
    else (b * 64 * 64 * 64 / 0x40000) % 64
  }

  /** A group of four codes holding the first `n + 1` values of an
      accumulator followed by padding, where the values under the padding are
      zero, decodes to the first `n` bytes of that accumulator. */
  lemma GroupOfSextets(g: seq<int>, b: int, n: nat)
    requires 0 <= b < 0x1000000 && 1 <= n <= 3 && |g| == 4
    requires forall k :: 0 <= k <= n ==> g[k] == AlphabetChar(Sextet(b, k)) as int
    requires forall k :: n < k < 4 ==> g[k] == '=' as int && Sextet(b, k) == 0
    ensures Group(g, Sextet(b, 0)) == Ok(Emit(b, n))
  {
    Reassemble(b);
    GroupOfValues(g, Sextet(b, 0), Sextet(b, 1), Sextet(b, 2), Sextet(b, 3), n);
  }

  /** A group of four codes holding the 6-bit values `v0` to `vn` and then
      padding, over zero values, decodes to the first `n` bytes of the
      accumulator those values make. */
  lemma GroupOfValues(g: seq<int>, v0: int, v1: int, v2: int, v3: int, n: nat)
    requires 1 <= n <= 3 && |g| == 4
    requires 0 <= v1 < 64 && 0 <= v2 < 64 && 0 <= v3 < 64
    requires g[1] == AlphabetChar(v1) as int
    requires if n >= 2 then g[2] == AlphabetChar(v2) as int else g[2] == '=' as int && v2 == 0
    requires if n >= 3 then g[3] == AlphabetChar(v3) as int else g[3] == '=' as int && v3 == 0
    ensures Group(g, v0) == Ok(Emit(v0 * 0x40000 + v1 * 0x1000 + v2 * 0x40 + v3, n))
  {
    SlotOfChar(g, 1, v1);
    var s2, s3 := if n >= 2 then Some(v2) else None, if n >= 3 then Some(v3) else None;
    if n >= 2 { SlotOfChar(g, 2, v2); } else { SlotOfPadding(g, 2); }
    if n >= 3 { SlotOfChar(g, 3, v3); } else { SlotOfPadding(g, 3); }
    GroupOfSlots(g, v0, Some(v1), s2, s3);
  }

  /** A group whose three slots read `s1`, `s2`, `s3`. */
  lemma GroupOfSlots(g: seq<int>, t0: int, s1: Option<int>, s2: Option<int>, s3: Option<int>)
    requires |g| >= 1 && Slot(g, 1) == Ok(s1) && Slot(g, 2) == Ok(s2) && Slot(g, 3) == Ok(s3)
    ensures Group(g, t0) == Ok(Emit(t0 * 0x40000 + SlotValue(s1) * 0x1000 + SlotValue(s2) * 0x40 + SlotValue(s3),
                                    SlotCount(s1) + SlotCount(s2) + SlotCount(s3)))
  {
  }

  /** A slot holding an alphabet character adds its value. */
  lemma SlotOfChar(g: seq<int>, k: nat, v: int)
    requires k < |g| && 0 <= v < 64 && g[k] == AlphabetChar(v) as int
    ensures Slot(g, k) == Ok(Some(v))
  {
    AlphabetMatchesTable(v);
  }

  /** A slot holding `=` adds nothing. */
  lemma SlotOfPadding(g: seq<int>, k: nat)
    requires k < |g| && g[k] == '=' as int
    ensures Slot(g, k) == Ok(None)
  {
  }

  /** The first `n` bytes `decode` emits from an accumulator. */
  lemma EmitPrefix(b: int)
    ensures Emit(b, 2) == Emit(b, 3)[..2]
    ensures Emit(b, 1) == Emit(b, 3)[..1]
  {
    assert Emit(b, 3) == [ToSByte((b / 0x10000) % 256)] + Emit(b * 256, 2);
    assert Emit(b, 2) == [ToSByte((b / 0x10000) % 256)] + Emit(b * 256, 1);
    assert Emit(b * 256, 2) == [ToSByte((b * 256 / 0x10000) % 256)] + Emit(b * 256 * 256, 1);
    assert Emit(b * 256, 1) == [ToSByte((b * 256 / 0x10000) % 256)] + Emit(b * 256 * 256, 0);
  }

  /** The characters `encode` writes for the first group of `data`, padding
      included. */
  function FirstQuantum(data: seq<SByte>): string
    requires |data| >= 1
  {
    if |data| >= 3 then Encode(data)[..4] else Encode(data)
  }

  /** The first group `encode` writes: the characters for the first `n + 1`
      values of the accumulator, then padding to four characters. */
  lemma FirstQuantumIs(data: seq<SByte>)
    requires |data| >= 1
    ensures var n := if |data| >= 3 then 3 else |data|;
      FirstQuantum(data) == GroupChars(Quantum(data), n + 1) + Padding(3 - n)
  {
    var b := Quantum(data);
    EncodeStep(data, b, Missing(|data|));
    if |data| >= 3 {
      var g := GroupChars(b, 4);
      assert (g + Encode(data[3..]))[..4] == g;
      assert g + Padding(0) == g;
    }
  }

  /** The characters of a group followed by its padding, one by one. */
  lemma QuantumChars(b: int, n: nat)
    requires 1 <= n <= 3
    ensures var c := GroupChars(b, n + 1) + Padding(3 - n);
      && |c| == 4
      && (forall k :: 0 <= k <= n ==> c[k] == AlphabetChar(Sextet(b, k)))
      && (forall k :: n < k < 4 ==> c[k] == '=')
  {
    GroupCharsUnfold(b);
  }

  /** The values under `encode`'s padding are zero: a group of two bytes
      leaves the last six bits clear, a group of one byte the last twelve. */
  lemma PaddedSextetsZero(data: seq<SByte>)
    requires 1 <= |data| < 3
    ensures Sextet(Quantum(data), 3) == 0
    ensures |data| == 1 ==> Sextet(Quantum(data), 2) == 0
  {
    var b := Quantum(data);
    var u0 := Unsigned(data[0]);
    if |data| == 2 {
      var u1 := Unsigned(data[1]);
      DivTop(b * 64 * 64 * 64, b, 0);
      DivMod64(b, u0 * 1024 + u1 * 4, 0);
    } else {
      DivTop(b * 64 * 64 * 64, b, 0);
      DivMod64(b, u0 * 1024, 0);
      DivTop(b * 64 * 64, u0 * 1024, 0);
      DivMod64(u0 * 1024, u0 * 16, 0);
    }
  }

  /** The bytes `decode` emits for the first group `encode` writes. */
  lemma EmitFirst(data: seq<SByte>)
    requires |data| >= 1
    ensures var n := if |data| >= 3 then 3 else |data|;
      Emit(Quantum(data), n) == data[..n]
  {
    var b := Quantum(data);
    var d1: SByte := if 1 < |data| then data[1] else 0;
    var d2: SByte := if 2 < |data| then data[2] else 0;
    assert b == Unsigned(data[0]) * 0x10000 + Unsigned(d1) * 0x100 + Unsigned(d2);
    EmitBytes(data[0], d1, d2);
    EmitPrefix(b);
  }

  /** The first four characters of the text `encode` writes decode as one
      group to the first (up to three) bytes of the data. */
  lemma DecodeFirstQuantum(data: seq<SByte>)
    requires |data| >= 1
    ensures var c := FirstQuantum(data);
      && |c| == 4
      && (forall k :: 0 <= k < 4 ==> IsAscii(c[k]))
      && TableEntry(c[0] as int) != -1
      && Group(GetBytes(c), TableEntry(c[0] as int)) == Ok(if |data| >= 3 then data[..3] else data)
  {
    var b := Quantum(data);
    var n := if |data| >= 3 then 3 else |data|;
    EmitFirst(data);
    if n < 3 {
      PaddedSextetsZero(data);
      assert data[..n] == data;
    }
    FirstQuantumIs(data);
    QuantumChars(b, n);
    var c := FirstQuantum(data);
    assert forall k :: 0 <= k < 4 ==> IsAscii(c[k]);
    GetBytesAscii(c);
    AlphabetMatchesTable(Sextet(b, 0));
    GroupOfSextets(GetBytes(c), b, n);
  }

  // ------------------------------------------------------- round trip

  /** `decode(encode(data)) == data` for every byte array. */
  lemma {:induction false} DecodeEncode(data: seq<SByte>)
    ensures Decode(Encode(data)) == Ok(data)
    decreases |data|
  {
    if |data| == 0 {
      assert Encode(data) == "";
    } else {
      DecodeFirstQuantum(data);
      var c := FirstQuantum(data);
      var t0 := TableEntry(c[0] as int);
      var rest := if |data| >= 3 then Encode(data[3..]) else "";
      assert Encode(data) == c + rest;
      GetBytesAppend(c, rest);
      DecodeLeadingGroup(c, GetBytes(rest));
      if |data| >= 3 {
        DecodeEncode(data[3..]);
        assert data[..3] + data[3..] == data;
      } else {
        assert GetBytes(rest) == [];
        assert data + [] == data;
      }
    }
  }

  /** Every character is an alphabet character or `=`. */
  predicate AlphabetOrPadding(s: string) {
    forall k :: 0 <= k < |s| ==> s[k] == '=' || IsValid(s[k] as int)
  }

  lemma AlphabetOrPaddingAppend(a: string, b: string)
    requires AlphabetOrPadding(a) && AlphabetOrPadding(b)
    ensures AlphabetOrPadding(a + b)
  {
    forall k | 0 <= k < |a + b| ensures (a + b)[k] == '=' || IsValid((a + b)[k] as int) {
      if k < |a| {
        assert (a + b)[k] == a[k];
      } else {
        assert (a + b)[k] == b[k - |a|];
      }
    }
  }

  /** The characters of a group are alphabet characters. */
  lemma {:induction false} GroupCharsAlphabet(b: int, n: nat)
    ensures AlphabetOrPadding(GroupChars(b, n))
    decreases n
  {
    if n > 0 {
      var c := AlphabetChar((b / 0x40000) % 64);
      AlphabetMatchesTable((b / 0x40000) % 64);
      assert AlphabetOrPadding([c]);
      GroupCharsAlphabet(b * 64, n - 1);
      AlphabetOrPaddingAppend([c], GroupChars(b * 64, n - 1));
    }
  }

  /** `encode` writes alphabet characters and `=` only. */
  lemma {:induction false} EncodeAlphabet(data: seq<SByte>)
    ensures AlphabetOrPadding(Encode(data))
    decreases |data|
  {
    if |data| > 0 {
      var b := Quantum(data);
      var pad := Missing(|data|);
      var g := GroupChars(b, 4 - pad);
      GroupCharsAlphabet(b, 4 - pad);
      if pad == 0 {
        EncodeAlphabet(data[3..]);
        AlphabetOrPaddingAppend(g, Encode(data[3..]));
      } else {
        assert AlphabetOrPadding(Padding(pad));
        AlphabetOrPaddingAppend(g, Padding(pad));
      }
    }
  }

  // ------------------------------------------------------- skipping

  /** Characters outside the alphabet in front of a text are skipped one at
      a time: decoding the text with them gives what decoding it without them
      gives. */
  lemma {:induction false} SkipInvalidPrefixBytes(prefix: seq<int>, bytes: seq<int>)
    requires forall k :: 0 <= k < |prefix| ==> InTable(prefix[k]) && TableEntry(prefix[k]) == -1
    ensures DecodeBytes(prefix + bytes) == DecodeBytes(bytes)
    decreases |prefix|
  {
    if |prefix| > 0 {
      assert (prefix + bytes)[1..] == prefix[1..] + bytes;
      SkipInvalidPrefixBytes(prefix[1..], bytes);
    } else {
      assert prefix + bytes == bytes;
    }
  }

  /** The same on text: ASCII characters outside the alphabet (such as `=`,
      `!` or `#`) at the front of the text change nothing. */
  lemma SkipInvalidPrefix(prefix: string, s: string)
    requires forall k :: 0 <= k < |prefix| ==> IsAscii(prefix[k]) && TableEntry(prefix[k] as int) == -1
    ensures Decode(prefix + s) == Decode(s)
  {
    GetBytesAppend(prefix, s);
    GetBytesAscii(prefix);
    SkipInvalidPrefixBytes(GetBytes(prefix), GetBytes(s));
  }

  /** The two bytes `decode` emits from an accumulator. */
  lemma EmitTwo(b: int)
    ensures Emit(b, 2) == [ToSByte((b / 0x10000) % 256), ToSByte((b * 256 / 0x10000) % 256)]
  {
    assert Emit(b * 256, 1) == [ToSByte((b * 256 / 0x10000) % 256)] + Emit(b * 256 * 256, 0);
  }

  /** A text of at most four characters that starts a group decodes to
      that group's bytes. */
  lemma DecodeOneGroup(x: seq<int>, t0: int, out: seq<SByte>)
    requires 1 <= |x| <= 4 && Lookup(x[0]) == Ok(t0) && t0 != -1
    requires Group(x, t0) == Ok(out)
    ensures DecodeBytes(x) == Ok(out)
  {
    DecodeStep(x);
    assert DecodeBytes([]) == Ok([]);
    assert out + [] == out;
  }

  /** `Q!QQ`: the `!` in slot 1 adds zero bits and no byte. */
  lemma DecodeGapInGroup()
    ensures Decode("Q!QQ") == Ok([64, 4])
  {
    var x := [81, 33, 81, 81];
    AsciiBytes("Q!QQ", x);
    GapGroup(x);
    DecodeOneGroup(x, 16, [64, 4]);
  }

  lemma GapGroup(x: seq<int>)
    requires x == [81, 33, 81, 81]
    ensures Lookup(x[0]) == Ok(16) && Group(x, 16) == Ok([64, 4])
  {
    GroupOfSlots(x, 16, None, Some(16), Some(16));
    var b := 16 * 0x40000 + 16 * 0x40 + 16;
    EmitTwo(b);
    assert b / 0x10000 == 64 && (b * 256 / 0x10000) % 256 == 4;
  }

  /** `QQQ`: three valid characters and the end of the text. */
  lemma DecodeShortGroup()
    ensures Decode("QQQ") == Ok([65, 4])
  {
    var y := [81, 81, 81];
    AsciiBytes("QQQ", y);
    ShortGroup(y);
    DecodeOneGroup(y, 16, [65, 4]);
  }

  lemma ShortGroup(y: seq<int>)
    requires y == [81, 81, 81]
    ensures Lookup(y[0]) == Ok(16) && Group(y, 16) == Ok([65, 4])
  {
    GroupOfSlots(y, 16, Some(16), Some(16), None);
    var b := 16 * 0x40000 + 16 * 0x1000 + 16 * 0x40;
    EmitTwo(b);
    assert b / 0x10000 == 65 && (b * 256 / 0x10000) % 256 == 4;
  }

  /** The bytes of an ASCII text are its character codes. */
  lemma AsciiBytes(s: string, codes: seq<int>)
    requires |s| == |codes| && forall k :: 0 <= k < |s| ==> s[k] as int == codes[k] < 128
    ensures GetBytes(s) == codes
  {
    GetBytesAscii(s);
  }

  /** Inside a group an invalid character is not skipped: it takes its slot
      and adds zero bits, so `Q!QQ` does not decode like `QQQ`, the text with
      the invalid character removed. */
  lemma InvalidInsideGroupIsNotSkipped()
    ensures Decode("Q!QQ") != Decode("QQQ")
  {
    DecodeGapInGroup();
    DecodeShortGroup();
  }

  // ------------------------------------------------------- failure, size

  /** `decode` throws exactly when the text has a non-ASCII character: its
      bytes are negative, and every position of the text is looked up. */
  lemma DecodeFailsOnNonAscii(s: string)
    ensures Decode(s).Throws? <==> exists k :: 0 <= k < |s| && !IsAscii(s[k])
  {
    GetBytesNonNegative(s);
    var bytes := GetBytes(s);
    assert (forall k :: 0 <= k < |bytes| ==> InTable(bytes[k])) <==> (forall k :: 0 <= k < |bytes| ==> bytes[k] >= 0);
  }

  /** On ASCII text, `decode` yields at most three bytes for every four
      characters. */
  lemma DecodeSize(s: string)
    requires forall k :: 0 <= k < |s| ==> IsAscii(s[k])
    ensures Decode(s).Ok?
    ensures 4 * |Decode(s).value| <= 3 * |s|
  {
    DecodeFailsOnNonAscii(s);
    GetBytesAscii(s);
  }
}
