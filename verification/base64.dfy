/**
 The text codec of LeScanResult: `encode`, standard padded base64 over the
 alphabet of section 4 of RFC 4648, and `decode`, a lenient reader of it that
 skips characters outside the alphabet only where a group of four would
 start. `parseByteDataFromB64` wraps `decode` for the URL-carried payload.
 */
module Base64 {
  import opened JavaLang
  import opened JavaStrings

  /** `tbl[v]` of `encode`: the character for the 6-bit value `v`. */
  function AlphabetChar(v: int): (c: char)
    requires 0 <= v < 64
    ensures IsAscii(c)
  {
    if v < 26 then ('A' as int + v) as char
    else if v < 52 then ('a' as int + (v - 26)) as char
    else if v < 62 then ('0' as int + (v - 52)) as char
    else if v == 62 then '+'
    else '/'
  }

  /** Entry `b` of `decode`'s table: the 6-bit value of the character with
      code `b`, or -1 for a character outside the alphabet. */
  function TableEntry(b: int): (t: int)
    ensures -1 <= t < 64
  {
    if 'A' as int <= b <= 'Z' as int then b - 'A' as int
    else if 'a' as int <= b <= 'z' as int then b - 'a' as int + 26
    else if '0' as int <= b <= '9' as int then b - '0' as int + 52
    else if b == '+' as int then 62
    else if b == '/' as int then 63
    else -1
  }

  /** `decode`'s table has 255 entries, for indices 0 through 254. */
  const TableSize := 255

  /** `tbl[b]`: a negative byte, which any non-ASCII character produces,
      indexes outside the table and throws. */
  function Lookup(b: int): Result<int> {
    if 0 <= b < TableSize then Ok(TableEntry(b))
    else Throws(IndexOutOfBounds(b, TableSize))
  }

  predicate InTable(b: int) {
    0 <= b < TableSize
  }

  /** A table index that names an alphabet character. */
  predicate IsValid(b: int) {
    InTable(b) && TableEntry(b) != -1
  }

  // ---------------------------------------------------------------- encode

  /** The inner loop of `encode`: `n` characters, each from bits 18..23 of
      the accumulator `b`, which is shifted left by six after each one. Java
      shifts in 32 bits and drops the high bits, but only bits 18..23 are
      ever read, so the unbounded shift gives the same characters. */
  function GroupChars(b: int, n: nat): (s: string)
    ensures |s| == n
    decreases n
  {
    if n == 0 then ""
    else [AlphabetChar((b / 0x40000) % 64)] + GroupChars(b * 64, n - 1)
  }

  /** `count` padding characters. */
  function Padding(count: nat): (s: string)
    ensures |s| == count
  {
    seq(count, _ => '=')
  }

  /** The 24-bit accumulator `encode` builds from the bytes at the front of
      `data`: the first byte in bits 16..23, then the second and third where
      they exist. */
  function Quantum(data: seq<SByte>): (b: int)
    requires |data| >= 1
    ensures 0 <= b < 0x1000000
  {
    Unsigned(data[0]) * 0x10000
      + (if 1 < |data| then Unsigned(data[1]) * 0x100 else 0)
      + (if 2 < |data| then Unsigned(data[2]) else 0)
  }

  /** The padding `encode` counts for a group with `remaining` bytes left:
      one for each of the second and third byte that is missing. */
  function Missing(remaining: nat): nat {
    (if 1 < remaining then 0 else 1) + (if 2 < remaining then 0 else 1)
  }

  /** `encode(data)`: each group of three bytes becomes four characters; a
      final group of two or one bytes becomes three or two characters and
      one or two `=`. */
  function Encode(data: seq<SByte>): string
    decreases |data|
  {
    if |data| == 0 then ""
    else
      var b := Quantum(data);
      var pad := Missing(|data|);
      if pad == 0 then GroupChars(b, 4) + Encode(data[3..])
      else GroupChars(b, 4 - pad) + Padding(pad)
  }

  /** The encoding has four characters for every started group of three
      bytes. */
  lemma {:induction false} EncodeLength(data: seq<SByte>)
    ensures |Encode(data)| == 4 * ((|data| + 2) / 3)
    decreases |data|
  {
    if |data| >= 3 {
      EncodeLength(data[3..]);
      assert (|data| + 2) / 3 == (|data[3..]| + 2) / 3 + 1;
    }
  }

  /** The inner loop of `encode`: append the `n` characters of the group
      held in `b`. */
  method AppendGroup(s: string, b: int, n: nat) returns (s': string)
    ensures s' == s + GroupChars(b, n)
  {
    s' := s;
    var acc := b;
    var j := 0;
    while j < n
      invariant 0 <= j <= n
      invariant s' + GroupChars(acc, n - j) == s + GroupChars(b, n)
    {
      s' := s' + [AlphabetChar((acc / 0x40000) % 64)];
      acc := acc * 64;
      j := j + 1;
    }
  }

  /** The top of `encode`'s loop: the three bytes at `i` packed into a
      24-bit accumulator, and one padding character counted for each byte
      past the end. */
  method ReadQuantum(data: seq<SByte>, i: nat) returns (b: int, missing: nat)
    requires i < |data|
    ensures missing == Missing(|data| - i)
    ensures b == Quantum(data[i..])
  {
    b := Unsigned(data[i]) * 0x10000;
    missing := 0;
    if i + 1 < |data| {
      b := b + Unsigned(data[i + 1]) * 0x100;
    } else {
      missing := missing + 1;
    }
    if i + 2 < |data| {
      b := b + Unsigned(data[i + 2]);
    } else {
      missing := missing + 1;
    }
  }

  /** What `encode`'s loop keeps: the text written so far followed by the
      encoding of the bytes from `i` on (or, once the last group is written,
      by the padding) is the whole encoding. */
  ghost predicate EncodedUpTo(data: seq<SByte>, i: nat, pad: nat, s: string) {
    if i <= |data| then pad == 0 && Encode(data) == s + Encode(data[i..])
    else i <= |data| + 2 && 0 < pad <= 2 && Encode(data) == s + Padding(pad)
  }

  /** `encode` as the Java writes it: one pass over the data in steps of
      three, a padding count kept across iterations, and the `=` characters
      appended after the loop. */
  method EncodeLoop(data: seq<SByte>) returns (s: string)
    ensures s == Encode(data)
  {
    s := "";
    var pad := 0;
    var i := 0;
    assert data[0..] == data;
    while i < |data|
      invariant EncodedUpTo(data, i, pad, s)
    {
      var b, missing := ReadQuantum(data, i);
      EncodeAdvance(data, i, pad, s, b, missing);
      pad := pad + missing;
      s := AppendGroup(s, b, 4 - pad);
      i := i + 3;
    }
    s := s + Padding(pad);
  }

  /** One iteration of `encode`'s loop keeps `EncodedUpTo`. */
  lemma EncodeAdvance(data: seq<SByte>, i: nat, pad: nat, s: string, b: int, missing: nat)
    requires i < |data| && EncodedUpTo(data, i, pad, s)
    requires b == Quantum(data[i..]) && missing == Missing(|data| - i)
    ensures pad + missing <= 2
    ensures EncodedUpTo(data, i + 3, pad + missing, s + GroupChars(b, 4 - (pad + missing)))
  {
    var rest := data[i..];
    EncodeStep(rest, b, missing);
    var g := GroupChars(b, 4 - missing);
    if i + 3 <= |data| {
      assert rest[3..] == data[i + 3..];
      AppendAssoc(s, g, Encode(data[i + 3..]));
    } else {
      AppendAssoc(s, g, Padding(missing));
    }
  }

  lemma AppendAssoc(a: string, b: string, c: string)
    ensures a + (b + c) == (a + b) + c
  {
  }

  /** One iteration of `encode`'s loop, stated on the remaining data. */
  lemma EncodeStep(rest: seq<SByte>, b: int, pad: nat)
    requires |rest| >= 1
    requires pad == Missing(|rest|)
    requires b == Quantum(rest)
    ensures 3 <= |rest| ==> pad == 0 && Encode(rest) == GroupChars(b, 4) + Encode(rest[3..])
    ensures |rest| < 3 ==> 0 < pad <= 2 && Encode(rest) == GroupChars(b, 4 - pad) + Padding(pad)
  {
  }

  // ---------------------------------------------------------------- decode

  /** What slot `k` of a group adds: the 6-bit value of an alphabet
      character, or None for a position past the end or a character outside
      the alphabet, which adds zero bits and no output byte. */
  function Slot(bytes: seq<int>, k: nat): Result<Option<int>> {
    if k < |bytes| then
      var t :- Lookup(bytes[k]);
      Ok(if t == -1 then None else Some(t))
    else Ok(None)
  }

  function SlotValue(s: Option<int>): int {
    if s.Some? then s.value else 0
  }

  function SlotCount(s: Option<int>): nat {
    if s.Some? then 1 else 0
  }

  /** The output loop of `decode`: `num` bytes, each from bits 16..23 of the
      accumulator `b`, which is shifted left by eight after each one. */
  function Emit(b: int, num: nat): (out: seq<SByte>)
    ensures |out| == num
    decreases num
  {
    if num == 0 then [] else [ToSByte((b / 0x10000) % 256)] + Emit(b * 256, num - 1)
  }

  /** The number of alphabet characters in `s`. */
  function CountValid(s: seq<int>): (n: nat)
    ensures n <= |s|
    decreases |s|
  {
    if |s| == 0 then 0 else (if IsValid(s[0]) then 1 else 0) + CountValid(s[1..])
  }

  /** The three positions after a group's first character, cut at the end. */
  function Window(bytes: seq<int>): seq<int>
    requires |bytes| >= 1
  {
    if |bytes| <= 4 then bytes[1..] else bytes[1..4]
  }

  /** The bytes `decode` emits for one group whose first character has the
      6-bit value `t0`. */
  function Group(bytes: seq<int>, t0: int): Result<seq<SByte>>
    requires |bytes| >= 1
  {
    var s1 :- Slot(bytes, 1);
    var s2 :- Slot(bytes, 2);
    var s3 :- Slot(bytes, 3);
    var b := t0 * 0x40000 + SlotValue(s1) * 0x1000 + SlotValue(s2) * 0x40 + SlotValue(s3);
    Ok(Emit(b, SlotCount(s1) + SlotCount(s2) + SlotCount(s3)))
  }

  /** A group fails exactly when one of the three positions after its first
      character is outside the table, and otherwise emits one byte per
      alphabet character among them: an invalid character inside a group is
      not skipped, it only adds no byte. */
  lemma GroupCount(bytes: seq<int>, t0: int)
    requires |bytes| >= 1
    ensures Group(bytes, t0).Ok? <==> forall k :: 0 <= k < |Window(bytes)| ==> InTable(Window(bytes)[k])
    ensures Group(bytes, t0).Ok? ==> |Group(bytes, t0).value| == CountValid(Window(bytes))
  {
    var w := Window(bytes);
    assert |w| <= 3;
    assert forall k :: 0 <= k < |w| ==> w[k] == bytes[k + 1];
    if |w| >= 1 {
      var w1 := w[1..];
      assert CountValid(w) == (if IsValid(w[0]) then 1 else 0) + CountValid(w1);
      if |w1| >= 1 {
        var w2 := w1[1..];
        assert CountValid(w1) == (if IsValid(w1[0]) then 1 else 0) + CountValid(w2);
        if |w2| >= 1 {
          assert CountValid(w2) == (if IsValid(w2[0]) then 1 else 0) + CountValid(w2[1..]);
        }
      }
    }
  }

  /** `decode` on the bytes of the text: an invalid character where a group
      would start is skipped alone; a group started by a valid character
      always consumes four positions. */
  function DecodeBytes(bytes: seq<int>): (r: Result<seq<SByte>>)
    ensures r.Ok? <==> forall k :: 0 <= k < |bytes| ==> InTable(bytes[k])
    ensures r.Ok? ==> 4 * |r.value| <= 3 * |bytes|
    decreases |bytes|
  {
    if |bytes| == 0 then Ok([])
    else
      var t0 :- Lookup(bytes[0]);
      if t0 == -1 then DecodeBytes(bytes[1..])
      else
        GroupCount(bytes, t0);
        var group :- Group(bytes, t0);
        var rest :- DecodeBytes(if |bytes| <= 4 then [] else bytes[4..]);
        Ok(group + rest)
  }

  /** `decode(data)`: the text is first turned into bytes by `getBytes()`. */
  function Decode(data: string): Result<seq<SByte>> {
    DecodeBytes(GetBytes(data))
  }

  /** `bytes[i..]`, empty once the index has run past the end. */
  function Suffix(bytes: seq<int>, i: nat): seq<int> {
    if i >= |bytes| then [] else bytes[i..]
  }

  /** The output so far followed by the output of the rest of the input; an
      exception in the rest is the exception of the whole. */
  function Then(prefix: seq<SByte>, r: Result<seq<SByte>>): Result<seq<SByte>> {
    if r.Ok? then Ok(prefix + r.value) else r
  }

  /** The output loop of `decode`: append the top `num` bytes of `b`. */
  method AppendBytes(buffer: seq<SByte>, b: int, num: nat) returns (buffer': seq<SByte>)
    ensures buffer' == buffer + Emit(b, num)
  {
    buffer' := buffer;
    var acc := b;
    var n := num;
    while n > 0
      invariant buffer' + Emit(acc, n) == buffer + Emit(b, num)
    {
      buffer' := buffer' + [ToSByte((acc / 0x10000) % 256)];
      acc := acc * 256;
      n := n - 1;
    }
  }

  /** The body of `decode`'s loop for a group at `i` whose first character
      has the 6-bit value `t0`: the accumulator `b` and the count `num` of
      bytes to emit, or the exception a lookup throws. */
  method ReadGroup(bytes: seq<int>, i: nat, t0: int) returns (thrown: Option<Exception>, b: int, num: nat)
    requires i < |bytes|
    ensures thrown.Some? ==> Group(bytes[i..], t0) == Throws(thrown.value)
    ensures thrown.None? ==> Group(bytes[i..], t0) == Ok(Emit(b, num))
  {
    ghost var rest := bytes[i..];
    ghost var s1, s2, s3 := Slot(rest, 1), Slot(rest, 2), Slot(rest, 3);
    b := t0 * 0x40000;
    num := 0;
    if i + 1 < |bytes| {
      var t := Lookup(bytes[i + 1]);
      assert rest[1] == bytes[i + 1];
      if t.Throws? {
        return Some(t.exception), b, num;
      }
      if t.value != -1 {
        b := b + t.value * 0x1000;
        num := num + 1;
      }
    }
    assert s1.Ok? && b == t0 * 0x40000 + SlotValue(s1.value) * 0x1000 && num == SlotCount(s1.value);
    if i + 2 < |bytes| {
      var t := Lookup(bytes[i + 2]);
      assert rest[2] == bytes[i + 2];
      if t.Throws? {
        return Some(t.exception), b, num;
      }
      if t.value != -1 {
        b := b + t.value * 0x40;
        num := num + 1;
      }
    }
    assert s2.Ok? && b == t0 * 0x40000 + SlotValue(s1.value) * 0x1000 + SlotValue(s2.value) * 0x40;
    assert num == SlotCount(s1.value) + SlotCount(s2.value);
    if i + 3 < |bytes| {
      var t := Lookup(bytes[i + 3]);
      assert rest[3] == bytes[i + 3];
      if t.Throws? {
        return Some(t.exception), b, num;
      }
      if t.value != -1 {
        b := b + t.value;
        num := num + 1;
      }
    }
    thrown := None;
  }

  /** One step of `decode`, as the loop takes it. */
  lemma DecodeStep(rest: seq<int>)
    requires |rest| > 0
    ensures Lookup(rest[0]).Throws? ==> DecodeBytes(rest) == Throws(Lookup(rest[0]).exception)
    ensures Lookup(rest[0]) == Ok(-1) ==> DecodeBytes(rest) == DecodeBytes(rest[1..])
    ensures Lookup(rest[0]).Ok? && Lookup(rest[0]).value != -1 ==>
      var g := Group(rest, Lookup(rest[0]).value);
      DecodeBytes(rest) == if g.Throws? then Throws(g.exception)
                           else Then(g.value, DecodeBytes(if |rest| <= 4 then [] else rest[4..]))
  {
  }

  /** A character outside the alphabet where a group would start moves the
      index by one and adds nothing. */
  lemma DecodeSkipStep(bytes: seq<int>, i: nat)
    requires i < |bytes| && Lookup(bytes[i]) == Ok(-1)
    ensures DecodeBytes(Suffix(bytes, i)) == DecodeBytes(Suffix(bytes, i + 1))
  {
    DecodeStep(bytes[i..]);
    assert bytes[i..][1..] == Suffix(bytes, i + 1);
  }

  /** A group at `i` adds its bytes and moves the index by four. */
  lemma DecodeGroupStep(bytes: seq<int>, i: nat, t0: int, b: int, num: nat)
    requires i < |bytes| && Lookup(bytes[i]) == Ok(t0) && t0 != -1
    requires Group(bytes[i..], t0) == Ok(Emit(b, num))
    ensures DecodeBytes(Suffix(bytes, i)) == Then(Emit(b, num), DecodeBytes(Suffix(bytes, i + 4)))
  {
    var rest := bytes[i..];
    DecodeStep(rest);
    assert Suffix(bytes, i + 4) == (if |rest| <= 4 then [] else rest[4..]);
  }

  /** A lookup that throws at `i`, for the group's first character or for
      one of the three after it, is the exception of the whole decoding. */
  lemma DecodeThrowStep(bytes: seq<int>, i: nat, e: Exception)
    requires i < |bytes|
    requires || Lookup(bytes[i]) == Throws(e)
             || (Lookup(bytes[i]).Ok? && Lookup(bytes[i]).value != -1
                 && Group(bytes[i..], Lookup(bytes[i]).value) == Throws(e))
    ensures DecodeBytes(Suffix(bytes, i)) == Throws(e)
  {
    DecodeStep(bytes[i..]);
  }

  /** Output appended in two steps is output appended in one. */
  lemma ThenAppend(a: seq<SByte>, b: seq<SByte>, r: Result<seq<SByte>>)
    ensures Then(a, Then(b, r)) == Then(a + b, r)
  {
    if r.Ok? {
      assert a + (b + r.value) == (a + b) + r.value;
    }
  }

  /** `decode` as the Java writes it: one index over the bytes of the text,
      moved by one over a character outside the alphabet where a group would
      start, and by four over a group. */
  method DecodeLoop(data: string) returns (r: Result<seq<SByte>>)
    ensures r == Decode(data)
  {
    var bytes := GetBytes(data);
    var buffer: seq<SByte> := [];
    var i := 0;
    assert Suffix(bytes, 0) == bytes;
    ThenAppend([], [], DecodeBytes(bytes));
    assert Then([], DecodeBytes(bytes)) == DecodeBytes(bytes) by {
      if DecodeBytes(bytes).Ok? {
        assert [] + DecodeBytes(bytes).value == DecodeBytes(bytes).value;
      }
    }
    while i < |bytes|
      invariant DecodeBytes(bytes) == Then(buffer, DecodeBytes(Suffix(bytes, i)))
    {
      var first := Lookup(bytes[i]);
      if first.Throws? {
        DecodeThrowStep(bytes, i, first.exception);
        return Throws(first.exception);
      }
      if first.value == -1 {
        DecodeSkipStep(bytes, i);
        i := i + 1;
        continue;
      }
      var thrown, b, num := ReadGroup(bytes, i, first.value);
      if thrown.Some? {
        DecodeThrowStep(bytes, i, thrown.value);
        return Throws(thrown.value);
      }
      DecodeGroupStep(bytes, i, first.value, b, num);
      ThenAppend(buffer, Emit(b, num), DecodeBytes(Suffix(bytes, i + 4)));
      buffer := AppendBytes(buffer, b, num);
      i := i + 4;
    }
    assert Suffix(bytes, i) == [];
    assert DecodeBytes([]) == Ok([]);
    assert buffer + [] == buffer;
    r := Ok(buffer);
  }
}
