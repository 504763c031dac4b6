/**
 The `java.lang.String` operations LeScanResult calls: `getBytes()`,
 `split("#")`, `contains("#")` and `startsWith(prefix)`.
 */
module JavaStrings {
  import opened JavaLang

  predicate IsAscii(c: char) {
    c as int < 128
  }

  /** The bytes of one character under UTF-8, Android's default charset, as
      signed Java bytes: a lead byte `0xC0 + q`, `0xE0 + q` or `0xF0 + q`
      reads as `q - 0x40`, `q - 0x20` or `q - 0x10`, and a continuation byte
      `0x80 + v` reads as `v - 0x80`. An ASCII character is one non-negative
      byte; every byte of any other character has its top bit set and so is
      negative. */
  function Utf8(c: char): (r: seq<SByte>)
    ensures 1 <= |r| <= 4
    ensures IsAscii(c) ==> r == [c as int]
    ensures !IsAscii(c) ==> forall k :: 0 <= k < |r| ==> r[k] < 0
  {
    var x := c as int;
    if x < 0x80 then [x]
    else if x < 0x800 then
      [x / 0x40 - 0x40, x % 0x40 - 0x80]
    else if x < 0x10000 then
      [x / 0x1000 - 0x20, (x / 0x40) % 0x40 - 0x80, x % 0x40 - 0x80]
    else
      [x / 0x40000 - 0x10, (x / 0x1000) % 0x40 - 0x80, (x / 0x40) % 0x40 - 0x80, x % 0x40 - 0x80]
  }

  /** `s.getBytes()`. */
  function GetBytes(s: string): seq<SByte>
    decreases |s|
  {
    if |s| == 0 then [] else Utf8(s[0]) + GetBytes(s[1..])
  }

  /** Encoding a concatenation encodes each part. */
  lemma {:induction false} GetBytesAppend(a: string, b: string)
    ensures GetBytes(a + b) == GetBytes(a) + GetBytes(b)
    decreases |a|
  {
    if |a| == 0 {
      assert a + b == b;
    } else {
      assert (a + b)[1..] == a[1..] + b;
      GetBytesAppend(a[1..], b);
    }
  }

  /** An ASCII string encodes to its character codes, one byte each. */
  lemma {:induction false} GetBytesAscii(s: string)
    requires forall k :: 0 <= k < |s| ==> IsAscii(s[k])
    ensures |GetBytes(s)| == |s|
    ensures forall k :: 0 <= k < |s| ==> GetBytes(s)[k] == s[k] as int
    decreases |s|
  {
    if |s| > 0 {
      GetBytesAscii(s[1..]);
    }
  }

  /** `getBytes()` yields a negative byte exactly when the string holds a
      non-ASCII character. */
  lemma {:induction false} GetBytesNonNegative(s: string)
    ensures (forall k :: 0 <= k < |GetBytes(s)| ==> GetBytes(s)[k] >= 0)
        <==> (forall k :: 0 <= k < |s| ==> IsAscii(s[k]))
    decreases |s|
  {
    if |s| > 0 {
      GetBytesNonNegative(s[1..]);
      var head, tail := Utf8(s[0]), GetBytes(s[1..]);
      assert GetBytes(s) == head + tail;
      if forall k :: 0 <= k < |s| ==> IsAscii(s[k]) {
        assert forall k :: 0 <= k < |s[1..]| ==> IsAscii(s[1..][k]) by {
          forall k | 0 <= k < |s[1..]| ensures IsAscii(s[1..][k]) {
            assert s[1..][k] == s[k + 1];
          }
        }
      } else {
        var k :| 0 <= k < |s| && !IsAscii(s[k]);
        if k == 0 {
          assert GetBytes(s)[0] == head[0] < 0;
        } else {
          assert s[1..][k - 1] == s[k];
          var j :| 0 <= j < |tail| && tail[j] < 0;
          assert GetBytes(s)[|head| + j] == tail[j];
        }
      }
    }
  }

  /** `s.startsWith(prefix)`. */
  predicate StartsWith(s: string, prefix: string) {
    |prefix| <= |s| && s[..|prefix|] == prefix
  }

  /** `s.indexOf(c)`, with `|s|` standing for "absent". */
  function IndexOf(s: string, c: char): (k: nat)
    ensures k <= |s|
    ensures k < |s| ==> s[k] == c
    ensures forall j :: 0 <= j < k ==> s[j] != c
    decreases |s|
  {
    if |s| == 0 then 0
    else if s[0] == c then 0
    else 1 + IndexOf(s[1..], c)
  }

  /** The pieces of `s` between occurrences of `sep`, empty pieces included:
      one more piece than there are separators. */
  function Segments(s: string, sep: char): (parts: seq<string>)
    ensures |parts| >= 1
    decreases |s|
  {
    var k := IndexOf(s, sep);
    if k == |s| then [s] else [s[..k]] + Segments(s[k + 1..], sep)
  }

  /** No segment holds the separator. */
  lemma {:induction false} SegmentsOmitSeparator(s: string, sep: char)
    ensures forall i, j :: 0 <= i < |Segments(s, sep)| && 0 <= j < |Segments(s, sep)[i]| ==> Segments(s, sep)[i][j] != sep
    decreases |s|
  {
    var k := IndexOf(s, sep);
    var parts := Segments(s, sep);
    if k < |s| {
      var tail := Segments(s[k + 1..], sep);
      SegmentsOmitSeparator(s[k + 1..], sep);
      assert parts == [s[..k]] + tail;
      forall i, j | 0 <= i < |parts| && 0 <= j < |parts[i]| ensures parts[i][j] != sep {
        if i > 0 {
          assert parts[i] == tail[i - 1];
        }
      }
    }
  }

  /** Joins pieces with a separator between consecutive ones. */
  function Join(parts: seq<string>, sep: char): string
    requires |parts| >= 1
    decreases |parts|
  {
    if |parts| == 1 then parts[0] else parts[0] + [sep] + Join(parts[1..], sep)
  }

  /** `indexOf` finds a character exactly when the string contains it. */
  lemma IndexOfFound(s: string, c: char)
    ensures IndexOf(s, c) < |s| <==> c in s
  {
    var k := IndexOf(s, c);
    if c in s {
      var j :| 0 <= j < |s| && s[j] == c;
      assert j >= k;
    }
  }

  /** With a separator present, the first segment is the text before it and
      the rest are the segments of the text after it. */
  lemma SegmentsHead(s: string, sep: char)
    requires IndexOf(s, sep) < |s|
    ensures Segments(s, sep) == [s[..IndexOf(s, sep)]] + Segments(s[IndexOf(s, sep) + 1..], sep)
  {
  }

  /** The first segment is the text up to the first separator. */
  lemma SegmentsFirst(s: string, sep: char)
    ensures Segments(s, sep)[0] == s[..IndexOf(s, sep)]
  {
    if IndexOf(s, sep) == |s| {
      assert s[..|s|] == s;
    }
  }

  /** Joining the segments back with their separator restores the string. */
  lemma {:induction false} SegmentsJoin(s: string, sep: char)
    ensures Join(Segments(s, sep), sep) == s
    decreases |s|
  {
    var k := IndexOf(s, sep);
    if k < |s| {
      var rest := s[k + 1..];
      var parts, tail := Segments(s, sep), Segments(rest, sep);
      assert parts == [s[..k]] + tail;
      assert parts[1..] == tail;
      assert Join(parts, sep) == s[..k] + [sep] + Join(tail, sep);
      SegmentsJoin(rest, sep);
      assert s == s[..k] + [sep] + rest;
    } else {
      assert Segments(s, sep) == [s];
    }
  }

  /** The trailing empty strings removed, as `split` with limit 0 does: the
      result is a prefix of `parts`, does not end with an empty string, and
      only empty strings were removed. */
  function DropTrailingEmpty(parts: seq<string>): (r: seq<string>)
    ensures r <= parts
    ensures |r| == 0 || r[|r| - 1] != ""
    ensures forall k :: |r| <= k < |parts| ==> parts[k] == ""
    decreases |parts|
  {
    if |parts| == 0 then []
    else if parts[|parts| - 1] == "" then DropTrailingEmpty(parts[..|parts| - 1])
    else parts
  }

  /** `s.split(String.valueOf(sep))` for a separator that is not a regular
      expression metacharacter: with no match, the whole string; otherwise
      the segments with trailing empty ones removed. */
  function Split(s: string, sep: char): seq<string> {
    if sep !in s then [s] else DropTrailingEmpty(Segments(s, sep))
  }

  /** A non-empty piece survives `DropTrailingEmpty`, and so does every
      piece before it. */
  lemma DropTrailingEmptyKeeps(parts: seq<string>, i: nat)
    requires i < |parts| && parts[i] != ""
    ensures |DropTrailingEmpty(parts)| > i
  {
  }

  /** When only the first piece may be non-empty, at most one piece is
      left. */
  lemma DropTrailingEmptyShort(parts: seq<string>)
    requires forall i :: 1 <= i < |parts| ==> parts[i] == ""
    ensures |DropTrailingEmpty(parts)| <= 1
  {
  }

  /** Every piece is empty. */
  predicate AllEmpty(parts: seq<string>) {
    forall i :: 0 <= i < |parts| ==> parts[i] == ""
  }

  /** Every character is the separator. */
  predicate AllSeparators(s: string, sep: char) {
    forall j :: 0 <= j < |s| ==> s[j] == sep
  }

  /** A string has a non-empty segment exactly when it has a character other
      than the separator. */
  lemma {:induction false} SegmentsAllEmpty(s: string, sep: char)
    ensures AllEmpty(Segments(s, sep)) <==> AllSeparators(s, sep)
    decreases |s|
  {
    var k := IndexOf(s, sep);
    var parts := Segments(s, sep);
    if k == |s| {
      assert parts == [s];
      if |s| > 0 {
        assert s[0] != sep;
        assert parts[0] != "";
      }
    } else if k > 0 {
      assert parts == [s[..k]] + Segments(s[k + 1..], sep);
      assert s[0] != sep;
      assert parts[0] != "";
    } else {
      var rest := s[1..];
      var tail := Segments(rest, sep);
      SegmentsAllEmpty(rest, sep);
      assert parts == [""] + tail;
      if AllEmpty(parts) {
        forall i | 0 <= i < |tail| ensures tail[i] == "" {
          assert tail[i] == parts[i + 1];
        }
        forall j | 0 <= j < |s| ensures s[j] == sep {
          if j > 0 {
            assert s[j] == rest[j - 1];
          }
        }
      }
      if AllSeparators(s, sep) {
        forall j | 0 <= j < |rest| ensures rest[j] == sep {
          assert rest[j] == s[j + 1];
        }
        forall i | 0 <= i < |parts| ensures parts[i] == "" {
          if i > 0 {
            assert parts[i] == tail[i - 1];
          }
        }
      }
    }
  }

  /** After `DropTrailingEmpty`, a second piece is left exactly when some
      piece after the first is non-empty, and it is the second piece. */
  lemma DropTrailingSecond(parts: seq<string>)
    requires |parts| >= 1
    ensures |DropTrailingEmpty(parts)| >= 2 <==> !AllEmpty(parts[1..])
    ensures |DropTrailingEmpty(parts)| >= 2 ==> DropTrailingEmpty(parts)[1] == parts[1]
  {
    if AllEmpty(parts[1..]) {
      forall i | 1 <= i < |parts| ensures parts[i] == "" {
        assert parts[i] == parts[1..][i - 1];
      }
      DropTrailingEmptyShort(parts);
    } else {
      var i :| 0 <= i < |parts[1..]| && parts[1..][i] != "";
      assert parts[i + 1] != "";
      DropTrailingEmptyKeeps(parts, i + 1);
    }
  }

  /** `s.split(sep)[1]` exists exactly when some character after the first
      separator is not a separator, and it is then the text between the first
      separator and the next one (or the end of the string). */
  lemma SplitSecond(s: string, sep: char)
    requires sep in s
    ensures var after := s[IndexOf(s, sep) + 1..];
      && (|Split(s, sep)| >= 2 <==> !AllSeparators(after, sep))
      && (|Split(s, sep)| >= 2 ==> Split(s, sep)[1] == after[..IndexOf(after, sep)])
  {
    IndexOfFound(s, sep);
    SegmentsHead(s, sep);
    var after := s[IndexOf(s, sep) + 1..];
    var parts := Segments(s, sep);
    assert parts[1..] == Segments(after, sep);
    DropTrailingSecond(parts);
    SegmentsAllEmpty(after, sep);
    SegmentsFirst(after, sep);
  }
}
