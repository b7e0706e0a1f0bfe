/** Byte-limited truncation of UTF-8 text (notifier.go). */
module Utf8Text {

  newtype byte = b: int | 0 <= b < 0x100

  predicate IsTail(b: byte) { 0x80 <= b <= 0xBF }

  /** Length of the well-formed sequence at the head of `s` by the grammar of section 4 of RFC 3629, or 0. */
  function SequenceLength(s: seq<byte>): (n: nat)
    ensures n <= |s|
  {
    if |s| >= 1 && s[0] <= 0x7F then 1
    else if |s| >= 2 && 0xC2 <= s[0] <= 0xDF && IsTail(s[1]) then 2
    else if |s| >= 3 && 0xE0 <= s[0] <= 0xEF && IsTail(s[1]) && IsTail(s[2])
            && (s[0] == 0xE0 ==> 0xA0 <= s[1]) && (s[0] == 0xED ==> s[1] <= 0x9F) then 3
    else if |s| >= 4 && 0xF0 <= s[0] <= 0xF4 && IsTail(s[1]) && IsTail(s[2]) && IsTail(s[3])
            && (s[0] == 0xF0 ==> 0x90 <= s[1]) && (s[0] == 0xF4 ==> s[1] <= 0x8F) then 4
    else 0
  }

  /** How far a range loop advances over the head of `s`: an ill-formed byte is one rune of width 1. */
  function RuneWidth(s: seq<byte>): (n: nat)
    ensures s != [] ==> 1 <= n <= |s|
  {
    if SequenceLength(s) == 0 then 1 else SequenceLength(s)
  }

  /** Steps of the given widths from the head of `s` land on `k`. */
  ghost predicate Reaches(width: seq<byte> -> nat, s: seq<byte>, k: nat)
    decreases |s|
  {
    k == 0 || (s != [] && 1 <= width(s) <= |s| && width(s) <= k && Reaches(width, s[width(s)..], k - width(s)))
  }

  /** `k` is an index a range loop over `s` visits, or the end of `s`. */
  ghost predicate IsBoundary(s: seq<byte>, k: nat) {
    Reaches(RuneWidth, s, k)
  }

  ghost predicate WellFormed(s: seq<byte>)
    decreases |s|
  {
    s == [] || (SequenceLength(s) > 0 && WellFormed(s[SequenceLength(s)..]))
  }

  // ----- well-formed text is encoded text

  /** The code points that have an encoding: all but the surrogates. */
  predicate IsScalar(c: nat) { c <= 0xD7FF || 0xE000 <= c <= 0x10FFFF }

  /** `c` in UTF-8, by the table of section 3 of RFC 3629. */
  function Encoded(c: nat): seq<byte>
    requires IsScalar(c)
  {
    if c <= 0x7F then [c as byte]
    else if c <= 0x7FF then [(0xC0 + c / 0x40) as byte, (0x80 + c % 0x40) as byte]
    else if c <= 0xFFFF then
      [(0xE0 + c / 0x1000) as byte, (0x80 + c / 0x40 % 0x40) as byte, (0x80 + c % 0x40) as byte]
    else
      [(0xF0 + c / 0x4_0000) as byte, (0x80 + c / 0x1000 % 0x40) as byte, (0x80 + c / 0x40 % 0x40) as byte,
       (0x80 + c % 0x40) as byte]
  }

  function EncodedAll(text: seq<nat>): seq<byte>
    requires forall i :: 0 <= i < |text| ==> IsScalar(text[i])
  {
    if text == [] then [] else Encoded(text[0]) + EncodedAll(text[1..])
  }

  /** The first bytes never leave the ranges of the grammar. */
  lemma EncodedRanges(c: nat)
    requires IsScalar(c)
    ensures 0x80 <= c <= 0x7FF ==> 2 <= c / 0x40 <= 0x1F
    ensures 0x800 <= c <= 0xFFFF ==>
              var a, b := c / 0x1000, c / 0x40 % 0x40; a <= 0xF && (a == 0 ==> b >= 0x20) && (a == 0xD ==> b <= 0x1F)
    ensures 0x1_0000 <= c ==>
              var a, b := c / 0x4_0000, c / 0x1000 % 0x40; a <= 4 && (a == 0 ==> b >= 0x10) && (a == 4 ==> b <= 0xF)
  {
  }

  lemma SameHead(s: seq<byte>, rest: seq<byte>)
    ensures SequenceLength(s) > 0 ==> SequenceLength(s + rest) == SequenceLength(s)
  {
  }

  lemma EncodedIsRead(c: nat, rest: seq<byte>)
    requires IsScalar(c)
    ensures SequenceLength(Encoded(c) + rest) == |Encoded(c)| && Encoded(c) != []
  {
    EncodedRanges(c);
    assert SequenceLength(Encoded(c)) == |Encoded(c)|;
    SameHead(Encoded(c), rest);
  }

  /** Six bits at a time. */
  lemma Sextets(a: nat, b: nat, c: nat, d: nat)
    requires b < 0x40 && c < 0x40 && d < 0x40
    ensures var n := a * 0x4_0000 + b * 0x1000 + c * 0x40 + d;
            n / 0x4_0000 == a && n / 0x1000 % 0x40 == b && n / 0x40 % 0x40 == c && n % 0x40 == d
            && n / 0x1000 == a * 0x40 + b && n / 0x40 == a * 0x1000 + b * 0x40 + c
  {
  }

  lemma PairIsEncoded(s: seq<byte>) returns (c: nat)
    requires SequenceLength(s) == 2
    ensures IsScalar(c) && s[..2] == Encoded(c)
  {
    var x, y := s[0] as nat - 0xC0, s[1] as nat - 0x80;
    c := x * 0x40 + y;
    Sextets(0, 0, x, y);
    assert s[..2] == [s[0], s[1]];
  }

  lemma TripleIsEncoded(s: seq<byte>) returns (c: nat)
    requires SequenceLength(s) == 3
    ensures IsScalar(c) && s[..3] == Encoded(c)
  {
    var x, y, z := s[0] as nat - 0xE0, s[1] as nat - 0x80, s[2] as nat - 0x80;
    c := x * 0x1000 + y * 0x40 + z;
    Sextets(0, x, y, z);
    assert s[..3] == [s[0], s[1], s[2]];
  }

  lemma QuadrupleIsEncoded(s: seq<byte>) returns (c: nat)
    requires SequenceLength(s) == 4
    ensures IsScalar(c) && s[..4] == Encoded(c)
  {
    var w, x, y, z := s[0] as nat - 0xF0, s[1] as nat - 0x80, s[2] as nat - 0x80, s[3] as nat - 0x80;
    c := w * 0x4_0000 + x * 0x1000 + y * 0x40 + z;
    Sextets(w, x, y, z);
    assert s[..4] == [s[0], s[1], s[2], s[3]];
  }

  /** The code point at the head of `s`. */
  lemma HeadIsEncoded(s: seq<byte>) returns (c: nat)
    requires SequenceLength(s) > 0
    ensures IsScalar(c) && s[..SequenceLength(s)] == Encoded(c)
  {
    var n := SequenceLength(s);
    if n == 1 {
      c := s[0] as nat;
    } else if n == 2 {
      c := PairIsEncoded(s);
    } else if n == 3 {
      c := TripleIsEncoded(s);
    } else {
      c := QuadrupleIsEncoded(s);
    }
  }

  /** A range loop advances over one encoded code point, or over one byte where none is encoded. */
  lemma RuneWidths(s: seq<byte>, c: nat)
    requires s != [] && IsScalar(c)
    ensures Encoded(c) <= s ==> RuneWidth(s) == |Encoded(c)|
    ensures RuneWidth(s) == 1 || exists d :: IsScalar(d) && Encoded(d) <= s && RuneWidth(s) == |Encoded(d)|
  {
    if Encoded(c) <= s {
      assert s == Encoded(c) + s[|Encoded(c)|..];
      EncodedIsRead(c, s[|Encoded(c)|..]);
    }
    if SequenceLength(s) > 0 {
      var d := HeadIsEncoded(s);
      assert Encoded(d) == s[..|Encoded(d)|];
    }
  }

  lemma {:induction false} EncodedIsWellFormed(text: seq<nat>)
    requires forall i :: 0 <= i < |text| ==> IsScalar(text[i])
    ensures WellFormed(EncodedAll(text))
  {
    if text == [] {
    } else {
      EncodedIsRead(text[0], EncodedAll(text[1..]));
      EncodedIsWellFormed(text[1..]);
    }
  }

  lemma {:induction false} WellFormedIsEncoded(s: seq<byte>) returns (text: seq<nat>)
    requires WellFormed(s)
    ensures forall i :: 0 <= i < |text| ==> IsScalar(text[i])
    ensures EncodedAll(text) == s
    decreases |s|
  {
    text := [];
    if s == [] {
    } else {
      var c := HeadIsEncoded(s);
      var rest := WellFormedIsEncoded(s[SequenceLength(s)..]);
      text := [c] + rest;
    }
  }

  /** One step after a place that is reached comes another one... */
  lemma {:induction false} NextReached(width: seq<byte> -> nat, s: seq<byte>, i: nat)
    requires i < |s| && Reaches(width, s, i) && 1 <= width(s[i..]) <= |s| - i
    ensures Reaches(width, s, i + width(s[i..]))
    decreases |s|
  {
    var w := width(s);
    if i == 0 {
      assert s[i..] == s;
      assert Reaches(width, s[w..], 0);
    } else {
      assert s[w..][i - w..] == s[i..];
      NextReached(width, s[w..], i - w);
    }
  }

  /** ... and none is reached in between. */
  lemma {:induction false} NoneReachedWithin(width: seq<byte> -> nat, s: seq<byte>, i: nat, k: nat)
    requires i < |s| && i < k && Reaches(width, s, i) && Reaches(width, s, k)
    ensures i + width(s[i..]) <= k
    decreases |s|
  {
    var w := width(s);
    if i == 0 {
      assert s[i..] == s;
    } else {
      assert s[w..][i - w..] == s[i..];
      NoneReachedWithin(width, s[w..], i - w, k - w);
    }
  }

  lemma {:induction false} BoundaryInRange(s: seq<byte>, k: nat)
    requires IsBoundary(s, k)
    ensures k <= |s|
    decreases |s|
  {
    if k != 0 {
      BoundaryInRange(s[RuneWidth(s)..], k - RuneWidth(s));
    }
  }

  lemma {:induction false} EndIsBoundary(s: seq<byte>)
    ensures IsBoundary(s, |s|)
    decreases |s|
  {
    if s == [] {
    } else {
      EndIsBoundary(s[RuneWidth(s)..]);
    }
  }

  /** A sequence that is complete within a prefix reads the same there, and the other way round. */
  lemma SequenceInPrefix(s: seq<byte>, k: nat)
    requires k <= |s|
    ensures SequenceLength(s) <= k ==> SequenceLength(s[..k]) == SequenceLength(s)
    ensures SequenceLength(s[..k]) > 0 ==> SequenceLength(s[..k]) == SequenceLength(s)
  {
  }

  /** In well-formed text the well-formed prefixes are exactly the prefixes that end on a rune boundary. */
  lemma {:induction false} WellFormedPrefixes(s: seq<byte>, k: nat)
    requires WellFormed(s) && k <= |s|
    ensures WellFormed(s[..k]) <==> IsBoundary(s, k)
    decreases |s|
  {
    if k != 0 {
      var w := SequenceLength(s);
      SequenceInPrefix(s, k);
      if w <= k {
        WellFormedPrefixes(s[w..], k - w);
        assert s[..k][w..] == s[w..][..k - w];
      }
    }
  }

  /** The longest prefix of at most `maxBytes` bytes that ends on a rune boundary. */
  method TruncateUTF8(value: seq<byte>, maxBytes: int) returns (r: seq<byte>)
    ensures |value| <= maxBytes ==> r == value
    ensures r <= value && IsBoundary(value, |r|)
    ensures |r| <= maxBytes || r == []
    ensures forall k: nat :: k <= maxBytes && IsBoundary(value, k) ==> k <= |r|
    ensures WellFormed(value) ==> WellFormed(r)
    ensures WellFormed(value) ==>
              forall k: nat :: k <= maxBytes && k <= |value| && WellFormed(value[..k]) ==> k <= |r|
  {
    if WellFormed(value) {
      forall k: nat | k <= |value| ensures WellFormed(value[..k]) <==> IsBoundary(value, k) {
        WellFormedPrefixes(value, k);
      }
    }
    if |value| <= maxBytes {
      EndIsBoundary(value);
      forall k: nat | IsBoundary(value, k) ensures k <= |value| { BoundaryInRange(value, k); }
      return value;
    }
    var lastBoundary, index := 0, 0;
    while index < |value|
      invariant 0 <= lastBoundary <= index <= |value|
      invariant lastBoundary <= maxBytes || lastBoundary == 0
      invariant IsBoundary(value, index) && IsBoundary(value, lastBoundary)
      invariant forall k: nat :: k < index && IsBoundary(value, k) ==> k <= lastBoundary
    {
      if index > maxBytes {
        return value[..lastBoundary];
      }
      NextReached(RuneWidth, value, index);
      forall k: nat | index < k && IsBoundary(value, k) ensures index + RuneWidth(value[index..]) <= k {
        NoneReachedWithin(RuneWidth, value, index, k);
      }
      lastBoundary := index;
      index := index + RuneWidth(value[index..]);
    }
    return value[..lastBoundary];
  }
}
