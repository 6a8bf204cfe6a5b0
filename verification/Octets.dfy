/** Bytes. */
module Octets {

  type Octet = b: int | 0 <= b < 256

  const LF: Octet := 10
  const CR: Octet := 13

  /** The bytes of an ASCII string. */
  function Ascii(s: string): seq<Octet>
    requires forall i :: 0 <= i < |s| ==> s[i] as int < 128
  {
    seq(|s|, i requires 0 <= i < |s| => s[i] as int)
  }

  // ---- UTF-8, by the table of section 4 of RFC 3629 ----

  predicate Continues(s: seq<Octet>, i: nat, low: int, high: int) {
    i < |s| && low <= s[i] <= high
  }

  /** The length of the character that `s` starts with, or 0 if it starts with none. */
  function CharLength(s: seq<Octet>): (n: nat)
    ensures n <= |s|
  {
    if s == [] then 0
    else if s[0] < 0x80 then 1
    else if 0xC2 <= s[0] <= 0xDF then if Continues(s, 1, 0x80, 0xBF) then 2 else 0
    else if 0xE0 <= s[0] <= 0xEF then
      var low := if s[0] == 0xE0 then 0xA0 else 0x80;
      var high := if s[0] == 0xED then 0x9F else 0xBF;
      if Continues(s, 1, low, high) && Continues(s, 2, 0x80, 0xBF) then 3 else 0
    else if 0xF0 <= s[0] <= 0xF4 then
      var low := if s[0] == 0xF0 then 0x90 else 0x80;
      var high := if s[0] == 0xF4 then 0x8F else 0xBF;
      if Continues(s, 1, low, high) && Continues(s, 2, 0x80, 0xBF) && Continues(s, 3, 0x80, 0xBF) then 4 else 0
    else 0
  }

  predicate IsUtf8(s: seq<Octet>)
    decreases |s|
  {
    s == [] || (CharLength(s) > 0 && IsUtf8(s[CharLength(s)..]))
  }

  /** `is_char_boundary`: slicing a string elsewhere panics. */
  predicate IsBoundary(s: seq<Octet>, i: nat)
    requires i <= |s|
  {
    i == 0 || i == |s| || !(0x80 <= s[i] < 0xC0)
  }

  /** A text can be cut exactly where what is in front of the cut is a text. */
  lemma {:induction false} BoundaryIff(s: seq<Octet>, i: nat)
    requires IsUtf8(s) && i <= |s|
    ensures IsBoundary(s, i) <==> IsUtf8(s[..i])
    decreases |s|
  {
    var n := CharLength(s);
    if 0 < i < n {
      assert 0x80 <= s[i] <= 0xBF;
      assert CharLength(s[..i]) == 0;
    } else if i > 0 {
      var t := s[n..];
      BoundaryIff(t, i - n);
      assert CharLength(s[..i]) == n;
      assert s[..i][n..] == t[..i - n];
    }
  }
}
