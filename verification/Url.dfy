/** Percent-encoding of cpputil/hurl.cpp (section 2.1 of RFC 3986), with '+' for a space when decoding. */
module Url {
  import Varint

  type Byte = Varint.Byte
  type Str = seq<Byte>

  const PERCENT: Byte := 37
  const PLUS: Byte := 43
  const SPACE: Byte := 32

  predicate IsDigit(c: Byte) { 48 <= c <= 57 }
  predicate IsAlpha(c: Byte) { 97 <= c <= 122 || 65 <= c <= 90 }
  predicate IsHex(c: Byte) { IsDigit(c) || 97 <= c <= 102 || 65 <= c <= 70 }

  /** is_unambiguous: letters, digits, '-', '_', '.' and '~'. */
  predicate Unambiguous(c: Byte) { IsAlpha(c) || IsDigit(c) || c == 45 || c == 95 || c == 46 || c == 126 }

  predicate NoNul(s: Str) { 0 !in s }

  function Digit(n: nat): (c: Byte)
    requires n < 16
    ensures IsHex(c) && HexValue(c) == n
  {
    if n < 10 then 48 + n else 55 + n
  }

  /** hex2i. */
  function HexValue(c: Byte): nat
    requires IsHex(c)
  {
    if c <= 57 then c - 48 else if c <= 70 then c - 55 else c - 87
  }

  function EscapedByte(c: Byte, keep: Str): Str {
    if Unambiguous(c) || c in keep then [c] else [PERCENT, Digit(c / 16), Digit(c % 16)]
  }

  /** What escape makes of a string; it ends at a NUL. */
  function Escaped(s: Str, keep: Str): Str {
    if s == [] || s[0] == 0 then [] else EscapedByte(s[0], keep) + Escaped(s[1..], keep)
  }

  predicate Encoded(s: Str) { |s| >= 3 && s[0] == PERCENT && IsHex(s[1]) && IsHex(s[2]) }

  /** What unescape makes of a string. */
  function Unescaped(s: Str): Str {
    if s == [] || s[0] == 0 then []
    else if Encoded(s) then [HexValue(s[1]) * 16 + HexValue(s[2])] + Unescaped(s[3..])
    else [if s[0] == PLUS then SPACE else s[0]] + Unescaped(s[1..])
  }

  /** HUrl::escape. */
  method Escape(s: Str, keep: Str) returns (o: Str)
    ensures o == Escaped(s, keep)
  {
    o := [];
    var p := 0;
    while p < |s| && s[p] != 0
      invariant 0 <= p <= |s| && Escaped(s, keep) == o + Escaped(s[p..], keep)
      decreases |s| - p
    {
      assert s[p..][1..] == s[p + 1..];
      Regroup(o, EscapedByte(s[p], keep), Escaped(s[p + 1..], keep));
      if Unambiguous(s[p]) || s[p] in keep {
        o := o + [s[p]];
      } else {
        o := o + [PERCENT, Digit(s[p] / 16), Digit(s[p] % 16)];
      }
      p := p + 1;
    }
    assert o + [] == o;
  }

  /** HUrl::unescape. */
  method Unescape(s: Str) returns (o: Str)
    ensures o == Unescaped(s)
  {
    o := [];
    var p := 0;
    while p < |s| && s[p] != 0
      invariant 0 <= p <= |s| && Unescaped(s) == o + Unescaped(s[p..])
      decreases |s| - p
    {
      if p + 2 < |s| && s[p] == PERCENT && IsHex(s[p + 1]) && IsHex(s[p + 2]) {
        assert s[p..][3..] == s[p + 3..] && Encoded(s[p..]);
        Regroup(o, [HexValue(s[p + 1]) * 16 + HexValue(s[p + 2])], Unescaped(s[p + 3..]));
        o := o + [HexValue(s[p + 1]) * 16 + HexValue(s[p + 2])];
        p := p + 3;
      } else {
        assert s[p..][1..] == s[p + 1..] && !Encoded(s[p..]);
        Regroup(o, [if s[p] == PLUS then SPACE else s[p]], Unescaped(s[p + 1..]));
        o := o + [if s[p] == PLUS then SPACE else s[p]];
        p := p + 1;
      }
    }
    assert o + [] == o;
  }

  lemma Regroup(a: Str, b: Str, c: Str)
    ensures a + (b + c) == (a + b) + c
  {
  }

  /** Decoding gives back what was encoded. */
  lemma {:induction false} UnescapeEscaped(s: Str, keep: Str)
    requires NoNul(s) && PERCENT !in keep && PLUS !in keep
    ensures Unescaped(Escaped(s, keep)) == s
  {
    if s != [] {
      UnescapeEscaped(s[1..], keep);
      var e, rest := EscapedByte(s[0], keep), Escaped(s[1..], keep);
      assert s[0] != 0 && s == [s[0]] + s[1..];
      if Unambiguous(s[0]) || s[0] in keep {
        assert (e + rest)[1..] == rest;
      } else {
        assert (e + rest)[3..] == rest && Encoded(e + rest);
      }
    }
  }

  /** The characters to keep spoil decoding for some string exactly when they hold a '%' or a '+'. */
  lemma KeepIff(keep: Str)
    ensures (forall s | NoNul(s) :: Unescaped(Escaped(s, keep)) == s) <==> PERCENT !in keep && PLUS !in keep
  {
    if PERCENT !in keep && PLUS !in keep {
      forall s | NoNul(s) ensures Unescaped(Escaped(s, keep)) == s { UnescapeEscaped(s, keep); }
    } else if PLUS in keep {
      var s: Str := [PLUS];
      assert Escaped(s, keep) == [PLUS] + Escaped(s[1..], keep) == [PLUS];
      assert Unescaped([PLUS]) == [SPACE] + Unescaped([PLUS][1..]) == [SPACE];
      assert NoNul(s) && Unescaped(Escaped(s, keep)) != s;
    } else {
      var s: Str := [PERCENT, 52, 49];
      Kept(s, keep);
      assert Unescaped(s) == [65] + Unescaped(s[3..]) == [65];
      assert NoNul(s) && Unescaped(Escaped(s, keep)) != s;
    }
  }

  lemma {:induction false} Kept(s: Str, keep: Str)
    requires NoNul(s) && forall c :: c in s ==> Unambiguous(c) || c in keep
    ensures Escaped(s, keep) == s
  {
    if s != [] {
      Kept(s[1..], keep);
      assert s[0] in s && s == [s[0]] + s[1..];
    }
  }

  /** Encoded text holds letters, digits, '-', '_', '.', '~' and '%' only. */
  lemma {:induction false} EscapedClean(s: Str)
    ensures forall c :: c in Escaped(s, []) ==> Unambiguous(c) || c == PERCENT
    ensures s != [] && NoNul(s) ==> Escaped(s, []) != []
  {
    if s != [] && s[0] != 0 {
      EscapedClean(s[1..]);
      assert forall n: nat :: n < 16 ==> Unambiguous(Digit(n));
    }
  }
}
