/** Text on the wire: the byte strings a string field accepts are exactly the UTF-8 encodings
    of sequences of Unicode scalar values (section 3 of RFC 3629).
 */
module Utf8 {
  import opened Rounding
  import opened Varint
  import opened WireFormat

  /** A code point that is no surrogate. */
  predicate Scalar(c: nat) {
    c < 0xD800 || 0xE000 <= c < 0x110000
  }

  function EncodedScalar(c: nat): (s: seq<Byte>)
    requires Scalar(c)
    ensures s != []
  {
    if c < 0x80 then [c]
    else if c < 0x800 then [0xC0 + c / 64, 0x80 + c % 64]
    else if c < 0x10000 then [0xE0 + c / 4096, 0x80 + c / 64 % 64, 0x80 + c % 64]
    else [0xF0 + c / 262144, 0x80 + c / 4096 % 64, 0x80 + c / 64 % 64, 0x80 + c % 64]
  }

  function EncodedText(cs: seq<nat>): seq<Byte>
    requires forall i :: 0 <= i < |cs| ==> Scalar(cs[i])
  {
    if cs == [] then [] else EncodedScalar(cs[0]) + EncodedText(cs[1..])
  }

  lemma ScalarInFront(c: nat, rest: seq<Byte>)
    requires Scalar(c) && ValidUtf8(rest)
    ensures ValidUtf8(EncodedScalar(c) + rest)
  {
    var e := EncodedScalar(c);
    var s := e + rest;
    assert s[|e|..] == rest;
    hide ValidUtf8;
    HeadIsValid(c, e);
    ValidBehind(s, |e|);
  }

  /** The bytes of one scalar value, at the head of a text. */
  predicate ValidHead(s: seq<Byte>, n: nat) {
    && 1 <= n <= 4 && n <= |s|
    && (forall i :: 1 <= i < n ==> Tail(s[i]))
    && (n == 1 ==> s[0] <= 0x7F)
    && (n == 2 ==> 0xC2 <= s[0] <= 0xDF)
    && (n == 3 ==> 0xE0 <= s[0] <= 0xEF && (s[0] == 0xE0 ==> s[1] >= 0xA0) && (s[0] == 0xED ==> s[1] <= 0x9F))
    && (n == 4 ==> 0xF0 <= s[0] <= 0xF4 && (s[0] == 0xF0 ==> s[1] >= 0x90) && (s[0] == 0xF4 ==> s[1] <= 0x8F))
  }

  lemma HeadIsValid(c: nat, e: seq<Byte>)
    requires Scalar(c) && e == EncodedScalar(c)
    ensures ValidHead(e, |e|)
  {
    if 0x800 <= c < 0x10000 {
      MiddleDigit(c, 4096, c / 4096);
    } else if 0x10000 <= c {
      MiddleDigit(c / 64, 4096, c / 262144);
      Nested(c);
    }
  }

  /** The digit below a leading digit is the rest of the number, in units of 64. */
  lemma MiddleDigit(c: nat, unit: nat, lead: nat)
    requires unit == 4096 && lead == c / unit
    ensures c / 64 % 64 == (c - lead * unit) / 64
  {
    DivIs(c / 64, 64, lead, (c - lead * unit) / 64);
  }

  lemma Nested(c: nat)
    ensures c / 64 / 64 == c / 4096 && c / 64 / 4096 == c / 262144
  {
  }

  lemma ValidBehind(s: seq<Byte>, n: nat)
    requires n <= |s| && ValidHead(s[..n], n) && ValidUtf8(s[n..])
    ensures ValidUtf8(s)
  {
    assert forall i :: 0 <= i < n ==> s[..n][i] == s[i];
  }

  lemma SomeHead(s: seq<Byte>) returns (n: nat)
    requires s != [] && ValidUtf8(s)
    ensures n <= |s| && ValidHead(s, n) && ValidUtf8(s[n..])
  {
    if s[0] <= 0x7F {
      n := 1;
    } else if s[0] <= 0xDF {
      n := 2;
    } else if s[0] <= 0xEF {
      n := 3;
    } else {
      n := 4;
    }
  }

  /** The scalar value that a head encodes. */
  lemma DecodedHead(s: seq<Byte>, n: nat) returns (c: nat)
    requires ValidHead(s, n)
    ensures Scalar(c) && EncodedScalar(c) == s[..n]
  {
    if n == 1 {
      c := s[0];
    } else if n == 2 {
      var x: int, y: int := s[0] - 0xC0, s[1] - 0x80;
      c := x * 64 + y;
      DivIs(c, 64, x, y);
    } else if n == 3 {
      c := DecodedThree(s);
    } else {
      c := DecodedFour(s);
    }
  }

  lemma DecodedThree(s: seq<Byte>) returns (c: nat)
    requires ValidHead(s, 3)
    ensures Scalar(c) && EncodedScalar(c) == s[..3]
  {
    var x: int, y: int, z: int := s[0] - 0xE0, s[1] - 0x80, s[2] - 0x80;
    c := x * 4096 + y * 64 + z;
    DivIs(c, 64, x * 64 + y, z);
    DivIs(x * 64 + y, 64, x, y);
    DivIs(c, 4096, x, y * 64 + z);
  }

  lemma DecodedFour(s: seq<Byte>) returns (c: nat)
    requires ValidHead(s, 4)
    ensures Scalar(c) && EncodedScalar(c) == s[..4]
  {
    var w: int, x: int, y: int, z: int := s[0] - 0xF0, s[1] - 0x80, s[2] - 0x80, s[3] - 0x80;
    c := w * 262144 + x * 4096 + y * 64 + z;
    DivIs(c, 64, w * 4096 + x * 64 + y, z);
    DivIs(w * 4096 + x * 64 + y, 64, w * 64 + x, y);
    DivIs(c, 4096, w * 64 + x, y * 64 + z);
    DivIs(w * 64 + x, 64, w, x);
    DivIs(c, 262144, w, x * 4096 + y * 64 + z);
  }

  lemma {:induction false} EncodedIsValid(cs: seq<nat>)
    requires forall i :: 0 <= i < |cs| ==> Scalar(cs[i])
    ensures ValidUtf8(EncodedText(cs))
    decreases |cs|
  {
    if cs != [] {
      EncodedIsValid(cs[1..]);
      ScalarInFront(cs[0], EncodedText(cs[1..]));
    }
  }

  lemma {:induction false} ValidIsEncoded(s: seq<Byte>) returns (cs: seq<nat>)
    requires ValidUtf8(s)
    ensures (forall i :: 0 <= i < |cs| ==> Scalar(cs[i])) && EncodedText(cs) == s
    decreases |s|
  {
    if s == [] {
      cs := [];
    } else {
      hide ValidUtf8, EncodedScalar, Scalar;
      var n := SomeHead(s);
      var c := DecodedHead(s, n);
      var rest := ValidIsEncoded(s[n..]);
      cs := [c] + rest;
      assert cs[1..] == rest && s == s[..n] + s[n..];
    }
  }

  /** Exactly the encodings of scalar values: no overlong form, no surrogate, nothing cut. */
  lemma ValidIff(s: seq<Byte>)
    ensures ValidUtf8(s) <==>
              exists cs :: (forall i :: 0 <= i < |cs| ==> Scalar(cs[i])) && EncodedText(cs) == s
  {
    hide ValidUtf8, EncodedText, Scalar;
    if ValidUtf8(s) {
      var cs := ValidIsEncoded(s);
    }
    if cs :| (forall i :: 0 <= i < |cs| ==> Scalar(cs[i])) && EncodedText(cs) == s {
      EncodedIsValid(cs);
    }
  }
}
