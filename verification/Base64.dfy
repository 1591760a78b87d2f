/** Base64 (sections 3.2, 4 and 5 of RFC 4648), with the decoder the standard
    library runs: lenient for cursors, strict for key material.
 */
module Base64 {
  import opened Varint
  import opened Wrappers

  predicate Sextet(v: nat) {
    v < 64
  }

  function Symbol(v: nat, url: bool): char
    requires Sextet(v)
  {
    if v < 26 then ('A' as int + v) as char
    else if v < 52 then ('a' as int + v - 26) as char
    else if v < 62 then ('0' as int + v - 52) as char
    else if v == 62 then (if url then '-' else '+')
    else (if url then '_' else '/')
  }

  /** The value of a data character. The URL-safe decoder also takes `+` and `/`. */
  function ValueOf(c: char, url: bool): (v: Option<nat>)
    ensures v.Some? ==> Sextet(v.value)
  {
    if 'A' <= c <= 'Z' then Some(c as int - 'A' as int)
    else if 'a' <= c <= 'z' then Some(c as int - 'a' as int + 26)
    else if '0' <= c <= '9' then Some(c as int - '0' as int + 52)
    else if c == '+' || (url && c == '-') then Some(62)
    else if c == '/' || (url && c == '_') then Some(63)
    else None
  }

  lemma SymbolHasItsValue(v: nat, url: bool)
    requires Sextet(v)
    ensures Symbol(v, url) != '=' && ValueOf(Symbol(v, url), url) == Some(v)
  {
  }

  // ----- encoding -----

  /** The data characters, without padding. */
  function Packed(b: seq<Byte>, url: bool): string {
    if b == [] then ""
    else if |b| == 1 then [Symbol(b[0] / 4, url), Symbol(b[0] % 4 * 16, url)]
    else if |b| == 2 then
      [Symbol(b[0] / 4, url), Symbol(b[0] % 4 * 16 + b[1] / 16, url), Symbol(b[1] % 16 * 4, url)]
    else
      [Symbol(b[0] / 4, url), Symbol(b[0] % 4 * 16 + b[1] / 16, url),
       Symbol(b[1] % 16 * 4 + b[2] / 64, url), Symbol(b[2] % 64, url)]
      + Packed(b[3..], url)
  }

  function Padding(n: nat): string {
    if n == 0 then "" else "=" + Padding(n - 1)
  }

  function Encode64(b: seq<Byte>, url: bool): string {
    Packed(b, url) + Padding(if |b| % 3 == 1 then 2 else if |b| % 3 == 2 then 1 else 0)
  }

  // ----- decoding -----

  /** One pass over the characters: `quad` data characters of the current group seen,
      `left` the bits carried over, `pads` the padding characters seen. */
  function Decode(s: string, url: bool, strict: bool, quad: nat, left: nat, pads: nat, padded: bool): Option<seq<Byte>>
    requires quad < 4 && left < 64
    decreases |s|
  {
    if s == "" then
      if quad == 0 then Some([]) else None
    else if s[0] == '=' then
      if quad >= 2 && quad + pads + 1 >= 4 then
        if strict && |s| > 1 then None else Some([])
      else Decode(s[1..], url, strict, quad, left, if quad >= 2 then pads + 1 else pads, true)
    else
      match ValueOf(s[0], url)
      case None => if strict then None else Decode(s[1..], url, strict, quad, left, pads, padded)
      case Some(v) =>
        if strict && padded then None
        else if quad == 0 then Decode(s[1..], url, strict, 1, v, 0, padded)
        else if quad == 1 then Emit64(left * 4 + v / 16, Decode(s[1..], url, strict, 2, v % 16, 0, padded))
        else if quad == 2 then Emit64(left * 16 + v / 4, Decode(s[1..], url, strict, 3, v % 4, 0, padded))
        else Emit64(left * 64 + v, Decode(s[1..], url, strict, 0, 0, 0, padded))
  }

  function Emit64(v: nat, rest: Option<seq<Byte>>): Option<seq<Byte>> {
    match rest
    case None => None
    case Some(bytes) => Some([v % 256] + bytes)
  }

  function DecodeStrict(s: string): Option<seq<Byte>> {
    if s != "" && s[0] == '=' then None else Decode(s, false, true, 0, 0, 0, false)
  }

  function DecodeUrl(s: string): Option<seq<Byte>> {
    Decode(s, true, false, 0, 0, 0, false)
  }

  // ----- round trip -----

  lemma DecodeSymbol(v: nat, rest: string, url: bool, strict: bool, quad: nat, left: nat)
    requires Sextet(v) && quad < 4 && left < 64
    ensures Decode([Symbol(v, url)] + rest, url, strict, quad, left, 0, false) ==
              if quad == 0 then Decode(rest, url, strict, 1, v, 0, false)
              else if quad == 1 then Emit64(left * 4 + v / 16, Decode(rest, url, strict, 2, v % 16, 0, false))
              else if quad == 2 then Emit64(left * 16 + v / 4, Decode(rest, url, strict, 3, v % 4, 0, false))
              else Emit64(left * 64 + v, Decode(rest, url, strict, 0, 0, 0, false))
  {
    SymbolHasItsValue(v, url);
    var s := [Symbol(v, url)] + rest;
    assert s[0] == Symbol(v, url) && s[1..] == rest;
  }

  lemma DecodePair(x: Byte, y: nat, rest: string, url: bool, strict: bool)
    requires y < 16
    ensures Decode([Symbol(x / 4, url), Symbol(x % 4 * 16 + y, url)] + rest, url, strict, 0, 0, 0, false)
         == Emit64(x, Decode(rest, url, strict, 2, y, 0, false))
  {
    var s1 := x % 4 * 16 + y;
    assert [Symbol(x / 4, url), Symbol(s1, url)] + rest == [Symbol(x / 4, url)] + ([Symbol(s1, url)] + rest);
    DecodeSymbol(x / 4, [Symbol(s1, url)] + rest, url, strict, 0, 0);
    DecodeSymbol(s1, rest, url, strict, 1, x / 4);
    assert x / 4 * 4 + s1 / 16 == x && s1 % 16 == y;
  }

  lemma DecodeThird(y: Byte, z: nat, rest: string, url: bool, strict: bool)
    requires z < 4
    ensures Decode([Symbol(y % 16 * 4 + z, url)] + rest, url, strict, 2, y / 16, 0, false)
         == Emit64(y, Decode(rest, url, strict, 3, z, 0, false))
  {
    var s2 := y % 16 * 4 + z;
    DecodeSymbol(s2, rest, url, strict, 2, y / 16);
    assert y / 16 * 16 + s2 / 4 == y && s2 % 4 == z;
  }

  lemma DecodeFourth(z: Byte, rest: string, url: bool, strict: bool)
    ensures Decode([Symbol(z % 64, url)] + rest, url, strict, 3, z / 64, 0, false)
         == Emit64(z, Decode(rest, url, strict, 0, 0, 0, false))
  {
    DecodeSymbol(z % 64, rest, url, strict, 3, z / 64);
  }

  lemma DecodePadding(url: bool, strict: bool, left: nat)
    requires left < 64
    ensures Decode(Padding(2), url, strict, 2, left, 0, false) == Some([])
    ensures Decode(Padding(1), url, strict, 3, left, 0, false) == Some([])
  {
    assert Padding(0) == "" && Padding(1) == "=" && Padding(2) == "==";
    assert "=="[1..] == "=";
    assert Decode("=", url, strict, 2, left, 1, true) == Some([]);
  }

  lemma DecodeOne(x: Byte, url: bool, strict: bool)
    ensures Decode(Encode64([x], url), url, strict, 0, 0, 0, false) == Some([x])
  {
    hide Decode, Symbol;
    DecodePair(x, 0, Padding(2), url, strict);
    assert Encode64([x], url) == [Symbol(x / 4, url), Symbol(x % 4 * 16 + 0, url)] + Padding(2);
    DecodePadding(url, strict, 0);
    assert [x] + [] == [x];
  }

  lemma DecodeTwo(x: Byte, y: Byte, url: bool, strict: bool)
    ensures Decode(Encode64([x, y], url), url, strict, 0, 0, 0, false) == Some([x, y])
  {
    hide Decode, Symbol;
    var third := [Symbol(y % 16 * 4 + 0, url)];
    DecodePair(x, y / 16, third + Padding(1), url, strict);
    assert Encode64([x, y], url) ==
             [Symbol(x / 4, url), Symbol(x % 4 * 16 + y / 16, url)] + (third + Padding(1));
    DecodeThird(y, 0, Padding(1), url, strict);
    DecodePadding(url, strict, 0);
    assert [x] + ([y] + []) == [x, y];
  }

  function Group(x: Byte, y: Byte, z: Byte, url: bool): string {
    [Symbol(x / 4, url), Symbol(x % 4 * 16 + y / 16, url), Symbol(y % 16 * 4 + z / 64, url), Symbol(z % 64, url)]
  }

  lemma DecodeGroup(x: Byte, y: Byte, z: Byte, rest: string, url: bool, strict: bool)
    ensures Decode(Group(x, y, z, url) + rest, url, strict, 0, 0, 0, false)
         == Emit64(x, Emit64(y, Emit64(z, Decode(rest, url, strict, 0, 0, 0, false))))
  {
    hide Decode, Symbol;
    var third, fourth := [Symbol(y % 16 * 4 + z / 64, url)], [Symbol(z % 64, url)];
    assert Group(x, y, z, url) + rest ==
             [Symbol(x / 4, url), Symbol(x % 4 * 16 + y / 16, url)] + (third + (fourth + rest));
    DecodePair(x, y / 16, third + (fourth + rest), url, strict);
    DecodeThird(y, z / 64, fourth + rest, url, strict);
    DecodeFourth(z, rest, url, strict);
  }

  lemma EncodeGroup(b: seq<Byte>, url: bool)
    requires |b| >= 3
    ensures Encode64(b, url) == Group(b[0], b[1], b[2], url) + Encode64(b[3..], url)
  {
    hide Symbol, Padding;
  }

  /** Either decoder recovers exactly the bytes that were encoded. */
  lemma {:induction false} DecodesBack(b: seq<Byte>, url: bool, strict: bool)
    ensures Decode(Encode64(b, url), url, strict, 0, 0, 0, false) == Some(b)
    decreases |b|
  {
    hide Decode, Symbol, Encode64, Group;
    if |b| == 0 {
      DecodeNothing(url, strict);
    } else if |b| == 1 {
      DecodeOne(b[0], url, strict);
      assert b == [b[0]];
    } else if |b| == 2 {
      DecodeTwo(b[0], b[1], url, strict);
      assert b == [b[0], b[1]];
    } else {
      EncodeGroup(b, url);
      DecodeGroup(b[0], b[1], b[2], Encode64(b[3..], url), url, strict);
      DecodesBack(b[3..], url, strict);
      assert b == [b[0]] + ([b[1]] + ([b[2]] + b[3..]));
    }
  }

  lemma DecodeNothing(url: bool, strict: bool)
    ensures Decode(Encode64([], url), url, strict, 0, 0, 0, false) == Some([])
  {
  }

  lemma {:induction false} PackedShape(b: seq<Byte>, url: bool)
    ensures |Packed(b, url)| == |b| / 3 * 4 + (if |b| % 3 == 0 then 0 else |b| % 3 + 1)
    ensures forall i :: 0 <= i < |Packed(b, url)| ==> Packed(b, url)[i] != '='
    decreases |b|
  {
    if |b| >= 3 {
      PackedShape(b[3..], url);
    }
  }

  lemma StrictRoundTrip(b: seq<Byte>)
    ensures DecodeStrict(Encode64(b, false)) == Some(b)
  {
    DecodesBack(b, false, true);
    PackedShape(b, false);
  }

  // ----- the alphabet, the bits, and what the strict decoder takes -----

  /** Tables 1 and 2 of RFC 4648: upper case, lower case, digits, and two more. */
  lemma AlphabetIs(v: nat, url: bool)
    requires v < 64
    ensures v == 0 ==> Symbol(v, url) == 'A'
    ensures v == 26 ==> Symbol(v, url) == 'a'
    ensures v == 52 ==> Symbol(v, url) == '0'
    ensures v == 62 ==> Symbol(v, url) == if url then '-' else '+'
    ensures v == 63 ==> Symbol(v, url) == if url then '_' else '/'
    ensures v !in {0, 26, 52, 62, 63} ==> Symbol(v, url) as int == Symbol(v - 1, url) as int + 1
  {
  }

  /** The value of one character, as a decoder reads it. */
  function Bits(c: char, url: bool): nat {
    if ValueOf(c, url).Some? then ValueOf(c, url).value else 0
  }

  /** Three bytes are four characters of the same 24 bits, most significant first; one byte
      and two are padded with zero bits on the right. */
  lemma PackedBits(b: seq<Byte>, url: bool)
    ensures var p := Packed(b, url);
            match |b|
            case 0 => p == ""
            case 1 => |p| == 2 && Bits(p[0], url) * 64 + Bits(p[1], url) == b[0] as int * 16
            case 2 =>
              && |p| == 3
              && Bits(p[0], url) * 4096 + Bits(p[1], url) * 64 + Bits(p[2], url)
                 == (b[0] as int * 256 + b[1] as int) * 4
            case _ =>
              && |p| >= 4 && p[4..] == Packed(b[3..], url)
              && Bits(p[0], url) * 262144 + Bits(p[1], url) * 4096 + Bits(p[2], url) * 64 + Bits(p[3], url)
                 == b[0] as int * 65536 + b[1] as int * 256 + b[2] as int
  {
    if b != [] {
      var x: int, y: int, z: int := b[0], if |b| > 1 then b[1] else 0, if |b| > 2 then b[2] else 0;
      SymbolHasItsValue(x / 4, url);
      SymbolHasItsValue(x % 4 * 16 + y / 16, url);
      SymbolHasItsValue(y % 16 * 4 + z / 64, url);
      SymbolHasItsValue(z % 64, url);
      hide Symbol, ValueOf;
      if |b| >= 3 {
        var head := [Symbol(x / 4, url), Symbol(x % 4 * 16 + y / 16, url), Symbol(y % 16 * 4 + z / 64, url),
                     Symbol(z % 64, url)];
        assert Packed(b, url) == head + Packed(b[3..], url);
      }
    }
  }

  /** The first padding character, or the end. */
  function PadAt(s: string): (k: nat)
    ensures k <= |s| && (k < |s| ==> s[k] == '=') && forall i :: 0 <= i < k ==> s[i] != '='
  {
    if s == "" || s[0] == '=' then 0 else 1 + PadAt(s[1..])
  }

  predicate Standard(c: char) {
    'A' <= c <= 'Z' || 'a' <= c <= 'z' || '0' <= c <= '9' || c == '+' || c == '/'
  }

  /** Data of the standard alphabet and then only padding: none missing and none beyond,
      except after whole groups, where any is let through. `quad` data characters came
      before. */
  ghost predicate StrictShape(s: string, quad: nat) {
    var k := PadAt(s);
    var n, pads := (quad + k) % 4, |s| - k;
    && (forall i :: 0 <= i < k ==> Standard(s[i]))
    && (forall i :: k <= i < |s| ==> s[i] == '=')
    && (n == 0 || (n == 2 && pads == 2) || (n == 3 && pads == 1))
  }

  lemma {:induction false} AfterWholeGroups(s: string, left: nat, pads: nat)
    requires left < 64
    ensures Decode(s, false, true, 0, left, pads, true).Some? <==> forall i :: 0 <= i < |s| ==> s[i] == '='
    decreases |s|
  {
    if s != "" {
      AfterWholeGroups(s[1..], left, pads);
    }
  }

  lemma {:induction false} AfterOne(s: string, left: nat, pads: nat)
    requires left < 64
    ensures Decode(s, false, true, 1, left, pads, true).None?
    decreases |s|
  {
    if s != "" {
      AfterOne(s[1..], left, pads);
    }
  }

  lemma PadsAfterData(s: string, quad: nat, left: nat)
    requires quad < 4 && left < 64 && s != "" && s[0] == '='
    ensures Decode(s, false, true, quad, left, 0, false).Some? <==> StrictShape(s, quad)
  {
    assert PadAt(s) == 0;
    if quad == 0 {
      AfterWholeGroups(s[1..], left, 0);
    } else if quad == 1 {
      AfterOne(s[1..], left, 0);
    } else if quad == 2 && |s| >= 2 {
      assert s[1..][0] == s[1];
    }
  }

  lemma {:induction false} StrictFrom(s: string, quad: nat, left: nat)
    requires quad < 4 && left < 64
    ensures Decode(s, false, true, quad, left, 0, false).Some? <==> StrictShape(s, quad)
    decreases |s|
  {
    if s == "" {
    } else if s[0] == '=' {
      PadsAfterData(s, quad, left);
    } else {
      var next := if quad == 3 then 0 else quad + 1;
      ShapeStep(s, quad, next);
      if ValueOf(s[0], false).Some? {
        var v := ValueOf(s[0], false).value;
        var carry := if quad == 0 then v else if quad == 1 then v % 16 else if quad == 2 then v % 4 else 0;
        StrictFrom(s[1..], next, carry);
      }
    }
  }

  lemma ShapeStep(s: string, quad: nat, next: nat)
    requires quad < 4 && next == (if quad == 3 then 0 else quad + 1) && s != "" && s[0] != '='
    ensures StrictShape(s, quad) <==> Standard(s[0]) && StrictShape(s[1..], next)
  {
    var k := PadAt(s);
    assert k == PadAt(s[1..]) + 1;
    assert (quad + k) % 4 == (next + (k - 1)) % 4;
    assert forall i :: 0 < i < |s| ==> s[i] == s[1..][i - 1];
    if Standard(s[0]) && StrictShape(s[1..], next) {
      assert StrictShape(s, quad);
    }
  }

  /** Key material is taken exactly in this shape. */
  lemma StrictAcceptsIff(s: string)
    ensures DecodeStrict(s).Some? <==> StrictShape(s, 0) && (s != "" ==> s[0] != '=')
  {
    StrictFrom(s, 0, 0);
  }
}
