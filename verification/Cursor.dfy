/** Opaque page cursors: the key tuple as JSON, URL-safe base64, padding stripped.

    JSON text is a parameter: `dump` writes a list of column values, `load` reads
    any text, and may find something that is not a list.
 */
module Cursor {
  import opened Varint
  import opened Wrappers
  import opened Base64

  datatype Json<T> = List(values: seq<T>) | NotAList

  function StripPadding(s: string): string {
    if s != "" && s[|s| - 1] == '=' then StripPadding(s[..|s| - 1]) else s
  }

  function EncodeCursor<T>(values: seq<T>, dump: seq<T> -> seq<Byte>): string {
    StripPadding(Encode64(dump(values), true))
  }

  /** `-len(s) % 4` padding characters. */
  function Repadded(s: string): string {
    s + Padding((4 - |s| % 4) % 4)
  }

  function CursorBytes(token: string): Option<seq<Byte>> {
    DecodeUrl(Repadded(token))
  }

  function DecodeCursor<T>(token: string, arity: nat, load: seq<Byte> -> Option<Json<T>>): Option<seq<T>> {
    match CursorBytes(token)
    case None => None
    case Some(bytes) =>
      match load(bytes)
      case Some(List(values)) => if |values| == arity then Some(values) else None
      case _ => None
  }

  lemma {:induction false} StripRemovesPadding(s: string, n: nat)
    requires s == "" || s[|s| - 1] != '='
    ensures StripPadding(s + Padding(n)) == s
    decreases n
  {
    if n == 0 {
      assert s + "" == s;
    } else {
      hide StripPadding, Padding;
      PaddingGrows(n - 1);
      StripRemovesPadding(s, n - 1);
      assert s + Padding(n) == s + Padding(n - 1) + "=";
      StripOne(s + Padding(n - 1));
    }
  }

  lemma StripOne(s: string)
    ensures StripPadding(s + "=") == StripPadding(s)
  {
    assert (s + "=")[..|s|] == s;
  }

  lemma {:induction false} PaddingGrows(n: nat)
    ensures Padding(n + 1) == Padding(n) + "=" && |Padding(n)| == n
    decreases n
  {
    if n > 0 {
      PaddingGrows(n - 1);
    }
  }

  /** Stripping and re-padding restores the encoding; no length is 1 modulo 4. */
  lemma PaddingRestored(bytes: seq<Byte>)
    ensures var token := StripPadding(Encode64(bytes, true));
            && |token| % 4 != 1
            && Repadded(token) == Encode64(bytes, true)
            && (bytes != [] ==> token != "")
  {
    hide Packed, StripPadding;
    PackedShape(bytes, true);
    StripRemovesPadding(Packed(bytes, true), if |bytes| % 3 == 1 then 2 else if |bytes| % 3 == 2 then 1 else 0);
  }

  /** Decoding an issued cursor returns the tuple it was issued for, exactly when the
      list asks for as many columns as it issued. */
  lemma IssuedCursorDecodes<T>(
    values: seq<T>, arity: nat, dump: seq<T> -> seq<Byte>, load: seq<Byte> -> Option<Json<T>>)
    requires load(dump(values)) == Some(List(values))
    ensures DecodeCursor(EncodeCursor(values, dump), arity, load) == if arity == |values| then Some(values) else None
  {
    PaddingRestored(dump(values));
    DecodesBack(dump(values), true, false);
  }

  // ----- which tokens were issued -----

  /** A character of the URL-safe alphabet. The decoder takes `+` and `/` as well. */
  predicate UrlSafe(c: char) {
    ValueOf(c, true).Some? && c != '+' && c != '/'
  }

  function SextetOf(c: char): nat
    requires UrlSafe(c)
  {
    ValueOf(c, true).value
  }

  /** Nothing but the alphabet, no dangling character, and no stray bits in the last one. */
  predicate Canonical(t: string) {
    && (forall i :: 0 <= i < |t| ==> UrlSafe(t[i]))
    && |t| % 4 != 1
    && (|t| % 4 == 2 ==> SextetOf(t[|t| - 1]) % 16 == 0)
    && (|t| % 4 == 3 ==> SextetOf(t[|t| - 1]) % 4 == 0)
  }

  lemma SymbolIsUrlSafe(v: nat)
    requires Sextet(v)
    ensures UrlSafe(Symbol(v, true)) && SextetOf(Symbol(v, true)) == v
  {
  }

  lemma UrlSafeIsSymbol(c: char)
    requires UrlSafe(c)
    ensures Sextet(SextetOf(c)) && Symbol(SextetOf(c), true) == c
  {
  }

  lemma GroupIsUrlSafe(x: Byte, y: Byte, z: Byte, i: nat)
    requires i < 4
    ensures |Group(x, y, z, true)| == 4 && UrlSafe(Group(x, y, z, true)[i])
  {
    hide UrlSafe, Symbol;
    SymbolIsUrlSafe(x / 4);
    SymbolIsUrlSafe(x % 4 * 16 + y / 16);
    SymbolIsUrlSafe(y % 16 * 4 + z / 64);
    SymbolIsUrlSafe(z % 64);
  }

  lemma CanonicalAfter(group: string, rest: string)
    requires |group| == 4 && (forall i :: 0 <= i < 4 ==> UrlSafe(group[i]))
    ensures Canonical(group + rest) <==> Canonical(rest)
  {
    hide UrlSafe, SextetOf;
    var t := group + rest;
    assert forall i :: 0 <= i < |rest| ==> rest[i] == t[i + 4];
    assert rest != [] ==> t[|t| - 1] == rest[|rest| - 1];
  }

  lemma PackedSteps(b: seq<Byte>)
    requires |b| >= 3
    ensures Packed(b, true) == Group(b[0], b[1], b[2], true) + Packed(b[3..], true)
  {
  }

  lemma TwoAreCanonical(x: Byte)
    ensures Canonical([Symbol(x / 4, true), Symbol(x % 4 * 16, true)])
  {
    SymbolIsUrlSafe(x / 4);
    SymbolIsUrlSafe(x % 4 * 16);
    hide Symbol, UrlSafe, SextetOf;
    assert x % 4 * 16 % 16 == 0;
  }

  lemma ThreeAreCanonical(x: Byte, y: Byte)
    ensures Canonical([Symbol(x / 4, true), Symbol(x % 4 * 16 + y / 16, true), Symbol(y % 16 * 4, true)])
  {
    SymbolIsUrlSafe(x / 4);
    SymbolIsUrlSafe(x % 4 * 16 + y / 16);
    SymbolIsUrlSafe(y % 16 * 4);
    hide Symbol, UrlSafe, SextetOf;
    assert y % 16 * 4 % 4 == 0;
  }

  lemma ShortIsCanonical(b: seq<Byte>)
    requires |b| < 3
    ensures Canonical(Packed(b, true))
  {
    hide Symbol, Canonical;
    if |b| == 0 {
      EmptyIsCanonical();
    } else if |b| == 1 {
      TwoAreCanonical(b[0]);
    } else {
      ThreeAreCanonical(b[0], b[1]);
    }
  }

  lemma EmptyIsCanonical()
    ensures Canonical("")
  {
  }

  lemma {:induction false} PackedIsCanonical(b: seq<Byte>)
    ensures Canonical(Packed(b, true))
    decreases |b|
  {
    hide Canonical, UrlSafe, Packed, Group;
    if |b| < 3 {
      ShortIsCanonical(b);
    } else {
      PackedSteps(b);
      PackedIsCanonical(b[3..]);
      forall i | 0 <= i < 4 ensures |Group(b[0], b[1], b[2], true)| == 4 && UrlSafe(Group(b[0], b[1], b[2], true)[i]) {
        GroupIsUrlSafe(b[0], b[1], b[2], i);
      }
      GroupIsUrlSafe(b[0], b[1], b[2], 0);
      CanonicalAfter(Group(b[0], b[1], b[2], true), Packed(b[3..], true));
    }
  }

  /** The bytes that four characters stand for. */
  lemma Ungroup(t: string) returns (x: Byte, y: Byte, z: Byte)
    requires |t| == 4 && forall i :: 0 <= i < 4 ==> UrlSafe(t[i])
    ensures Group(x, y, z, true) == t
  {
    UrlSafeIsSymbol(t[0]);
    UrlSafeIsSymbol(t[1]);
    UrlSafeIsSymbol(t[2]);
    UrlSafeIsSymbol(t[3]);
    var v0, v1, v2, v3 := SextetOf(t[0]), SextetOf(t[1]), SextetOf(t[2]), SextetOf(t[3]);
    hide Symbol, UrlSafe, SextetOf;
    x, y, z := v0 * 4 + v1 / 16, v1 % 16 * 16 + v2 / 4, v2 % 4 * 64 + v3;
    assert x / 4 == v0 && x % 4 * 16 + y / 16 == v1 && y % 16 * 4 + z / 64 == v2 && z % 64 == v3;
    assert t == [t[0], t[1], t[2], t[3]];
  }

  lemma UnpackTwo(t: string) returns (b: seq<Byte>)
    requires Canonical(t) && |t| == 2
    ensures t == Packed(b, true)
  {
    UrlSafeIsSymbol(t[0]);
    UrlSafeIsSymbol(t[1]);
    var v0, v1 := SextetOf(t[0]), SextetOf(t[1]);
    hide Symbol, UrlSafe, SextetOf;
    b := [v0 * 4 + v1 / 16];
    assert b[0] / 4 == v0 && b[0] % 4 * 16 == v1;
  }

  lemma UnpackThree(t: string) returns (b: seq<Byte>)
    requires Canonical(t) && |t| == 3
    ensures t == Packed(b, true)
  {
    UrlSafeIsSymbol(t[0]);
    UrlSafeIsSymbol(t[1]);
    UrlSafeIsSymbol(t[2]);
    var v0, v1, v2 := SextetOf(t[0]), SextetOf(t[1]), SextetOf(t[2]);
    hide Symbol, UrlSafe, SextetOf;
    b := [v0 * 4 + v1 / 16, v1 % 16 * 16 + v2 / 4];
    assert b[0] / 4 == v0 && b[0] % 4 * 16 + b[1] / 16 == v1 && b[1] % 16 * 4 == v2;
  }

  /** Canonical text packs some bytes. */
  lemma {:induction false} CanonicalIsPacked(t: string) returns (b: seq<Byte>)
    requires Canonical(t)
    ensures t == Packed(b, true)
    decreases |t|
  {
    if t == "" {
      b := [];
    } else if |t| == 2 {
      b := UnpackTwo(t);
    } else if |t| == 3 {
      b := UnpackThree(t);
    } else {
      var x, y, z := Ungroup(t[..4]);
      assert t == t[..4] + t[4..];
      CanonicalAfter(t[..4], t[4..]);
      hide Canonical, Packed, Group;
      var rest := CanonicalIsPacked(t[4..]);
      b := [x, y, z] + rest;
      PackedSteps(b);
      assert b[3..] == rest;
    }
  }

  lemma StrippedIsPacked(bytes: seq<Byte>)
    ensures StripPadding(Encode64(bytes, true)) == Packed(bytes, true)
  {
    hide Packed, StripPadding;
    PackedShape(bytes, true);
    StripRemovesPadding(Packed(bytes, true), if |bytes| % 3 == 1 then 2 else if |bytes| % 3 == 2 then 1 else 0);
  }

  /** Of the tokens that decode to some bytes, exactly the canonical one is issued for
      them: any other is accepted without having been issued. */
  lemma AcceptedIsIssuedIff(token: string, bytes: seq<Byte>)
    requires CursorBytes(token) == Some(bytes)
    ensures token == StripPadding(Encode64(bytes, true)) <==> Canonical(token)
  {
    hide Canonical, StripPadding, Decode, Packed;
    StrippedIsPacked(bytes);
    PackedIsCanonical(bytes);
    if Canonical(token) {
      var packed := CanonicalIsPacked(token);
      StrippedIsPacked(packed);
      PaddingRestored(packed);
      DecodesBack(packed, true, false);
    }
  }

  /** Likewise for what a list request accepts: the token it would issue for the values it
      read is the one it was given exactly if that is canonical and holds their own JSON. */
  lemma AcceptedCursorIssuedIff<T>(
    token: string, arity: nat, values: seq<T>, dump: seq<T> -> seq<Byte>, load: seq<Byte> -> Option<Json<T>>)
    requires DecodeCursor(token, arity, load) == Some(values)
    ensures token == EncodeCursor(values, dump) <==>
            Canonical(token) && CursorBytes(token) == Some(dump(values))
  {
    hide Canonical, StripPadding, Decode, Encode64, Repadded;
    var bytes := dump(values);
    PaddingRestored(bytes);
    DecodesBack(bytes, true, false);
    if CursorBytes(token) == Some(bytes) {
      AcceptedIsIssuedIff(token, bytes);
    }
  }

  /** Exactly the canonical tokens are ever issued. */
  lemma IssuedIff(token: string)
    ensures (exists bytes :: token == StripPadding(Encode64(bytes, true))) <==> Canonical(token)
  {
    hide Canonical, StripPadding, Encode64, Packed;
    if bytes :| token == StripPadding(Encode64(bytes, true)) {
      StrippedIsPacked(bytes);
      PackedIsCanonical(bytes);
    }
    if Canonical(token) {
      var bytes := CanonicalIsPacked(token);
      StrippedIsPacked(bytes);
    }
  }

  // ----- tokens that were not issued and are accepted -----

  /** Neither in the alphabet nor padding. */
  predicate Foreign(c: char) {
    ValueOf(c, true).None? && c != '='
  }

  function WithoutForeign(s: string): string {
    if s == "" then "" else (if Foreign(s[0]) then "" else [s[0]]) + WithoutForeign(s[1..])
  }

  /** The bits a data character carries over to the next. */
  function Carried(v: nat, quad: nat): (left: nat)
    requires Sextet(v)
    ensures left < 64
  {
    if quad == 0 then v else if quad == 1 then v % 16 else if quad == 2 then v % 4 else 0
  }

  lemma SkipForeign(s: string, quad: nat, left: nat, pads: nat, padded: bool)
    requires s != "" && Foreign(s[0]) && quad < 4 && left < 64
    ensures Decode(s, true, false, quad, left, pads, padded) == Decode(s[1..], true, false, quad, left, pads, padded)
  {
    hide ValueOf;
  }

  lemma SamePad(s: string, t: string, quad: nat, left: nat, pads: nat, padded: bool)
    requires s != "" && t != "" && s[0] == t[0] == '=' && quad < 4 && left < 64
    requires var more := if quad >= 2 then pads + 1 else pads;
             Decode(s[1..], true, false, quad, left, more, true) == Decode(t[1..], true, false, quad, left, more, true)
    ensures Decode(s, true, false, quad, left, pads, padded) == Decode(t, true, false, quad, left, pads, padded)
  {
    hide ValueOf;
  }

  lemma SameData(s: string, t: string, v: nat, quad: nat, left: nat, pads: nat, padded: bool)
    requires s != "" && t != "" && s[0] == t[0] != '=' && ValueOf(s[0], true) == Some(v)
    requires quad < 4 && left < 64 && Sextet(v)
    requires var next, carry := if quad == 3 then 0 else quad + 1, Carried(v, quad);
             Decode(s[1..], true, false, next, carry, 0, padded) == Decode(t[1..], true, false, next, carry, 0, padded)
    ensures Decode(s, true, false, quad, left, pads, padded) == Decode(t, true, false, quad, left, pads, padded)
  {
    hide ValueOf, Emit64;
  }

  lemma {:induction false} ForeignIsSkipped(s: string, quad: nat, left: nat, pads: nat, padded: bool)
    requires quad < 4 && left < 64
    ensures Decode(s, true, false, quad, left, pads, padded)
         == Decode(WithoutForeign(s), true, false, quad, left, pads, padded)
    decreases |s|
  {
    hide Decode, Carried;
    if s != "" {
      var rest := WithoutForeign(s[1..]);
      if Foreign(s[0]) {
        assert WithoutForeign(s) == rest;
        SkipForeign(s, quad, left, pads, padded);
        ForeignIsSkipped(s[1..], quad, left, pads, padded);
      } else {
        assert WithoutForeign(s)[0] == s[0] && WithoutForeign(s)[1..] == rest;
        if s[0] == '=' {
          ForeignIsSkipped(s[1..], quad, left, if quad >= 2 then pads + 1 else pads, true);
          SamePad(s, WithoutForeign(s), quad, left, pads, padded);
        } else {
          var v := ValueOf(s[0], true).value;
          ForeignIsSkipped(s[1..], if quad == 3 then 0 else quad + 1, Carried(v, quad), 0, padded);
          SameData(s, WithoutForeign(s), v, quad, left, pads, padded);
        }
      }
    }
  }

  lemma {:induction false} WithoutForeignOfConcat(s: string, t: string)
    ensures WithoutForeign(s + t) == WithoutForeign(s) + WithoutForeign(t)
    decreases |s|
  {
    hide Foreign;
    if s == "" {
      assert s + t == t;
    } else {
      assert (s + t)[0] == s[0] && (s + t)[1..] == s[1..] + t;
      WithoutForeignOfConcat(s[1..], t);
    }
  }

  lemma {:induction false} PaddingStays(n: nat)
    ensures WithoutForeign(Padding(n)) == Padding(n)
    decreases n
  {
    hide ValueOf;
    if n > 0 {
      assert Padding(n)[0] == '=' && Padding(n)[1..] == Padding(n - 1);
      PaddingStays(n - 1);
    }
  }

  /** Foreign characters are skipped wherever they stand; they only count towards the
      padding, so four of them, or any multiple of four, change nothing. */
  lemma JunkIsIgnored(token: string)
    ensures CursorBytes(token) == DecodeUrl(WithoutForeign(token) + Padding((4 - |token| % 4) % 4))
    ensures |token| % 4 == |WithoutForeign(token)| % 4 ==> CursorBytes(token) == CursorBytes(WithoutForeign(token))
  {
    hide Decode, WithoutForeign, Padding;
    var n := (4 - |token| % 4) % 4;
    WithoutForeignOfConcat(token, Padding(n));
    PaddingStays(n);
    ForeignIsSkipped(Repadded(token), 0, 0, 0, false);
  }

  lemma PairWithStrayBits(y: nat)
    requires y < 16
    ensures CursorBytes([Symbol(0, true), Symbol(y, true)]) == Some([0])
  {
    hide Decode, Padding, Symbol;
    DecodePair(0, y, Padding(2), true, false);
    DecodePadding(true, false, y);
    assert [0] + [] == [0];
  }

  /** A token of nothing but the alphabet, and still never issued: the stray low bits of
      its last character are dropped. */
  lemma StrayBitsAreDropped()
    ensures CursorBytes("AB") == CursorBytes("AA") == Some([0])
    ensures StripPadding(Encode64([0], true)) == "AA" && !Canonical("AB")
  {
    hide CursorBytes, Padding, StripPadding;
    PairWithStrayBits(0);
    PairWithStrayBits(1);
    assert "AA" == [Symbol(0, true), Symbol(0, true)] && "AB" == [Symbol(0, true), Symbol(1, true)];
    StrippedIsPacked([0]);
  }
}
