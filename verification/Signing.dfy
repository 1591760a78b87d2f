/** Signed intents: what is signed, who verifies, and the keyring both read. The MAC
    and the serialization are parameters.
 */
module Signing {
  import opened Base64
  import opened Varint

  type Text = string

  const HMAC_SHA256: int := 1

  const MAC_LENGTH := 32

  /** A tool intent; `content` stands for every field but the three about the signature. */
  datatype Intent<C> = Intent(content: C, scheme: int, keyId: Text, signature: seq<Byte>)

  datatype Verification = VerifiedOk | Unsigned | BadSignature | UnknownSigningKey

  type Mac = (seq<Byte>, seq<Byte>) -> seq<Byte>

  ghost predicate IsMac(mac: Mac) {
    forall key, message :: |mac(key, message)| == MAC_LENGTH
  }

  // ----- signing and verifying -----

  function SigningInput<C>(intent: Intent<C>, serialize: Intent<C> -> seq<Byte>): seq<Byte> {
    serialize(intent.(scheme := 0, keyId := "", signature := []))
  }

  function SignIntent<C>(
    intent: Intent<C>, keyId: Text, key: seq<Byte>, mac: Mac, serialize: Intent<C> -> seq<Byte>): Intent<C>
  {
    var stamped := intent.(scheme := HMAC_SHA256, keyId := keyId);
    stamped.(signature := mac(key, SigningInput(stamped, serialize)))
  }

  function VerifyIntent<C>(
    intent: Intent<C>, keyring: map<Text, seq<Byte>>, mac: Mac, serialize: Intent<C> -> seq<Byte>): Verification
  {
    if intent.signature == [] then Unsigned
    else if intent.scheme != HMAC_SHA256 then BadSignature
    else if intent.keyId !in keyring then UnknownSigningKey
    else if mac(keyring[intent.keyId], SigningInput(intent, serialize)) != intent.signature then BadSignature
    else VerifiedOk
  }

  /** A signature covers the content and nothing else: it is the MAC of the serialization
      of the intent with the fields about the signature empty. */
  lemma SignatureCovers<C>(
    intent: Intent<C>, keyId: Text, key: seq<Byte>, mac: Mac, serialize: Intent<C> -> seq<Byte>)
    ensures var signed := SignIntent(intent, keyId, key, mac, serialize);
            && signed.content == intent.content && signed.scheme == 1 && signed.keyId == keyId
            && signed.signature == mac(key, serialize(Intent(intent.content, 0, "", [])))
  {
    var stamped := intent.(scheme := HMAC_SHA256, keyId := keyId);
    assert stamped.(scheme := 0, keyId := "", signature := []) == Intent(intent.content, 0, "", []);
  }

  /** Every outcome of a verification, from the fields. */
  lemma VerificationIs<C>(
    intent: Intent<C>, keyring: map<Text, seq<Byte>>, mac: Mac, serialize: Intent<C> -> seq<Byte>)
    ensures var r := VerifyIntent(intent, keyring, mac, serialize);
            && (r == Unsigned <==> intent.signature == [])
            && (r == UnknownSigningKey <==>
                  intent.signature != [] && intent.scheme == 1 && intent.keyId !in keyring)
            && (r == VerifiedOk <==>
                  && intent.signature != [] && intent.scheme == 1 && intent.keyId in keyring
                  && intent.signature == mac(keyring[intent.keyId], serialize(Intent(intent.content, 0, "", []))))
  {
    assert intent.(scheme := 0, keyId := "", signature := []) == Intent(intent.content, 0, "", []);
  }

  /** An intent signed with a key of the ring verifies; with its content changed and the
      signature kept, exactly if the MAC cannot tell the two messages apart. */
  lemma ChangedContentVerifiesIff<C>(
    intent: Intent<C>, content: C, keyId: Text, keyring: map<Text, seq<Byte>>, mac: Mac,
    serialize: Intent<C> -> seq<Byte>)
    requires IsMac(mac) && keyId in keyring
    ensures var key := keyring[keyId];
            var signed := SignIntent(intent, keyId, key, mac, serialize);
            && VerifyIntent(signed, keyring, mac, serialize) == VerifiedOk
            && VerifyIntent(signed.(content := content), keyring, mac, serialize) ==
                 (if mac(key, serialize(Intent(content, 0, "", []))) ==
                     mac(key, serialize(Intent(intent.content, 0, "", [])))
                  then VerifiedOk else BadSignature)
  {
    var key := keyring[keyId];
    var signed := SignIntent(intent, keyId, key, mac, serialize);
    SignatureCovers(intent, keyId, key, mac, serialize);
    assert |signed.signature| == MAC_LENGTH;
    VerificationIs(signed, keyring, mac, serialize);
    VerificationIs(signed.(content := content), keyring, mac, serialize);
  }

  /** Signing leaves what is signed alone, so signing again, with the same key or another,
      is signing the original. */
  lemma SigningIsStable<C>(
    intent: Intent<C>, keyId: Text, key: seq<Byte>, keyId': Text, key': seq<Byte>, mac: Mac,
    serialize: Intent<C> -> seq<Byte>)
    ensures var signed := SignIntent(intent, keyId, key, mac, serialize);
            && signed.content == intent.content
            && SigningInput(signed, serialize) == SigningInput(intent, serialize)
            && SignIntent(signed, keyId', key', mac, serialize) == SignIntent(intent, keyId', key', mac, serialize)
  {
    var signed := SignIntent(intent, keyId, key, mac, serialize);
    var cleared := intent.(scheme := 0, keyId := "", signature := []);
    assert signed.(scheme := 0, keyId := "", signature := []) == cleared;
    var stamped := intent.(scheme := HMAC_SHA256, keyId := keyId');
    var restamped := signed.(scheme := HMAC_SHA256, keyId := keyId');
    assert stamped.(scheme := 0, keyId := "", signature := []) == cleared;
    assert restamped.(scheme := 0, keyId := "", signature := []) == cleared;
  }

  /** An intent verifies exactly if it is what signing it with a key of the ring makes it. */
  lemma VerifiesIff<C>(
    intent: Intent<C>, keyring: map<Text, seq<Byte>>, mac: Mac, serialize: Intent<C> -> seq<Byte>)
    requires IsMac(mac)
    ensures VerifyIntent(intent, keyring, mac, serialize) == VerifiedOk <==>
            intent.keyId in keyring && SignIntent(intent, intent.keyId, keyring[intent.keyId], mac, serialize) == intent
  {
    if intent.keyId in keyring {
      var key := keyring[intent.keyId];
      SigningIsStable(intent, intent.keyId, key, intent.keyId, key, mac, serialize);
      var signed := SignIntent(intent, intent.keyId, key, mac, serialize);
      var cleared := intent.(scheme := 0, keyId := "", signature := []);
      assert intent.(scheme := HMAC_SHA256, keyId := intent.keyId).(scheme := 0, keyId := "", signature := []) == cleared;
      assert signed.signature == mac(key, SigningInput(intent, serialize));
      assert |signed.signature| == MAC_LENGTH;
    }
  }

  // ----- text -----

  /** What `str.splitlines` splits at. */
  predicate LineBreak(c: char) {
    || '\n' <= c <= '\r' || '\U{1C}' <= c <= '\U{1E}' || c == '\U{85}' || c == '\U{2028}' || c == '\U{2029}'
  }

  /** What `str.strip` strips. */
  predicate Space(c: char) {
    || '\t' <= c <= '\r' || '\U{1C}' <= c <= ' ' || c == '\U{85}' || c == '\U{A0}' || c == '\U{1680}'
    || '\U{2000}' <= c <= '\U{200A}' || c == '\U{2028}' || c == '\U{2029}' || c == '\U{202F}' || c == '\U{205F}'
    || c == '\U{3000}'
  }

  function LeftStrip(s: Text): (r: Text)
    ensures |r| <= |s|
  {
    if s != "" && Space(s[0]) then LeftStrip(s[1..]) else s
  }

  function RightStrip(s: Text): (r: Text)
    ensures |r| <= |s|
  {
    if s != "" && Space(s[|s| - 1]) then RightStrip(s[..|s| - 1]) else s
  }

  function Strip(s: Text): Text {
    RightStrip(LeftStrip(s))
  }

  /** The first position of a line break, or the end. */
  function BreakAt(s: Text): (k: nat)
    ensures k <= |s| && (k < |s| ==> LineBreak(s[k])) && forall i :: 0 <= i < k ==> !LineBreak(s[i])
  {
    if s == "" || LineBreak(s[0]) then 0 else 1 + BreakAt(s[1..])
  }

  /** A carriage return takes a line feed with it. */
  function BreakWidth(s: Text, k: nat): nat
    requires k < |s|
  {
    if s[k] == '\r' && k + 1 < |s| && s[k + 1] == '\n' then 2 else 1
  }

  function SplitLines(s: Text): seq<Text>
    decreases |s|
  {
    if s == "" then []
    else
      var k := BreakAt(s);
      if k == |s| then [s] else [s[..k]] + SplitLines(s[k + BreakWidth(s, k)..])
  }

  /** The first position of a character, or the end. */
  function Find(s: Text, c: char): (k: nat)
    ensures k <= |s| && (k < |s| ==> s[k] == c) && forall i :: 0 <= i < k ==> s[i] != c
  {
    if s == "" || s[0] == c then 0 else 1 + Find(s[1..], c)
  }

  // ----- the keyring -----

  datatype LineMeaning = Ignored | Entry(keyId: Text, key: seq<Byte>) | Malformed | BadBase64

  function MeaningOfEntry(entry: Text): LineMeaning {
    if entry == "" || entry[0] == '#' then Ignored
    else
      var k := Find(entry, '=');
      if k == |entry| || Strip(entry[..k]) == "" then Malformed
      else
        match DecodeStrict(Strip(entry[k + 1..]))
        case None => BadBase64
        case Some(key) => Entry(Strip(entry[..k]), key)
  }

  function Meaning(line: Text): LineMeaning {
    MeaningOfEntry(Strip(line))
  }

  datatype Loaded = Ring(keyring: map<Text, seq<Byte>>) | MalformedEntry | KeyNotBase64 | NoKeys

  /** One more line; the first line that is wrong decides. */
  function WithLine(sofar: Loaded, line: Text): Loaded {
    if !sofar.Ring? then sofar
    else
      match Meaning(line)
      case Ignored => sofar
      case Entry(keyId, key) => Ring(sofar.keyring[keyId := key])
      case Malformed => MalformedEntry
      case BadBase64 => KeyNotBase64
  }

  function WithLines(sofar: Loaded, lines: seq<Text>): Loaded
    decreases |lines|
  {
    if lines == [] then sofar else WithLines(WithLine(sofar, lines[0]), lines[1..])
  }

  /** The keyring in a secret's value, which is stripped when it is resolved. */
  function KeyringOf(secret: Text): Loaded {
    var read := WithLines(Ring(map[]), SplitLines(Strip(secret)));
    if read == Ring(map[]) then NoKeys else read
  }

  method LoadKeyring(secret: Text) returns (r: Loaded)
    ensures r == KeyringOf(secret)
  {
    hide Strip, SplitLines, MeaningOfEntry;
    var lines := SplitLines(Strip(secret));
    var keyring: map<Text, seq<Byte>> := map[];
    for i := 0 to |lines|
      invariant WithLines(Ring(map[]), lines) == WithLines(Ring(keyring), lines[i..])
    {
      assert lines[i..][0] == lines[i] && lines[i..][1..] == lines[i + 1..];
      match Meaning(lines[i])
      case Ignored =>
      case Entry(keyId, key) => keyring := keyring[keyId := key];
      case Malformed =>
        ErrorStays(MalformedEntry, lines[i + 1..]);
        return MalformedEntry;
      case BadBase64 =>
        ErrorStays(KeyNotBase64, lines[i + 1..]);
        return KeyNotBase64;
    }
    r := if keyring == map[] then NoKeys else Ring(keyring);
  }

  lemma {:induction false} ErrorStays(e: Loaded, lines: seq<Text>)
    requires !e.Ring?
    ensures WithLines(e, lines) == e
    decreases |lines|
  {
    if lines != [] {
      ErrorStays(e, lines[1..]);
    }
  }

  // ----- stripping the whole text changes no line's meaning -----

  lemma StripPrepend(c: char, s: Text)
    requires Space(c)
    ensures Strip([c] + s) == Strip(s)
  {
    assert ([c] + s)[1..] == s;
  }

  lemma {:induction false} StripAppend(s: Text, c: char)
    requires Space(c)
    ensures Strip(s + [c]) == Strip(s)
    decreases |s|
  {
    if s == "" {
      assert s + [c] == [c];
      StripPrepend(c, "");
      assert [c] + "" == [c];
    } else if Space(s[0]) {
      assert (s + [c])[1..] == s[1..] + [c];
      StripAppend(s[1..], c);
    } else {
      assert (s + [c])[..|s|] == s;
    }
  }

  lemma BlankIsIgnored(sofar: Loaded)
    ensures WithLine(sofar, "") == sofar
  {
  }

  lemma FirstLine(sofar: Loaded, line: Text, lines: seq<Text>)
    ensures WithLines(sofar, [line] + lines) == WithLines(WithLine(sofar, line), lines)
  {
    assert ([line] + lines)[1..] == lines;
  }

  lemma OneLine(sofar: Loaded, line: Text)
    ensures WithLines(sofar, [line]) == WithLine(sofar, line)
  {
    FirstLine(sofar, line, []);
    assert [line] + [] == [line];
  }

  lemma SameMeaning(sofar: Loaded, line: Text, line': Text)
    requires Strip(line) == Strip(line')
    ensures WithLine(sofar, line) == WithLine(sofar, line')
  {
  }

  lemma BreakAtPrepend(c: char, s: Text)
    ensures BreakAt([c] + s) == if LineBreak(c) then 0 else 1 + BreakAt(s)
  {
    assert ([c] + s)[1..] == s;
  }

  lemma SplitNoBreak(s: Text)
    requires s != "" && BreakAt(s) == |s|
    ensures SplitLines(s) == [s]
  {
  }

  lemma SplitAtBreak(s: Text, k: nat)
    requires k < |s| && BreakAt(s) == k
    ensures SplitLines(s) == [s[..k]] + SplitLines(s[k + BreakWidth(s, k)..])
  {
  }

  lemma LeadingSpace(sofar: Loaded, c: char, s: Text)
    requires Space(c)
    ensures WithLines(sofar, SplitLines([c] + s)) == WithLines(sofar, SplitLines(s))
  {
    hide WithLine, WithLines, SplitLines, Space, LineBreak, Strip, BreakAt;
    var t, k := [c] + s, BreakAt(s);
    BreakAtPrepend(c, s);
    BlankIsIgnored(sofar);
    if LineBreak(c) {
      SplitAtBreak(t, 0);
      assert t[..0] == "";
      if BreakWidth(t, 0) == 2 {
        assert t[2..] == s[1..] && s[..0] == "";
        FeedBreaks(s);
        SplitAtBreak(s, 0);
      } else {
        assert t[1..] == s;
        FirstLine(sofar, "", SplitLines(s));
      }
    } else if s == "" {
      SplitNoBreak(t);
      OneLine(sofar, t);
      StripPrepend(c, "");
      SameMeaning(sofar, t, "");
      NoLines(sofar);
    } else if k == |s| {
      SplitNoBreak(t);
      SplitNoBreak(s);
      OneLine(sofar, t);
      OneLine(sofar, s);
      StripPrepend(c, s);
      SameMeaning(sofar, t, s);
    } else {
      var rest := s[k + BreakWidth(s, k)..];
      SplitAtBreak(s, k);
      SplitAtBreak(t, k + 1);
      assert t[..k + 1] == [c] + s[..k];
      assert t[k + 1 + BreakWidth(t, k + 1)..] == rest;
      StripPrepend(c, s[..k]);
      SameMeaning(sofar, [c] + s[..k], s[..k]);
      FirstLine(sofar, [c] + s[..k], SplitLines(rest));
      FirstLine(sofar, s[..k], SplitLines(rest));
    }
  }

  lemma NoLines(sofar: Loaded)
    ensures WithLines(sofar, SplitLines("")) == sofar
  {
  }

  lemma FeedBreaks(s: Text)
    requires s != "" && s[0] == '\n'
    ensures BreakAt(s) == 0 && BreakWidth(s, 0) == 1
  {
  }

  lemma {:induction false} BreakAtAppend(s: Text, c: char)
    ensures BreakAt(s + [c]) ==
            if BreakAt(s) < |s| then BreakAt(s) else if LineBreak(c) then |s| else |s| + 1
    decreases |s|
  {
    if s == "" {
      BreakAtPrepend(c, "");
      assert s + [c] == [c] + "";
    } else {
      assert s + [c] == [s[0]] + (s[1..] + [c]) && s == [s[0]] + s[1..];
      BreakAtPrepend(s[0], s[1..] + [c]);
      BreakAtPrepend(s[0], s[1..]);
      BreakAtAppend(s[1..], c);
    }
  }

  lemma {:induction false} TrailingSpace(sofar: Loaded, s: Text, c: char)
    requires Space(c)
    ensures WithLines(sofar, SplitLines(s + [c])) == WithLines(sofar, SplitLines(s))
    decreases |s|
  {
    hide WithLine, WithLines, SplitLines, Space, LineBreak, Strip, BreakAt;
    var t, k := s + [c], BreakAt(s);
    BreakAtAppend(s, c);
    BlankIsIgnored(sofar);
    if k < |s| {
      SplitAtBreak(s, k);
      SplitAtBreak(t, k);
      assert t[..k] == s[..k];
      var w := BreakWidth(s, k);
      var rest := s[k + w..];
      FirstLine(sofar, s[..k], SplitLines(rest));
      if BreakWidth(t, k) == w {
        assert t[k + w..] == rest + [c];
        TrailingSpace(WithLine(sofar, s[..k]), rest, c);
        FirstLine(sofar, s[..k], SplitLines(rest + [c]));
      } else {
        assert t[k + 2..] == "" && rest == "";
      }
    } else {
      LastLine(sofar, s);
      StripAppend(s, c);
      SameMeaning(sofar, t, s);
      if LineBreak(c) {
        SplitAtBreak(t, |s|);
        assert t[..|s|] == s && t[|s| + BreakWidth(t, |s|)..] == "";
        FirstLine(sofar, s, SplitLines(""));
        NoLines(WithLine(sofar, s));
      } else {
        SplitNoBreak(t);
        OneLine(sofar, t);
      }
    }
  }

  lemma LastLine(sofar: Loaded, s: Text)
    requires BreakAt(s) == |s|
    ensures WithLines(sofar, SplitLines(s)) == WithLine(sofar, s)
  {
    if s == "" {
      BlankIsIgnored(sofar);
    } else {
      SplitNoBreak(s);
      OneLine(sofar, s);
    }
  }

  lemma {:induction false} LeftStripKeeps(sofar: Loaded, s: Text)
    ensures WithLines(sofar, SplitLines(LeftStrip(s))) == WithLines(sofar, SplitLines(s))
    decreases |s|
  {
    hide WithLines, SplitLines, Space;
    if s != "" && Space(s[0]) {
      LeftStripKeeps(sofar, s[1..]);
      assert s == [s[0]] + s[1..];
      LeadingSpace(sofar, s[0], s[1..]);
    }
  }

  lemma {:induction false} RightStripKeeps(sofar: Loaded, s: Text)
    ensures WithLines(sofar, SplitLines(RightStrip(s))) == WithLines(sofar, SplitLines(s))
    decreases |s|
  {
    hide WithLines, SplitLines, Space;
    if s != "" && Space(s[|s| - 1]) {
      var n := |s| - 1;
      RightStripKeeps(sofar, s[..n]);
      assert s == s[..n] + [s[n]];
      TrailingSpace(sofar, s[..n], s[n]);
    }
  }

  /** Resolving a secret strips it; the lines read are the same with or without. */
  lemma StripKeepsTheKeyring(sofar: Loaded, s: Text)
    ensures WithLines(sofar, SplitLines(Strip(s))) == WithLines(sofar, SplitLines(s))
  {
    hide WithLines, SplitLines;
    LeftStripKeeps(sofar, s);
    RightStripKeeps(sofar, LeftStrip(s));
  }

  // ----- a keyring file is read back -----

  predicate OneLineOf(line: Text) {
    BreakAt(line) == |line|
  }

  /** An id that the file format can carry. */
  predicate WellFormedId(id: Text) {
    id != "" && id[0] != '#' && '=' !in id && !Space(id[0]) && !Space(id[|id| - 1])
  }

  predicate Blank(s: Text) {
    forall i :: 0 <= i < |s| ==> Space(s[i])
  }

  /** A blank line, a comment, or an entry, with any spaces around it and around its `=`. */
  ghost predicate Renders(line: Text, m: LineMeaning) {
    && OneLineOf(line)
    && match m
       case Ignored => Strip(line) == "" || Strip(line)[0] == '#'
       case Entry(id, key) =>
         && WellFormedId(id)
         && exists before, after ::
              Blank(before) && Blank(after) && Strip(line) == id + before + "=" + after + Encode64(key, false)
       case Malformed => false
       case BadBase64 => false
  }

  /** One line break, as some platform writes it. */
  predicate IsBreak(b: Text) {
    b == "\r\n" || (|b| == 1 && LineBreak(b[0]))
  }

  /** A break after every line; the last may go without. */
  ghost predicate Breaks(breaks: seq<Text>) {
    forall i :: 0 <= i < |breaks| ==> IsBreak(breaks[i]) || (i == |breaks| - 1 && breaks[i] == "")
  }

  function Written(lines: seq<Text>, breaks: seq<Text>): Text
    requires |lines| == |breaks|
  {
    if lines == [] then "" else lines[0] + breaks[0] + Written(lines[1..], breaks[1..])
  }

  /** The entries of a file; a later one for the same id replaces an earlier. */
  function KeysIn(sofar: map<Text, seq<Byte>>, meanings: seq<LineMeaning>): map<Text, seq<Byte>>
    decreases |meanings|
  {
    if meanings == [] then sofar
    else if meanings[0].Entry? then KeysIn(sofar[meanings[0].keyId := meanings[0].key], meanings[1..])
    else KeysIn(sofar, meanings[1..])
  }

  lemma {:induction false} FindAppend(id: Text, c: char, rest: Text)
    requires c !in id
    ensures Find(id + [c] + rest, c) == |id|
    decreases |id|
  {
    var s := id + [c] + rest;
    if id != "" {
      assert s[1..] == id[1..] + [c] + rest;
      FindAppend(id[1..], c, rest);
    }
  }

  lemma {:induction false} EncodedHasNoSpace(key: seq<Byte>)
    ensures forall i :: 0 <= i < |Packed(key, false)| ==> !Space(Packed(key, false)[i])
    decreases |key|
  {
    if |key| > 2 {
      EncodedHasNoSpace(key[3..]);
    }
  }

  lemma StripNothing(s: Text)
    requires s == "" || (!Space(s[0]) && !Space(s[|s| - 1]))
    ensures Strip(s) == s
  {
  }

  lemma EncodedIsStripped(key: seq<Byte>)
    ensures Strip(Encode64(key, false)) == Encode64(key, false)
  {
    var data, n := Packed(key, false), if |key| % 3 == 1 then 2 else if |key| % 3 == 2 then 1 else 0;
    EncodedHasNoSpace(key);
    PackedShape(key, false);
    assert Padding(0) == "" && Padding(1) == "=" && Padding(2) == "==";
    StripNothing(data + Padding(n));
  }

  lemma {:induction false} TrimRight(s: Text, spaces: Text)
    requires Blank(spaces)
    ensures Strip(s + spaces) == Strip(s)
    decreases |spaces|
  {
    if spaces == "" {
      assert s + spaces == s;
    } else {
      var n := |spaces| - 1;
      TrimRight(s, spaces[..n]);
      StripAppend(s + spaces[..n], spaces[n]);
      assert s + spaces == s + spaces[..n] + [spaces[n]];
    }
  }

  lemma {:induction false} TrimLeft(spaces: Text, s: Text)
    requires Blank(spaces)
    ensures Strip(spaces + s) == Strip(s)
    decreases |spaces|
  {
    if spaces == "" {
      assert spaces + s == s;
    } else {
      TrimLeft(spaces[1..], s);
      StripPrepend(spaces[0], spaces[1..] + s);
      assert spaces + s == [spaces[0]] + (spaces[1..] + s);
    }
  }

  lemma BlankHasNoSeparator(s: Text)
    requires Blank(s)
    ensures '=' !in s
  {
  }

  lemma EntryMeaning(id: Text, before: Text, after: Text, key: seq<Byte>)
    requires WellFormedId(id) && Blank(before) && Blank(after)
    ensures MeaningOfEntry(id + before + "=" + after + Encode64(key, false)) == Entry(id, key)
  {
    hide Space, Strip, Encode64, Blank;
    var encoded := Encode64(key, false);
    var entry, k := id + before + "=" + after + encoded, |id + before|;
    BlankHasNoSeparator(before);
    FindAppend(id + before, '=', after + encoded);
    assert entry == id + before + ['='] + (after + encoded);
    assert entry[..k] == id + before && entry[k + 1..] == after + encoded;
    assert entry[0] == id[0];
    TrimRight(id, before);
    StripNothing(id);
    TrimLeft(after, encoded);
    EncodedIsStripped(key);
    StrictRoundTrip(key);
  }

  lemma RenderedMeaning(line: Text, m: LineMeaning)
    requires Renders(line, m)
    ensures Meaning(line) == m
  {
    hide Space, Strip, Encode64, WellFormedId, Blank;
    match m
    case Ignored =>
    case Entry(id, key) =>
      var before, after :|
        Blank(before) && Blank(after) && Strip(line) == id + before + "=" + after + Encode64(key, false);
      EntryMeaning(id, before, after, key);
    case Malformed =>
    case BadBase64 =>
  }

  lemma {:induction false} BreakAtEnd(line: Text, tail: Text)
    requires OneLineOf(line) && tail != "" && LineBreak(tail[0])
    ensures BreakAt(line + tail) == |line|
    decreases |line|
  {
    if line == "" {
      assert line + tail == tail;
    } else {
      assert (line + tail)[1..] == line[1..] + tail;
      BreakAtEnd(line[1..], tail);
    }
  }

  /** A written line reads as itself, followed by the lines after it, whatever its break:
      even where a carriage return swallows the line feed of an empty next line. */
  lemma OneWrittenLine(sofar: Loaded, line: Text, b: Text, rest: Text)
    requires OneLineOf(line) && IsBreak(b)
    ensures WithLines(sofar, SplitLines(line + b + rest)) == WithLines(WithLine(sofar, line), SplitLines(rest))
  {
    hide WithLine, WithLines, SplitLines, BreakAt;
    var s, k := line + b + rest, |line|;
    assert s == line + (b + rest);
    BreakAtEnd(line, b + rest);
    SplitAtBreak(s, k);
    assert s[..k] == line;
    FirstLine(sofar, line, SplitLines(s[k + BreakWidth(s, k)..]));
    if BreakWidth(s, k) == |b| {
      assert s[k + |b|..] == rest;
    } else {
      assert s[k + 2..] == rest[1..];
      FeedBreaks(rest);
      SplitAtBreak(rest, 0);
      assert rest[..0] == "";
      FirstLine(WithLine(sofar, line), "", SplitLines(rest[1..]));
      BlankIsIgnored(WithLine(sofar, line));
    }
  }

  lemma {:induction false} WrittenReads(sofar: Loaded, lines: seq<Text>, breaks: seq<Text>)
    requires |lines| == |breaks| && Breaks(breaks) && forall i :: 0 <= i < |lines| ==> OneLineOf(lines[i])
    ensures WithLines(sofar, SplitLines(Written(lines, breaks))) == WithLines(sofar, lines)
    decreases |lines|
  {
    hide WithLine, SplitLines, OneLineOf;
    if lines == [] {
      NoLines(sofar);
    } else {
      var rest := Written(lines[1..], breaks[1..]);
      assert lines == [lines[0]] + lines[1..];
      FirstLine(sofar, lines[0], lines[1..]);
      if breaks[0] == "" {
        assert lines[0] + "" + "" == lines[0] && lines[1..] == [];
        WholeLine(sofar, lines[0]);
      } else {
        forall i | 0 <= i < |breaks[1..]|
          ensures IsBreak(breaks[1..][i]) || (i == |breaks[1..]| - 1 && breaks[1..][i] == "")
        {
          assert breaks[1..][i] == breaks[i + 1];
        }
        WrittenReads(WithLine(sofar, lines[0]), lines[1..], breaks[1..]);
        OneWrittenLine(sofar, lines[0], breaks[0], rest);
      }
    }
  }

  lemma WholeLine(sofar: Loaded, line: Text)
    requires OneLineOf(line)
    ensures WithLines(sofar, SplitLines(line)) == WithLine(sofar, line)
  {
    LastLine(sofar, line);
  }

  lemma {:induction false} RenderedLines(sofar: map<Text, seq<Byte>>, lines: seq<Text>, meanings: seq<LineMeaning>)
    requires |lines| == |meanings| && forall i :: 0 <= i < |lines| ==> Renders(lines[i], meanings[i])
    ensures WithLines(Ring(sofar), lines) == Ring(KeysIn(sofar, meanings))
    decreases |lines|
  {
    hide Renders, Meaning;
    if lines != [] {
      RenderedMeaning(lines[0], meanings[0]);
      var next := WithLine(Ring(sofar), lines[0]);
      assert Renders(lines[0], meanings[0]);
      MeaningIsGood(lines[0], meanings[0]);
      RenderedLines(next.keyring, lines[1..], meanings[1..]);
    }
  }

  lemma MeaningIsGood(line: Text, m: LineMeaning)
    requires Renders(line, m)
    ensures m.Ignored? || m.Entry?
  {
  }

  lemma RenderedIsOneLine(line: Text, m: LineMeaning)
    requires Renders(line, m)
    ensures OneLineOf(line)
  {
  }

  /** A file of entries, whatever comments, blank lines, spaces and line breaks surround
      them, is read back as those entries; a file with none is refused. */
  lemma KeyringRoundTrip(lines: seq<Text>, breaks: seq<Text>, meanings: seq<LineMeaning>)
    requires |lines| == |breaks| == |meanings| && Breaks(breaks)
    requires forall i :: 0 <= i < |lines| ==> Renders(lines[i], meanings[i])
    ensures var keys := KeysIn(map[], meanings);
            KeyringOf(Written(lines, breaks)) == if keys == map[] then NoKeys else Ring(keys)
  {
    hide WithLines, SplitLines, Strip, Written, KeysIn, Meaning, Renders, OneLineOf, Breaks;
    StripKeepsTheKeyring(Ring(map[]), Written(lines, breaks));
    forall i | 0 <= i < |lines| ensures OneLineOf(lines[i]) {
      RenderedIsOneLine(lines[i], meanings[i]);
    }
    WrittenReads(Ring(map[]), lines, breaks);
    RenderedLines(map[], lines, meanings);
  }

  // ----- a keyring file is refused -----

  /** A line that is neither blank nor a comment, and no entry: it has no `=`, or nothing
      but spaces before the first. */
  ghost predicate NoEntry(line: Text) {
    && OneLineOf(line) && Strip(line) != "" && Strip(line)[0] != '#'
    && ('=' !in Strip(line) || exists k :: EmptyId(Strip(line), k))
  }

  ghost predicate EmptyId(entry: Text, k: int) {
    0 <= k < |entry| && entry[k] == '=' && forall i :: 0 <= i < k ==> Space(entry[i])
  }

  /** An entry whose key, after the first `=`, is not strict base64. */
  ghost predicate NoKey(line: Text) {
    && OneLineOf(line) && Strip(line) != "" && Strip(line)[0] != '#'
    && exists id, encoded ::
         && Strip(line) == id + "=" + encoded && '=' !in id && !Blank(id)
         && DecodeStrict(Strip(encoded)).None?
  }

  lemma {:induction false} BlankIsStripped(s: Text)
    ensures Strip(s) == "" <==> Blank(s)
    decreases |s|
  {
    if Blank(s) {
      TrimLeft(s, "");
      assert s + "" == s;
    } else {
      var i :| 0 <= i < |s| && !Space(s[i]);
      NotAllStripped(s, i);
    }
  }

  lemma {:induction false} NotAllStripped(s: Text, i: nat)
    requires i < |s| && !Space(s[i])
    ensures Strip(s) != ""
    decreases |s|
  {
    if Space(s[0]) {
      NotAllStripped(s[1..], i - 1);
    } else {
      StopsAtFirst(s);
    }
  }

  lemma {:induction false} StopsAtFirst(s: Text)
    requires s != "" && !Space(s[0])
    ensures RightStrip(s) != ""
    decreases |s|
  {
    if |s| > 1 && Space(s[|s| - 1]) {
      StopsAtFirst(s[..|s| - 1]);
    }
  }

  lemma FirstSeparator(entry: Text, k: int)
    requires 0 <= k < |entry| && entry[k] == '=' && forall i :: 0 <= i < k ==> entry[i] != '='
    ensures Find(entry, '=') == k
  {
  }

  lemma BadLineMeans(line: Text)
    ensures NoEntry(line) ==> Meaning(line) == Malformed
    ensures NoKey(line) ==> Meaning(line) == BadBase64
  {
    hide Space, Strip, DecodeStrict, Blank;
    var entry := Strip(line);
    if NoEntry(line) && '=' in entry {
      var k :| EmptyId(entry, k);
      SpaceIsNoSeparator();
      FirstSeparator(entry, k);
      BlankPrefix(entry, k);
      BlankIsStripped(entry[..k]);
    }
    if NoKey(line) {
      var id, encoded :| entry == id + "=" + encoded && '=' !in id && !Blank(id) && DecodeStrict(Strip(encoded)).None?;
      FindAppend(id, '=', encoded);
      assert entry == id + ['='] + encoded;
      assert entry[..|id|] == id && entry[|id| + 1..] == encoded;
      BlankIsStripped(id);
    }
  }

  lemma SpaceIsNoSeparator()
    ensures !Space('=')
  {
  }

  lemma BlankPrefix(entry: Text, k: int)
    requires EmptyId(entry, k)
    ensures Blank(entry[..k])
  {
  }

  lemma {:induction false} LinesInTwo(sofar: Loaded, a: seq<Text>, b: seq<Text>)
    ensures WithLines(sofar, a + b) == WithLines(WithLines(sofar, a), b)
    decreases |a|
  {
    hide WithLine;
    if a == [] {
      assert a + b == b;
    } else {
      assert (a + b)[1..] == a[1..] + b;
      LinesInTwo(WithLine(sofar, a[0]), a[1..], b);
    }
  }

  lemma AllOneLine(good: seq<Text>, meanings: seq<LineMeaning>, bad: Text, rest: seq<Text>)
    requires |good| == |meanings| && forall i :: 0 <= i < |good| ==> Renders(good[i], meanings[i])
    requires (NoEntry(bad) || NoKey(bad)) && forall i :: 0 <= i < |rest| ==> OneLineOf(rest[i])
    ensures forall i :: 0 <= i < |good + [bad] + rest| ==> OneLineOf((good + [bad] + rest)[i])
  {
    hide Strip, Renders, OneLineOf, DecodeStrict, Blank;
    var lines := good + [bad] + rest;
    forall i | 0 <= i < |lines| ensures OneLineOf(lines[i]) {
      if i < |good| {
        RenderedIsOneLine(good[i], meanings[i]);
      } else if i > |good| {
        assert lines[i] == rest[i - |good| - 1];
      }
    }
  }

  /** The first line of a file that is wrong decides how the file is refused, whatever
      follows it. */
  lemma FirstBadLineDecides(
    good: seq<Text>, meanings: seq<LineMeaning>, bad: Text, rest: seq<Text>, breaks: seq<Text>)
    requires |good| == |meanings| && forall i :: 0 <= i < |good| ==> Renders(good[i], meanings[i])
    requires forall i :: 0 <= i < |rest| ==> OneLineOf(rest[i])
    requires |breaks| == |good| + 1 + |rest| && Breaks(breaks)
    ensures NoEntry(bad) ==> KeyringOf(Written(good + [bad] + rest, breaks)) == MalformedEntry
    ensures NoKey(bad) ==> KeyringOf(Written(good + [bad] + rest, breaks)) == KeyNotBase64
  {
    hide WithLines, SplitLines, Strip, Written, KeysIn, Meaning, Renders, OneLineOf, Breaks, NoEntry, NoKey;
    if NoEntry(bad) || NoKey(bad) {
      StripKeepsTheKeyring(Ring(map[]), Written(good + [bad] + rest, breaks));
      AllOneLine(good, meanings, bad, rest);
      WrittenReads(Ring(map[]), good + [bad] + rest, breaks);
      BadLineStops(good, meanings, bad, rest);
    }
  }

  lemma BadLineStops(good: seq<Text>, meanings: seq<LineMeaning>, bad: Text, rest: seq<Text>)
    requires |good| == |meanings| && forall i :: 0 <= i < |good| ==> Renders(good[i], meanings[i])
    ensures var read := WithLines(Ring(map[]), good + [bad] + rest);
            (NoEntry(bad) ==> read == MalformedEntry) && (NoKey(bad) ==> read == KeyNotBase64)
  {
    hide WithLines, Strip, KeysIn, Meaning, Renders, NoEntry, NoKey;
    BadLineMeans(bad);
    RenderedLines(map[], good, meanings);
    assert good + [bad] + rest == good + ([bad] + rest);
    LinesInTwo(Ring(map[]), good, [bad] + rest);
    var sofar := Ring(KeysIn(map[], meanings));
    FirstLine(sofar, bad, rest);
    if NoEntry(bad) || NoKey(bad) {
      ErrorStays(WithLine(sofar, bad), rest);
    }
  }

  // ----- the characters that count as space and as line breaks -----

  /** White space and line breaks, character by character. */
  lemma SpacesAre(c: char)
    ensures Space(c) <==> c as int in {
              9, 10, 11, 12, 13, 28, 29, 30, 31, 32, 133, 160, 5760, 8192, 8193, 8194, 8195, 8196, 8197, 8198, 8199,
              8200, 8201, 8202, 8232, 8233, 8239, 8287, 12288}
    ensures LineBreak(c) <==> c as int in {10, 11, 12, 13, 28, 29, 30, 133, 8232, 8233}
  {
  }

  /** What is signed with a key of a file verifies against the keyring read from it. */
  lemma SignedVerifies<C>(
    intent: Intent<C>, keyId: Text, lines: seq<Text>, breaks: seq<Text>, meanings: seq<LineMeaning>, mac: Mac,
    serialize: Intent<C> -> seq<Byte>)
    requires IsMac(mac)
    requires |lines| == |breaks| == |meanings| && Breaks(breaks)
    requires forall i :: 0 <= i < |lines| ==> Renders(lines[i], meanings[i])
    requires keyId in KeysIn(map[], meanings)
    ensures var read := KeyringOf(Written(lines, breaks));
            && read.Ring?
            && var signed := SignIntent(intent, keyId, KeysIn(map[], meanings)[keyId], mac, serialize);
               VerifyIntent(signed, read.keyring, mac, serialize) == VerifiedOk
  {
    hide KeyringOf, Written, KeysIn, Renders, SignIntent, VerifyIntent, Breaks;
    KeyringRoundTrip(lines, breaks, meanings);
    var keys := KeysIn(map[], meanings);
    var signed := SignIntent(intent, keyId, keys[keyId], mac, serialize);
    SigningIsStable(intent, keyId, keys[keyId], keyId, keys[keyId], mac, serialize);
    assert signed.keyId == keyId by {
      SignedCarriesId(intent, keyId, keys[keyId], mac, serialize);
    }
    VerifiesIff(signed, keys, mac, serialize);
  }

  lemma SignedCarriesId<C>(intent: Intent<C>, keyId: Text, key: seq<Byte>, mac: Mac, serialize: Intent<C> -> seq<Byte>)
    ensures SignIntent(intent, keyId, key, mac, serialize).keyId == keyId
  {
  }
}
