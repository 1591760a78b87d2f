/** Base-128 varints as the ingest layer writes and reads them.

    The two methods follow the shift/mask/or loops step by step; `Encode` and
    `ReadFrom` say the same thing by division, and the lemmas state what a
    framing layer relies on: reading is a left inverse at every offset, a cut
    varint always reads as cut short, and no shorter encoding exists.
 */
module Varint {
  import opened Bits
  import opened Rounding

  type Byte = n: int | 0 <= n < 256

  // ----- specification -----

  function Encode(n: nat): (w: seq<Byte>)
    ensures |w| > 0
  {
    if n < 128 then [n] else [n % 128 + 128] + Encode(n / 128)
  }

  datatype Reading = Read(value: nat, next: nat) | CutShort

  function ReadFrom(data: seq<Byte>, offset: nat): (r: Reading)
    ensures r.Read? ==> offset < r.next <= |data|
    decreases |data| - offset
  {
    if offset >= |data| then CutShort
    else if data[offset] < 128 then Read(data[offset], offset + 1)
    else
      match ReadFrom(data, offset + 1)
      case CutShort => CutShort
      case Read(v, next) => Read(data[offset] - 128 + 128 * v, next)
  }

  // ----- the loops -----

  method WriteVarint(n: nat) returns (out: seq<Byte>)
    ensures out == Encode(n)
  {
    hide BitOr, BitAnd, ShiftRight;
    out := [];
    var value: nat := n;
    while true
      invariant out + Encode(value) == Encode(n)
      decreases value
    {
      ByteOperations(value);
      var byte := BitAnd(value, PAYLOAD_MASK);
      var rest := ShiftRight(value, SHIFT);
      if rest != 0 {
        assert out + Encode(value) == (out + [value % 128 + 128]) + Encode(value / 128);
        out := out + [BitOr(byte, CONTINUATION_BIT)];
        value := rest;
      } else {
        out := out + [byte];
        return;
      }
    }
  }

  /** `r` with `value` already accumulated in the low `shift` bits. */
  ghost function Continued(r: Reading, value: nat, shift: nat): Reading {
    match r
    case CutShort => CutShort
    case Read(v, next) => Read(value + ShiftLeft(v, shift), next)
  }

  lemma AccumulateStep(value: nat, shift: nat, byte: nat)
    requires value < Pow2(shift) && byte < 256
    ensures BitOr(value, ShiftLeft(BitAnd(byte, PAYLOAD_MASK), shift)) == value + ShiftLeft(byte % 128, shift)
    ensures value + ShiftLeft(byte % 128, shift) < Pow2(shift + SHIFT)
  {
    ByteOperations(byte);
    OrAboveIsAdd(value, byte % 128, shift);
    ShiftBySeven(shift);
    ScaleUp(byte % 128, 127, Pow2(shift));
  }

  lemma ShiftBySeven(shift: nat)
    ensures Pow2(shift + SHIFT) == 128 * Pow2(shift)
  {
    assert Pow2(shift + 2) == 4 * Pow2(shift);
    assert Pow2(shift + 4) == 4 * Pow2(shift + 2);
    assert Pow2(shift + 6) == 4 * Pow2(shift + 4);
  }

  /** One more digit moves from the unread part into the accumulator. */
  lemma ContinuedStep(v: nat, shift: nat, digit: nat)
    ensures ShiftLeft(digit + 128 * v, shift) == ShiftLeft(digit, shift) + ShiftLeft(v, shift + SHIFT)
  {
    ShiftBySeven(shift);
    Distribute(digit, v, Pow2(shift));
  }

  lemma Distribute(d: nat, v: nat, p: nat)
    ensures (d + 128 * v) * p == d * p + v * (128 * p)
  {
  }

  lemma ReadVarintStep(data: seq<Byte>, offset: nat, value: nat, shift: nat)
    requires offset < |data| && value < Pow2(shift)
    ensures Continued(ReadFrom(data, offset), value, shift)
         == if data[offset] < 128 then Read(value + ShiftLeft(data[offset] % 128, shift), offset + 1)
            else Continued(ReadFrom(data, offset + 1), value + ShiftLeft(data[offset] % 128, shift), shift + SHIFT)
  {
    var rest := ReadFrom(data, offset + 1);
    if rest.Read? {
      ContinuedStep(rest.value, shift, data[offset] % 128);
    }
  }

  lemma StartReading(data: seq<Byte>, start: nat)
    ensures Pow2(0) == 1 && Continued(ReadFrom(data, start), 0, 0) == ReadFrom(data, start)
  {
  }

  method ReadVarint(data: seq<Byte>, start: nat) returns (r: Reading)
    ensures r == ReadFrom(data, start)
  {
    hide BitOr, BitAnd, ShiftLeft;
    var value: nat, shift: nat, offset: nat := 0, 0, start;
    StartReading(data, start);
    while offset < |data|
      invariant value < Pow2(shift)
      invariant ReadFrom(data, start) == Continued(ReadFrom(data, offset), value, shift)
      decreases |data| - offset
    {
      var byte := data[offset];
      hide Pow2, Continued;
      AccumulateStep(value, shift, byte);
      ByteOperations(byte);
      ReadVarintStep(data, offset, value, shift);
      offset := offset + 1;
      value := BitOr(value, ShiftLeft(BitAnd(byte, PAYLOAD_MASK), shift));
      if BitAnd(byte, CONTINUATION_BIT) == 0 {
        return Read(value, offset);
      }
      shift := shift + SHIFT;
    }
    return CutShort;
  }

  // ----- properties -----

  /** An encoding reads back, wherever it stands in a buffer. */
  lemma {:induction false} ReadsBack(data: seq<Byte>, offset: nat, n: nat)
    requires offset + |Encode(n)| <= |data|
    requires data[offset..offset + |Encode(n)|] == Encode(n)
    ensures ReadFrom(data, offset) == Read(n, offset + |Encode(n)|)
    decreases n
  {
    var w := Encode(n);
    assert data[offset] == w[0];
    if n >= 128 {
      assert data[offset + 1..offset + |w|] == w[1..] == Encode(n / 128);
      ReadsBack(data, offset + 1, n / 128);
    }
  }

  /** What `ReadFrom` returns depends only on the bytes it consumed. */
  lemma {:induction false} ReadIsLocal(p: seq<Byte>, q: seq<Byte>, offset: nat)
    ensures ReadFrom(p, offset).Read? ==> ReadFrom(p + q, offset) == ReadFrom(p, offset)
    ensures ReadFrom(p + q, offset).Read? && ReadFrom(p + q, offset).next <= |p| ==>
              ReadFrom(p, offset) == ReadFrom(p + q, offset)
    decreases |p| - offset
  {
    if offset < |p| {
      ReadIsLocal(p, q, offset + 1);
    }
  }

  /** Reading is insensitive to what precedes the offset. */
  lemma {:induction false} ReadShifts(pre: seq<Byte>, data: seq<Byte>, offset: nat)
    ensures ReadFrom(pre + data, |pre| + offset)
         == match ReadFrom(data, offset) case CutShort => CutShort case Read(v, n) => Read(v, |pre| + n)
    decreases |data| - offset
  {
    if offset < |data| {
      ReadShifts(pre, data, offset + 1);
    }
  }

  /** Every proper prefix of an encoding is cut short. */
  lemma ProperPrefixIsCutShort(n: nat, k: nat)
    requires k < |Encode(n)|
    ensures ReadFrom(Encode(n)[..k], 0) == CutShort
  {
    var w := Encode(n);
    assert w == w[..k] + w[k..];
    ReadIsLocal(w[..k], w[k..], 0);
    assert w[0..|w|] == w;
    ReadsBack(w, 0, n);
  }

  /** No encoding is a prefix of another. */
  lemma PrefixFree(a: nat, b: nat)
    requires Encode(a) <= Encode(b)
    ensures a == b
  {
    var v, w := Encode(a), Encode(b);
    assert w[0..|v|] == v && w[0..|w|] == w;
    ReadsBack(w, 0, a);
    ReadsBack(w, 0, b);
  }

  /** Any byte string that reads as `n` is at least as long as `Encode(n)`, and
      it is `Encode(n)` exactly when it does not end in a redundant zero byte. */
  lemma {:induction false} Shortest(w: seq<Byte>, n: nat)
    requires ReadFrom(w, 0) == Read(n, |w|)
    ensures |Encode(n)| <= |w|
    ensures w == Encode(n) <==> |w| == 1 || w[|w| - 1] != 0
    decreases |w|
  {
    if w[0] >= 128 {
      var tail := w[1..];
      assert w == [w[0]] + tail;
      ReadShifts([w[0]], tail, 0);
      var m := n / 128;
      assert ReadFrom(tail, 0) == Read(m, |tail|);
      Shortest(tail, m);
      if n >= 128 {
        assert Encode(n) == [w[0]] + Encode(m);
        assert w[1..] == tail && Encode(n)[1..] == Encode(m);
      } else {
        assert m == 0;
        if |tail| == 1 {
          assert tail[0] == 0;
        } else {
          assert Encode(0) == [0];
        }
      }
    }
  }
}
