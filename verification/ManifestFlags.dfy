/**
 The hand-written manifest scanner (`_varint` and `manifest_feature_flags` in `lakehouse_kit/features.py`):
 base-128 varints and the skipping of fields by wire type, as the Protocol Buffers Encoding guide lays them
 out ("Base 128 Varints", "Message Structure"). The encoder is `varint` in `conftest.py`.

 A byte's seven bits are added where the source ors them in: each lands above every bit before it.
 */
module ManifestFlags {
  type byte = b: int | 0 <= b < 256

  const READER_FLAGS_FIELD := 9
  const WRITER_FLAGS_FIELD := 10

  // ---------------------------------------------------------------- varints

  /** The varint at `i`, little end first, and the index past it; one the bytes end in is cut short. */
  function VarintAt(blob: seq<byte>, i: nat): (r: (nat, nat))
    ensures i < |blob| ==> i < r.1 <= |blob|
    ensures i >= |blob| ==> r == (0, i)
    decreases |blob| - i
  {
    if i >= |blob| then (0, i)
    else if blob[i] < 128 then (blob[i], i + 1)
    else
      var rest := VarintAt(blob, i + 1);
      (blob[i] - 128 + 128 * rest.0, rest.1)
  }

  function Encode(n: nat): (bytes: seq<byte>)
    ensures |bytes| >= 1
  {
    if n < 128 then [n] else [n % 128 + 128] + Encode(n / 128)
  }

  /** Decoding undoes encoding, for every natural number, wherever it stands and whatever follows. */
  lemma {:induction false} DecodeUndoesEncode(blob: seq<byte>, i: nat, n: nat)
    requires i + |Encode(n)| <= |blob| && blob[i..i + |Encode(n)|] == Encode(n)
    ensures VarintAt(blob, i) == (n, i + |Encode(n)|)
    decreases n
  {
    var own := Encode(n);
    assert blob[i] == blob[i..i + |own|][0] == own[0];
    if n >= 128 {
      assert own[1..] == Encode(n / 128);
      assert blob[i + 1..i + |own|] == blob[i..i + |own|][1..];
      DecodeUndoesEncode(blob, i + 1, n / 128);
    }
  }

  /** What is still to come of a varint, at the weight its next byte has. */
  function Scaled(weight: nat, rest: nat): nat {
    weight * rest
  }

  lemma {:induction false} SevenBitsUp(weight: nat, low: nat, rest: nat)
    ensures Scaled(weight, low + 128 * rest) == low * weight + Scaled(128 * weight, rest)
    ensures Scaled(weight, low) == low * weight && Scaled(weight, 0) == 0 && Scaled(1, rest) == rest
  {
  }

  /** `_varint` as it runs: seven bits a byte, each byte's a further seven up. */
  method Varint(blob: seq<byte>, start: nat) returns (value: nat, next: nat)
    ensures (value, next) == VarintAt(blob, start)
  {
    hide Scaled;
    value, next := 0, start;
    var weight: nat := 1;
    SevenBitsUp(weight, 0, VarintAt(blob, start).0);
    while next < |blob|
      invariant start <= next && (next <= |blob| || next == start)
      invariant value + Scaled(weight, VarintAt(blob, next).0) == VarintAt(blob, start).0
      invariant VarintAt(blob, next).1 == VarintAt(blob, start).1
    {
      var b := blob[next];
      if b < 128 {
        SevenBitsUp(weight, b, 0);
        value := value + b * weight;
        next := next + 1;
        return;
      }
      SevenBitsUp(weight, b - 128, VarintAt(blob, next + 1).0);
      value := value + (b - 128) * weight;
      weight := 128 * weight;
      next := next + 1;
    }
    SevenBitsUp(weight, 0, 0);
  }

  // ---------------------------------------------------------------- the scan

  /** The flags found from index `i` on, given those found before it. */
  function ScanFrom(blob: seq<byte>, i: nat, reader: nat, writer: nat): (nat, nat)
    decreases |blob| - i
  {
    if i >= |blob| then (reader, writer)
    else
      var (key, after) := VarintAt(blob, i);
      var field, wire := key / 8, key % 8;
      if wire == 0 then
        var (value, next) := VarintAt(blob, after);
        ScanFrom(blob, next,
                 if field == READER_FLAGS_FIELD then value else reader,
                 if field == WRITER_FLAGS_FIELD then value else writer)
      else if wire == 2 then
        var (length, next) := VarintAt(blob, after);
        ScanFrom(blob, next + length, reader, writer)
      else if wire == 5 then ScanFrom(blob, after + 4, reader, writer)
      else if wire == 1 then ScanFrom(blob, after + 8, reader, writer)
      else (reader, writer)
  }

  /** `manifest_feature_flags` as it runs, on any bytes at all; it always ends. */
  method ManifestFeatureFlags(blob: seq<byte>) returns (reader: nat, writer: nat)
    ensures (reader, writer) == ScanFrom(blob, 0, 0, 0)
  {
    reader, writer := 0, 0;
    var i := 0;
    while i < |blob|
      invariant 0 <= i && ScanFrom(blob, i, reader, writer) == ScanFrom(blob, 0, 0, 0)
      decreases |blob| - i
    {
      var key, after := Varint(blob, i);
      var field, wire := key / 8, key % 8;
      if wire == 0 {
        var value, next := Varint(blob, after);
        if field == READER_FLAGS_FIELD {
          reader := value;
        } else if field == WRITER_FLAGS_FIELD {
          writer := value;
        }
        i := next;
      } else if wire == 2 {
        var length, next := Varint(blob, after);
        i := next + length;
      } else if wire == 5 {
        i := after + 4;
      } else if wire == 1 {
        i := after + 8;
      } else {
        break;
      }
    }
  }

  // ---------------------------------------------------------------- messages

  datatype Field =
    | VarintField(number: nat, value: nat)
    | Fixed64(number: nat, payload: seq<byte>)
    | Delimited(number: nat, payload: seq<byte>)
    | Fixed32(number: nat, payload: seq<byte>)

  predicate WellFormed(f: Field) {
    (f.Fixed64? ==> |f.payload| == 8) && (f.Fixed32? ==> |f.payload| == 4)
  }

  function EncodeField(f: Field): seq<byte> {
    match f
    case VarintField(number, value) => Encode(number * 8) + Encode(value)
    case Fixed64(number, payload) => Encode(number * 8 + 1) + payload
    case Delimited(number, payload) => Encode(number * 8 + 2) + Encode(|payload|) + payload
    case Fixed32(number, payload) => Encode(number * 8 + 5) + payload
  }

  function EncodeAll(fields: seq<Field>): seq<byte> {
    if fields == [] then [] else EncodeField(fields[0]) + EncodeAll(fields[1..])
  }

  /** The last varint a message gives field `number`, `before` when it gives none. */
  function LastOf(fields: seq<Field>, number: nat, before: nat): nat {
    if fields == [] then before
    else LastOf(fields[1..], number, After(fields[0], number, before))
  }

  lemma {:induction false} ReadsBack(blob: seq<byte>, i: nat, n: nat, rest: seq<byte>)
    requires i <= |blob| && blob[i..] == Encode(n) + rest
    ensures i + |Encode(n)| <= |blob| && VarintAt(blob, i) == (n, i + |Encode(n)|)
    ensures blob[i + |Encode(n)|..] == rest
  {
    var own := Encode(n);
    assert |blob[i..]| == |own| + |rest|;
    assert blob[i..i + |own|] == blob[i..][..|own|] == own;
    DecodeUndoesEncode(blob, i, n);
    assert blob[i + |own|..] == blob[i..][|own|..];
  }

  lemma {:induction false} ReadsTwoBack(blob: seq<byte>, i: nat, m: nat, n: nat, rest: seq<byte>)
    requires i <= |blob| && blob[i..] == Encode(m) + Encode(n) + rest
    ensures VarintAt(blob, i) == (m, i + |Encode(m)|)
    ensures i + |Encode(m)| <= |blob| && VarintAt(blob, i + |Encode(m)|) == (n, i + |Encode(m)| + |Encode(n)|)
  {
    hide VarintAt, Encode;
    assert Encode(m) + Encode(n) + rest == Encode(m) + (Encode(n) + rest);
    ReadsBack(blob, i, m, Encode(n) + rest);
    ReadsBack(blob, i + |Encode(m)|, n, rest);
  }

  lemma {:induction false} KeyParts(number: nat, wire: nat)
    requires wire < 8
    ensures (number * 8 + wire) / 8 == number && (number * 8 + wire) % 8 == wire
  {
  }

  /** What one step of the scan does with a key of field `number` and wire type `wire`. */
  lemma {:induction false} ScanStep(
      blob: seq<byte>, i: nat, number: nat, wire: nat, after: nat, value: nat, next: nat, reader: nat, writer: nat)
    requires i < |blob| && wire < 8 && VarintAt(blob, i) == (number * 8 + wire, after)
             && VarintAt(blob, after) == (value, next)
    ensures ScanFrom(blob, i, reader, writer)
            == match wire
               case 0 => ScanFrom(blob, next, if number == READER_FLAGS_FIELD then value else reader,
                                  if number == WRITER_FLAGS_FIELD then value else writer)
               case 1 => ScanFrom(blob, after + 8, reader, writer)
               case 2 => ScanFrom(blob, next + value, reader, writer)
               case 5 => ScanFrom(blob, after + 4, reader, writer)
               case _ => (reader, writer)
  {
    hide VarintAt;
    KeyParts(number, wire);
  }

  /** The flags one field leaves, given those before it. */
  function After(f: Field, number: nat, before: nat): nat {
    if f.VarintField? && f.number == number then f.value else before
  }

  lemma {:induction false} ScanOfFixed(
      blob: seq<byte>, i: nat, number: nat, wire: nat, payload: seq<byte>, rest: seq<byte>, reader: nat, writer: nat)
    requires (wire == 1 && |payload| == 8) || (wire == 5 && |payload| == 4)
    requires i <= |blob| && blob[i..] == Encode(number * 8 + wire) + payload + rest
    ensures ScanFrom(blob, i, reader, writer)
            == ScanFrom(blob, i + |Encode(number * 8 + wire) + payload|, reader, writer)
  {
    hide ScanFrom, VarintAt, Encode;
    var key := number * 8 + wire;
    assert Encode(key) + payload + rest == Encode(key) + (payload + rest);
    ReadsBack(blob, i, key, payload + rest);
    var after := i + |Encode(key)|;
    ScanStep(blob, i, number, wire, after, VarintAt(blob, after).0, VarintAt(blob, after).1, reader, writer);
  }

  /** `at` is the last field that gives `number` a varint. */
  ghost predicate IsLast(fields: seq<Field>, number: nat, at: int) {
    && 0 <= at < |fields| && fields[at].VarintField? && fields[at].number == number
    && forall k :: at < k < |fields| ==> !(fields[k].VarintField? && fields[k].number == number)
  }

  lemma {:induction false} LastOfOneMore(fields: seq<Field>, f: Field, number: nat, before: nat)
    ensures LastOf(fields + [f], number, before)
            == if f.VarintField? && f.number == number then f.value else LastOf(fields, number, before)
  {
    if fields == [] {
      assert [f][1..] == [];
    } else {
      assert (fields + [f])[1..] == fields[1..] + [f];
      LastOfOneMore(fields[1..], f, number, After(fields[0], number, before));
    }
  }

  /** What `LastOf` finds: the value of the last such field, and without one what there was before. */
  lemma {:induction false} LastOfExactly(fields: seq<Field>, number: nat, before: nat)
    ensures forall at :: IsLast(fields, number, at) ==> LastOf(fields, number, before) == fields[at].value
    ensures (forall k :: 0 <= k < |fields| ==> !(fields[k].VarintField? && fields[k].number == number))
            ==> LastOf(fields, number, before) == before
    decreases |fields|
  {
    if fields != [] {
      var n := |fields| - 1;
      var head, f := fields[..n], fields[n];
      LastOfExactly(head, number, before);
      LastOfOneMore(head, f, number, before);
      assert fields == head + [f];
      forall at | IsLast(fields, number, at) ensures LastOf(fields, number, before) == fields[at].value {
        if at < n {
          assert IsLast(head, number, at);
        }
      }
    }
  }

  /** Scanning over one field leaves the scan where the next begins, with the flags it set. */
  lemma {:induction false} ScanOfOne(blob: seq<byte>, i: nat, f: Field, rest: seq<byte>, reader: nat, writer: nat)
    requires WellFormed(f) && i <= |blob| && blob[i..] == EncodeField(f) + rest
    ensures i + |EncodeField(f)| <= |blob| && blob[i + |EncodeField(f)|..] == rest
    ensures ScanFrom(blob, i, reader, writer)
            == ScanFrom(blob, i + |EncodeField(f)|, After(f, READER_FLAGS_FIELD, reader),
                        After(f, WRITER_FLAGS_FIELD, writer))
  {
    hide ScanFrom, VarintAt, Encode;
    var own := EncodeField(f);
    assert |blob[i..]| == |own| + |rest|;
    assert blob[i + |own|..] == blob[i..][|own|..];
    match f
    case VarintField(number, value) =>
      ReadsTwoBack(blob, i, number * 8, value, rest);
      ScanStep(blob, i, number, 0, i + |Encode(number * 8)|, value, i + |own|, reader, writer);
    case Fixed64(number, payload) =>
      ScanOfFixed(blob, i, number, 1, payload, rest, reader, writer);
    case Delimited(number, payload) =>
      assert own + rest == Encode(number * 8 + 2) + Encode(|payload|) + (payload + rest);
      ReadsTwoBack(blob, i, number * 8 + 2, |payload|, payload + rest);
      var after := i + |Encode(number * 8 + 2)|;
      ScanStep(blob, i, number, 2, after, |payload|, after + |Encode(|payload|)|, reader, writer);
    case Fixed32(number, payload) =>
      ScanOfFixed(blob, i, number, 5, payload, rest, reader, writer);
  }

  lemma {:induction false} ScanOfAll(
      blob: seq<byte>, i: nat, fields: seq<Field>, tail: seq<byte>, reader: nat, writer: nat)
    requires forall f :: f in fields ==> WellFormed(f)
    requires i <= |blob| && blob[i..] == EncodeAll(fields) + tail
    ensures i + |EncodeAll(fields)| <= |blob| && blob[i + |EncodeAll(fields)|..] == tail
    ensures ScanFrom(blob, i, reader, writer)
            == ScanFrom(blob, i + |EncodeAll(fields)|, LastOf(fields, READER_FLAGS_FIELD, reader),
                        LastOf(fields, WRITER_FLAGS_FIELD, writer))
    decreases |fields|
  {
    hide ScanFrom, EncodeField;
    if fields == [] {
      assert EncodeAll(fields) + tail == tail;
    } else {
      var f, rest := fields[0], EncodeAll(fields[1..]) + tail;
      assert EncodeAll(fields) + tail == EncodeField(f) + rest;
      ScanOfOne(blob, i, f, rest, reader, writer);
      ScanOfAll(blob, i + |EncodeField(f)|, fields[1..], tail, After(f, READER_FLAGS_FIELD, reader),
                After(f, WRITER_FLAGS_FIELD, writer));
    }
  }

  /** Whatever other fields stand between them, the scan of a well-formed message answers the last varints of
      fields 9 and 10, and 0 for the one it does not give. */
  lemma {:induction false} ScanReadsTheFlags(fields: seq<Field>)
    requires forall f :: f in fields ==> WellFormed(f)
    ensures ScanFrom(EncodeAll(fields), 0, 0, 0)
            == (LastOf(fields, 9, 0), LastOf(fields, 10, 0))
  {
    var blob := EncodeAll(fields);
    assert blob[0..] == EncodeAll(fields) + [];
    ScanOfAll(blob, 0, fields, [], 0, 0);
  }

  /** At a wire type it cannot skip the scan stops, so what follows is never misread as flags. */
  lemma {:induction false} ScanStopsAtWhatItCannotSkip(fields: seq<Field>, key: nat, tail: seq<byte>)
    requires forall f :: f in fields ==> WellFormed(f)
    requires key % 8 in {3, 4, 6, 7}
    ensures ScanFrom(EncodeAll(fields) + (Encode(key) + tail), 0, 0, 0)
            == (LastOf(fields, 9, 0), LastOf(fields, 10, 0))
  {
    hide ScanFrom, EncodeAll, Encode, VarintAt, LastOf;
    var blob := EncodeAll(fields) + (Encode(key) + tail);
    assert blob[0..] == blob;
    ScanOfAll(blob, 0, fields, Encode(key) + tail, 0, 0);
    ReadsBack(blob, |EncodeAll(fields)|, key, tail);
    assert key == key / 8 * 8 + key % 8;
    var after := |EncodeAll(fields)| + |Encode(key)|;
    ScanStep(blob, |EncodeAll(fields)|, key / 8, key % 8, after, VarintAt(blob, after).0, VarintAt(blob, after).1,
             LastOf(fields, READER_FLAGS_FIELD, 0), LastOf(fields, WRITER_FLAGS_FIELD, 0));
  }

  // ---------------------------------------------------------------- flag masks

  predicate Bit(n: nat, k: nat) {
    if k == 0 then n % 2 == 1 else Bit(n / 2, k - 1)
  }

  function Power2(k: nat): (p: nat)
    ensures p >= 1
  {
    if k == 0 then 1 else 2 * Power2(k - 1)
  }

  /** The numbers whose one set bit is the k-th, and no bit besides where a number is below that. */
  lemma {:induction false} BitExactly(n: nat, k: nat)
    ensures Bit(Power2(k), k) && (n < Power2(k) ==> !Bit(n, k) && Bit(n + Power2(k), k))
    ensures forall j: nat :: j < k ==> (Bit(n + Power2(k), j) <==> Bit(n, j))
  {
    if k > 0 {
      BitExactly(n / 2, k - 1);
      assert (n + Power2(k)) / 2 == n / 2 + Power2(k - 1) && (n + Power2(k)) % 2 == n % 2;
      assert Power2(k) / 2 == Power2(k - 1);
      forall j: nat | j < k ensures Bit(n + Power2(k), j) <==> Bit(n, j) {
        if j > 0 {
          assert Bit(n / 2 + Power2(k - 1), j - 1) <==> Bit(n / 2, j - 1);
        }
      }
    }
  }

  function BitOr(a: nat, b: nat): nat {
    if a == 0 && b == 0 then 0
    else 2 * BitOr(a / 2, b / 2) + (if a % 2 == 1 || b % 2 == 1 then 1 else 0)
  }

  function BitAnd(a: nat, b: nat): nat {
    if a == 0 || b == 0 then 0
    else 2 * BitAnd(a / 2, b / 2) + (if a % 2 == 1 && b % 2 == 1 then 1 else 0)
  }

  /** `a & ~mask`. */
  function Clearing(a: nat, mask: nat): nat {
    if a == 0 then 0
    else 2 * Clearing(a / 2, mask / 2) + (if a % 2 == 1 && mask % 2 == 0 then 1 else 0)
  }

  lemma {:induction false} NoBitsInZero(k: nat)
    ensures !Bit(0, k)
  {
    if k > 0 {
      NoBitsInZero(k - 1);
    }
  }

  /** A bit above the lowest is a bit of the half. */
  lemma {:induction false} BitOfHalf(n: nat, k: nat)
    ensures Bit(n, k) <==> if k == 0 then n % 2 == 1 else Bit(n / 2, k - 1)
  {
  }

  lemma {:induction false} HalvesOfMasks(a: nat, b: nat)
    ensures BitOr(a, b) / 2 == BitOr(a / 2, b / 2) && (BitOr(a, b) % 2 == 1 <==> a % 2 == 1 || b % 2 == 1)
    ensures BitAnd(a, b) / 2 == BitAnd(a / 2, b / 2) && (BitAnd(a, b) % 2 == 1 <==> a % 2 == 1 && b % 2 == 1)
    ensures Clearing(a, b) / 2 == Clearing(a / 2, b / 2) && (Clearing(a, b) % 2 == 1 <==> a % 2 == 1 && b % 2 == 0)
  {
  }

  /** The masks are bitwise, on every bit of every number. */
  lemma {:induction false} MaskBits(a: nat, b: nat, k: nat)
    ensures Bit(BitOr(a, b), k) <==> Bit(a, k) || Bit(b, k)
    ensures Bit(BitAnd(a, b), k) <==> Bit(a, k) && Bit(b, k)
    ensures Bit(Clearing(a, b), k) <==> Bit(a, k) && !Bit(b, k)
    decreases k
  {
    hide *;
    HalvesOfMasks(a, b);
    BitOfHalf(a, k);
    BitOfHalf(b, k);
    BitOfHalf(BitOr(a, b), k);
    BitOfHalf(BitAnd(a, b), k);
    BitOfHalf(Clearing(a, b), k);
    if k > 0 {
      MaskBits(a / 2, b / 2, k - 1);
    }
  }

  lemma {:induction false} ABitIsSet(n: nat) returns (k: nat)
    requires n > 0
    ensures Bit(n, k)
  {
    if n % 2 == 1 {
      k := 0;
    } else {
      var up := ABitIsSet(n / 2);
      k := up + 1;
    }
  }

  /** A mask is empty exactly when none of its bits is set. */
  lemma {:induction false} EmptyMask(n: nat)
    ensures n == 0 <==> forall k: nat :: !Bit(n, k)
  {
    if n > 0 {
      var k := ABitIsSet(n);
      assert exists j: nat :: Bit(n, j);
    } else {
      forall k: nat ensures !Bit(n, k) {
        NoBitsInZero(k);
      }
    }
  }
}
