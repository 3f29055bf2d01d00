/** The fixed-width artifact frame: the writer's appends and the strict reader
    (reference/tg_cdem_abel_measured_workload.cpp, lines 199-237 and 412-433;
    reference/tg_cdem_abel_artifact_terminal.cpp, lines 254-410). */
module ArtifactCodec {
  import opened Outcomes
  import opened MachineWords
  import opened Divisibility

  type byte = x: nat | x < 256

  // ---- Little-endian numbers -------------------------------------------------

  function LittleEndian(value: nat, count: nat): (bytes: seq<byte>)
    ensures |bytes| == count
  {
    if count == 0 then [] else [value % 256] + LittleEndian(value / 256, count - 1)
  }

  function FromLittleEndian(bytes: seq<byte>): nat {
    if bytes == [] then 0 else bytes[0] + 256 * FromLittleEndian(bytes[1..])
  }

  function Pow256(k: nat): nat {
    if k == 0 then 1 else 256 * Pow256(k - 1)
  }

  lemma {:induction false} ReadsBack(value: nat, count: nat)
    requires value < Pow256(count)
    ensures FromLittleEndian(LittleEndian(value, count)) == value
  {
    if count == 0 {
    } else {
      ReadsBack(value / 256, count - 1);
      assert LittleEndian(value, count)[1..] == LittleEndian(value / 256, count - 1);
    }
  }

  /** BYTE ORDER. Byte i of a number's wire form is its digit of weight 256^i. */
  lemma {:induction false} LittleEndianAt(value: nat, count: nat, i: nat)
    requires i < count
    ensures Pow256(i) >= 1 && LittleEndian(value, count)[i] == value / Pow256(i) % 256
  {
    if i == 0 {
    } else {
      LittleEndianAt(value / 256, count - 1, i - 1);
      DivideTwice(value, Pow256(i - 1));
    }
  }

  lemma DivideTwice(value: nat, d: nat)
    requires d >= 1
    ensures value / 256 / d == value / (256 * d)
  {
    var q, r := value / 256, value % 256;
    var t, s := q / d, q % d;
    assert value == 256 * (d * t + s) + r;
    assert 256 * (d * t + s) == 256 * d * t + 256 * s;
    DivisionUnique(value, 256 * d, t, 256 * s + r);
  }

  lemma LowDigit(b: byte, rest: nat)
    ensures (b + 256 * rest) % 256 == b && (b + 256 * rest) / 256 == rest
  {
  }

  lemma {:induction false} WritesBack(bytes: seq<byte>)
    ensures LittleEndian(FromLittleEndian(bytes), |bytes|) == bytes
    ensures FromLittleEndian(bytes) < Pow256(|bytes|)
  {
    if bytes == [] {
    } else {
      WritesBack(bytes[1..]);
      LowDigit(bytes[0], FromLittleEndian(bytes[1..]));
      assert bytes == [bytes[0]] + bytes[1..];
    }
  }

  /** Reading one more byte on the high side. */
  lemma {:induction false} FromLittleEndianAppend(bytes: seq<byte>, b: byte)
    ensures FromLittleEndian(bytes + [b]) == FromLittleEndian(bytes) + b * Pow256(|bytes|)
  {
    if bytes == [] {
    } else {
      FromLittleEndianAppend(bytes[1..], b);
      assert (bytes + [b])[1..] == bytes[1..] + [b];
      var high := b * Pow256(|bytes| - 1);
      assert b * Pow256(|bytes|) == 256 * high;
    }
  }

  predicate ZerosFrom(bytes: seq<byte>, k: nat) {
    forall i | k <= i < |bytes| :: bytes[i] == 0
  }

  lemma TopByte(low: nat, top: nat, weight: nat, limit: nat)
    requires 1 <= limit <= weight
    ensures low + top * weight < limit <==> low < limit && top == 0
  {
    if top != 0 { Scale(weight, 1, top); }
  }

  lemma ZerosFromFront(front: seq<byte>, last: byte, k: nat)
    requires k <= |front|
    ensures ZerosFrom(front + [last], k) <==> ZerosFrom(front, k) && last == 0
  {
    var bytes := front + [last];
    assert bytes[|front|] == last;
    assert forall i | 0 <= i < |front| :: bytes[i] == front[i];
  }

  /** A number is below 256^k exactly when its bytes from k on are zero, and then they do not matter. */
  lemma {:induction false} HighZeros(bytes: seq<byte>, k: nat)
    requires k <= |bytes|
    ensures FromLittleEndian(bytes) < Pow256(k) <==> ZerosFrom(bytes, k)
    ensures ZerosFrom(bytes, k) ==> FromLittleEndian(bytes) == FromLittleEndian(bytes[..k])
    decreases |bytes|
  {
    if k == |bytes| {
      assert bytes[..k] == bytes;
      WritesBack(bytes);
    } else {
      var front, last := bytes[..|bytes| - 1], bytes[|bytes| - 1];
      HighZeros(front, k);
      assert bytes == front + [last] && front[..k] == bytes[..k];
      FromLittleEndianAppend(front, last);
      ZerosFromFront(front, last, k);
      Pow256Monotone(k, |front|);
      TopByte(FromLittleEndian(front), last, Pow256(|front|), Pow256(k));
    }
  }

  lemma {:induction false} Pow256Monotone(a: nat, b: nat)
    requires a <= b
    ensures 1 <= Pow256(a) <= Pow256(b)
    decreases b
  {
    if a < b {
      Pow256Monotone(a, b - 1);
    } else if a > 0 {
      Pow256Monotone(a - 1, b - 1);
    }
  }

  lemma Pow256By4(k: nat)
    ensures Pow256(k + 4) == TWO_32 * Pow256(k)
  {
    assert Pow256(k + 2) == 65536 * Pow256(k);
    assert Pow256(k + 4) == 65536 * Pow256(k + 2);
  }

  lemma Pow256Values()
    ensures Pow256(4) == TWO_32 && Pow256(16) == TWO_128 && Pow256(32) >= TWO_128
  {
    Pow256By4(0);
    Pow256By4(4);
    Pow256By4(8);
    Pow256By4(12);
    Pow256Monotone(16, 32);
  }

  // ---- The wire form ----------------------------------------------------------

  const NATURAL_BYTES: nat := 32
  const INTEGER_BYTES: nat := 33
  const ROW_BYTES: nat := 195

  function Natural256(value: nat): (bytes: seq<byte>)
    ensures |bytes| == NATURAL_BYTES
  {
    LittleEndian(value, NATURAL_BYTES)
  }

  function Magnitude(value: int): nat {
    if value < 0 then -value else value
  }

  function SignByte(value: int): byte {
    if value < 0 then 1 else 0
  }

  function Integer256(value: int): (bytes: seq<byte>)
    ensures |bytes| == INTEGER_BYTES
  {
    [SignByte(value)] + Natural256(Magnitude(value))
  }

  /** A signed number's wire form is a byte that is 0 exactly for a nonnegative number, and the magnitude. */
  lemma SignStands(value: int)
    requires Magnitude(value) < TWO_128
    ensures Integer256(value)[0] in {0, 1} && (Integer256(value)[0] == 0 <==> value >= 0)
    ensures FromLittleEndian(Integer256(value)[1..]) == Magnitude(value)
  {
    Pow256Values();
    ReadsBack(Magnitude(value), NATURAL_BYTES);
    assert Integer256(value)[1..] == Natural256(Magnitude(value));
  }

  /** The text stands at the offset. */
  predicate At(bytes: seq<byte>, offset: nat, text: seq<byte>) {
    offset + |text| <= |bytes| && bytes[offset..offset + |text|] == text
  }

  lemma NaturalInjective(a: nat, b: nat)
    requires a < TWO_128 && b < TWO_128 && Natural256(a) == Natural256(b)
    ensures a == b
  {
    Pow256Values();
    ReadsBack(a, NATURAL_BYTES);
    ReadsBack(b, NATURAL_BYTES);
  }

  lemma IntegerInjective(a: int, b: int)
    requires Signed128(a) && Signed128(b) && Integer256(a) == Integer256(b)
    ensures a == b
  {
    assert Integer256(a)[0] == Integer256(b)[0];
    assert Integer256(a)[1..] == Natural256(Magnitude(a)) && Integer256(b)[1..] == Natural256(Magnitude(b));
    NaturalInjective(Magnitude(a), Magnitude(b));
  }

  // ---- The writer ---------------------------------------------------------------

  /** A growing byte string. */
  class Output {
    var bytes: seq<byte>

    constructor (initial: seq<byte>)
      ensures bytes == initial
    {
      bytes := initial;
    }

    method AppendNatural(value: nat, count: nat)
      modifies this
      ensures bytes == old(bytes) + LittleEndian(value, count)
    {
      var rest := value;
      for index := 0 to count
        invariant bytes + LittleEndian(rest, count - index) == old(bytes) + LittleEndian(value, count)
      {
        ghost var tail := LittleEndian(rest / 256, count - index - 1);
        assert bytes + LittleEndian(rest, count - index) == bytes + [rest % 256] + tail;
        bytes := bytes + [rest % 256];
        rest := rest / 256;
      }
    }

    /** The magnitude is formed without negating the least signed value. */
    method AppendInteger256(value: int)
      requires Signed128(value)
      modifies this
      ensures bytes == old(bytes) + Integer256(value)
    {
      var negative := value < 0;
      var almost := -(value + 1);
      assert negative ==> 0 <= almost < INT128_LIMIT;
      var magnitude: nat := if negative then almost + 1 else value;
      bytes := bytes + [if negative then 1 else 0];
      AppendNatural(magnitude, NATURAL_BYTES);
      assert bytes == old(bytes) + ([SignByte(value)] + Natural256(magnitude));
    }
  }

  // ---- The reader -----------------------------------------------------------------

  /** A number is read exactly when its wire form stands at the offset: nonzero padding is refused. */
  method ReadNatural128(bytes: seq<byte>, offset: nat) returns (r: Option<nat>)
    ensures r.Some? ==> r.value < TWO_128 && At(bytes, offset, Natural256(r.value))
    ensures r.None? ==> forall v: nat | v < TWO_128 :: !At(bytes, offset, Natural256(v))
  {
    if offset > |bytes| || |bytes| - offset < NATURAL_BYTES {
      return None;
    }
    ghost var field := bytes[offset..offset + NATURAL_BYTES];
    Pow256Values();
    HighZeros(field, 16);
    var unpadded := PaddingIsZero(bytes, offset);
    if !unpadded {
      forall v: nat | v < TWO_128
        ensures !At(bytes, offset, Natural256(v))
      {
        ReadsBack(v, NATURAL_BYTES);
      }
      return None;
    }
    var result := ReadDigits(bytes, offset, 16);
    assert bytes[offset..offset + 16] == field[..16];
    WritesBack(field);
    r := Some(result);
  }

  /** The bytes from the sixteenth on. */
  method PaddingIsZero(bytes: seq<byte>, offset: nat) returns (ok: bool)
    requires offset + NATURAL_BYTES <= |bytes|
    ensures ok <==> ZerosFrom(bytes[offset..offset + NATURAL_BYTES], 16)
  {
    ghost var field := bytes[offset..offset + NATURAL_BYTES];
    for index := 16 to NATURAL_BYTES
      invariant ZerosFrom(field[..index], 16)
    {
      if bytes[offset + index] != 0 {
        assert field[index] != 0;
        return false;
      }
    }
    assert field[..NATURAL_BYTES] == field;
    ok := true;
  }

  /** Add up the bytes, each at its place. */
  method ReadDigits(bytes: seq<byte>, offset: nat, count: nat) returns (result: nat)
    requires offset + count <= |bytes|
    ensures result == FromLittleEndian(bytes[offset..offset + count])
  {
    ghost var field := bytes[offset..offset + count];
    result := 0;
    for index := 0 to count
      invariant result == FromLittleEndian(field[..index])
    {
      assert field[..index + 1] == field[..index] + [field[index]];
      FromLittleEndianAppend(field[..index], field[index]);
      result := result + bytes[offset + index] * Pow256(index);
    }
    assert field[..count] == field;
  }

  method ReadNatural64(bytes: seq<byte>, offset: nat) returns (r: Option<nat>)
    ensures r.Some? ==> r.value < TWO_64 && At(bytes, offset, Natural256(r.value))
    ensures r.None? ==> forall v: nat | v < TWO_64 :: !At(bytes, offset, Natural256(v))
  {
    r := ReadNatural128(bytes, offset);
    if r.Some? && r.value > MAX_64 {
      forall v: nat | v < TWO_64
        ensures !At(bytes, offset, Natural256(v))
      {
        if At(bytes, offset, Natural256(v)) { NaturalInjective(v, r.value); }
      }
      return None;
    }
  }

  lemma IntegerAt(bytes: seq<byte>, offset: nat, value: int)
    ensures At(bytes, offset, Integer256(value)) <==>
      && At(bytes, offset + 1, Natural256(Magnitude(value)))
      && bytes[offset] == SignByte(value)
  {
    var text := Integer256(value);
    var magnitude := Natural256(Magnitude(value));
    if offset + INTEGER_BYTES <= |bytes| {
      var field := bytes[offset..offset + INTEGER_BYTES];
      assert field == [bytes[offset]] + bytes[offset + 1..offset + INTEGER_BYTES];
      assert text[0] == SignByte(value) && text[1..] == magnitude;
      assert field[0] == bytes[offset] && field[1..] == bytes[offset + 1..offset + 1 + NATURAL_BYTES];
    }
  }

  /** Likewise for signed numbers: an unknown sign and a negative zero are refused, the least number is read. */
  method ReadInteger128(bytes: seq<byte>, offset: nat) returns (r: Option<int>)
    ensures r.Some? ==> Signed128(r.value) && At(bytes, offset, Integer256(r.value))
    ensures r.None? ==> forall v: int | Signed128(v) :: !At(bytes, offset, Integer256(v))
  {
    forall v: int
      ensures At(bytes, offset, Integer256(v)) <==>
        && At(bytes, offset + 1, Natural256(Magnitude(v)))
        && bytes[offset] == SignByte(v)
    {
      IntegerAt(bytes, offset, v);
    }
    if offset >= |bytes| {
      return None;
    }
    var sign := bytes[offset];
    if sign > 1 {
      return None;
    }
    var magnitude := ReadNatural128(bytes, offset + 1);
    if magnitude.None? {
      return None;
    }
    forall v: int | Signed128(v) && At(bytes, offset, Integer256(v))
      ensures Magnitude(v) == magnitude.value && sign == SignByte(v)
    {
      NaturalInjective(Magnitude(v), magnitude.value);
    }
    if sign == 1 && magnitude.value == 0 {
      return None;
    }
    if (sign == 0 && magnitude.value > INT128_LIMIT - 1) || (sign == 1 && magnitude.value > INT128_LIMIT) {
      return None;
    }
    var value := if sign == 0 then magnitude.value as int else -(magnitude.value - 1) - 1;
    assert Magnitude(value) == magnitude.value && SignByte(value) == sign;
    r := Some(value);
  }

  method ReadInteger64(bytes: seq<byte>, offset: nat) returns (r: Option<int>)
    ensures r.Some? ==> Signed64(r.value) && At(bytes, offset, Integer256(r.value))
    ensures r.None? ==> forall v: int | Signed64(v) :: !At(bytes, offset, Integer256(v))
  {
    r := ReadInteger128(bytes, offset);
    if r.Some? && (r.value < -(INT64_LIMIT as int) || r.value > INT64_LIMIT - 1) {
      forall v: int | Signed64(v)
        ensures !At(bytes, offset, Integer256(v))
      {
        if At(bytes, offset, Integer256(v)) { IntegerInjective(v, r.value); }
      }
      return None;
    }
  }

  method ReadU32(bytes: seq<byte>, offset: nat) returns (r: Option<nat>)
    ensures r.Some? ==> r.value < TWO_32 && At(bytes, offset, LittleEndian(r.value, 4))
    ensures r.None? ==> offset + 4 > |bytes|
  {
    if offset > |bytes| || |bytes| - offset < 4 {
      return None;
    }
    ghost var field := bytes[offset..offset + 4];
    var value := ReadDigits(bytes, offset, 4);
    WritesBack(field);
    Pow256Values();
    r := Some(value);
  }
}
