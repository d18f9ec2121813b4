/** The length-prefixed message format: three passes that must agree byte for byte. */
module Serialize {
  import opened Collections

  type Byte = b: int | 0 <= b < 256

  /** A C string: the bytes before the terminating zero. */
  type CString = s: seq<Byte> | 0 !in s witness []

  type UInt64 = n: int | 0 <= n < 0x1_0000_0000_0000_0000

  /** Truncation to zbx_uint32_t. */
  function Mod32(n: nat): (r: nat) {
    n % 0x1_0000_0000
  }

  predicate Fits32(n: nat) {
    n < 0x1_0000_0000
  }

  datatype List<T> = Nil | Cons(head: T, tail: List<T>)

  /** A value, a nullable string or a vector of 64-bit numbers; plain values are given by their bytes in memory. */
  datatype Field = Value(bytes: seq<Byte>) | Str(str: Option<CString>) | Numbers(values: seq<UInt64>)

  /** What the reader knows beforehand. */
  datatype Shape = ValueShape(size: nat) | StrShape | NumbersShape

  function ShapeOf(f: Field): (shape: Shape) {
    match f
    case Value(bytes) => ValueShape(|bytes|)
    case Str(_) => StrShape
    case Numbers(_) => NumbersShape
  }

  // ----- numbers as bytes in memory, lowest byte first

  function Power256(k: nat): (power: nat) {
    if k == 0 then 1 else 256 * Power256(k - 1)
  }

  function ToBytes(n: nat, k: nat): (b: seq<Byte>)
    ensures |b| == k
  {
    if k == 0 then [] else [n % 256] + ToBytes(n / 256, k - 1)
  }

  function FromBytes(b: seq<Byte>): (n: nat) {
    if b == [] then 0 else b[0] + 256 * FromBytes(b[1..])
  }

  lemma {:induction false} BytesRoundTrip(n: nat, k: nat)
    requires n < Power256(k)
    ensures FromBytes(ToBytes(n, k)) == n
  {
    if k > 0 {
      BytesRoundTrip(n / 256, k - 1);
      assert ToBytes(n, k)[1..] == ToBytes(n / 256, k - 1);
    }
  }

  lemma {:induction false} FromBytesBound(b: seq<Byte>)
    ensures FromBytes(b) < Power256(|b|)
  {
    if b != [] {
      FromBytesBound(b[1..]);
    }
  }

  lemma Powers()
    ensures Power256(4) == 0x1_0000_0000 && Power256(8) == 0x1_0000_0000_0000_0000
  {
    assert Power256(2) == 65536;
    assert Power256(4) == 256 * (256 * Power256(2));
    assert Power256(6) == 256 * (256 * Power256(4));
    assert Power256(8) == 256 * (256 * Power256(6));
  }

  /** Four bytes, the lowest first. */
  function LowFirst4(n: nat): (b: seq<Byte>) {
    [n % 256, n / 256 % 256, n / 65_536 % 256, n / 16_777_216 % 256]
  }

  lemma DividedTwice(n: nat)
    ensures n / 256 / 256 == n / 65_536 && n / 65_536 / 256 == n / 16_777_216
    ensures n / 16_777_216 / 256 == n / 0x1_0000_0000
  {
  }

  /** The first four bytes, and the others. */
  lemma FourBytesFirst(n: nat, k: nat)
    ensures ToBytes(n, k + 4) == LowFirst4(n) + ToBytes(n / 0x1_0000_0000, k)
  {
    var a, b, c, d := n / 256, n / 65_536, n / 16_777_216, n / 0x1_0000_0000;
    DividedTwice(n);
    assert ToBytes(n, k + 4) == [n % 256] + ToBytes(a, k + 3);
    assert ToBytes(a, k + 3) == [a % 256] + ToBytes(b, k + 2);
    assert ToBytes(b, k + 2) == [b % 256] + ToBytes(c, k + 1);
    assert ToBytes(c, k + 1) == [c % 256] + ToBytes(d, k);
  }

  lemma FourBytes(n: nat)
    ensures ToBytes(n, 4) == LowFirst4(n)
  {
    FourBytesFirst(n, 0);
    assert ToBytes(n / 0x1_0000_0000, 0) == [];
  }

  /** Eight bytes, the lowest first. */
  lemma EightBytes(n: nat)
    ensures ToBytes(n, 8) == LowFirst4(n) + LowFirst4(n / 0x1_0000_0000)
  {
    FourBytesFirst(n, 4);
    FourBytes(n / 0x1_0000_0000);
  }

  // ----- the message format

  /** The elements of a vector, eight bytes each. */
  function Packed(values: seq<UInt64>): (b: seq<Byte>)
    ensures |b| == 8 * |values|
  {
    if values == [] then [] else ToBytes(values[0], 8) + Packed(values[1..])
  }

  function Unpacked(b: seq<Byte>): (values: seq<UInt64>)
    ensures |values| == |b| / 8
  {
    if |b| < 8 then []
    else
      FromBytesBound(b[..8]);
      Powers();
      [FromBytes(b[..8])] + Unpacked(b[8..])
  }

  lemma {:induction false} PackedRoundTrip(values: seq<UInt64>)
    ensures Unpacked(Packed(values)) == values
  {
    if values != [] {
      var b := Packed(values);
      assert b[..8] == ToBytes(values[0], 8) && b[8..] == Packed(values[1..]);
      Powers();
      BytesRoundTrip(values[0], 8);
      PackedRoundTrip(values[1..]);
    }
  }

  /** The bytes that follow the length prefix: a string with its terminating zero, nothing for NULL. */
  function Payload(f: Field): (payload: seq<Byte>)
    requires !f.Value?
  {
    match f
    case Str(None) => []
    case Str(Some(s)) => s + [0]
    case Numbers(values) => Packed(values)
  }

  function Encoded(f: Field): (bytes: seq<Byte>) {
    match f
    case Value(bytes) => bytes
    case _ => ToBytes(|Payload(f)|, 4) + Payload(f)
  }

  function EncodedAll(fs: List<Field>): (bytes: seq<Byte>) {
    match fs
    case Nil => []
    case Cons(f, rest) => Encoded(f) + EncodedAll(rest)
  }

  /** Number i is in bytes 8 i to 8 i + 7. */
  lemma {:induction false} PackedAt(values: seq<UInt64>, i: nat)
    requires i < |values|
    ensures Packed(values)[8 * i..8 * i + 8] == LowFirst4(values[i]) + LowFirst4(values[i] / 0x1_0000_0000)
  {
    var first, rest := ToBytes(values[0], 8), Packed(values[1..]);
    assert Packed(values) == first + rest;
    if i == 0 {
      EightBytes(values[0]);
      assert Packed(values)[..8] == first;
    } else {
      PackedAt(values[1..], i - 1);
      assert (first + rest)[8 * i..8 * i + 8] == rest[8 * i - 8..8 * i];
    }
  }

  /**
   The bytes of each kind of field: a plain value as it is; NULL as four zeros; a string behind its length with the
   final zero counted; numbers behind their total length, each lowest byte first.
   */
  lemma Layout(f: Field)
    ensures f.Value? ==> Encoded(f) == f.bytes
    ensures f == Str(None) ==> Encoded(f) == [0, 0, 0, 0]
    ensures f.Str? && f.str.Some? ==> Encoded(f) == LowFirst4(|f.str.value| + 1) + f.str.value + [0]
    ensures f.Numbers? ==> |Encoded(f)| == 4 + 8 * |f.values| && Encoded(f)[..4] == LowFirst4(8 * |f.values|)
    ensures f.Numbers? ==> forall i: nat :: i < |f.values| ==>
              Encoded(f)[4 + 8 * i..12 + 8 * i] == LowFirst4(f.values[i]) + LowFirst4(f.values[i] / 0x1_0000_0000)
  {
    match f
    case Value(_) =>
    case Str(str) => FourBytes(|Payload(f)|);
    case Numbers(values) =>
      FourBytes(|Payload(f)|);
      forall i: nat | i < |values|
        ensures Encoded(f)[4 + 8 * i..12 + 8 * i] == LowFirst4(values[i]) + LowFirst4(values[i] / 0x1_0000_0000)
      {
        PackedAt(values, i);
        AfterPrefix(ToBytes(|Payload(f)|, 4), Packed(values), i);
      }
  }

  lemma AfterPrefix(prefix: seq<Byte>, packed: seq<Byte>, i: nat)
    requires |prefix| == 4 && 8 * i + 8 <= |packed|
    ensures (prefix + packed)[4 + 8 * i..12 + 8 * i] == packed[8 * i..8 * i + 8]
  {
  }

  function FieldAt(fs: List<Field>, k: nat): (f: Option<Field>)
    decreases k
  {
    match fs
    case Nil => None
    case Cons(f, rest) => if k == 0 then Some(f) else FieldAt(rest, k - 1)
  }

  /** How many bytes the first k fields take. */
  function Start(fs: List<Field>, k: nat): (offset: nat)
    decreases k
  {
    if k == 0 || fs.Nil? then 0 else |Encoded(fs.head)| + Start(fs.tail, k - 1)
  }

  /** The fields stand in the message in their order, each where the ones before it end. */
  lemma {:induction false} FieldsInOrder(fs: List<Field>, k: nat)
    requires FieldAt(fs, k).Some?
    ensures var e, start := Encoded(FieldAt(fs, k).value), Start(fs, k);
            start + |e| <= |EncodedAll(fs)| && EncodedAll(fs)[start..start + |e|] == e
    decreases k
  {
    if k == 0 {
      assert EncodedAll(fs)[..|Encoded(fs.head)|] == Encoded(fs.head);
    } else {
      FieldsInOrder(fs.tail, k - 1);
      SliceBehind(Encoded(fs.head), EncodedAll(fs.tail), Start(fs.tail, k - 1), |Encoded(FieldAt(fs, k).value)|);
    }
  }

  lemma SliceBehind<T>(a: seq<T>, b: seq<T>, start: nat, n: nat)
    requires start + n <= |b|
    ensures (a + b)[|a| + start..|a| + start + n] == b[start..start + n]
  {
  }

  /** The C string that starts a block of bytes. */
  function UpToZero(b: seq<Byte>): (s: CString)
    ensures |s| <= |b|
  {
    if b == [] || b[0] == 0 then [] else [b[0]] + UpToZero(b[1..])
  }

  /** It ends before the first zero, or with the block. */
  lemma {:induction false} UpToZeroExactly(b: seq<Byte>)
    ensures var s := UpToZero(b); s <= b && (|s| < |b| ==> b[|s|] == 0)
  {
    if b != [] && b[0] != 0 {
      UpToZeroExactly(b[1..]);
      assert b == [b[0]] + b[1..];
    }
  }

  lemma {:induction false} UpToZeroOf(s: CString)
    ensures UpToZero(s + [0]) == s
  {
    if s != [] {
      assert (s + [0])[1..] == s[1..] + [0];
      UpToZeroOf(s[1..]);
    }
  }

  /** The buffer holds at least one field of this shape. */
  predicate Holds(shape: Shape, b: seq<Byte>) {
    match shape
    case ValueShape(size) => size <= |b|
    case _ => 4 <= |b| && 4 + FromBytes(b[..4]) <= |b|
  }

  function Decoded(shape: Shape, b: seq<Byte>): (r: (Field, nat))
    requires Holds(shape, b)
    ensures r.1 <= |b|
  {
    match shape
    case ValueShape(size) => (Value(b[..size]), size)
    case StrShape =>
      var len := FromBytes(b[..4]);
      (Str(if len == 0 then None else Some(UpToZero(b[4..4 + len]))), 4 + len)
    case NumbersShape =>
      var len := FromBytes(b[..4]);
      (Numbers(Unpacked(b[4..4 + len])), 4 + len)
  }

  /** One field, followed by anything, reads back as itself, and exactly its bytes are consumed. */
  lemma FieldRoundTrip(f: Field, rest: seq<Byte>)
    requires Fits32(|Encoded(f)|)
    ensures Holds(ShapeOf(f), Encoded(f) + rest)
    ensures Decoded(ShapeOf(f), Encoded(f) + rest) == (f, |Encoded(f)|)
  {
    var b := Encoded(f) + rest;
    match f
    case Value(bytes) =>
      assert b[..|bytes|] == bytes;
    case Str(str) =>
      PrefixRoundTrip(f, rest);
      if str.Some? { UpToZeroOf(str.value); }
    case Numbers(values) =>
      PrefixRoundTrip(f, rest);
      PackedRoundTrip(values);
  }

  lemma PrefixRoundTrip(f: Field, rest: seq<Byte>)
    requires !f.Value? && Fits32(|Encoded(f)|)
    ensures var b, p := Encoded(f) + rest, Payload(f); FromBytes(b[..4]) == |p| && b[4..4 + |p|] == p
  {
    var b, p := Encoded(f) + rest, Payload(f);
    Powers();
    BytesRoundTrip(|p|, 4);
    assert b[..4] == ToBytes(|p|, 4) && b[4..4 + |p|] == p;
  }

  /** Reading fields one after another; None when a field is not complete. The second result is the bytes consumed. */
  function DecodedAll(shapes: List<Shape>, b: seq<Byte>): (decoded: Option<(List<Field>, nat)>) {
    match shapes
    case Nil => Some((Nil, 0))
    case Cons(shape, others) =>
      if !Holds(shape, b) then None
      else
        var (f, n) := Decoded(shape, b);
        match DecodedAll(others, b[n..])
        case None => None
        case Some((fs, m)) => Some((Cons(f, fs), n + m))
  }

  function Shapes(fs: List<Field>): (shapes: List<Shape>) {
    match fs
    case Nil => Nil
    case Cons(f, rest) => Cons(ShapeOf(f), Shapes(rest))
  }

  /** A whole message reads back as written, NULL and the empty string kept apart, and is consumed exactly. */
  lemma {:induction false} MessageRoundTrip(fs: List<Field>, after: seq<Byte>)
    requires Fits32(|EncodedAll(fs)|)
    ensures DecodedAll(Shapes(fs), EncodedAll(fs) + after) == Some((fs, |EncodedAll(fs)|))
  {
    match fs
    case Nil =>
    case Cons(f, rest) =>
      Reassociate(Encoded(f), EncodedAll(rest), after);
      FieldRoundTrip(f, EncodedAll(rest) + after);
      MessageRoundTrip(rest, after);
  }

  lemma Reassociate<T>(a: seq<T>, b: seq<T>, c: seq<T>)
    ensures (a + b) + c == a + (b + c)
    ensures (a + (b + c))[|a|..] == b + c
  {
  }

  // ----- the length computed beforehand

  /** The length of a string or vector in bytes as the prepare pass truncates it. */
  function PreparedLength(f: Field): (r: nat)
    requires !f.Value?
    ensures Fits32(r)
  {
    match f
    case Str(None) => 0
    case Str(Some(s)) => Mod32(Mod32(|s|) + 1)
    case Numbers(values) => Mod32(Mod32(|values|) * 8)
  }

  /** Adding one field to the running length. */
  function Prepared(len: nat, f: Field): (newLen: nat) {
    match f
    case Value(bytes) => Mod32(len + Mod32(|bytes|))
    case _ => Mod32(len + Mod32(PreparedLength(f) + 4))
  }

  function PreparedAll(len: nat, fs: List<Field>): (total: nat)
    decreases fs
  {
    match fs
    case Nil => len
    case Cons(f, rest) => PreparedAll(Prepared(len, f), rest)
  }

  lemma AddMod(a: nat, b: nat)
    ensures Mod32(Mod32(a) + b) == Mod32(a + b) && Mod32(a + Mod32(b)) == Mod32(a + b)
  {
    assert a == 0x1_0000_0000 * (a / 0x1_0000_0000) + Mod32(a);
    assert b == 0x1_0000_0000 * (b / 0x1_0000_0000) + Mod32(b);
  }

  lemma ModChain(len: nat, head: nat, tail: nat)
    ensures Fits32(Mod32(len + head))
    ensures Mod32(Mod32(len + head) + tail) == Mod32(len + (head + tail))
  {
    AddMod(len + head, tail);
  }

  lemma PreparedLengthMod(f: Field)
    requires !f.Value?
    ensures PreparedLength(f) == Mod32(|Payload(f)|)
  {
    match f
    case Str(None) =>
    case Str(Some(s)) => AddMod(|s|, 1);
    case Numbers(values) =>
  }

  lemma PreparedMod(len: nat, f: Field)
    ensures Prepared(len, f) == Mod32(len + |Encoded(f)|)
  {
    match f
    case Value(bytes) => AddMod(len, |bytes|);
    case _ =>
      PreparedLengthMod(f);
      AddMod(|Payload(f)|, 4);
      AddMod(len, |Payload(f)| + 4);
  }

  lemma {:induction false} PreparedAllMod(len: nat, fs: List<Field>)
    requires Fits32(len)
    ensures PreparedAll(len, fs) == Mod32(len + |EncodedAll(fs)|)
    decreases fs
  {
    match fs
    case Nil =>
    case Cons(f, rest) =>
      PreparedMod(len, f);
      PreparedAllMod(Prepared(len, f), rest);
      ModChain(len, |Encoded(f)|, |EncodedAll(rest)|);
  }

  /** The prepared length is the number of bytes written exactly when that number fits in 32 bits. */
  lemma PreparedIsWritten(fs: List<Field>)
    ensures PreparedAll(0, fs) == |EncodedAll(fs)| <==> Fits32(|EncodedAll(fs)|)
  {
    PreparedAllMod(0, fs);
  }

  // ----- the macros

  /** The bytes of b with those from offset on replaced. */
  function Spliced(b: seq<Byte>, offset: nat, bytes: seq<Byte>): (r: seq<Byte>)
    requires offset + |bytes| <= |b|
    ensures |r| == |b|
  {
    b[..offset] + bytes + b[offset + |bytes|..]
  }

  lemma SplicedTwice(b: seq<Byte>, offset: nat, x: seq<Byte>, y: seq<Byte>)
    requires offset + |x| + |y| <= |b|
    ensures Spliced(Spliced(b, offset, x), offset + |x|, y) == Spliced(b, offset, x + y)
  {
  }

  /** Reading a buffer where a field was written gives the field back, whatever surrounds it. */
  lemma WrittenIsRead(b: seq<Byte>, offset: nat, f: Field)
    requires Fits32(|Encoded(f)|) && offset + |Encoded(f)| <= |b|
    ensures var after := Spliced(b, offset, Encoded(f))[offset..];
            Holds(ShapeOf(f), after) && Decoded(ShapeOf(f), after) == (f, |Encoded(f)|)
  {
    var rest := b[offset + |Encoded(f)|..];
    assert Spliced(b, offset, Encoded(f))[offset..] == Encoded(f) + rest;
    FieldRoundTrip(f, rest);
  }

  /** memcpy into the buffer. */
  method Copy(buffer: array<Byte>, offset: nat, bytes: seq<Byte>)
    requires offset + |bytes| <= buffer.Length
    modifies buffer
    ensures buffer[..] == Spliced(old(buffer[..]), offset, bytes)
  {
    forall i | 0 <= i < |bytes| { buffer[offset + i] := bytes[i]; }
    assert forall k :: 0 <= k < buffer.Length ==>
        buffer[k] == if offset <= k < offset + |bytes| then bytes[k - offset] else old(buffer[k]);
  }

  method WriteValue(buffer: array<Byte>, offset: nat, bytes: seq<Byte>) returns (n: nat)
    requires offset + |bytes| <= buffer.Length
    modifies buffer
    ensures n == |Encoded(Value(bytes))|
    ensures buffer[..] == Spliced(old(buffer[..]), offset, Encoded(Value(bytes)))
  {
    Copy(buffer, offset, bytes);
    n := |bytes|;
  }

  lemma EncodedPrefixed(f: Field)
    requires !f.Value? && Fits32(|Encoded(f)|)
    ensures PreparedLength(f) == |Payload(f)| && Encoded(f) == ToBytes(|Payload(f)|, 4) + Payload(f)
    ensures |Payload(f)| == 0 ==> Encoded(f) == [0, 0, 0, 0]
  {
    PreparedLengthMod(f);
    Zeros();
  }

  /** A length prefix and, unless it is zero, the payload; strings and vectors are written alike. */
  method WritePrefixed(buffer: array<Byte>, offset: nat, f: Field, len: nat) returns (n: nat)
    requires !f.Value? && len == PreparedLength(f) && Fits32(|Encoded(f)|)
    requires offset + |Encoded(f)| <= buffer.Length
    modifies buffer
    ensures n == |Encoded(f)|
    ensures buffer[..] == Spliced(old(buffer[..]), offset, Encoded(f))
  {
    EncodedPrefixed(f);
    var payload := Payload(f);
    if len == 0 {
      Copy(buffer, offset, [0, 0, 0, 0]);
      n := 4;
    } else {
      var prefix := ToBytes(len, 4);
      ghost var b := buffer[..];
      Copy(buffer, offset, prefix);
      Copy(buffer, offset + 4, payload);
      SplicedTwice(b, offset, prefix, payload);
      n := len + 4;
    }
  }

  lemma Zeros()
    ensures ToBytes(0, 4) == [0, 0, 0, 0]
  {
    assert ToBytes(0, 1) == [0];
    assert ToBytes(0, 2) == [0, 0];
    assert ToBytes(0, 3) == [0, 0, 0];
  }

  method ReadValue(buffer: array<Byte>, offset: nat, size: nat) returns (bytes: seq<Byte>, n: nat)
    requires offset <= buffer.Length && Holds(ValueShape(size), buffer[offset..])
    ensures (Value(bytes), n) == Decoded(ValueShape(size), buffer[offset..])
  {
    bytes, n := buffer[offset..offset + size], size;
    assert buffer[offset..][..size] == bytes;
  }

  /** The string read is a fresh block holding these bytes with a zero after them, seen as a C string. */
  method CopyString(bytes: seq<Byte>) returns (value: CString)
    ensures value == UpToZero(bytes)
  {
    var block := new Byte[|bytes| + 1](_ => 0);
    forall i | 0 <= i < |bytes| { block[i] := bytes[i]; }
    block[|bytes|] := 0;
    assert block[..] == bytes + [0];
    UpToZeroPadded(bytes);
    value := UpToZero(block[..]);
  }

  method ReadStr(buffer: array<Byte>, offset: nat) returns (value: Option<CString>, valueLen: nat, n: nat)
    requires offset <= buffer.Length && Holds(StrShape, buffer[offset..])
    ensures (Str(value), n) == Decoded(StrShape, buffer[offset..]) && n == valueLen + 4
  {
    var b := buffer[offset..];
    valueLen := FromBytes(b[..4]);
    if 0 < valueLen {
      var s := CopyString(b[4..4 + valueLen]);
      value := Some(s);
    } else {
      value := None;
    }
    n := valueLen + 4;
  }

  lemma {:induction false} UpToZeroPadded(b: seq<Byte>)
    ensures UpToZero(b + [0]) == UpToZero(b)
  {
    if b != [] {
      assert (b + [0])[1..] == b[1..] + [0];
      UpToZeroPadded(b[1..]);
    }
  }

  /** The values read are added behind those the vector already holds. */
  method ReadVector(buffer: array<Byte>, offset: nat, values: seq<UInt64>)
    returns (more: seq<UInt64>, valueLen: nat, n: nat)
    requires offset <= buffer.Length && Holds(NumbersShape, buffer[offset..])
    ensures values <= more && n == valueLen + 4
    ensures (Numbers(more[|values|..]), n) == Decoded(NumbersShape, buffer[offset..])
  {
    var b := buffer[offset..];
    valueLen := FromBytes(b[..4]);
    more := values;
    if 0 < valueLen {
      more := values + Unpacked(b[4..4 + valueLen]);
    }
    n := valueLen + 4;
    assert more[|values|..] == Unpacked(b[4..4 + valueLen]);
  }

  // ----- a whole message

  /** The message up to offset is in the buffer, and the encoding of the rest fills it. */
  ghost predicate WrittenSoFar(b: seq<Byte>, offset: nat, rest: List<Field>, fs: List<Field>) {
    offset + |EncodedAll(rest)| == |b| && b[..offset] + EncodedAll(rest) == EncodedAll(fs)
  }

  lemma NextWritten(b: seq<Byte>, offset: nat, rest: List<Field>, fs: List<Field>)
    requires rest.Cons? && WrittenSoFar(b, offset, rest, fs)
    ensures var e := Encoded(rest.head);
            && |e| <= |EncodedAll(fs)| && offset + |e| <= |b|
            && WrittenSoFar(Spliced(b, offset, e), offset + |e|, rest.tail, fs)
  {
    var e, more := Encoded(rest.head), EncodedAll(rest.tail);
    assert |e + more| == |e| + |more|;
    assert |b[..offset] + (e + more)| == |EncodedAll(fs)|;
    assert Spliced(b, offset, e)[..offset + |e|] == b[..offset] + e;
    Reassociate(b[..offset], e, more);
  }

  /** The prepare pass over all fields. */
  method PrepareMessage(fs: List<Field>) returns (len: nat)
    ensures len == PreparedAll(0, fs)
  {
    len := 0;
    var rest := fs;
    while rest.Cons?
      invariant PreparedAll(len, rest) == PreparedAll(0, fs)
      decreases rest
    {
      len := Prepared(len, rest.head);
      rest := rest.tail;
    }
  }

  method WriteField(buffer: array<Byte>, offset: nat, f: Field) returns (n: nat)
    requires Fits32(|Encoded(f)|) && offset + |Encoded(f)| <= buffer.Length
    modifies buffer
    ensures n == |Encoded(f)|
    ensures buffer[..] == Spliced(old(buffer[..]), offset, Encoded(f))
  {
    match f {
      case Value(bytes) => n := WriteValue(buffer, offset, bytes);
      case _ => n := WritePrefixed(buffer, offset, f, PreparedLength(f));
    }
  }

  /** The fields written one after another fill a buffer of the encoding's length exactly. */
  method FillBuffer(buffer: array<Byte>, fs: List<Field>)
    requires Fits32(|EncodedAll(fs)|) && buffer.Length == |EncodedAll(fs)|
    modifies buffer
    ensures buffer[..] == EncodedAll(fs)
  {
    var offset: nat, rest := 0, fs;
    assert WrittenSoFar(buffer[..], 0, fs, fs) by { assert buffer[..][..0] + EncodedAll(fs) == EncodedAll(fs); }
    while rest.Cons?
      invariant WrittenSoFar(buffer[..], offset, rest, fs)
      decreases rest
    {
      NextWritten(buffer[..], offset, rest, fs);
      var n := WriteField(buffer, offset, rest.head);
      offset, rest := offset + n, rest.tail;
    }
    assert buffer[..][..offset] + [] == buffer[..];
  }

  /** The prepared number of bytes is allocated and filled. */
  method WriteMessage(fs: List<Field>) returns (buffer: array<Byte>)
    requires Fits32(|EncodedAll(fs)|)
    ensures fresh(buffer) && buffer[..] == EncodedAll(fs)
  {
    var len := PrepareMessage(fs);
    PreparedIsWritten(fs);
    buffer := new Byte[len];
    FillBuffer(buffer, fs);
  }

  method ReadField(buffer: array<Byte>, offset: nat, shape: Shape) returns (f: Field, n: nat)
    requires offset <= buffer.Length && Holds(shape, buffer[offset..])
    ensures (f, n) == Decoded(shape, buffer[offset..])
  {
    match shape {
      case ValueShape(size) =>
        var bytes;
        bytes, n := ReadValue(buffer, offset, size);
        f := Value(bytes);
      case StrShape =>
        var str, len;
        str, len, n := ReadStr(buffer, offset);
        f := Str(str);
      case NumbersShape =>
        var values, len;
        values, len, n := ReadVector(buffer, offset, []);
        assert values[0..] == values;
        f := Numbers(values);
    }
  }

  /** The fields read one after another. */
  method ReadMessage(buffer: array<Byte>, offset: nat, shapes: List<Shape>) returns (fs: List<Field>, n: nat)
    requires offset <= buffer.Length && DecodedAll(shapes, buffer[offset..]).Some?
    ensures DecodedAll(shapes, buffer[offset..]) == Some((fs, n))
    decreases shapes
  {
    match shapes {
      case Nil => fs, n := Nil, 0;
      case Cons(shape, others) =>
        var f, m := ReadField(buffer, offset, shape);
        assert buffer[offset..][m..] == buffer[offset + m..];
        fs, n := ReadMessage(buffer, offset + m, others);
        fs, n := Cons(f, fs), m + n;
    }
  }

  /** Prepare, write and read in one: what arrives is what was sent, and the buffer is used up. */
  method SendAndReceive(fs: List<Field>) returns (received: List<Field>, sent: nat, used: nat)
    requires Fits32(|EncodedAll(fs)|)
    ensures received == fs && used == sent == |EncodedAll(fs)|
  {
    var buffer := WriteMessage(fs);
    MessageRoundTrip(fs, []);
    assert EncodedAll(fs) + [] == EncodedAll(fs) == buffer[0..];
    sent := buffer.Length;
    received, used := ReadMessage(buffer, 0, Shapes(fs));
  }
}
