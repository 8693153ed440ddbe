/**
 Little-endian rows of fixed-width fields, as Python's struct packs them and the C readers take them apart.
 */
module ByteRows {
  import opened Wrappers

  type Byte = n: nat | n < 0x100
  type Bytes = seq<Byte>

  datatype Field = U8 | U16 | U32 | I32

  /** A row layout, field by field. */
  type Format = seq<Field>

  function Width(f: Field): nat {
    match f
    case U8 => 1
    case U16 => 2
    case _ => 4
  }

  function RowWidth(fmt: Format): nat {
    if fmt == [] then 0 else Width(fmt[0]) + RowWidth(fmt[1..])
  }

  /** The bytes of `n` rows. */
  function Span(fmt: Format, n: nat): nat {
    if n == 0 then 0 else RowWidth(fmt) + Span(fmt, n - 1)
  }

  lemma {:induction false} SpanIsProduct(fmt: Format, n: nat)
    ensures Span(fmt, n) == n * RowWidth(fmt)
  {
    if n > 0 { SpanIsProduct(fmt, n - 1); }
  }

  predicate FieldFits(f: Field, v: int) {
    match f
    case U8 => 0 <= v < 0x100
    case U16 => 0 <= v < 0x1_0000
    case U32 => 0 <= v < 0x1_0000_0000
    case I32 => -0x8000_0000 <= v < 0x8000_0000
  }

  predicate RowFits(fmt: Format, row: seq<int>) {
    |row| == |fmt| && (fmt != [] ==> FieldFits(fmt[0], row[0]) && RowFits(fmt[1..], row[1..]))
  }

  predicate RowsFit(fmt: Format, rows: seq<seq<int>>) {
    rows == [] || (RowFits(fmt, rows[0]) && RowsFit(fmt, rows[1..]))
  }

  // ----- Packing -----

  function Le16(v: nat): (b: Bytes)
    requires v < 0x1_0000
    ensures |b| == 2
  {
    [v % 0x100, v / 0x100]
  }

  function Le32(v: nat): (b: Bytes)
    requires v < 0x1_0000_0000
    ensures |b| == 4
  {
    Le16(v % 0x1_0000) + Le16(v / 0x1_0000)
  }

  function PackField(f: Field, v: int): (b: Bytes)
    requires FieldFits(f, v)
    ensures |b| == Width(f)
  {
    match f
    case U8 => [v]
    case U16 => Le16(v)
    case U32 => Le32(v)
    case I32 => Le32(if v < 0 then v + 0x1_0000_0000 else v)
  }

  function PackRow(fmt: Format, row: seq<int>): (b: Bytes)
    requires RowFits(fmt, row)
    ensures |b| == RowWidth(fmt)
  {
    if fmt == [] then [] else PackField(fmt[0], row[0]) + PackRow(fmt[1..], row[1..])
  }

  function PackRows(fmt: Format, rows: seq<seq<int>>): (b: Bytes)
    requires RowsFit(fmt, rows)
  {
    if rows == [] then [] else PackRow(fmt, rows[0]) + PackRows(fmt, rows[1..])
  }

  /** The number the bytes are, the least significant first. */
  function Little(b: Bytes): nat {
    if b == [] then 0 else b[0] as nat + 0x100 * Little(b[1..])
  }

  /** A packed field is its number, a negative one modulo 2^32. */
  lemma FieldIsLittle(f: Field, v: int)
    requires FieldFits(f, v)
    ensures Little(PackField(f, v)) == if v < 0 then v + 0x1_0000_0000 else v
  {
    var b := PackField(f, v);
    if f.U16? { LittleOfTwo(b); }
    if f.U32? || f.I32? {
      LittleOfTwo(b[2..]);
      assert b[1..][1..] == b[2..];
      assert Little(b) == b[0] as nat + 0x100 * (b[1] as nat + 0x100 * Little(b[2..]));
    }
  }

  lemma LittleOfTwo(b: Bytes)
    requires |b| == 2
    ensures Little(b) == b[0] as nat + 0x100 * b[1] as nat
  {
    assert b[1..] == [b[1]] && Little([b[1]]) == b[1];
  }

  // ----- Reading, from the front of what is left -----

  function Read16(b: Bytes): (v: nat)
    requires |b| >= 2
    ensures v < 0x1_0000
  {
    b[0] as int + b[1] as int * 0x100
  }

  function Read32(b: Bytes): (v: nat)
    requires |b| >= 4
    ensures v < 0x1_0000_0000
  {
    Read16(b) + Read16(b[2..]) * 0x1_0000
  }

  function ReadField(f: Field, b: Bytes): (v: int)
    requires |b| >= Width(f)
    ensures FieldFits(f, v)
  {
    match f
    case U8 => b[0]
    case U16 => Read16(b)
    case U32 => Read32(b)
    case I32 => if Read32(b) >= 0x8000_0000 then Read32(b) - 0x1_0000_0000 else Read32(b)
  }

  function ReadRow(fmt: Format, b: Bytes): (row: seq<int>)
    requires |b| >= RowWidth(fmt)
    ensures |row| == |fmt| && RowFits(fmt, row)
  {
    if fmt == [] then [] else [ReadField(fmt[0], b)] + ReadRow(fmt[1..], b[Width(fmt[0])..])
  }

  function ReadRows(fmt: Format, b: Bytes, n: nat): (rows: seq<seq<int>>)
    requires |b| >= Span(fmt, n)
    ensures |rows| == n && RowsFit(fmt, rows)
    decreases n
  {
    if n == 0 then [] else [ReadRow(fmt, b)] + ReadRows(fmt, b[RowWidth(fmt)..], n - 1)
  }

  // ----- Reading undoes packing, and packing undoes reading -----

  lemma Rest(head: Bytes, tail: Bytes)
    ensures (head + tail)[|head|..] == tail
  {
  }

  lemma FieldRoundTrip(f: Field, v: int, post: Bytes)
    requires FieldFits(f, v)
    ensures ReadField(f, PackField(f, v) + post) == v
  {
    var b := PackField(f, v) + post;
    assert forall k | 0 <= k < Width(f) :: b[k] == PackField(f, v)[k];
    if f.U32? || f.I32? { assert b[2..][0] == b[2] && b[2..][1] == b[3]; }
  }

  lemma {:induction false} RowRoundTrip(fmt: Format, row: seq<int>, post: Bytes)
    requires RowFits(fmt, row)
    ensures ReadRow(fmt, PackRow(fmt, row) + post) == row
  {
    if fmt != [] {
      var head, tail := PackField(fmt[0], row[0]), PackRow(fmt[1..], row[1..]);
      assert PackRow(fmt, row) + post == head + (tail + post);
      FieldRoundTrip(fmt[0], row[0], tail + post);
      Rest(head, tail + post);
      RowRoundTrip(fmt[1..], row[1..], post);
    }
  }

  lemma {:induction false} PackedLength(fmt: Format, rows: seq<seq<int>>)
    requires RowsFit(fmt, rows)
    ensures |PackRows(fmt, rows)| == Span(fmt, |rows|)
  {
    if rows != [] { PackedLength(fmt, rows[1..]); }
  }

  lemma {:induction false} RowsRoundTrip(fmt: Format, rows: seq<seq<int>>, post: Bytes)
    requires RowsFit(fmt, rows)
    ensures |PackRows(fmt, rows)| == Span(fmt, |rows|)
    ensures ReadRows(fmt, PackRows(fmt, rows) + post, |rows|) == rows
  {
    PackedLength(fmt, rows);
    if rows != [] {
      var head, tail := PackRow(fmt, rows[0]), PackRows(fmt, rows[1..]);
      assert PackRows(fmt, rows) + post == head + (tail + post);
      RowRoundTrip(fmt, rows[0], tail + post);
      Rest(head, tail + post);
      RowsRoundTrip(fmt, rows[1..], post);
    }
  }

  lemma HalfRestores(b: Bytes)
    requires |b| >= 2
    ensures Le16(Read16(b)) == b[..2]
  {
  }

  lemma WordRestores(b: Bytes)
    requires |b| >= 4
    ensures Le32(Read32(b)) == b[..4]
  {
    HalfRestores(b);
    HalfRestores(b[2..]);
    Halves(Read16(b), Read16(b[2..]));
    assert b[..4] == b[..2] + b[2..][..2];
  }

  lemma Halves(low: nat, high: nat)
    requires low < 0x1_0000 && high < 0x1_0000
    ensures (low + high * 0x1_0000) % 0x1_0000 == low && (low + high * 0x1_0000) / 0x1_0000 == high
  {
  }

  lemma FieldRestores(f: Field, b: Bytes)
    requires |b| >= Width(f)
    ensures PackField(f, ReadField(f, b)) == b[..Width(f)]
  {
    match f
    case U8 =>
    case U16 => HalfRestores(b);
    case _ => WordRestores(b);
  }

  /** A field read is the number its bytes are, a signed one past the middle less 2^32. */
  lemma ReadIsLittle(f: Field, b: Bytes)
    requires |b| >= Width(f)
    ensures var v := Little(b[..Width(f)]);
            ReadField(f, b) == if f == I32 && v >= 0x8000_0000 then v - 0x1_0000_0000 else v
  {
    FieldRestores(f, b);
    FieldIsLittle(f, ReadField(f, b));
  }

  lemma Front(b: Bytes, x: nat, y: nat)
    requires x + y <= |b|
    ensures b[..x] + b[x..][..y] == b[..x + y]
  {
  }

  lemma {:induction false} RowRestores(fmt: Format, b: Bytes)
    requires |b| >= RowWidth(fmt)
    ensures PackRow(fmt, ReadRow(fmt, b)) == b[..RowWidth(fmt)]
  {
    if fmt != [] {
      FieldRestores(fmt[0], b);
      RowRestores(fmt[1..], b[Width(fmt[0])..]);
      Front(b, Width(fmt[0]), RowWidth(fmt[1..]));
      assert ReadRow(fmt, b)[1..] == ReadRow(fmt[1..], b[Width(fmt[0])..]);
    }
  }

  lemma {:induction false} RowsRestore(fmt: Format, b: Bytes, n: nat)
    requires |b| >= Span(fmt, n)
    ensures PackRows(fmt, ReadRows(fmt, b, n)) == b[..Span(fmt, n)]
    decreases n
  {
    if n > 0 {
      RowRestores(fmt, b);
      RowsRestore(fmt, b[RowWidth(fmt)..], n - 1);
      Front(b, RowWidth(fmt), Span(fmt, n - 1));
      assert ReadRows(fmt, b, n)[1..] == ReadRows(fmt, b[RowWidth(fmt)..], n - 1);
    }
  }
}
