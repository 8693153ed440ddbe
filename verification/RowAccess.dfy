/** One row or field of an image read in place, at its offset, is the row the section reader finds there. */
module RowAccess {
  import opened Wrappers
  import opened Table
  import opened ByteRows
  import opened ImageCodec

  function Signed32(v: nat): int {
    if v >= 0x8000_0000 then v - 0x1_0000_0000 else v
  }

  lemma Suffix(b: Bytes, x: nat, y: nat)
    requires x + y <= |b|
    ensures b[x..][y..] == b[x + y..]
  {
  }

  lemma RowsTail(fmt: Format, b: Bytes, n: nat)
    requires n > 0 && |b| >= Span(fmt, n)
    ensures ReadRows(fmt, b, n) == [ReadRow(fmt, b)] + ReadRows(fmt, b[RowWidth(fmt)..], n - 1)
  {
  }

  lemma {:induction false} SpanGrows(fmt: Format, i: nat, n: nat)
    requires i < n
    ensures Span(fmt, i) + RowWidth(fmt) <= Span(fmt, n)
  {
    if i > 0 { SpanGrows(fmt, i - 1, n - 1); }
  }

  lemma {:induction false} RowAt(fmt: Format, b: Bytes, n: nat, i: nat)
    requires i < n && |b| >= Span(fmt, n)
    ensures |b| >= Span(fmt, i) + RowWidth(fmt)
    ensures ReadRows(fmt, b, n)[i] == ReadRow(fmt, b[Span(fmt, i)..])
    decreases i
  {
    SpanGrows(fmt, i, n);
    RowsTail(fmt, b, n);
    if i == 0 {
      assert b[0..] == b;
    } else {
      RowAt(fmt, b[RowWidth(fmt)..], n - 1, i - 1);
      Suffix(b, RowWidth(fmt), Span(fmt, i - 1));
    }
  }

  lemma FieldAhead(fmt: Format, b: Bytes)
    requires fmt != [] && |b| >= RowWidth(fmt)
    ensures ReadRow(fmt, b) == [ReadField(fmt[0], b)] + ReadRow(fmt[1..], b[Width(fmt[0])..])
  {
  }

  lemma TwoAhead(fmt: Format, b: Bytes, x: nat, y: nat)
    requires |fmt| >= 2 && x == Width(fmt[0]) && y == Width(fmt[1]) && |b| >= RowWidth(fmt)
    ensures |b| >= x + y + RowWidth(fmt[2..])
    ensures ReadRow(fmt, b) == [ReadField(fmt[0], b), ReadField(fmt[1], b[x..])] + ReadRow(fmt[2..], b[x + y..])
  {
    var rest := fmt[1..];
    assert rest[0] == fmt[1] && rest[1..] == fmt[2..];
    FieldAhead(fmt, b);
    FieldAhead(rest, b[x..]);
    Suffix(b, x, y);
  }

  lemma FourFields(fmt: Format, b: Bytes, x: nat, y: nat, z: nat)
    requires |fmt| == 4 && x == Width(fmt[0]) && y == x + Width(fmt[1]) && z == y + Width(fmt[2]) && |b| >= RowWidth(fmt)
    ensures |b| >= z + Width(fmt[3])
    ensures ReadRow(fmt, b) == [ReadField(fmt[0], b), ReadField(fmt[1], b[x..]), ReadField(fmt[2], b[y..]), ReadField(fmt[3], b[z..])]
  {
    var rest := fmt[2..];
    assert rest[0] == fmt[2] && rest[1] == fmt[3] && rest[2..] == [];
    TwoAhead(fmt, b, x, y - x);
    TwoAhead(rest, b[y..], z - y, Width(fmt[3]));
    Suffix(b, y, z - y);
  }

  lemma NodeFields(b: Bytes)
    requires |b| >= 4
    ensures RowWidth(NODE) == 4 && ReadRow(NODE, b) == [Read16(b), Read16(b[2..])]
  {
    Widths();
    FieldAhead(NODE, b);
    assert NODE[1..] == WORD;
    FieldAhead(WORD, b[2..]);
  }

  lemma EdgeFields(b: Bytes)
    requires |b| >= 6
    ensures RowWidth(EDGE) == 6 && ReadRow(EDGE, b) == [Read16(b), Read16(b[2..]), Read16(b[4..])]
  {
    Widths();
    FieldAhead(EDGE, b);
    assert EDGE[1..] == NODE;
    NodeFields(b[2..]);
    assert b[2..][2..] == b[4..];
  }

  lemma WordFields(b: Bytes)
    requires |b| >= 2
    ensures RowWidth(WORD) == 2 && ReadRow(WORD, b) == [Read16(b)]
  {
    Widths();
    FieldAhead(WORD, b);
  }

  // ----- A whole image laid out in a buffer, header first -----

  function Word16(b: Bytes, at: nat): nat
    requires at + 2 <= |b|
  {
    b[at] as nat + b[at + 1] as nat * 0x100
  }

  function Word32(b: Bytes, at: nat): nat
    requires at + 4 <= |b|
  {
    Word16(b, at) + Word16(b, at + 2) * 0x1_0000
  }

  lemma WordsAreReads(b: Bytes, at: nat)
    requires at + 2 <= |b|
    ensures Word16(b, at) == Read16(b[at..])
    ensures at + 4 <= |b| ==> Word32(b, at) == Read32(b[at..])
  {
    if at + 4 <= |b| { Suffix(b, at, 2); }
  }

  predicate AllHalves(fmt: Format) {
    forall k | 0 <= k < |fmt| :: fmt[k] == U16
  }

  lemma {:induction false} HalvesRead(b: Bytes, fmt: Format, i: nat)
    requires AllHalves(fmt) && 2 * |fmt| <= |b| && i < |fmt|
    ensures RowWidth(fmt) == 2 * |fmt| && ReadRow(fmt, b)[i] == Word16(b, 2 * i)
  {
    HalvesWidth(fmt);
    FieldAhead(fmt, b);
    if i > 0 {
      HalvesRead(b[2..], fmt[1..], i - 1);
      assert Word16(b[2..], 2 * (i - 1)) == Word16(b, 2 * i);
    }
  }

  lemma HalvesAfter(b: Bytes, halves: Format, i: nat)
    requires AllHalves(halves) && 4 + 2 * |halves| <= |b| && i < |halves|
    ensures RowWidth([U32] + halves) == 4 + 2 * |halves| && ReadRow([U32] + halves, b)[1 + i] == Word16(b, 4 + 2 * i)
  {
    HalvesWidth(halves);
    assert ([U32] + halves)[1..] == halves;
    FieldAhead([U32] + halves, b);
    HalvesRead(b[4..], halves, i);
    assert Word16(b[4..], 2 * i) == Word16(b, 4 + 2 * i);
  }

  lemma HeaderFields(b: Bytes, halves: Format) returns (row: seq<int>)
    requires |b| >= 28 && |halves| == 12 && AllHalves(halves)
    ensures RowWidth([U32] + halves) == 28 && row == ReadRow([U32] + halves, b)
    ensures |row| == 13 && forall i | 1 <= i <= 12 :: row[i] == Word16(b, 2 + 2 * i)
  {
    HalvesAfter(b, halves, 0);
    row := ReadRow([U32] + halves, b);
    forall i | 1 <= i <= 12 ensures row[i] == Word16(b, 2 + 2 * i) { HalvesAfter(b, halves, i - 1); }
  }

  lemma HeaderShape() returns (halves: Format)
    ensures HEADER == [U32] + halves && |halves| == 12 && AllHalves(halves)
  {
    halves := HEADER[1..];
  }

  /** The mark, the version, and eleven numbers in this order, two bytes each, the low one first. */
  lemma HeaderIsLaid(b: Bytes)
    ensures ReadHeader(b) ==
            if |b| < 28 || b[..4] != [0x50, 0x50, 0x54, 0x4D] || Word16(b, 4) != 1 then None
            else Some(Header(Word16(b, 6), Word16(b, 8), Word16(b, 10), Word16(b, 12), Word16(b, 14), Word16(b, 16),
                             Word16(b, 18), Word16(b, 20), Word16(b, 22), Word16(b, 24), Word16(b, 26)))
  {
    if |b| >= 28 {
      var halves := HeaderShape();
      var row := HeaderFields(b, halves);
      HeaderNumbers(b, row);
      WordsAreReads(b, 0);
      WordsAreReads(b, 4);
      MarkBytes(b);
      assert b[0..] == b;
    }
  }

  lemma HeaderNumbers(b: Bytes, row: seq<int>)
    requires |b| >= 28 && |row| == 13 && forall i | 1 <= i <= 12 :: row[i] == Word16(b, 2 + 2 * i)
    ensures HeaderOf(row) ==
            Header(Word16(b, 6), Word16(b, 8), Word16(b, 10), Word16(b, 12), Word16(b, 14), Word16(b, 16),
                   Word16(b, 18), Word16(b, 20), Word16(b, 22), Word16(b, 24), Word16(b, 26))
  {
  }

  lemma MarkBytes(b: Bytes)
    requires |b| >= 4
    ensures Word32(b, 0) == PPT_MAGIC <==> b[..4] == [0x50, 0x50, 0x54, 0x4D]
  {
    assert b[..4] == [b[0], b[1], b[2], b[3]];
  }

  predicate AtomLaid(b: Bytes, at: nat, a: Atom) {
    at + 8 <= |b| && a == Atom(Word16(b, at), b[at + 2], b[at + 3], Signed32(Word32(b, at + 4)))
  }

  predicate NodeLaid(b: Bytes, at: nat, n: Node) {
    at + 4 <= |b| && n == Node(Word16(b, at), Word16(b, at + 2))
  }

  predicate EdgeLaid(b: Bytes, at: nat, e: Edge) {
    at + 6 <= |b| && e == Edge(Word16(b, at), Word16(b, at + 2), Word16(b, at + 4))
  }

  predicate WordLaid(b: Bytes, at: nat, w: nat) {
    at + 2 <= |b| && w == Word16(b, at)
  }

  predicate AtomsLaid(b: Bytes, x: nat, atoms: seq<Atom>) {
    forall i | 0 <= i < |atoms| :: AtomLaid(b, x + 8 * i, atoms[i])
  }

  predicate NodesLaid(b: Bytes, x: nat, nodes: seq<Node>) {
    forall i | 0 <= i < |nodes| :: NodeLaid(b, x + 4 * i, nodes[i])
  }

  predicate EdgesLaid(b: Bytes, x: nat, edges: seq<Edge>) {
    forall i | 0 <= i < |edges| :: EdgeLaid(b, x + 6 * i, edges[i])
  }

  predicate WordsLaid(b: Bytes, x: nat, words: seq<nat>) {
    forall i | 0 <= i < |words| :: WordLaid(b, x + 2 * i, words[i])
  }

  function NodeBase(h: Header): nat { HEADER_BYTES + 8 * h.nAtoms }
  function EdgeBase(h: Header): nat { NodeBase(h) + 4 * h.nNodes }
  function ProgBase(h: Header): nat { EdgeBase(h) + 6 * h.nEdges }

  /** Every row of the image lies at its offset. */
  predicate Laid(b: Bytes, h: Header, im: Image) {
    && |im.atoms| == h.nAtoms && |im.nodes| == h.nNodes && |im.edges| == h.nEdges && |im.prog| == h.progLen
    && AtomsLaid(b, HEADER_BYTES, im.atoms)
    && NodesLaid(b, NodeBase(h), im.nodes)
    && EdgesLaid(b, EdgeBase(h), im.edges)
    && WordsLaid(b, ProgBase(h), im.prog)
  }

  // ----- One section, from its offset in the buffer -----

  function AtomsFrom(b: Bytes, x: nat, n: nat): (rows: seq<Atom>)
    requires |b| >= x + 8 * n
    ensures |rows| == n
  {
    Spans(n);
    AtomsOf(ReadRows(ATOM, b[x..], n))
  }

  function NodesFrom(b: Bytes, x: nat, n: nat): (rows: seq<Node>)
    requires |b| >= x + 4 * n
    ensures |rows| == n
  {
    Spans(n);
    NodesOf(ReadRows(NODE, b[x..], n))
  }

  function EdgesFrom(b: Bytes, x: nat, n: nat): (rows: seq<Edge>)
    requires |b| >= x + 6 * n
    ensures |rows| == n
  {
    Spans(n);
    EdgesOf(ReadRows(EDGE, b[x..], n))
  }

  function WordsFrom(b: Bytes, x: nat, n: nat): (rows: seq<nat>)
    requires |b| >= x + 2 * n
    ensures |rows| == n
  {
    Spans(n);
    WordsOf(ReadRows(WORD, b[x..], n))
  }

  lemma AtomWords(b: Bytes, at: nat)
    requires at + 8 <= |b|
    ensures RowWidth(ATOM) == 8
    ensures ReadRow(ATOM, b[at..]) == [Word16(b, at), b[at + 2], b[at + 3], Signed32(Word32(b, at + 4))]
  {
    Widths();
    FourFields(ATOM, b[at..], 2, 3, 4);
    Suffix(b, at, 4);
    WordsAreReads(b, at);
    WordsAreReads(b, at + 4);
  }

  /** Row `i` of the section that starts at `x`. */
  lemma RowFrom(fmt: Format, b: Bytes, x: nat, n: nat, i: nat, at: nat)
    requires i < n && |b| >= x + Span(fmt, n) && at == x + Span(fmt, i)
    ensures at + RowWidth(fmt) <= |b| && ReadRows(fmt, b[x..], n)[i] == ReadRow(fmt, b[at..])
  {
    var section, offset := b[x..], Span(fmt, i);
    RowAt(fmt, section, n, i);
    assert section[offset..] == b[at..] by { Suffix(b, x, offset); }
  }

  lemma AtomIsLaid(b: Bytes, x: nat, n: nat, i: nat)
    requires |b| >= x + 8 * n && i < n
    ensures AtomLaid(b, x + 8 * i, AtomsFrom(b, x, n)[i])
  {
    var at := x + 8 * i;
    AtomWords(b, at);
    Spans(n);
    Spans(i);
    RowFrom(ATOM, b, x, n, i, at);
    AtomOfRow(b, at, ReadRows(ATOM, b[x..], n), i);
  }

  lemma AtomOfRow(b: Bytes, at: nat, rows: seq<seq<int>>, i: nat)
    requires i < |rows| && at + 8 <= |b|
    requires rows[i] == [Word16(b, at), b[at + 2], b[at + 3], Signed32(Word32(b, at + 4))]
    ensures AtomLaid(b, at, AtomsOf(rows)[i])
  {
  }

  lemma NodeIsLaid(b: Bytes, x: nat, n: nat, i: nat)
    requires |b| >= x + 4 * n && i < n
    ensures NodeLaid(b, x + 4 * i, NodesFrom(b, x, n)[i])
  {
    var at := x + 4 * i;
    NodeFields(b[at..]);
    Spans(n);
    Spans(i);
    RowFrom(NODE, b, x, n, i, at);
    Suffix(b, at, 2);
    WordsAreReads(b, at);
    WordsAreReads(b, at + 2);
  }

  lemma EdgeWords(b: Bytes, at: nat)
    requires at + 6 <= |b|
    ensures RowWidth(EDGE) == 6 && ReadRow(EDGE, b[at..]) == [Word16(b, at), Word16(b, at + 2), Word16(b, at + 4)]
  {
    EdgeFields(b[at..]);
    Suffix(b, at, 2);
    Suffix(b, at, 4);
    WordsAreReads(b, at);
    WordsAreReads(b, at + 2);
    WordsAreReads(b, at + 4);
  }

  lemma EdgeIsLaid(b: Bytes, x: nat, n: nat, i: nat)
    requires |b| >= x + 6 * n && i < n
    ensures EdgeLaid(b, x + 6 * i, EdgesFrom(b, x, n)[i])
  {
    var at := x + 6 * i;
    EdgeWords(b, at);
    Spans(n);
    Spans(i);
    RowFrom(EDGE, b, x, n, i, at);
    EdgeOfRow(b, at, ReadRows(EDGE, b[x..], n), i);
  }

  lemma EdgeOfRow(b: Bytes, at: nat, rows: seq<seq<int>>, i: nat)
    requires i < |rows| && at + 6 <= |b| && rows[i] == [Word16(b, at), Word16(b, at + 2), Word16(b, at + 4)]
    ensures EdgeLaid(b, at, EdgesOf(rows)[i])
  {
  }

  lemma WordIsLaid(b: Bytes, x: nat, n: nat, i: nat)
    requires |b| >= x + 2 * n && i < n
    ensures WordLaid(b, x + 2 * i, WordsFrom(b, x, n)[i])
  {
    WordFields(b[x + 2 * i..]);
    Spans(n);
    Spans(i);
    RowFrom(WORD, b, x, n, i, x + 2 * i);
    WordsAreReads(b, x + 2 * i);
  }

  lemma AtomsAreLaid(b: Bytes, x: nat, n: nat)
    requires |b| >= x + 8 * n
    ensures AtomsLaid(b, x, AtomsFrom(b, x, n))
  {
    forall i | 0 <= i < n ensures AtomLaid(b, x + 8 * i, AtomsFrom(b, x, n)[i]) { AtomIsLaid(b, x, n, i); }
  }

  lemma NodesAreLaid(b: Bytes, x: nat, n: nat)
    requires |b| >= x + 4 * n
    ensures NodesLaid(b, x, NodesFrom(b, x, n))
  {
    forall i | 0 <= i < n ensures NodeLaid(b, x + 4 * i, NodesFrom(b, x, n)[i]) { NodeIsLaid(b, x, n, i); }
  }

  lemma EdgesAreLaid(b: Bytes, x: nat, n: nat)
    requires |b| >= x + 6 * n
    ensures EdgesLaid(b, x, EdgesFrom(b, x, n))
  {
    forall i | 0 <= i < n ensures EdgeLaid(b, x + 6 * i, EdgesFrom(b, x, n)[i]) { EdgeIsLaid(b, x, n, i); }
  }

  lemma WordsAreLaid(b: Bytes, x: nat, n: nat)
    requires |b| >= x + 2 * n
    ensures WordsLaid(b, x, WordsFrom(b, x, n))
  {
    forall i | 0 <= i < n ensures WordLaid(b, x + 2 * i, WordsFrom(b, x, n)[i]) { WordIsLaid(b, x, n, i); }
  }

  // ----- The sections one after another -----

  lemma Tails(h: Header, b: Bytes)
    requires |b| >= HEADER_BYTES + SectionBytes(h)
    ensures b[HEADER_BYTES..][8 * h.nAtoms..] == b[NodeBase(h)..]
    ensures b[NodeBase(h)..][4 * h.nNodes..] == b[EdgeBase(h)..]
    ensures b[EdgeBase(h)..][6 * h.nEdges..] == b[ProgBase(h)..]
  {
    Suffix(b, HEADER_BYTES, 8 * h.nAtoms);
    Suffix(b, NodeBase(h), 4 * h.nNodes);
    Suffix(b, EdgeBase(h), 6 * h.nEdges);
  }

  lemma SectionsFollow(h: Header, b: Bytes)
    requires |b| >= HEADER_BYTES + SectionBytes(h)
    ensures var im := ReadSections(h, b[HEADER_BYTES..]);
            && im.atoms == AtomsFrom(b, HEADER_BYTES, h.nAtoms) && im.nodes == NodesFrom(b, NodeBase(h), h.nNodes)
            && im.edges == EdgesFrom(b, EdgeBase(h), h.nEdges) && im.prog == WordsFrom(b, ProgBase(h), h.progLen)
  {
    Tails(h, b);
  }

  lemma SectionsAreLaid(h: Header, b: Bytes) returns (im: Image)
    requires |b| >= HEADER_BYTES + SectionBytes(h)
    ensures im == ReadSections(h, b[HEADER_BYTES..]) && Laid(b, h, im)
  {
    im := ReadSections(h, b[HEADER_BYTES..]);
    SectionsFollow(h, b);
    AtomsAreLaid(b, HEADER_BYTES, h.nAtoms);
    NodesAreLaid(b, NodeBase(h), h.nNodes);
    EdgesAreLaid(b, EdgeBase(h), h.nEdges);
    WordsAreLaid(b, ProgBase(h), h.progLen);
  }
}
