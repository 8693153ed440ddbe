/**
 The bytes of a PPT v1 image: what the compiler writes (prismpath-hw/ppt_compile.py, serialize) and what the
 interpreter reads back (prismpath-hw/interp.c, load_image).
 */
module ImageCodec {
  import opened Wrappers
  import opened Table
  import opened ByteRows

  const HEADER: Format := [U32, U16, U16, U16, U16, U16, U16, U16, U16, U16, U16, U16, U16]
  const ATOM: Format := [U16, U8, U8, I32]
  const NODE: Format := [U16, U16]
  const EDGE: Format := [U16, U16, U16]
  const WORD: Format := [U16]

  const HEADER_BYTES: nat := 28
  const FLAG_COLORS: nat := 1

  lemma {:induction false} HalvesWidth(fmt: Format)
    requires forall i | 0 <= i < |fmt| :: fmt[i] == U16
    ensures RowWidth(fmt) == 2 * |fmt|
  {
    if fmt != [] { HalvesWidth(fmt[1..]); }
  }

  lemma AtomWidth()
    ensures RowWidth(ATOM) == 8
  {
    var tail := ATOM[1..];
    assert tail[0] == U8 && tail[1..][0] == U8 && tail[1..][1..] == [I32];
    assert RowWidth([I32]) == 4;
    assert RowWidth(tail[1..]) == 5;
    assert RowWidth(tail) == 6;
  }

  lemma Widths()
    ensures RowWidth(HEADER) == HEADER_BYTES && RowWidth(ATOM) == 8 && RowWidth(NODE) == 4
    ensures RowWidth(EDGE) == 6 && RowWidth(WORD) == 2
  {
    HalvesWidth(HEADER[1..]);
    AtomWidth();
    HalvesWidth(NODE);
    HalvesWidth(EDGE);
    HalvesWidth(WORD);
  }

  lemma Spans(n: nat)
    ensures Span(ATOM, n) == 8 * n && Span(NODE, n) == 4 * n && Span(EDGE, n) == 6 * n && Span(WORD, n) == 2 * n
  {
    Widths();
    SpanIsProduct(ATOM, n);
    SpanIsProduct(NODE, n);
    SpanIsProduct(EDGE, n);
    SpanIsProduct(WORD, n);
  }

  // ----- Rows of the sections -----

  function AtomRow(a: Atom): seq<int> { [a.field, a.op, a.ty, a.val] }
  function NodeRow(n: Node): seq<int> { [n.edgeOff, n.edgeCnt] }
  function EdgeRow(e: Edge): seq<int> { [e.target, e.progOff, e.progCnt] }

  function AtomRows(atoms: seq<Atom>): (rows: seq<seq<int>>)
    ensures |rows| == |atoms|
  {
    seq(|atoms|, i requires 0 <= i < |atoms| => AtomRow(atoms[i]))
  }

  function NodeRows(nodes: seq<Node>): (rows: seq<seq<int>>)
    ensures |rows| == |nodes|
  {
    seq(|nodes|, i requires 0 <= i < |nodes| => NodeRow(nodes[i]))
  }

  function EdgeRows(edges: seq<Edge>): (rows: seq<seq<int>>)
    ensures |rows| == |edges|
  {
    seq(|edges|, i requires 0 <= i < |edges| => EdgeRow(edges[i]))
  }

  function WordRows(words: seq<nat>): (rows: seq<seq<int>>)
    ensures |rows| == |words|
  {
    seq(|words|, i requires 0 <= i < |words| => [words[i]])
  }

  /** How many rows each section declares, and the words of the header after the counts. */
  datatype Header = Header(nFields: nat, nInterns: nat, nAtoms: nat, nNodes: nat, nEdges: nat, progLen: nat,
                           start: nat, visitsIdx: nat, maxSteps: nat, maxStack: nat, flags: nat)

  function Declared(im: Image): Header {
    Header(im.nFields, im.nInterns, |im.atoms|, |im.nodes|, |im.edges|, |im.prog|,
           im.start, im.visitsIdx, im.maxSteps, im.maxStack, im.flags)
  }

  function HeaderRow(h: Header): seq<int> {
    [PPT_MAGIC, 1, h.nFields, h.nInterns, h.nAtoms, h.nNodes, h.nEdges, h.progLen,
     h.start, h.visitsIdx, h.maxSteps, h.maxStack, h.flags]
  }

  predicate HasColors(flags: nat) {
    flags % 2 == FLAG_COLORS
  }

  // ----- Writing -----

  predicate Packs(im: Image) {
    && RowFits(HEADER, HeaderRow(Declared(im))) && RowsFit(ATOM, AtomRows(im.atoms)) && RowsFit(NODE, NodeRows(im.nodes))
    && RowsFit(EDGE, EdgeRows(im.edges)) && RowsFit(WORD, WordRows(im.prog))
  }

  function ColorBytes(im: Image, colors: seq<nat>): Bytes {
    if HasColors(im.flags) then PackRows(WORD, WordRows(Masked(colors))) else []
  }

  function Masked(colors: seq<nat>): (masked: seq<nat>)
    ensures |masked| == |colors| && RowsFit(WORD, WordRows(masked))
  {
    var masked := seq(|colors|, i requires 0 <= i < |colors| => colors[i] % 0x1_0000);
    WordsFit(masked);
    masked
  }

  lemma {:induction false} WordsFit(words: seq<nat>)
    requires forall i | 0 <= i < |words| :: words[i] < 0x1_0000
    ensures RowsFit(WORD, WordRows(words))
  {
    if words != [] {
      WordsFit(words[1..]);
      assert WordRows(words)[1..] == WordRows(words[1..]);
    }
  }

  /** `None` where packing raises: a number past its field. */
  function Serialize(im: Image, colors: seq<nat>): Option<Bytes> {
    if !Packs(im) then None
    else Some(PackRow(HEADER, HeaderRow(Declared(im))) + Sections(im, ColorBytes(im, colors)))
  }

  /** The four sections, and what comes after them. */
  function Sections(im: Image, after: Bytes): Bytes
    requires Packs(im)
  {
    PackRows(ATOM, AtomRows(im.atoms)) + (PackRows(NODE, NodeRows(im.nodes))
      + (PackRows(EDGE, EdgeRows(im.edges)) + (PackRows(WORD, WordRows(im.prog)) + after)))
  }

  /** Appends a section row by row; stops at the first row that does not fit. */
  method WriteSection(fmt: Format, rows: seq<seq<int>>, out: Bytes) returns (r: Option<Bytes>)
    ensures r == if RowsFit(fmt, rows) then Some(out + PackRows(fmt, rows)) else None
  {
    var done := out;
    for i := 0 to |rows|
      invariant RowsFit(fmt, rows[i..]) == RowsFit(fmt, rows)
      invariant RowsFit(fmt, rows) ==> done + PackRows(fmt, rows[i..]) == out + PackRows(fmt, rows)
    {
      assert rows[i..][0] == rows[i] && rows[i..][1..] == rows[i + 1..];
      if !RowFits(fmt, rows[i]) { return None; }
      if RowsFit(fmt, rows) {
        Assoc(done, PackRow(fmt, rows[i]), PackRows(fmt, rows[i + 1..]));
      }
      done := done + PackRow(fmt, rows[i]);
    }
    assert rows[|rows|..] == [] && done + [] == done;
    r := Some(done);
  }

  method WriteImage(im: Image, colors: seq<nat>) returns (r: Option<Bytes>)
    ensures r == Serialize(im, colors)
  {
    if !RowFits(HEADER, HeaderRow(Declared(im))) { return None; }
    var head := PackRow(HEADER, HeaderRow(Declared(im)));
    r := WriteSection(ATOM, AtomRows(im.atoms), head);
    if r == None { return; }
    r := WriteSection(NODE, NodeRows(im.nodes), r.value);
    if r == None { return; }
    r := WriteSection(EDGE, EdgeRows(im.edges), r.value);
    if r == None { return; }
    r := WriteSection(WORD, WordRows(im.prog), r.value);
    if r == None { return; }
    if HasColors(im.flags) { r := WriteSection(WORD, WordRows(Masked(colors)), r.value); }
    InOrder(head, PackRows(ATOM, AtomRows(im.atoms)), PackRows(NODE, NodeRows(im.nodes)), PackRows(EDGE, EdgeRows(im.edges)),
            PackRows(WORD, WordRows(im.prog)), ColorBytes(im, colors));
  }

  lemma InOrder(h: Bytes, a: Bytes, n: Bytes, e: Bytes, w: Bytes, c: Bytes)
    ensures h + a + n + e + w + c == h + (a + (n + (e + (w + c))))
    ensures h + a + n + e + w + [] == h + a + n + e + w
  {
    Assoc(e, w, c);
    Assoc(n, e + w, c);
    Assoc(a, n + (e + w), c);
    Assoc(n, e, w);
    Assoc(a, n + e, w);
    Assoc(a, n, e);
    Assoc(h, a, n);
    Assoc(h, a + n, e);
    Assoc(h, a + n + e, w);
    Assoc(h, a + n + e + w, c);
  }

  // ----- Reading -----

  function NatAt(row: seq<int>, i: nat): nat {
    if i < |row| && row[i] >= 0 then row[i] else 0
  }

  function IntAt(row: seq<int>, i: nat): int {
    if i < |row| then row[i] else 0
  }

  function AtomsOf(rows: seq<seq<int>>): seq<Atom> {
    seq(|rows|, i requires 0 <= i < |rows| => Atom(NatAt(rows[i], 0), NatAt(rows[i], 1), NatAt(rows[i], 2), IntAt(rows[i], 3)))
  }

  function NodesOf(rows: seq<seq<int>>): seq<Node> {
    seq(|rows|, i requires 0 <= i < |rows| => Node(NatAt(rows[i], 0), NatAt(rows[i], 1)))
  }

  function EdgesOf(rows: seq<seq<int>>): seq<Edge> {
    seq(|rows|, i requires 0 <= i < |rows| => Edge(NatAt(rows[i], 0), NatAt(rows[i], 1), NatAt(rows[i], 2)))
  }

  function WordsOf(rows: seq<seq<int>>): seq<nat> {
    seq(|rows|, i requires 0 <= i < |rows| => NatAt(rows[i], 0))
  }

  function HeaderOf(row: seq<int>): Header {
    Header(NatAt(row, 2), NatAt(row, 3), NatAt(row, 4), NatAt(row, 5), NatAt(row, 6), NatAt(row, 7),
           NatAt(row, 8), NatAt(row, 9), NatAt(row, 10), NatAt(row, 11), NatAt(row, 12))
  }

  function ReadHeader(b: Bytes): Option<Header> {
    if |b| < HEADER_BYTES || Read32(b) != PPT_MAGIC || Read16(b[4..]) != 1 then None
    else
      Widths();
      Some(HeaderOf(ReadRow(HEADER, b)))
  }

  function SectionBytes(h: Header): nat {
    8 * h.nAtoms + 4 * h.nNodes + 6 * h.nEdges + 2 * h.progLen
  }

  function ReadSections(h: Header, b: Bytes): Image
    requires |b| >= SectionBytes(h)
  {
    Spans(h.nAtoms);
    Spans(h.nNodes);
    Spans(h.nEdges);
    Spans(h.progLen);
    var b1 := b[8 * h.nAtoms..];
    var b2 := b1[4 * h.nNodes..];
    var b3 := b2[6 * h.nEdges..];
    Image(h.nFields, h.nInterns, AtomsOf(ReadRows(ATOM, b, h.nAtoms)), NodesOf(ReadRows(NODE, b1, h.nNodes)),
          EdgesOf(ReadRows(EDGE, b2, h.nEdges)), WordsOf(ReadRows(WORD, b3, h.progLen)),
          h.start, h.visitsIdx, h.maxSteps, h.maxStack, h.flags)
  }

  /** The colour section is required where the flag declares it, and never read. */
  function Needed(h: Header): nat {
    HEADER_BYTES + SectionBytes(h) + (if HasColors(h.flags) then 2 * h.nNodes else 0)
  }

  function Parse(b: Bytes): Option<Image> {
    match ReadHeader(b)
    case None => None
    case Some(h) => if |b| < Needed(h) then None else Some(ReadSections(h, b[HEADER_BYTES..]))
  }

  method LoadHeader(b: Bytes) returns (h: Option<Header>)
    ensures h == ReadHeader(b)
  {
    if |b| < HEADER_BYTES || Read32(b) != PPT_MAGIC || Read16(b[4..]) != 1 { return None; }
    Widths();
    h := Some(HeaderOf(ReadRow(HEADER, b)));
  }

  method LoadImage(b: Bytes) returns (im: Option<Image>)
    ensures im == Parse(b)
  {
    var header := LoadHeader(b);
    if header == None { return None; }
    var h := header.value;
    var need := HEADER_BYTES + 8 * h.nAtoms + 4 * h.nNodes + 6 * h.nEdges + 2 * h.progLen;
    if HasColors(h.flags) { need := need + 2 * h.nNodes; }
    if |b| < need { return None; }
    var sections := ReadAll(h, b[HEADER_BYTES..]);
    im := Some(sections);
  }

  /** The four sections, through one cursor. */
  method ReadAll(h: Header, b: Bytes) returns (im: Image)
    requires SectionBytes(h) <= |b|
    ensures im == ReadSections(h, b)
  {
    Spans(h.nAtoms);
    Spans(h.nNodes);
    Spans(h.nEdges);
    Spans(h.progLen);
    var atoms, nodes, edges, prog;
    var cursor := b;
    atoms, cursor := ReadSection(ATOM, cursor, h.nAtoms);
    nodes, cursor := ReadSection(NODE, cursor, h.nNodes);
    edges, cursor := ReadSection(EDGE, cursor, h.nEdges);
    prog, cursor := ReadSection(WORD, cursor, h.progLen);
    im := Image(h.nFields, h.nInterns, AtomsOf(atoms), NodesOf(nodes), EdgesOf(edges), WordsOf(prog),
                h.start, h.visitsIdx, h.maxSteps, h.maxStack, h.flags);
  }

  lemma Chain(b: Bytes, at: nat, x: nat)
    requires at + x <= |b|
    ensures b[at..][x..] == b[at + x..]
  {
  }

  /** `i` rows are read, the cursor points at `left`, and the rest of the section is there. */
  ghost predicate Progress(fmt: Format, b: Bytes, n: nat, i: nat, rows: seq<seq<int>>, left: Bytes)
    requires i <= n && Span(fmt, n) <= |b|
  {
    && Span(fmt, n - i) <= |left| <= |b| && left == b[|b| - |left|..]
    && |b| - |left| + Span(fmt, n - i) == Span(fmt, n)
    && rows + ReadRows(fmt, left, n - i) == ReadRows(fmt, b, n)
  }

  method ReadSection(fmt: Format, b: Bytes, n: nat) returns (rows: seq<seq<int>>, left: Bytes)
    requires Span(fmt, n) <= |b|
    ensures rows == ReadRows(fmt, b, n) && left == b[Span(fmt, n)..]
  {
    rows, left := [], b;
    for i := 0 to n
      invariant Progress(fmt, b, n, i, rows, left)
    {
      ReadOneMore(fmt, b, n, i, rows, left);
      rows := rows + [ReadRow(fmt, left)];
      left := left[RowWidth(fmt)..];
    }
  }

  lemma ReadOneMore(fmt: Format, b: Bytes, n: nat, i: nat, rows: seq<seq<int>>, left: Bytes)
    requires i < n && Span(fmt, n) <= |b| && Progress(fmt, b, n, i, rows, left)
    ensures RowWidth(fmt) <= |left| && Progress(fmt, b, n, i + 1, rows + [ReadRow(fmt, left)], left[RowWidth(fmt)..])
  {
    Chain(b, |b| - |left|, RowWidth(fmt));
    RowsOnward(fmt, left, n - i, rows);
  }

  lemma RowsOnward(fmt: Format, left: Bytes, n: nat, rows: seq<seq<int>>)
    requires n > 0 && Span(fmt, n) <= |left|
    ensures rows + ReadRows(fmt, left, n) == rows + [ReadRow(fmt, left)] + ReadRows(fmt, left[RowWidth(fmt)..], n - 1)
  {
    Snoc(rows, ReadRow(fmt, left), ReadRows(fmt, left[RowWidth(fmt)..], n - 1));
  }

  lemma Snoc<T>(init: seq<T>, x: T, rest: seq<T>)
    ensures init + ([x] + rest) == init + [x] + rest
  {
  }

  // ----- Round trips -----

  lemma {:induction false} FitsAt(fmt: Format, rows: seq<seq<int>>, i: nat)
    requires RowsFit(fmt, rows) && i < |rows|
    ensures |rows[i]| == |fmt| && forall k | 0 <= k < |fmt| :: FieldFits(fmt[k], rows[i][k])
  {
    if i == 0 { RowFields(fmt, rows[0]); } else { FitsAt(fmt, rows[1..], i - 1); }
  }

  /** The fields of a row that fits are in range, one by one. */
  lemma {:induction false} RowFields(fmt: Format, row: seq<int>)
    requires RowFits(fmt, row)
    ensures |row| == |fmt| && forall i | 0 <= i < |fmt| :: FieldFits(fmt[i], row[i])
  {
    if fmt != [] {
      RowFields(fmt[1..], row[1..]);
      assert forall i | 1 <= i < |fmt| :: fmt[i] == fmt[1..][i - 1] && row[i] == row[1..][i - 1];
    }
  }

  lemma RowsOfAtoms(rows: seq<seq<int>>)
    requires RowsFit(ATOM, rows)
    ensures AtomRows(AtomsOf(rows)) == rows
  {
    forall i | 0 <= i < |rows| ensures AtomRow(AtomsOf(rows)[i]) == rows[i] {
      FitsAt(ATOM, rows, i);
      assert FieldFits(ATOM[0], rows[i][0]) && FieldFits(ATOM[1], rows[i][1]) && FieldFits(ATOM[2], rows[i][2]);
    }
  }

  lemma RowsOfNodes(rows: seq<seq<int>>)
    requires RowsFit(NODE, rows)
    ensures NodeRows(NodesOf(rows)) == rows
  {
    forall i | 0 <= i < |rows| ensures NodeRow(NodesOf(rows)[i]) == rows[i] {
      FitsAt(NODE, rows, i);
      assert FieldFits(NODE[0], rows[i][0]) && FieldFits(NODE[1], rows[i][1]);
    }
  }

  lemma RowsOfEdges(rows: seq<seq<int>>)
    requires RowsFit(EDGE, rows)
    ensures EdgeRows(EdgesOf(rows)) == rows
  {
    forall i | 0 <= i < |rows| ensures EdgeRow(EdgesOf(rows)[i]) == rows[i] {
      FitsAt(EDGE, rows, i);
      assert FieldFits(EDGE[0], rows[i][0]) && FieldFits(EDGE[1], rows[i][1]) && FieldFits(EDGE[2], rows[i][2]);
    }
  }

  lemma RowsOfWords(rows: seq<seq<int>>)
    requires RowsFit(WORD, rows)
    ensures WordRows(WordsOf(rows)) == rows
  {
    forall i | 0 <= i < |rows| ensures [WordsOf(rows)[i]] == rows[i] {
      FitsAt(WORD, rows, i);
      assert FieldFits(WORD[0], rows[i][0]);
    }
  }

  lemma RecordsOfRows(im: Image)
    ensures AtomsOf(AtomRows(im.atoms)) == im.atoms && NodesOf(NodeRows(im.nodes)) == im.nodes
    ensures EdgesOf(EdgeRows(im.edges)) == im.edges && WordsOf(WordRows(im.prog)) == im.prog
  {
  }

  /** The header's first two fields, read one at a time or as part of the row. */
  lemma HeaderFields(b: Bytes)
    requires |b| >= HEADER_BYTES
    ensures RowWidth(HEADER) == HEADER_BYTES
    ensures ReadRow(HEADER, b)[0] == Read32(b) && ReadRow(HEADER, b)[1] == Read16(b[4..])
  {
    Widths();
    assert ReadRow(HEADER, b)[1..] == ReadRow(HEADER[1..], b[4..]);
  }

  /** The sections come back from what was packed, one after the other. */
  lemma SectionsRoundTrip(im: Image, after: Bytes)
    requires Packs(im)
    ensures |Sections(im, after)| == SectionBytes(Declared(im)) + |after|
    ensures ReadSections(Declared(im), Sections(im, after)) == im
  {
    var a, n, e, w := AtomRows(im.atoms), NodeRows(im.nodes), EdgeRows(im.edges), WordRows(im.prog);
    Spans(|a|);
    Spans(|n|);
    Spans(|e|);
    Spans(|w|);
    var b3 := PackRows(WORD, w) + after;
    var b2 := PackRows(EDGE, e) + b3;
    var b1 := PackRows(NODE, n) + b2;
    RowsRoundTrip(ATOM, a, b1);
    Rest(PackRows(ATOM, a), b1);
    RowsRoundTrip(NODE, n, b2);
    Rest(PackRows(NODE, n), b2);
    RowsRoundTrip(EDGE, e, b3);
    Rest(PackRows(EDGE, e), b3);
    RowsRoundTrip(WORD, w, after);
    RecordsOfRows(im);
  }

  lemma Assoc(a: Bytes, b: Bytes, c: Bytes)
    ensures (a + b) + c == a + (b + c)
  {
  }

  lemma SectionsThen(im: Image, after: Bytes, tail: Bytes)
    requires Packs(im)
    ensures Sections(im, after) + tail == Sections(im, after + tail)
  {
    var pa, pn := PackRows(ATOM, AtomRows(im.atoms)), PackRows(NODE, NodeRows(im.nodes));
    var pe, pw := PackRows(EDGE, EdgeRows(im.edges)), PackRows(WORD, WordRows(im.prog));
    Assoc(pa, pn + (pe + (pw + after)), tail);
    Assoc(pn, pe + (pw + after), tail);
    Assoc(pe, pw + after, tail);
    Assoc(pw, after, tail);
  }

  lemma SerializeThen(im: Image, colors: seq<nat>, tail: Bytes)
    requires Packs(im)
    ensures Serialize(im, colors).value + tail
         == PackRow(HEADER, HeaderRow(Declared(im))) + Sections(im, ColorBytes(im, colors) + tail)
  {
    SectionsThen(im, ColorBytes(im, colors), tail);
    Assoc(PackRow(HEADER, HeaderRow(Declared(im))), Sections(im, ColorBytes(im, colors)), tail);
  }

  lemma HeaderWritten(h: Header, body: Bytes)
    requires RowFits(HEADER, HeaderRow(h))
    ensures var b := PackRow(HEADER, HeaderRow(h)) + body;
            ReadHeader(b) == Some(h) && b[HEADER_BYTES..] == body && |b| == HEADER_BYTES + |body|
  {
    var head := PackRow(HEADER, HeaderRow(h));
    Widths();
    RowRoundTrip(HEADER, HeaderRow(h), body);
    HeaderFields(head + body);
    Rest(head, body);
  }

  lemma ParseWritten(im: Image, after: Bytes)
    requires Packs(im) && (HasColors(im.flags) ==> |after| >= 2 * |im.nodes|)
    ensures Parse(PackRow(HEADER, HeaderRow(Declared(im))) + Sections(im, after)) == Some(im)
  {
    HeaderWritten(Declared(im), Sections(im, after));
    SectionsRoundTrip(im, after);
  }

  /**
   The image round trip. Whatever serialize writes, with anything at all after it, reads back as the image it
   wrote: every count, atom, node range, edge and word.
   */
  lemma ParseInvertsSerialize(im: Image, colors: seq<nat>, tail: Bytes)
    requires Serialize(im, colors).Some? && (HasColors(im.flags) ==> |colors| == |im.nodes|)
    ensures Parse(Serialize(im, colors).value + tail) == Some(im)
  {
    SerializeThen(im, colors, tail);
    ColorLength(im, colors);
    ParseWritten(im, ColorBytes(im, colors) + tail);
  }

  lemma ColorLength(im: Image, colors: seq<nat>)
    ensures |ColorBytes(im, colors)| == if HasColors(im.flags) then 2 * |colors| else 0
  {
    PackedLength(WORD, WordRows(Masked(colors)));
    Spans(|colors|);
  }

  lemma HeaderRowRestores(row: seq<int>)
    requires RowFits(HEADER, row) && row[0] == PPT_MAGIC && row[1] == 1
    ensures HeaderRow(HeaderOf(row)) == row
  {
    RowFields(HEADER, row);
    forall i | 2 <= i < 13 ensures row[i] >= 0 { assert HEADER[i] == U16 && FieldFits(HEADER[i], row[i]); }
  }

  /** A header that was read is the header row of the image read with it. */
  lemma HeaderRestores(b: Bytes)
    requires ReadHeader(b).Some?
    ensures var row := HeaderRow(ReadHeader(b).value); RowFits(HEADER, row) && PackRow(HEADER, row) == b[..HEADER_BYTES]
  {
    HeaderFields(b);
    HeaderRowRestores(ReadRow(HEADER, b));
    RowRestores(HEADER, b);
  }

  lemma SectionsRestore(h: Header, b: Bytes, after: Bytes)
    requires |b| >= SectionBytes(h) && after == b[SectionBytes(h)..]
    ensures var im := ReadSections(h, b);
            && RowsFit(ATOM, AtomRows(im.atoms)) && RowsFit(NODE, NodeRows(im.nodes))
            && RowsFit(EDGE, EdgeRows(im.edges)) && RowsFit(WORD, WordRows(im.prog))
            && Declared(im) == h && (RowFits(HEADER, HeaderRow(h)) ==> Sections(im, after) == b)
  {
    Spans(h.nAtoms);
    Spans(h.nNodes);
    Spans(h.nEdges);
    Spans(h.progLen);
    var b1 := b[8 * h.nAtoms..];
    var b2 := b1[4 * h.nNodes..];
    var b3 := b2[6 * h.nEdges..];
    AfterSections(h, b);
    RowsOfAtoms(ReadRows(ATOM, b, h.nAtoms));
    RowsOfNodes(ReadRows(NODE, b1, h.nNodes));
    RowsOfEdges(ReadRows(EDGE, b2, h.nEdges));
    RowsOfWords(ReadRows(WORD, b3, h.progLen));
    SectionRestores(ATOM, b, h.nAtoms);
    SectionRestores(NODE, b1, h.nNodes);
    SectionRestores(EDGE, b2, h.nEdges);
    SectionRestores(WORD, b3, h.progLen);
  }

  lemma SectionRestores(fmt: Format, b: Bytes, n: nat)
    requires Span(fmt, n) <= |b|
    ensures PackRows(fmt, ReadRows(fmt, b, n)) + b[Span(fmt, n)..] == b
  {
    RowsRestore(fmt, b, n);
    Split(b, Span(fmt, n));
  }

  lemma AfterSections(h: Header, b: Bytes)
    requires |b| >= SectionBytes(h)
    ensures b[8 * h.nAtoms..][4 * h.nNodes..][6 * h.nEdges..][2 * h.progLen..] == b[SectionBytes(h)..]
  {
    Chain(b, 8 * h.nAtoms, 4 * h.nNodes);
    Chain(b, 8 * h.nAtoms + 4 * h.nNodes, 6 * h.nEdges);
    Chain(b, 8 * h.nAtoms + 4 * h.nNodes + 6 * h.nEdges, 2 * h.progLen);
  }

  lemma Split(b: Bytes, x: nat)
    requires x <= |b|
    ensures b[..x] + b[x..] == b
  {
  }

  /**
   The other way round: every byte string that parses is what serialize writes for the image read (with the
   colours that were there) and something after it. So no two images share bytes, and none is read two ways.
   */
  lemma SerializeInvertsParse(b: Bytes) returns (im: Image, colors: seq<nat>, tail: Bytes)
    requires Parse(b).Some?
    ensures Parse(b) == Some(im) && |colors| == (if HasColors(im.flags) then |im.nodes| else 0)
    ensures Serialize(im, colors).Some? && b == Serialize(im, colors).value + tail
  {
    var h := ReadHeader(b).value;
    im := Parse(b).value;
    var body := b[HEADER_BYTES..];
    var after := body[SectionBytes(h)..];
    HeaderRestores(b);
    SectionsRestore(h, body, after);
    colors, tail := ColorsRestore(im, h, after);
    SerializeThen(im, colors, tail);
    Split(b, HEADER_BYTES);
  }

  lemma ColorsRestore(im: Image, h: Header, after: Bytes) returns (colors: seq<nat>, tail: Bytes)
    requires im.flags == h.flags && |im.nodes| == h.nNodes
    requires HasColors(h.flags) ==> |after| >= 2 * h.nNodes
    ensures |colors| == (if HasColors(h.flags) then h.nNodes else 0) && ColorBytes(im, colors) + tail == after
  {
    if HasColors(h.flags) {
      Spans(h.nNodes);
      var rows := ReadRows(WORD, after, h.nNodes);
      colors, tail := WordsOf(rows), after[2 * h.nNodes..];
      RowsOfWords(rows);
      RowsRestore(WORD, after, h.nNodes);
      MaskedWords(rows);
      Split(after, 2 * h.nNodes);
    } else {
      colors, tail := [], after;
    }
  }

  lemma MaskedWords(rows: seq<seq<int>>)
    requires RowsFit(WORD, rows)
    ensures Masked(WordsOf(rows)) == WordsOf(rows)
  {
    forall i | 0 <= i < |rows| ensures WordsOf(rows)[i] < 0x1_0000 {
      FitsAt(WORD, rows, i);
      assert FieldFits(WORD[0], rows[i][0]);
    }
  }

  lemma HeaderRowIsNarrow(row: seq<int>)
    requires RowFits(HEADER, row)
    ensures forall i | 2 <= i < 13 :: NatAt(row, i) < 0x1_0000
  {
    RowFields(HEADER, row);
    forall i | 2 <= i < 13 ensures NatAt(row, i) < 0x1_0000 { assert HEADER[i] == U16 && FieldFits(HEADER[i], row[i]); }
  }

  predicate Narrow(h: Header) {
    && h.nFields < 0x1_0000 && h.nAtoms < 0x1_0000 && h.nNodes < 0x1_0000 && h.nEdges < 0x1_0000
    && h.progLen < 0x1_0000 && h.start < 0x1_0000 && h.maxStack < 0x1_0000 && h.flags < 0x1_0000
  }

  /** Every number a header holds came from sixteen bits. */
  lemma HeaderIsNarrow(b: Bytes)
    requires ReadHeader(b).Some?
    ensures Narrow(ReadHeader(b).value)
  {
    Widths();
    HeaderRowIsNarrow(ReadRow(HEADER, b));
  }
}
