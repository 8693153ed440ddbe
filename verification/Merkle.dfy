/**
 Sealing a receipt trail (prismpath-ebpf/merkle.h, prismpath-ebpf/seal_receipts.c): hash the records, then pair up
 layer by layer, the last node standing in for a missing partner. The root pins down every record.
 */
module Merkle {
  import opened Wrappers
  import opened ByteRows

  type Digest = d: Bytes | |d| == 32 witness seq(32, _ => 0)

  function Zeros(): Digest {
    seq(32, _ => 0)
  }

  /** The hash: any function from bytes to 32 bytes. What it must not do is asked where it matters. */
  type Hash = Bytes -> Digest

  // ----- Layers -----

  /** The right half of pair `i` in a layer of `count`: the last node pairs with itself when it has no partner. */
  function Right(count: nat, i: nat): (j: nat)
    requires 2 * i < count
    ensures j < count
  {
    if 2 * i + 1 < count then 2 * i + 1 else 2 * i
  }

  function Joined(left: Bytes, right: Bytes): Bytes {
    left + right
  }

  function PairAt(layer: seq<Digest>, i: nat): Bytes
    requires 2 * i < |layer|
  {
    Joined(layer[2 * i], layer[Right(|layer|, i)])
  }

  function NextLayer(sha: Hash, layer: seq<Digest>): (next: seq<Digest>)
    ensures |next| == (|layer| + 1) / 2 && forall i | 0 <= i < |next| :: next[i] == sha(PairAt(layer, i))
  {
    seq<Digest>((|layer| + 1) / 2, i requires 0 <= i < (|layer| + 1) / 2 => sha(PairAt(layer, i)))
  }

  function Root(sha: Hash, layer: seq<Digest>): Digest
    requires layer != []
    decreases |layer|
  {
    if |layer| == 1 then layer[0] else Root(sha, NextLayer(sha, layer))
  }

  method MerkleRoot(sha: Hash, records: seq<Bytes>) returns (root: Digest)
    ensures root == RootOf(sha, records)
    ensures root == if records == [] then seq(32, _ => 0) else NodeAt(sha, Leaves(sha, records), Height(|records|), 0)
  {
    if |records| == 0 { return Zeros(); }
    LayersMakeTheTree(sha, Leaves(sha, records));
    var cur := new Digest[|records|](i => Zeros());
    for i := 0 to |records|
      invariant forall k | 0 <= k < i :: cur[k] == sha(records[k])
    {
      cur[i] := sha(records[i]);
    }
    ghost var whole := Root(sha, Leaves(sha, records));
    assert cur[..] == Leaves(sha, records);
    while cur.Length > 1
      invariant cur.Length > 0 && Root(sha, cur[..]) == whole
      decreases cur.Length
    {
      cur := HashLayer(sha, cur);
    }
    root := cur[0];
  }

  method HashLayer(sha: Hash, cur: array<Digest>) returns (nx: array<Digest>)
    ensures fresh(nx) && nx[..] == NextLayer(sha, cur[..])
  {
    var cnt := cur.Length;
    var half := (cnt + 1) / 2;
    nx := new Digest[half](i => Zeros());
    for i := 0 to half
      invariant forall k | 0 <= k < i :: nx[k] == sha(PairAt(cur[..], k))
    {
      nx[i] := sha(Joined(cur[2 * i], cur[Right(cnt, i)]));
    }
  }

  function Leaves(sha: Hash, records: seq<Bytes>): (leaves: seq<Digest>)
    ensures |leaves| == |records| && forall i | 0 <= i < |records| :: leaves[i] == sha(records[i])
  {
    seq<Digest>(|records|, i requires 0 <= i < |records| => sha(records[i]))
  }

  // ----- The tree, from the top -----

  /** How many nodes level `k` has, counted from the leaves up. */
  function Count(n: nat, k: nat): (c: nat)
    ensures n > 0 ==> c > 0
  {
    if k == 0 then n else (Count(n, k - 1) + 1) / 2
  }

  /** Node `i` of level `k`, by what is under it. */
  function NodeAt(sha: Hash, leaves: seq<Digest>, k: nat, i: nat): Digest
    requires i < Count(|leaves|, k)
    decreases k
  {
    if k == 0 then leaves[i]
    else
      var left, last := NodeAt(sha, leaves, k - 1, 2 * i), Count(|leaves|, k - 1) - 1;
      sha(left + (if 2 * i == last then left else NodeAt(sha, leaves, k - 1, 2 * i + 1)))
  }

  /** The levels above the leaves: how often a layer must be halved to be one node. */
  function Height(n: nat): nat
    requires n > 0
  {
    if n == 1 then 0 else Height((n + 1) / 2) + 1
  }

  lemma {:induction false} OneAtTheTop(n: nat)
    requires n > 0
    ensures Count(n, Height(n)) == 1
  {
    if n > 1 {
      OneAtTheTop((n + 1) / 2);
      CountShifts(n, Height((n + 1) / 2));
    }
  }

  lemma {:induction false} CountShifts(n: nat, k: nat)
    ensures Count(n, k + 1) == Count((n + 1) / 2, k)
  {
    if k > 0 { CountShifts(n, k - 1); }
  }

  lemma {:induction false} NodeShifts(sha: Hash, leaves: seq<Digest>, k: nat, i: nat)
    requires i < Count(|leaves|, k + 1)
    ensures Count(|leaves|, k + 1) == Count(|NextLayer(sha, leaves)|, k)
    ensures NodeAt(sha, leaves, k + 1, i) == NodeAt(sha, NextLayer(sha, leaves), k, i)
    decreases k
  {
    if k == 0 {
      OverLeaves(sha, leaves, i);
    } else {
      CountShifts(|leaves|, k);
      CountShifts(|leaves|, k - 1);
      NodeShifts(sha, leaves, k - 1, 2 * i);
      NodeShifts(sha, leaves, k - 1, Right(Count(|leaves|, k), i));
    }
  }

  lemma OverLeaves(sha: Hash, leaves: seq<Digest>, i: nat)
    requires i < Count(|leaves|, 1)
    ensures Count(|leaves|, 1) == |NextLayer(sha, leaves)| && NodeAt(sha, leaves, 1, i) == NextLayer(sha, leaves)[i]
  {
    assert NodeAt(sha, leaves, 1, i) == sha(PairAt(leaves, i));
  }

  /** Halving layer after layer comes to the root of the tree. */
  lemma {:induction false} LayersMakeTheTree(sha: Hash, leaves: seq<Digest>)
    requires leaves != []
    ensures Count(|leaves|, Height(|leaves|)) == 1
    ensures Root(sha, leaves) == NodeAt(sha, leaves, Height(|leaves|), 0)
    decreases |leaves|
  {
    OneAtTheTop(|leaves|);
    if |leaves| > 1 {
      LayersMakeTheTree(sha, NextLayer(sha, leaves));
      NodeShifts(sha, leaves, Height(|leaves|) - 1, 0);
    }
  }

  // ----- Binding -----

  /** At no place do the two layers, or those above them, hash two different pairs alike. */
  ghost predicate NoCollision(sha: Hash, a: seq<Digest>, b: seq<Digest>)
    requires |a| == |b|
    decreases |a|
  {
    |a| <= 1 ||
    ((forall i | 0 <= i < (|a| + 1) / 2 :: sha(PairAt(a, i)) == sha(PairAt(b, i)) ==> PairAt(a, i) == PairAt(b, i))
     && NoCollision(sha, NextLayer(sha, a), NextLayer(sha, b)))
  }

  lemma PairsBind(a: seq<Digest>, b: seq<Digest>, i: nat)
    requires |a| == |b| && 2 * i < |a| && PairAt(a, i) == PairAt(b, i)
    ensures a[2 * i] == b[2 * i] && (2 * i + 1 < |a| ==> a[2 * i + 1] == b[2 * i + 1])
  {
    assert a[2 * i] == PairAt(a, i)[..32] && b[2 * i] == PairAt(b, i)[..32];
    if 2 * i + 1 < |a| {
      assert a[2 * i + 1] == PairAt(a, i)[32..] && b[2 * i + 1] == PairAt(b, i)[32..];
    }
  }

  lemma {:induction false} LayersBind(sha: Hash, a: seq<Digest>, b: seq<Digest>)
    requires |a| == |b| > 0 && Root(sha, a) == Root(sha, b) && NoCollision(sha, a, b)
    ensures a == b
    decreases |a|
  {
    if |a| > 1 {
      LayersBind(sha, NextLayer(sha, a), NextLayer(sha, b));
      forall j | 0 <= j < |a| ensures a[j] == b[j] {
        var i := j / 2;
        assert NextLayer(sha, a)[i] == NextLayer(sha, b)[i];
        PairsBind(a, b, i);
      }
    } else {
      assert a == [a[0]] && b == [b[0]];
    }
  }

  /**
   The seal binds. Two trails of the same length with the same root have the same records, unless the hash maps two
   different strings, of those hashed at one place for the two trails, to one digest.
   */
  lemma SealBinds(sha: Hash, xs: seq<Bytes>, ys: seq<Bytes>)
    requires |xs| == |ys| > 0
    requires forall i | 0 <= i < |xs| :: sha(xs[i]) == sha(ys[i]) ==> xs[i] == ys[i]
    requires NoCollision(sha, Leaves(sha, xs), Leaves(sha, ys))
    ensures Root(sha, Leaves(sha, xs)) == Root(sha, Leaves(sha, ys)) <==> xs == ys
  {
    if Root(sha, Leaves(sha, xs)) == Root(sha, Leaves(sha, ys)) {
      LayersBind(sha, Leaves(sha, xs), Leaves(sha, ys));
      forall i | 0 <= i < |xs| ensures xs[i] == ys[i] { assert Leaves(sha, xs)[i] == Leaves(sha, ys)[i]; }
    }
  }

  lemma SamePair(leaves: seq<Digest>, last: Digest, i: nat)
    requires |leaves| % 2 == 1 && 2 * i < |leaves| && last == leaves[|leaves| - 1]
    ensures PairAt(leaves + [last], i) == PairAt(leaves, i)
  {
  }

  lemma SameNext(sha: Hash, leaves: seq<Digest>, last: Digest)
    requires |leaves| % 2 == 1 && last == leaves[|leaves| - 1]
    ensures NextLayer(sha, leaves + [last]) == NextLayer(sha, leaves)
  {
    var n := (|leaves| + 1) / 2;
    assert |NextLayer(sha, leaves + [last])| == n;
    forall i | 0 <= i < n ensures NextLayer(sha, leaves + [last])[i] == NextLayer(sha, leaves)[i] {
      SamePair(leaves, last, i);
    }
  }

  /** The length matters: an odd trail of three or more, and the same with its last record again, have one root. */
  lemma RepeatedTailHasSameRoot(sha: Hash, leaves: seq<Digest>)
    requires |leaves| >= 3 && |leaves| % 2 == 1
    ensures Root(sha, leaves + [leaves[|leaves| - 1]]) == Root(sha, leaves)
  {
    SameNext(sha, leaves, leaves[|leaves| - 1]);
    RootSteps(sha, leaves + [leaves[|leaves| - 1]]);
    RootSteps(sha, leaves);
  }

  lemma RootSteps(sha: Hash, layer: seq<Digest>)
    requires |layer| > 1
    ensures Root(sha, layer) == Root(sha, NextLayer(sha, layer))
  {
  }

  // ----- Trails of different lengths -----

  /** Which of `n` leaves stands at place `j` of the full tree of height `h`, the missing ones doubled in. */
  function Stand(n: nat, h: nat, j: nat): (i: nat)
    requires 0 < n <= Pow2(h) && j < Pow2(h)
    ensures i < n
  {
    if h == 0 then 0
    else
      var half := Pow2(h - 1);
      if n <= half then Stand(n, h - 1, if j < half then j else j - half)
      else if j < half then j
      else half + Stand(n - half, h - 1, j - half)
  }

  /** The leaves of the full tree that the layer's own tree is, hash for hash. */
  function Full(layer: seq<Digest>, h: nat): (full: seq<Digest>)
    requires 0 < |layer| <= Pow2(h)
    ensures |full| == Pow2(h) && forall j | 0 <= j < |full| :: full[j] == layer[Stand(|layer|, h, j)]
  {
    seq<Digest>(Pow2(h), j requires 0 <= j < Pow2(h) => layer[Stand(|layer|, h, j)])
  }

  /** `m` leaves are the next layer of `n`. */
  predicate Halves(n: nat, m: nat, h: nat) {
    0 < n <= 2 * m <= n + 1 && m <= Pow2(h)
  }

  /** Places `2j` and `2j + 1` of the tree with `n` leaves are the pair over place `j` of the tree of its next layer. */
  predicate Pairs(n: nat, m: nat, h: nat, j: nat)
    requires Halves(n, m, h) && j < Pow2(h)
  {
    && Stand(n, h + 1, 2 * j) == 2 * Stand(m, h, j)
    && Stand(n, h + 1, 2 * j + 1) == Right(n, Stand(m, h, j))
  }

  lemma {:induction false} StandsPair(n: nat, m: nat, h: nat, j: nat)
    requires Halves(n, m, h) && j < Pow2(h)
    ensures Pairs(n, m, h, j)
    decreases h
  {
    if h == 0 {
      assert Pow2(1) == 2 && Stand(1, 0, 0) == 0;
    } else {
      var quarter := Pow2(h - 1);
      if m <= quarter {
        var k := if j < quarter then j else j - quarter;
        StandsPair(n, m, h - 1, k);
        LowPairs(n, m, h - 1, j, k);
      } else if j < quarter {
        LeftPairs(n, m, h - 1, j);
      } else {
        var n', m', j' := n - 2 * quarter, m - quarter, j - quarter;
        StandsPair(n', m', h - 1, j');
        RightPairs(n, m, h - 1, j, n', m', j');
      }
    }
  }

  lemma LowPairs(n: nat, m: nat, g: nat, j: nat, k: nat)
    requires Halves(n, m, g) && j < 2 * Pow2(g) && k == (if j < Pow2(g) then j else j - Pow2(g)) && Pairs(n, m, g, k)
    ensures Pairs(n, m, g + 1, j)
  {
    StandLow(n, g + 1, 2 * j, 2 * k);
    StandLow(n, g + 1, 2 * j + 1, 2 * k + 1);
    StandLow(m, g, j, k);
  }

  lemma StandLow(n: nat, h: nat, j: nat, k: nat)
    requires 0 < n <= Pow2(h) && j < 2 * Pow2(h) && k == (if j < Pow2(h) then j else j - Pow2(h))
    ensures Stand(n, h + 1, j) == Stand(n, h, k)
  {
  }

  lemma LeftPairs(n: nat, m: nat, g: nat, j: nat)
    requires Halves(n, m, g + 1) && m > Pow2(g) && j < Pow2(g)
    ensures Pairs(n, m, g + 1, j)
  {
    assert Stand(n, g + 2, 2 * j) == 2 * j && Stand(n, g + 2, 2 * j + 1) == 2 * j + 1;
    assert Stand(m, g + 1, j) == j;
  }

  /** The right half of the tree, its leaves and places counted from its own first. */
  lemma RightPairs(n: nat, m: nat, g: nat, j: nat, n': nat, m': nat, j': nat)
    requires Halves(n, m, g + 1) && Halves(n', m', g) && j < Pow2(g + 1) && j' < Pow2(g)
    requires n == n' + 2 * Pow2(g) && m == m' + Pow2(g) && j == j' + Pow2(g) && Pairs(n', m', g, j')
    ensures Pairs(n, m, g + 1, j)
  {
    var a, b, c := Stand(n', g + 1, 2 * j'), Stand(n', g + 1, 2 * j' + 1), Stand(m', g, j');
    var left := RightStand(n, g + 1, 2 * j, n', 2 * j', a);
    var right := RightStand(n, g + 1, 2 * j + 1, n', 2 * j' + 1, b);
    var over := RightStand(m, g, j, m', j', c);
    RightShifts(n, 2 * Pow2(g), c, n');
  }

  lemma RightStand(n: nat, h: nat, j: nat, n': nat, j': nat, i: nat) returns (at: nat)
    requires n == n' + Pow2(h) && j == j' + Pow2(h) && 0 < n' <= Pow2(h) && j' < Pow2(h) && i == Stand(n', h, j')
    ensures n <= Pow2(h + 1) && j < Pow2(h + 1) && at == Stand(n, h + 1, j) && at == Pow2(h) + i
  {
    StandRight(n, h, j, n', j');
    at := Stand(n, h + 1, j);
  }

  lemma StandRight(n: nat, h: nat, j: nat, n': nat, j': nat)
    requires n == n' + Pow2(h) && j == j' + Pow2(h) && 0 < n' <= Pow2(h) && j' < Pow2(h)
    ensures Stand(n, h + 1, j) == Pow2(h) + Stand(n', h, j')
  {
  }

  lemma RightShifts(n: nat, half: nat, i: nat, n': nat)
    requires half % 2 == 0 && n == n' + half && 2 * i < n'
    ensures Right(n, half / 2 + i) == half + Right(n', i)
  {
  }

  lemma FullNext(sha: Hash, layer: seq<Digest>, h: nat)
    requires 0 < |layer| <= Pow2(h + 1)
    ensures 0 < |NextLayer(sha, layer)| <= Pow2(h)
    ensures NextLayer(sha, Full(layer, h + 1)) == Full(NextLayer(sha, layer), h)
  {
    var m := |NextLayer(sha, layer)|;
    var a, b := NextLayer(sha, Full(layer, h + 1)), Full(NextLayer(sha, layer), h);
    forall j | 0 <= j < Pow2(h) ensures a[j] == b[j] { StandsPair(|layer|, m, h, j); }
  }

  lemma {:induction false} HeightSuffices(n: nat)
    requires n > 0
    ensures n <= Pow2(Height(n))
  {
    if n > 1 { HeightSuffices((n + 1) / 2); }
  }

  lemma {:induction false} FullHasTheRoot(sha: Hash, layer: seq<Digest>)
    requires layer != []
    ensures |layer| <= Pow2(Height(|layer|)) && Root(sha, Full(layer, Height(|layer|))) == Root(sha, layer)
    decreases |layer|
  {
    var h := Height(|layer|);
    HeightSuffices(|layer|);
    if |layer| > 1 {
      FullNext(sha, layer, h - 1);
      FullHasTheRoot(sha, NextLayer(sha, layer));
    }
  }

  /** The leaves of the full tree of the layer. */
  function FullTree(layer: seq<Digest>): (full: seq<Digest>)
    requires layer != []
    ensures |full| == Pow2(Height(|layer|))
  {
    HeightSuffices(|layer|);
    Full(layer, Height(|layer|))
  }

  function Climb(sha: Hash, layer: seq<Digest>, k: nat): (up: seq<Digest>)
    requires layer != []
    ensures up != []
  {
    if k == 0 then layer else NextLayer(sha, Climb(sha, layer, k - 1))
  }

  lemma {:induction false} ClimbKeepsRoot(sha: Hash, layer: seq<Digest>, h: nat, k: nat)
    requires |layer| == Pow2(h) && k <= h
    ensures |Climb(sha, layer, k)| == Pow2(h - k) && Root(sha, Climb(sha, layer, k)) == Root(sha, layer)
  {
    if k > 0 {
      ClimbKeepsRoot(sha, layer, h, k - 1);
      RootSteps(sha, Climb(sha, layer, k - 1));
    }
  }

  /** The nodes of the full tree of the layer that have `h` levels above them. */
  function FullLevel(sha: Hash, layer: seq<Digest>, h: nat): (nodes: seq<Digest>)
    requires layer != [] && h <= Height(|layer|)
    ensures |nodes| == Pow2(h) && Root(sha, nodes) == Root(sha, FullTree(layer))
  {
    ClimbKeepsRoot(sha, FullTree(layer), Height(|layer|), Height(|layer|) - h);
    Climb(sha, FullTree(layer), Height(|layer|) - h)
  }

  lemma TreeHasTheRoot(sha: Hash, layer: seq<Digest>)
    requires layer != []
    ensures Root(sha, FullTree(layer)) == Root(sha, layer)
  {
    FullHasTheRoot(sha, layer);
  }

  /**
   When two layers of any lengths have one root, barring the same collisions: only when the lower full tree's leaves are
   the higher one's nodes of that level. Equally high trees share a root only when, doubled out, they are one.
   */
  lemma RootBindsTree(sha: Hash, a: seq<Digest>, b: seq<Digest>)
    requires a != [] && b != [] && Height(|a|) <= Height(|b|) && Root(sha, a) == Root(sha, b)
    requires NoCollision(sha, FullTree(a), FullLevel(sha, b, Height(|a|)))
    ensures FullTree(a) == FullLevel(sha, b, Height(|a|))
  {
    TreeHasTheRoot(sha, a);
    TreeHasTheRoot(sha, b);
    LayersBind(sha, FullTree(a), FullLevel(sha, b, Height(|a|)));
  }

  /** And whenever they are, whatever the hash. */
  lemma TreeFixesRoot(sha: Hash, a: seq<Digest>, b: seq<Digest>)
    requires a != [] && b != [] && Height(|a|) <= Height(|b|) && FullTree(a) == FullLevel(sha, b, Height(|a|))
    ensures Root(sha, a) == Root(sha, b)
  {
    TreeHasTheRoot(sha, a);
    TreeHasTheRoot(sha, b);
  }

  lemma FirstLeaf(layer: seq<Digest>) returns (i: nat)
    requires layer != []
    ensures i < |layer| && FullTree(layer)[0] == layer[i]
  {
    HeightSuffices(|layer|);
    i := Stand(|layer|, Height(|layer|), 0);
  }

  lemma FirstPair(sha: Hash, layer: seq<Digest>, h: nat) returns (pair: Bytes)
    requires layer != [] && h < Height(|layer|)
    ensures |pair| == 64 && FullLevel(sha, layer, h)[0] == sha(pair)
  {
    var below := Climb(sha, FullTree(layer), Height(|layer|) - h - 1);
    pair := PairAt(below, 0);
    assert FullLevel(sha, layer, h) == NextLayer(sha, below);
  }

  /** So trails of records whose trees differ in height share no root without a collision: some record hashes as a pair does. */
  lemma HeightsTellTrailsApart(sha: Hash, xs: seq<Bytes>, ys: seq<Bytes>) returns (i: nat, pair: Bytes)
    requires xs != [] && ys != [] && Height(|xs|) < Height(|ys|) && (forall x <- xs :: |x| == RECORD_BYTES)
    requires NoCollision(sha, FullTree(Leaves(sha, xs)), FullLevel(sha, Leaves(sha, ys), Height(|xs|)))
    requires Root(sha, Leaves(sha, xs)) == Root(sha, Leaves(sha, ys))
    ensures i < |xs| && pair != xs[i] && sha(pair) == sha(xs[i])
  {
    RootBindsTree(sha, Leaves(sha, xs), Leaves(sha, ys));
    i := FirstLeaf(Leaves(sha, xs));
    pair := FirstPair(sha, Leaves(sha, ys), Height(|xs|));
    assert xs[i] in xs;
  }

  // ----- The journal -----

  /** One record: three 64-bit numbers, each as two halves, then four signed 32-bit ones. */
  datatype Record = Record(seqNo: nat, tNs: nat, policyHash: nat, prev: int, event: int, next: int, cause: int)

  const RECORD: Format := [U32, U32, U32, U32, U32, U32, I32, I32, I32, I32]
  const RECORD_BYTES: nat := 40
  const MAX_J: nat := 65536
  const HALF: nat := 0x1_0000_0000

  predicate Fits(r: Record) {
    && r.seqNo < HALF * HALF && r.tNs < HALF * HALF && r.policyHash < HALF * HALF
    && FieldFits(I32, r.prev) && FieldFits(I32, r.event) && FieldFits(I32, r.next) && FieldFits(I32, r.cause)
  }

  function RecordRow(r: Record): seq<int> {
    [r.seqNo % HALF, r.seqNo / HALF, r.tNs % HALF, r.tNs / HALF, r.policyHash % HALF, r.policyHash / HALF,
     r.prev, r.event, r.next, r.cause]
  }

  /** Different records are different rows. */
  lemma RowsTellRecordsApart(r: Record, q: Record)
    ensures RecordRow(r) == RecordRow(q) <==> r == q
  {
    if RecordRow(r) == RecordRow(q) {
      var x, y := RecordRow(r), RecordRow(q);
      assert x[0] == y[0] && x[1] == y[1] && x[2] == y[2] && x[3] == y[3] && x[4] == y[4] && x[5] == y[5];
      assert x[6] == y[6] && x[7] == y[7] && x[8] == y[8] && x[9] == y[9];
      SameHalves(r.seqNo, q.seqNo);
      SameHalves(r.tNs, q.tNs);
      SameHalves(r.policyHash, q.policyHash);
    }
  }

  lemma SameHalves(a: nat, b: nat)
    requires a % HALF == b % HALF && a / HALF == b / HALF
    ensures a == b
  {
    assert a == a / HALF * HALF + a % HALF && b == b / HALF * HALF + b % HALF;
  }

  lemma RecordFits(r: Record)
    requires Fits(r)
    ensures RowFits(RECORD, RecordRow(r)) && RowWidth(RECORD) == RECORD_BYTES
  {
    FourByteFields(RECORD, RecordRow(r));
  }

  lemma {:induction false} FourByteFields(fmt: Format, row: seq<int>)
    requires |row| == |fmt| && forall i | 0 <= i < |fmt| :: Width(fmt[i]) == 4 && FieldFits(fmt[i], row[i])
    ensures RowFits(fmt, row) && RowWidth(fmt) == 4 * |fmt|
  {
    if fmt != [] { FourByteFields(fmt[1..], row[1..]); }
  }

  /** The bytes of a record as they are hashed and journalled. */
  function Packed(r: Record): Bytes
    requires Fits(r)
  {
    RecordFits(r);
    PackRow(RECORD, RecordRow(r))
  }

  lemma BytesTellRecordsApart(r: Record, q: Record)
    requires Fits(r) && Fits(q)
    ensures Packed(r) == Packed(q) <==> r == q
  {
    RecordFits(r);
    RecordFits(q);
    RowRoundTrip(RECORD, RecordRow(r), []);
    RowRoundTrip(RECORD, RecordRow(q), []);
    RowsTellRecordsApart(r, q);
  }

  function Pattern(v: int): int {
    if v < 0 then v + HALF else v
  }

  /** Where every field lies in the forty bytes. */
  lemma RecordIsLaid(r: Record) returns (b: Bytes)
    requires Fits(r)
    ensures b == Packed(r) && |b| == RECORD_BYTES
    ensures Little(b[0..4]) + HALF * Little(b[4..8]) == r.seqNo
    ensures Little(b[8..12]) + HALF * Little(b[12..16]) == r.tNs
    ensures Little(b[16..20]) + HALF * Little(b[20..24]) == r.policyHash
    ensures Little(b[24..28]) == Pattern(r.prev) && Little(b[28..32]) == Pattern(r.event)
    ensures Little(b[32..36]) == Pattern(r.next) && Little(b[36..40]) == Pattern(r.cause)
  {
    RecordFits(r);
    b := Packed(r);
    var row := RecordRow(r);
    Quarters(RECORD, row, b);
    assert Quarter(b, 0) == row[0] && Quarter(b, 1) == row[1] && Quarter(b, 2) == row[2] && Quarter(b, 3) == row[3];
    assert Quarter(b, 4) == row[4] && Quarter(b, 5) == row[5] && Quarter(b, 6) == Pattern(row[6]);
    assert Quarter(b, 7) == Pattern(row[7]) && Quarter(b, 8) == Pattern(row[8]) && Quarter(b, 9) == Pattern(row[9]);
  }

  function Quarter(b: Bytes, i: nat): nat
    requires 4 * i + 4 <= |b|
  {
    Little(b[4 * i..4 * i + 4])
  }

  lemma {:induction false} Quarters(fmt: Format, row: seq<int>, b: Bytes)
    requires RowFits(fmt, row) && b == PackRow(fmt, row) && forall i | 0 <= i < |fmt| :: Width(fmt[i]) == 4
    ensures |b| == 4 * |fmt| && forall i | 0 <= i < |fmt| :: Quarter(b, i) == Pattern(row[i])
  {
    if fmt != [] {
      var rest := PackRow(fmt[1..], row[1..]);
      Quarters(fmt[1..], row[1..], rest);
      FieldIsLittle(fmt[0], row[0]);
      forall i | 0 <= i < |fmt| ensures Quarter(b, i) == Pattern(row[i]) {
        if i == 0 {
          assert b[0..4] == PackField(fmt[0], row[0]);
        } else {
          assert b[4 * i..4 * i + 4] == rest[4 * (i - 1)..4 * (i - 1) + 4];
          assert Quarter(rest, i - 1) == Pattern(row[1..][i - 1]);
        }
      }
    }
  }

  function AllPacked(rs: seq<Record>): (xs: seq<Bytes>)
    requires forall i | 0 <= i < |rs| :: Fits(rs[i])
    ensures |xs| == |rs| && forall i | 0 <= i < |rs| :: xs[i] == Packed(rs[i])
  {
    seq(|rs|, i requires 0 <= i < |rs| => Packed(rs[i]))
  }

  /** The seal of a trail of receipts, under the same proviso, pins down every field of every receipt. */
  lemma SealBindsReceipts(sha: Hash, rs: seq<Record>, qs: seq<Record>)
    requires |rs| == |qs| > 0 && (forall i | 0 <= i < |rs| :: Fits(rs[i]) && Fits(qs[i]))
    requires forall i | 0 <= i < |rs| :: sha(AllPacked(rs)[i]) == sha(AllPacked(qs)[i]) ==> AllPacked(rs)[i] == AllPacked(qs)[i]
    requires NoCollision(sha, Leaves(sha, AllPacked(rs)), Leaves(sha, AllPacked(qs)))
    ensures RootOf(sha, AllPacked(rs)) == RootOf(sha, AllPacked(qs)) <==> rs == qs
  {
    SealBinds(sha, AllPacked(rs), AllPacked(qs));
    if AllPacked(rs) == AllPacked(qs) {
      forall i | 0 <= i < |rs| ensures rs[i] == qs[i] {
        assert AllPacked(rs)[i] == AllPacked(qs)[i];
        BytesTellRecordsApart(rs[i], qs[i]);
      }
    }
  }

  function RecordAt(b: Bytes, i: nat): Bytes
    requires (i + 1) * RECORD_BYTES <= |b|
  {
    b[i * RECORD_BYTES..(i + 1) * RECORD_BYTES]
  }

  /** The whole records of a journal, in order. */
  function Records(b: Bytes, n: nat): (rs: seq<Bytes>)
    requires n * RECORD_BYTES <= |b|
    ensures |rs| == n
  {
    seq(n, i requires 0 <= i < n => RecordAt(b, i))
  }

  datatype Seal = Sealed(root: Digest, count: nat, torn: bool) | TooLong

  /** A journal past the limit is refused; a torn last record is left out and reported. */
  function SealOf(sha: Hash, b: Bytes): Seal {
    if |b| > MAX_J * RECORD_BYTES then TooLong
    else Sealed(RootOf(sha, Records(b, |b| / RECORD_BYTES)), |b| / RECORD_BYTES, |b| % RECORD_BYTES > 0)
  }

  function RootOf(sha: Hash, records: seq<Bytes>): Digest {
    if records == [] then Zeros() else Root(sha, Leaves(sha, records))
  }

  /** The journal: record after record. */
  function Concat(xs: seq<Bytes>): Bytes {
    if xs == [] then [] else xs[0] + Concat(xs[1..])
  }

  lemma {:induction false} RecordOfConcat(xs: seq<Bytes>, tail: Bytes, i: nat)
    requires (forall x <- xs :: |x| == RECORD_BYTES) && i < |xs|
    ensures (i + 1) * RECORD_BYTES <= |Concat(xs) + tail| && RecordAt(Concat(xs) + tail, i) == xs[i]
  {
    var rest := Concat(xs[1..]) + tail;
    assert xs[0] in xs && Concat(xs) + tail == xs[0] + rest;
    if i > 0 {
      RecordOfConcat(xs[1..], tail, i - 1);
      LaterRecord(xs[0], rest, i);
    } else {
      FirstRecord(xs[0], rest);
    }
  }

  lemma FirstRecord(x: Bytes, rest: Bytes)
    requires |x| == RECORD_BYTES
    ensures RecordAt(x + rest, 0) == x
  {
  }

  lemma LaterRecord(x: Bytes, rest: Bytes, i: nat)
    requires |x| == RECORD_BYTES && 0 < i && i * RECORD_BYTES <= |rest|
    ensures RecordAt(x + rest, i) == RecordAt(rest, i - 1)
  {
  }

  lemma {:induction false} ConcatLength(xs: seq<Bytes>)
    requires forall x <- xs :: |x| == RECORD_BYTES
    ensures |Concat(xs)| == |xs| * RECORD_BYTES
  {
    if xs != [] {
      assert xs[0] in xs;
      ConcatLength(xs[1..]);
    }
  }

  lemma RecordsOfConcat(xs: seq<Bytes>, tail: Bytes)
    requires forall x <- xs :: |x| == RECORD_BYTES
    ensures |xs| * RECORD_BYTES <= |Concat(xs) + tail| && Records(Concat(xs) + tail, |xs|) == xs
  {
    ConcatLength(xs);
    var b := Concat(xs) + tail;
    forall i | 0 <= i < |xs| ensures Records(b, |xs|)[i] == xs[i] { RecordOfConcat(xs, tail, i); }
  }

  lemma WholeRecords(length: nat, n: nat, torn: nat)
    requires length == n * RECORD_BYTES + torn && torn < RECORD_BYTES
    ensures length / RECORD_BYTES == n && length % RECORD_BYTES == torn
    ensures length > MAX_J * RECORD_BYTES <==> n > MAX_J || (n == MAX_J && torn > 0)
  {
  }

  /** What was journalled is what is sealed: every whole record in order, a torn last one noted, past the limit nothing. */
  lemma JournalIsSealed(sha: Hash, xs: seq<Bytes>, torn: Bytes)
    requires |torn| < RECORD_BYTES && forall x <- xs :: |x| == RECORD_BYTES
    ensures SealOf(sha, Concat(xs) + torn) ==
            if |xs| > MAX_J || (|xs| == MAX_J && torn != []) then TooLong
            else Sealed(RootOf(sha, xs), |xs|, torn != [])
  {
    var b := Concat(xs) + torn;
    assert |b| == |xs| * RECORD_BYTES + |torn| by { ConcatLength(xs); }
    WholeRecords(|b|, |xs|, |torn|);
    assert Records(b, |b| / RECORD_BYTES) == xs by { RecordsOfConcat(xs, torn); }
  }

  method SealJournal(sha: Hash, b: Bytes) returns (s: Seal)
    ensures s == SealOf(sha, b)
  {
    var batch: seq<Bytes> := [];
    var at := 0;
    while |batch| < MAX_J && at + RECORD_BYTES <= |b|
      invariant |batch| <= MAX_J && at == |batch| * RECORD_BYTES <= |b| && batch == Records(b, |batch|)
      decreases |b| - at
    {
      batch := batch + [b[at..at + RECORD_BYTES]];
      at := at + RECORD_BYTES;
    }
    var more := at < |b|;
    if more && |batch| == MAX_J { return TooLong; }
    var root := MerkleRoot(sha, batch);
    s := Sealed(root, |batch|, more);
  }
}
